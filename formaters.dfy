/** The formatting helpers: the name normalisers for dynamics and team
    codes, the relabelling of an aggregate row as "all", the shape of one
    operation-report entry with its elapsed time, and the error text. */
module Formaters {
  import opened Common
  import opened Text
  import opened Enums
  import opened Queries
  import opened Patterns

  // ----- name normalisers ------------------------------------------------------

  /** `format_dynamic`: strip, upper-case, and write '-' and ' ' as '_'. */
  function FormatDynamic(s: string): (r: string)
    ensures |r| <= |s|
    ensures forall i :: 0 <= i < |r| ==> r[i] != '-' && r[i] != ' '
  {
    var u := Upper(Strip(s));
    DashesAndSpacesReplaced(u);
    Replace(Replace(u, '-', '_'), ' ', '_')
  }

  /** Writing '-' and then ' ' as '_' leaves neither character. */
  lemma DashesAndSpacesReplaced(u: string)
    ensures var w := Replace(Replace(u, '-', '_'), ' ', '_');
      |w| == |u| && forall i :: 0 <= i < |w| ==> w[i] != '-' && w[i] != ' '
  {
  }

  /** `format_code`: strip and upper-case. */
  function FormatCode(s: string): (r: string)
    ensures |r| <= |s|
    ensures forall i :: 0 <= i < |r| ==> !IsAsciiLower(r[i])
  {
    Upper(Strip(s))
  }

  /** Upper-casing never turns a non-space into a space or back. */
  lemma UpperKeepsTrimmed(s: string)
    requires Trimmed(s)
    ensures Trimmed(Upper(s))
  {
  }

  /** A string with no lower-case ASCII letter is its own upper case. */
  lemma UpperOfUpper(s: string)
    requires forall i :: 0 <= i < |s| ==> !IsAsciiLower(s[i])
    ensures Upper(s) == s
  {
  }

  /** A normalised code is a fixed point of `format_code`. */
  lemma FormatCodeIdempotent(s: string)
    ensures FormatCode(FormatCode(s)) == FormatCode(s)
  {
    var u := FormatCode(s);
    UpperKeepsTrimmed(Strip(s));
    StripTrimmed(u);
    UpperOfUpper(u);
  }

  /** Replacing a character that does not occur changes nothing. */
  lemma ReplaceAbsent(s: string, from: char, to: char)
    requires forall i :: 0 <= i < |s| ==> s[i] != from
    ensures Replace(s, from, to) == s
  {
  }

  /** Writing a non-space in place of a character keeps a string trimmed. */
  lemma ReplaceKeepsTrimmed(s: string, from: char, to: char)
    requires Trimmed(s) && !IsSpace(to)
    ensures Trimmed(Replace(s, from, to))
  {
  }

  /** What `format_dynamic` produces: trimmed, no lower-case ASCII letter. */
  lemma FormatDynamicShape(s: string)
    ensures Trimmed(FormatDynamic(s))
    ensures forall i :: 0 <= i < |FormatDynamic(s)| ==> !IsAsciiLower(FormatDynamic(s)[i])
  {
    var u := Upper(Strip(s));
    UpperKeepsTrimmed(Strip(s));
    var v := Replace(u, '-', '_');
    ReplaceKeepsTrimmed(u, '-', '_');
    ReplaceKeepsTrimmed(v, ' ', '_');
    var w := Replace(v, ' ', '_');
    assert FormatDynamic(s) == w;
    forall i | 0 <= i < |w|
      ensures !IsAsciiLower(w[i])
    {
      assert w[i] == v[i] || w[i] == '_';
      assert v[i] == u[i] || v[i] == '_';
      assert u[i] == UpperChar(Strip(s)[i]);
    }
  }

  /** A trimmed name without lower-case letters, '-' or ' ' is left alone. */
  lemma FormatDynamicFixes(d: string)
    requires Trimmed(d)
    requires forall i :: 0 <= i < |d| ==> !IsAsciiLower(d[i]) && d[i] != '-' && d[i] != ' '
    ensures FormatDynamic(d) == d
  {
    StripTrimmed(d);
    UpperOfUpper(d);
    ReplaceAbsent(d, '-', '_');
    ReplaceAbsent(d, ' ', '_');
  }

  /** A normalised dynamic name is a fixed point of `format_dynamic`. */
  lemma FormatDynamicIdempotent(s: string)
    ensures FormatDynamic(FormatDynamic(s)) == FormatDynamic(s)
  {
    FormatDynamicShape(s);
    FormatDynamicFixes(FormatDynamic(s));
  }

  /** A code that CODE_PATTERN accepts stays accepted once normalised, and
      becomes four upper-case ASCII letters. */
  lemma FormatCodeKeepsPattern(s: string)
    requires IsCode(s)
    ensures IsCode(FormatCode(s))
    ensures forall i :: 0 <= i < 4 ==> IsAsciiUpper(FormatCode(s)[i])
  {
    assert Trimmed(s) by {
      assert IsAsciiLetter(s[0]) && IsAsciiLetter(s[3]);
    }
    StripTrimmed(s);
  }

  // ----- the operation report ---------------------------------------------------

  /** `set_operation_to_all`: the aggregate row with its operation column
      replaced by "all" and every other column kept. */
  function SetOperationToAll(g: GroupRow): (r: GroupRow)
    ensures r.operation == All
    ensures r.(operation := g.operation) == g
  {
    g.(operation := All)
  }

  const MicrosPerSecond: nat := 1000000

  /** `datetime.fromtimestamp` keeps microseconds: a timestamp in seconds as
      a whole number of microseconds. */
  function Micros(t: real): (m: int)
    ensures m as real - 0.5 <= t * MicrosPerSecond as real < m as real + 0.5
  {
    (t * MicrosPerSecond as real + 0.5).Floor
  }

  /** Rounding to microseconds keeps the order of timestamps. */
  lemma MicrosMonotone(a: real, b: real)
    requires a <= b
    ensures Micros(a) <= Micros(b)
  {
    var x := a * MicrosPerSecond as real + 0.5;
    var y := b * MicrosPerSecond as real + 0.5;
    assert x <= y;
    assert x.Floor as real <= x;
  }

  /** The elapsed time of one aggregate row, `last - first`, in microseconds. */
  function ElapsedMicros(g: GroupRow): (e: int)
  {
    Micros(g.lastTimestamp) - Micros(g.firstTimestamp)
  }

  /** The parts of an elapsed time: two `divmod`s of the seconds by 3600
      and 60, and the timedelta's microseconds field. */
  datatype Elapsed = Elapsed(hours: nat, minutes: nat, seconds: nat, micros: nat)

  function SplitElapsed(e: nat): (p: Elapsed)
    ensures p.minutes < 60 && p.seconds < 60 && p.micros < MicrosPerSecond
    ensures ((p.hours * 3600 + p.minutes * 60 + p.seconds) * MicrosPerSecond + p.micros) == e
  {
    var secs := e / MicrosPerSecond;
    var rest := secs % 3600;
    assert secs == (secs / 3600) * 3600 + rest;
    assert rest == (rest / 60) * 60 + rest % 60;
    Elapsed(secs / 3600, rest / 60, rest % 60, e % MicrosPerSecond)
  }

  /** `SplitElapsed` is the only decomposition with minutes and seconds
      below 60 and microseconds below a second. */
  lemma {:induction false} SplitElapsedUnique(e: nat, p: Elapsed)
    requires p.minutes < 60 && p.seconds < 60 && p.micros < MicrosPerSecond
    requires ((p.hours * 3600 + p.minutes * 60 + p.seconds) * MicrosPerSecond + p.micros) == e
    ensures SplitElapsed(e) == p
  {
    var secs := p.hours * 3600 + p.minutes * 60 + p.seconds;
    assert e / 1000000 == secs && e % 1000000 == p.micros;
    assert secs / 3600 == p.hours && secs % 3600 == p.minutes * 60 + p.seconds;
  }

  /** The number of characters `:0Wd` prints for `n`. */
  function PadWidth(n: nat, width: nat): nat
  {
    if |NatToString(n)| < width then width else |NatToString(n)|
  }

  /** `text[start..end]` is a run of decimal digits whose value is `value`. */
  predicate DigitField(text: string, start: int, end: int, value: nat)
  {
    0 <= start <= end <= |text| && AllDigits(text[start..end]) && DigitsValue(text[start..end]) == value
  }

  /** "T" + hours + ":" + minutes + ":" + seconds + "." with hours in `w`
      digits and minutes and seconds in two digits each, each field reading
      back as its part; the fraction starts at `w + 8`. */
  predicate ElapsedLayout(text: string, p: Elapsed, w: nat)
  {
    && |text| >= w + 8 && text[0] == 'T'
    && DigitField(text, 1, w + 1, p.hours) && text[w + 1] == ':'
    && DigitField(text, w + 2, w + 4, p.minutes) && text[w + 4] == ':'
    && DigitField(text, w + 5, w + 7, p.seconds) && text[w + 7] == '.'
  }

  /** The fields before the fraction, shared by both elapsed texts. */
  lemma ElapsedPrefixLayout(p: Elapsed, frac: string)
    requires p.minutes < 60 && p.seconds < 60
    ensures var w := PadWidth(p.hours, 2);
      var text := "T" + ZeroPad(p.hours, 2) + ":" + ZeroPad(p.minutes, 2) + ":"
                  + ZeroPad(p.seconds, 2) + "." + frac;
      ElapsedLayout(text, p, w) && text[w + 8..] == frac
  {
    assert Pow10(2) == 100 by { assert Pow10(1) == 10; }
    NatToStringLength(p.minutes, 2);
    NatToStringLength(p.seconds, 2);
    var hs, ms, ss := ZeroPad(p.hours, 2), ZeroPad(p.minutes, 2), ZeroPad(p.seconds, 2);
    var w := |hs|;
    var text := "T" + hs + ":" + ms + ":" + ss + "." + frac;
    assert text[1..w + 1] == hs;
    assert text[w + 2..w + 4] == ms;
    assert text[w + 5..w + 7] == ss;
    assert text[w + 8..] == frac;
  }

  /** The elapsed text of `format_operation_report`, as written: every part
      is padded to at least two digits, the microseconds included, so the
      digits after the dot are the microseconds read as a whole number. */
  function ElapsedText(p: Elapsed): (text: string)
    requires p.minutes < 60 && p.seconds < 60
    ensures var w := PadWidth(p.hours, 2);
      && ElapsedLayout(text, p, w)
      && |text| - (w + 8) == PadWidth(p.micros, 2)
      && DigitField(text, w + 8, |text|, p.micros)
  {
    var frac := ZeroPad(p.micros, 2);
    ElapsedPrefixLayout(p, frac);
    var text := "T" + ZeroPad(p.hours, 2) + ":" + ZeroPad(p.minutes, 2) + ":"
        + ZeroPad(p.seconds, 2) + "." + frac;
    var w := PadWidth(p.hours, 2);
    assert text[w + 8..|text|] == frac;
    text
  }

  /** The number of microseconds a decimal fraction of at most six digits
      denotes, as a reader of "SS.ffffff" takes it. */
  function FractionMicros(digits: string): nat
    requires AllDigits(digits) && |digits| <= 6
  {
    DigitsValue(digits) * Pow10(6 - |digits|)
  }

  function Pow10(k: nat): (p: nat)
    ensures p >= 1
  {
    if k == 0 then 1 else 10 * Pow10(k - 1)
  }

  /** A number below `10^k` has at most `k` digits. */
  lemma {:induction false} NatToStringLength(n: nat, k: nat)
    requires 1 <= k && n < Pow10(k)
    ensures |NatToString(n)| <= k
    decreases k
  {
    if n >= 10 {
      assert k >= 2;
      NatToStringLength(n / 10, k - 1);
    }
  }

  /** A number of at least `10^(k-1)` has at least `k` digits. */
  lemma {:induction false} NatToStringLengthAtLeast(n: nat, k: nat)
    requires 1 <= k && Pow10(k - 1) <= n
    ensures |NatToString(n)| >= k
    decreases k
  {
    if k >= 2 {
      assert Pow10(k - 1) == 10 * Pow10(k - 2);
      assert n >= 10;
      assert Pow10(k - 2) <= n / 10;
      NatToStringLengthAtLeast(n / 10, k - 1);
    }
  }

  /** With six-digit microseconds (at least 100000) the as-written text and
      the corrected text are the same; they can differ only below a tenth of
      a second. */
  lemma ElapsedTextsAgree(p: Elapsed)
    requires p.minutes < 60 && p.seconds < 60
    requires p.micros < MicrosPerSecond
    ensures p.micros >= 100000 ==> ElapsedText(p) == ElapsedTextCorrected(p)
  {
    if p.micros >= 100000 {
      assert Pow10(5) == 100000 by {
        assert Pow10(1) == 10;
        assert Pow10(2) == 100;
        assert Pow10(3) == 1000;
        assert Pow10(4) == 10000;
      }
      NatToStringLengthAtLeast(p.micros, 6);
      NatToStringLength(p.micros, 6);
      assert ZeroPad(p.micros, 2) == NatToString(p.micros) == ZeroPad(p.micros, 6);
    }
  }

  /** FINDING (as written): the fraction after the seconds is the
      microseconds padded to two digits only, so an elapsed time of 5
      microseconds prints as "T00:00:00.05", whose fraction reads as 50000
      microseconds. */
  lemma ElapsedFractionAsWritten()
    ensures SplitElapsed(5) == Elapsed(0, 0, 0, 5)
    ensures ElapsedText(SplitElapsed(5)) == "T00:00:00.05"
    ensures FractionMicros(ElapsedText(SplitElapsed(5))[10..]) == 50000
  {
    assert NatToString(5) == "5" && NatToString(0) == "0";
    assert ZeroPad(5, 2) == "05" by { assert ZeroPad(5, 1) == "5"; }
    assert ZeroPad(0, 2) == "00" by { assert ZeroPad(0, 1) == "0"; }
    assert Pow10(4) == 10000 by {
      assert Pow10(1) == 10;
      assert Pow10(2) == 100;
      assert Pow10(3) == 1000;
    }
    assert "T00:00:00.05"[10..] == "05";
    assert DigitsValue("05") == 5 by {
      assert "05"[..1] == "0";
      assert "0"[..0] == "";
    }
  }

  /** The corrected elapsed text pads the microseconds to six digits. */
  function ElapsedTextCorrected(p: Elapsed): (text: string)
    requires p.minutes < 60 && p.seconds < 60 && p.micros < MicrosPerSecond
    ensures var w := PadWidth(p.hours, 2);
      && ElapsedLayout(text, p, w)
      && |text| == w + 14
      && var f := text[w + 8..]; AllDigits(f) && FractionMicros(f) == p.micros
  {
    NatToStringLength(p.micros, 6);
    var frac := ZeroPad(p.micros, 6);
    ElapsedPrefixLayout(p, frac);
    "T" + ZeroPad(p.hours, 2) + ":" + ZeroPad(p.minutes, 2) + ":"
        + ZeroPad(p.seconds, 2) + "." + frac
  }

  /** One entry of the operation report (`format_operation_report`).  The
      timestamps stay numbers here; their ISO text is not modelled. */
  datatype OperationEntry = OperationEntry(
    code: string,
    operation: Operation,
    totalExchanges: nat,
    firstTimestamp: real,
    lastTimestamp: real,
    elapsedTime: string,
    similarity: Option<real>,
    score: Option<int>)

  function FormatOperationReport(g: GroupRow): (entry: OperationEntry)
    requires g.firstTimestamp <= g.lastTimestamp
    ensures entry.code == g.code && entry.operation == g.operation
    ensures entry.totalExchanges == g.totalExchanges
    ensures entry.similarity == g.maxSimilarity && entry.score == g.maxScore
    ensures ElapsedMicros(g) >= 0
    ensures entry.elapsedTime == ElapsedTextCorrected(SplitElapsed(ElapsedMicros(g)))
    ensures SplitElapsed(ElapsedMicros(g)).micros >= 100000 ==>
              entry.elapsedTime == ElapsedText(SplitElapsed(ElapsedMicros(g)))
  {
    MicrosMonotone(g.firstTimestamp, g.lastTimestamp);
    ElapsedTextsAgree(SplitElapsed(ElapsedMicros(g)));
    OperationEntry(g.code, g.operation, g.totalExchanges, g.firstTimestamp, g.lastTimestamp,
                   ElapsedTextCorrected(SplitElapsed(ElapsedMicros(g))),
                   g.maxSimilarity, g.maxScore)
  }

  // ----- error text ---------------------------------------------------------

  /** ERROR_MESSAGE, the text used when an exception carries none. */
  const ErrorMessage: string := "Unexpected internal error occurred"

  /** `get_error_message`: the exception's first argument unless there is
      none or it is empty.  Arguments are modelled as their text. */
  function GetErrorMessage(args: seq<string>): (message: string)
    ensures |message| > 0
    ensures |args| > 0 && args[0] != "" ==> message == args[0]
    ensures (|args| == 0 || args[0] == "") ==> message == ErrorMessage
  {
    if |args| > 0 && args[0] != "" then args[0] else ErrorMessage
  }

  /** `format_error`: "<exception type>: <message>", with the message
      defaulting to the exception's own. */
  function FormatError(typeName: string, args: seq<string>, message: Option<string>): (text: string)
    ensures var m := if message.Some? then message.value else GetErrorMessage(args);
            |text| == |typeName| + 2 + |m|
            && text[..|typeName|] == typeName
            && text[|typeName|..|typeName| + 2] == ": "
            && text[|typeName| + 2..] == m
  {
    var m := if message.Some? then message.value else GetErrorMessage(args);
    typeName + ": " + m
  }
}
