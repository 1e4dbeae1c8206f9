/** The three regular expressions of the backend as predicates on strings:
    the team code `^[a-zA-Z]{4}$`, the host `^[0-9]{1,3}(\.[0-9]{1,3}){3}$`
    (both used as validation patterns, so `$` is the end of the input), and
    the colour escape `\x1b\[[0-9;]*m` that the log formatter removes. */
module Patterns {
  import opened Text
  import opened Common

  /** CODE_PATTERN: exactly four ASCII letters. */
  predicate IsCode(s: string)
    ensures IsCode(s) ==> |s| == 4 && Trimmed(s) && forall i :: 0 <= i < 4 ==> IsAsciiUpper(Upper(s)[i])
  {
    |s| == 4 && forall i :: 0 <= i < |s| ==> IsAsciiLetter(s[i])
  }

  /** One group of HOST_PATTERN: one to three ASCII digits. */
  predicate IsDigitGroup(p: string)
  {
    1 <= |p| <= 3 && forall i :: 0 <= i < |p| ==> IsAsciiDigit(p[i])
  }

  /** Four pieces, each a digit group. */
  predicate FourDigitGroups(parts: seq<string>)
  {
    |parts| == 4 && forall k :: 0 <= k < 4 ==> IsDigitGroup(parts[k])
  }

  /** HOST_PATTERN: four digit groups separated by dots, no range check.
      Every accepted host is 7 to 15 characters long, the length bounds the
      host setting declares beside the pattern. */
  predicate IsHost(s: string)
    ensures IsHost(s) ==> 7 <= |s| <= 15
  {
    if FourDigitGroups(Split(s, '.')) then HostLength(s); true else false
  }

  /** Total length of the pieces of a split plus the separators between them. */
  function PiecesLength(parts: seq<string>): nat
  {
    if |parts| == 0 then 0
    else if |parts| == 1 then |parts[0]|
    else |parts[0]| + 1 + PiecesLength(parts[1..])
  }

  /** Splitting loses only the separators. */
  lemma {:induction false} SplitLength(s: string, sep: char)
    ensures PiecesLength(Split(s, sep)) == |s|
  {
    if |s| > 0 {
      SplitLength(s[1..], sep);
      var rest := Split(s[1..], sep);
      if s[0] != sep && |rest| > 1 {
        assert ([[s[0]] + rest[0]] + rest[1..])[1..] == rest[1..];
      } else if s[0] == sep {
        assert ([""] + rest)[1..] == rest;
      }
    }
  }

  /** Four digit groups joined by dots take 7 to 15 characters. */
  lemma HostLength(s: string)
    requires FourDigitGroups(Split(s, '.'))
    ensures 7 <= |s| <= 15
  {
    var parts := Split(s, '.');
    SplitLength(s, '.');
    FourPiecesLength(parts);
    assert IsDigitGroup(parts[0]) && IsDigitGroup(parts[1]);
    assert IsDigitGroup(parts[2]) && IsDigitGroup(parts[3]);
  }

  /** Four pieces and the three separators between them. */
  lemma FourPiecesLength(parts: seq<string>)
    requires |parts| == 4
    ensures PiecesLength(parts) == |parts[0]| + |parts[1]| + |parts[2]| + |parts[3]| + 3
  {
    assert PiecesLength(parts[3..]) == |parts[3]|;
    assert parts[2..][1..] == parts[3..];
    assert PiecesLength(parts[2..]) == |parts[2]| + 1 + |parts[3]|;
    assert parts[1..][1..] == parts[2..];
    assert PiecesLength(parts[1..]) == |parts[1]| + 1 + PiecesLength(parts[2..]);
  }

  /** A dotted quad of digit groups splits into its four groups. */
  lemma SplitDottedQuad(a: string, b: string, c: string, d: string)
    requires IsDigitGroup(a) && IsDigitGroup(b) && IsDigitGroup(c) && IsDigitGroup(d)
    ensures Split(a + "." + b + "." + c + "." + d, '.') == [a, b, c, d]
  {
    assert a + "." + b + "." + c + "." + d == a + ['.'] + (b + ['.'] + (c + ['.'] + d));
    SplitPrefix(a, b + ['.'] + (c + ['.'] + d), '.');
    SplitPrefix(b, c + ['.'] + d, '.');
    SplitJoined(c, d, '.');
  }

  /** Every dotted quad of one-to-three-digit groups is accepted. */
  lemma HostAcceptsDottedQuads(a: string, b: string, c: string, d: string)
    requires IsDigitGroup(a) && IsDigitGroup(b) && IsDigitGroup(c) && IsDigitGroup(d)
    ensures IsHost(a + "." + b + "." + c + "." + d)
  {
    SplitDottedQuad(a, b, c, d);
  }

  /** HOST_PATTERN checks the shape only: "999.999.999.999" passes. */
  lemma HostNoRangeCheck()
    ensures IsHost("999.999.999.999")
  {
    var g := "999";
    assert IsDigitGroup(g);
    HostAcceptsDottedQuads(g, g, g, g);
    assert g + "." + g + "." + g + "." + g == "999.999.999.999";
  }

  /** The escape character that opens an ANSI colour sequence. */
  const Esc: char := '\U{1b}'

  predicate IsParamChar(c: char) { IsAsciiDigit(c) || c == ';' }

  /** Where a match of `[0-9;]*m` that starts at index `i` of `s` ends
      (exclusive), if one starts there. */
  function MatchParams(s: string, i: nat): (end: Option<nat>)
    requires i <= |s|
    ensures end.Some? ==> i < end.value <= |s|
    decreases |s| - i
  {
    if i == |s| then None
    else if IsParamChar(s[i]) then MatchParams(s, i + 1)
    else if s[i] == 'm' then Some(i + 1)
    else None
  }

  /** Length of the match of ANSI_ESCAPE_PATTERN at the start of `s`, if any. */
  function AnsiMatchAt(s: string): (len: Option<nat>)
    ensures len.Some? ==> 3 <= len.value <= |s| && s[0] == Esc
  {
    if |s| >= 2 && s[0] == Esc && s[1] == '[' then MatchParams(s, 2) else None
  }

  /** `s` contains a match of ANSI_ESCAPE_PATTERN somewhere. */
  predicate HasAnsi(s: string)
  {
    exists i :: 0 <= i < |s| && AnsiMatchAt(s[i..]).Some?
  }

  /** `re.sub(ANSI_ESCAPE_PATTERN, "", s)`: scan left to right, drop each
      match found, resume after it. */
  function StripAnsi(s: string): (r: string)
    ensures |r| <= |s|
    decreases |s|
  {
    if |s| == 0 then []
    else match AnsiMatchAt(s)
      case Some(n) => StripAnsi(s[n..])
      case None => [s[0]] + StripAnsi(s[1..])
  }

  /** One pass of the substitution shortens the text exactly when the text
      holds an escape sequence. */
  lemma {:induction false} StripAnsiShrinks(s: string)
    ensures HasAnsi(s) <==> |StripAnsi(s)| < |s|
    ensures !HasAnsi(s) ==> StripAnsi(s) == s
    decreases |s|
  {
    if |s| == 0 {
      return;
    }
    assert s[0..] == s;
    StripAnsiShrinks(s[1..]);
    match AnsiMatchAt(s)
    case Some(n) => {
      assert HasAnsi(s);
    }
    case None => {
      if HasAnsi(s) {
        var i :| 0 <= i < |s| && AnsiMatchAt(s[i..]).Some?;
        assert i > 0;
        assert s[1..][i - 1..] == s[i..];
        assert HasAnsi(s[1..]);
      } else {
        forall j | 0 <= j < |s| - 1
          ensures AnsiMatchAt(s[1..][j..]).None?
        {
          assert s[1..][j..] == s[j + 1..];
        }
        assert [s[0]] + s[1..] == s;
      }
    }
  }

  /** FINDING (as written): a single substitution pass can leave an escape
      sequence behind, when removing one match joins the pieces of another:
      ESC ESC "[m[m" becomes ESC "[m". */
  lemma StripAnsiLeavesEscape()
    ensures var s := [Esc, Esc, '[', 'm', '[', 'm'];
            StripAnsi(s) == [Esc, '[', 'm'] && HasAnsi(StripAnsi(s))
  {
    var s := [Esc, Esc, '[', 'm', '[', 'm'];
    assert AnsiMatchAt(s).None?;
    assert MatchParams(s[1..], 2) == Some(3);
    assert AnsiMatchAt(s[1..]) == Some(3);
    assert s[1..][3..] == ['[', 'm'];
    assert AnsiMatchAt(['[', 'm']).None?;
    assert AnsiMatchAt(['m']).None?;
    assert StripAnsi(['[', 'm']) == ['[', 'm'];
    var t := [Esc, '[', 'm'];
    assert MatchParams(t, 2) == Some(3);
    assert t[0..] == t;
    assert AnsiMatchAt(t[0..]).Some?;
  }

  /** Corrected stripping: repeat the substitution until nothing changes.
      The result holds no escape sequence and is a fixed point. */
  function StripAnsiFully(s: string): (r: string)
    ensures !HasAnsi(r)
    ensures StripAnsi(r) == r
    ensures |r| <= |s|
    decreases |s|
  {
    var t := StripAnsi(s);
    StripAnsiShrinks(s);
    if |t| < |s| then StripAnsiFully(t) else s
  }
}
