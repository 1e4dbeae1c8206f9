/** The comparison of a team's rendered page with the dynamic's answer key:
    the count of differing pixels, the similarity percentage, and the diff
    image that marks in red where the answer key is brighter than the
    screenshot.  Images are BGR, three unsigned bytes per pixel, stored row
    by row. */
module Imaging {
  import opened Common
  import opened DynamicStore

  datatype Pixel = Pixel(b: byte, g: byte, r: byte)

  datatype RawImage = RawImage(height: nat, width: nat, pixels: seq<Pixel>)

  /** A decoded image: `height * width` pixels, row by row. */
  type Image = i: RawImage | |i.pixels| == i.height * i.width
    witness RawImage(0, 0, [])

  const White: Pixel := Pixel(255, 255, 255)
  /** Pure red in BGR order. */
  const Red: Pixel := Pixel(0, 0, 255)

  // ----- the differing-pixel count -------------------------------------------

  /** `absdiff` on one channel. */
  function AbsDiff(x: byte, y: byte): (d: byte)
    ensures d == 0 <==> x == y
  {
    if x >= y then x - y else y - x
  }

  /** The channel sum of `absdiff` at one pixel (`np.sum(diff, 2)`). */
  function ChannelSum(p: Pixel, q: Pixel): (s: nat)
    ensures s <= 765
  {
    AbsDiff(p.b, q.b) + AbsDiff(p.g, q.g) + AbsDiff(p.r, q.r)
  }

  /** A pixel counts as different when its channel sum is non-zero, that
      is when any one of its channels differs. */
  lemma ChannelSumZero(p: Pixel, q: Pixel)
    ensures ChannelSum(p, q) != 0 <==> p != q
  {
  }

  /** The positions where two pixel rows differ in some channel. */
  function DifferingPixels(a: seq<Pixel>, b: seq<Pixel>): set<int>
    requires |a| == |b|
  {
    set i | 0 <= i < |a| && a[i] != b[i]
  }

  /** Dropping the last pixel drops at most the last position. */
  lemma DifferingPixelsSnoc(a: seq<Pixel>, b: seq<Pixel>)
    requires |a| == |b| > 0
    ensures var n := |a| - 1;
      && n !in DifferingPixels(a[..n], b[..n])
      && DifferingPixels(a, b)
         == DifferingPixels(a[..n], b[..n]) + (if a[n] != b[n] then {n} else {})
  {
    var n := |a| - 1;
    assert forall i :: 0 <= i < n ==> a[..n][i] == a[i] && b[..n][i] == b[i];
  }

  /** `count_nonzero(np.sum(absdiff(a, b), 2))`: the number of pixels
      whose channel sum of differences is non-zero. */
  function CountDiff(a: seq<Pixel>, b: seq<Pixel>): (count: nat)
    requires |a| == |b|
    ensures count == |DifferingPixels(a, b)|
    ensures count <= |a|
    ensures count == 0 <==> a == b
    ensures count == |a| <==> forall i :: 0 <= i < |a| ==> a[i] != b[i]
  {
    if |a| == 0 then 0
    else
      var n := |a| - 1;
      var rest := CountDiff(a[..n], b[..n]);
      ChannelSumZero(a[n], b[n]);
      DifferingPixelsSnoc(a, b);
      assert a == a[..n] + [a[n]] && b == b[..n] + [b[n]];
      assert forall i :: 0 <= i < n ==> a[i] == a[..n][i] && b[i] == b[..n][i];
      rest + (if ChannelSum(a[n], b[n]) != 0 then 1 else 0)
  }

  /** `100 - count / total * 100`. */
  function Similarity(count: nat, total: nat): (s: real)
    requires 0 < total && count <= total
    ensures 0.0 <= s <= 100.0
    ensures s == 100.0 <==> count == 0
    ensures s == 0.0 <==> count == total
  {
    var fraction := count as real / total as real;
    assert fraction * total as real == count as real;
    assert 0.0 <= fraction <= 1.0;
    assert fraction == 0.0 <==> count == 0 by {
      if fraction == 0.0 { assert count as real == 0.0 * total as real; }
    }
    assert fraction == 1.0 <==> count == total by {
      if fraction == 1.0 { assert count as real == 1.0 * total as real; }
    }
    100.0 - fraction * 100.0
  }

  /** The similarity of two images of the same shape is 100 exactly when
      they are equal and 0 exactly when every pixel differs in some channel. */
  lemma SimilarityExtremes(key: Image, shot: Image)
    requires key.height == shot.height && key.width == shot.width
    requires key.height * key.width > 0
    ensures var s := Similarity(CountDiff(key.pixels, shot.pixels), key.height * key.width);
      && (s == 100.0 <==> key.pixels == shot.pixels)
      && (s == 0.0 <==> forall i :: 0 <= i < |key.pixels| ==> key.pixels[i] != shot.pixels[i])
  {
  }

  // ----- the diff image ---------------------------------------------------------

  /** `subtract` on one channel: saturating at zero. */
  function SatSub(x: byte, y: byte): (d: byte)
    ensures d <= x
    ensures d == 0 <==> x <= y
    ensures x > y ==> d + y == x
  {
    if x > y then x - y else 0
  }

  function SatSubPixel(p: Pixel, q: Pixel): Pixel
  {
    Pixel(SatSub(p.b, q.b), SatSub(p.g, q.g), SatSub(p.r, q.r))
  }

  /** `threshold(v, 30, 255, THRESH_BINARY)`. */
  function Threshold(v: byte): (t: byte)
    ensures t == 0 || t == 255
    ensures t == 255 <==> v > 30
  {
    if v > 30 then 255 else 0
  }

  /** The thresholded grey level of the saturated difference at one pixel;
      `gray` is `BGR2GRAY`, whose weights are not modelled. */
  function Marked(key: Pixel, shot: Pixel, gray: Pixel -> byte): byte
  {
    Threshold(gray(SatSubPixel(key, shot)))
  }

  /** What the diff image should show at one pixel: red where the
      answer key is markedly brighter than the screenshot, white elsewhere. */
  function DiffPixel(key: Pixel, shot: Pixel, gray: Pixel -> byte): (p: Pixel)
    ensures p == Red || p == White
    ensures p == Red <==> Marked(key, shot, gray) == 255
  {
    if Marked(key, shot, gray) == 255 then Red else White
  }

  function DiffPixels(key: seq<Pixel>, shot: seq<Pixel>, gray: Pixel -> byte): (d: seq<Pixel>)
    requires |key| == |shot|
    ensures |d| == |key|
    ensures forall i :: 0 <= i < |d| ==> d[i] == DiffPixel(key[i], shot[i], gray)
  {
    seq(|key|, i requires 0 <= i < |key| => DiffPixel(key[i], shot[i], gray))
  }

  /** Equal images leave a white diff whatever the grey weights, as long as
      black stays black. */
  lemma DiffOfEqualIsWhite(key: seq<Pixel>, gray: Pixel -> byte)
    requires gray(Pixel(0, 0, 0)) == 0
    ensures forall i :: 0 <= i < |key| ==> DiffPixels(key, key, gray)[i] == White
  {
    forall i | 0 <= i < |key|
      ensures DiffPixels(key, key, gray)[i] == White
    {
      assert SatSubPixel(key[i], key[i]) == Pixel(0, 0, 0);
    }
  }

  /** The mask steps on an `n x 3` array of channels, one row per pixel:
      threshold of the grey difference copied to all three channels
      (`GRAY2BGR`), channels 0 and 1 cleared, then every all-zero pixel
      painted white. */
  method BuildDiff(key: seq<Pixel>, shot: seq<Pixel>, gray: Pixel -> byte)
    returns (diff: array2<byte>)
    requires |key| == |shot|
    ensures fresh(diff)
    ensures diff.Length0 == |key| && diff.Length1 == 3
    ensures forall i :: 0 <= i < |key| ==>
      Pixel(diff[i, 0], diff[i, 1], diff[i, 2]) == DiffPixel(key[i], shot[i], gray)
  {
    var n := |key|;
    diff := new byte[n, 3];
    for i := 0 to n
      invariant forall j :: 0 <= j < i ==>
        var t := Marked(key[j], shot[j], gray);
        diff[j, 0] == t && diff[j, 1] == t && diff[j, 2] == t
    {
      var t := Marked(key[i], shot[i], gray);
      diff[i, 0], diff[i, 1], diff[i, 2] := t, t, t;
    }
    for i := 0 to n
      invariant forall j :: 0 <= j < n ==> diff[j, 2] == Marked(key[j], shot[j], gray)
      invariant forall j :: 0 <= j < n ==> diff[j, 1] == Marked(key[j], shot[j], gray)
      invariant forall j :: 0 <= j < i ==> diff[j, 0] == 0
    {
      diff[i, 0] := 0;
    }
    for i := 0 to n
      invariant forall j :: 0 <= j < n ==> diff[j, 2] == Marked(key[j], shot[j], gray)
      invariant forall j :: 0 <= j < n ==> diff[j, 0] == 0
      invariant forall j :: 0 <= j < i ==> diff[j, 1] == 0
    {
      diff[i, 1] := 0;
    }
    for i := 0 to n
      invariant forall j :: i <= j < n ==>
        diff[j, 0] == 0 && diff[j, 1] == 0 && diff[j, 2] == Marked(key[j], shot[j], gray)
      invariant forall j :: 0 <= j < i ==>
        Pixel(diff[j, 0], diff[j, 1], diff[j, 2]) == DiffPixel(key[j], shot[j], gray)
    {
      ghost var t := Marked(key[i], shot[i], gray);
      assert t == 0 || t == 255;
      if diff[i, 0] == 0 && diff[i, 1] == 0 && diff[i, 2] == 0 {
        diff[i, 0], diff[i, 1], diff[i, 2] := 255, 255, 255;
        assert DiffPixel(key[i], shot[i], gray) == White;
      } else {
        assert DiffPixel(key[i], shot[i], gray) == Red;
      }
    }
  }

  // ----- the comparison ---------------------------------------------------------

  /** The browser's screenshot: the page could not be captured, or it was,
      and `imdecode` gave an image or nothing. */
  datatype Capture = RenderFailed | Captured(decoded: Option<Image>)

  /** The answer key as `exists` and `imread` see it. */
  datatype AnswerKeyFile = Missing | Present(read: Option<Image>)

  /** What `compare_similarity` returns or raises, with the images it
      writes: the aligned screenshot and the diff image. */
  datatype Comparison = Comparison(
    similarity: Result<real>,
    savedScreenshot: Option<Image>,
    savedDiff: Option<Image>)

  predicate SameShape(a: Image, b: Image)
  {
    a.height == b.height && a.width == b.width
  }

  /** `resize` honours the requested size `(width, height)`. */
  ghost predicate ResizeHonoursSize(resize: (Image, int, int) -> Image)
  {
    forall img: Image, w: int, h: int {:trigger resize(img, w, h)} ::
      w > 0 && h > 0 ==> resize(img, w, h).width == w && resize(img, w, h).height == h
  }

  /** `compare_similarity`, step by step: the index page must exist, the
      answer-key size is read, the page is captured, the answer key must
      exist; then, with every failure reported as `Internal`, the
      screenshot is aligned to the answer key, saved, counted and masked. */
  method CompareSimilarity(indexExists: bool, dynamics: DynamicTable, dynamic: string,
                           capture: Capture, answerKey: AnswerKeyFile,
                           resize: (Image, int, int) -> Image, gray: Pixel -> byte)
    returns (c: Comparison)
    ensures c == ComparisonOf(indexExists, SizeOf(dynamics.rows, dynamic), capture, answerKey, resize, gray)
  {
    if !indexExists {
      return Comparison(Err(NotFound), None, None);
    }
    var size := dynamics.GetSize(dynamic);
    if size.Err? {
      return Comparison(Err(size.error), None, None);
    }
    if capture.RenderFailed? {
      return Comparison(Err(Internal), None, None);
    }
    if answerKey.Missing? {
      return Comparison(Err(NotFound), None, None);
    }
    if answerKey.read.None? || capture.decoded.None? {
      return Comparison(Err(Internal), None, None);
    }
    var key := answerKey.read.value;
    var screenshot := capture.decoded.value;
    if !SameShape(key, screenshot) {
      var (w, h) := size.value;
      if w <= 0 || h <= 0 {
        return Comparison(Err(Internal), None, None);
      }
      screenshot := resize(screenshot, w, h);
    }
    var saved := Some(screenshot);
    var total := key.height * key.width;
    if !SameShape(key, screenshot) || total == 0 {
      return Comparison(Err(Internal), saved, None);
    }
    var similarity := Similarity(CountDiff(key.pixels, screenshot.pixels), total);
    var diff := BuildDiff(key.pixels, screenshot.pixels, gray);
    var pixels := seq(total, i requires 0 <= i < total reads diff =>
                        Pixel(diff[i, 0], diff[i, 1], diff[i, 2]));
    assert pixels == DiffPixels(key.pixels, screenshot.pixels, gray);
    c := Comparison(Ok(similarity), saved, Some(RawImage(key.height, key.width, pixels)));
  }

  /** The screenshot as it is saved and compared: resized to the recorded
      size when its shape differs from the answer key's; `Internal` when
      that size cannot be used. */
  function Aligned(key: Image, screenshot: Image, size: (int, int),
                   resize: (Image, int, int) -> Image): (r: Result<Image>)
    ensures SameShape(key, screenshot) ==> r == Ok(screenshot)
    ensures !SameShape(key, screenshot) && size.0 > 0 && size.1 > 0 ==>
      r == Ok(resize(screenshot, size.0, size.1))
    ensures !SameShape(key, screenshot) && (size.0 <= 0 || size.1 <= 0) ==> r == Err(Internal)
  {
    if SameShape(key, screenshot) then Ok(screenshot)
    else if size.0 <= 0 || size.1 <= 0 then Err(Internal)
    else Ok(resize(screenshot, size.0, size.1))
  }

  /** The outcome `CompareSimilarity` is proved to produce. */
  function ComparisonOf(indexExists: bool, size: Result<(int, int)>, capture: Capture,
                        answerKey: AnswerKeyFile,
                        resize: (Image, int, int) -> Image, gray: Pixel -> byte)
    : (c: Comparison)
    ensures c.savedDiff.Some? ==> c.similarity.Ok? && c.savedScreenshot.Some?
    ensures c.similarity.Ok? ==> 0.0 <= c.similarity.value <= 100.0
  {
    if !indexExists then Comparison(Err(NotFound), None, None)
    else if size.Err? then Comparison(Err(size.error), None, None)
    else if capture.RenderFailed? then Comparison(Err(Internal), None, None)
    else if answerKey.Missing? then Comparison(Err(NotFound), None, None)
    else if answerKey.read.None? || capture.decoded.None? then Comparison(Err(Internal), None, None)
    else
      var key := answerKey.read.value;
      match Aligned(key, capture.decoded.value, size.value, resize)
      case Err(e) => Comparison(Err(e), None, None)
      case Ok(screenshot) =>
        var total := key.height * key.width;
        if !SameShape(key, screenshot) || total == 0 then
          Comparison(Err(Internal), Some(screenshot), None)
        else
          Comparison(Ok(Similarity(CountDiff(key.pixels, screenshot.pixels), total)),
                     Some(screenshot),
                     Some(RawImage(key.height, key.width, DiffPixels(key.pixels, screenshot.pixels, gray))))
  }

  // ----- what the comparison promises ---------------------------------------------

  /** A missing index page is NOT_FOUND before anything is rendered or
      written; a missing answer key is NOT_FOUND before any image is
      written or compared. */
  lemma MissingFilesAreNotFound(indexExists: bool, size: Result<(int, int)>, capture: Capture,
                                answerKey: AnswerKeyFile,
                                resize: (Image, int, int) -> Image, gray: Pixel -> byte)
    requires !indexExists || (size.Ok? && capture.Captured? && answerKey.Missing?)
    ensures ComparisonOf(indexExists, size, capture, answerKey, resize, gray)
            == Comparison(Err(NotFound), None, None)
  {
  }

  /** Every failure after the answer key is found is an internal error,
      never a similarity, and no diff image is written. */
  lemma ImageFailuresAreInternal(indexExists: bool, size: Result<(int, int)>, capture: Capture,
                                 answerKey: AnswerKeyFile,
                                 resize: (Image, int, int) -> Image, gray: Pixel -> byte)
    requires indexExists && size.Ok? && answerKey.Present?
    ensures var c := ComparisonOf(indexExists, size, capture, answerKey, resize, gray);
            c.similarity.Err? ==> c.similarity.error == Internal && c.savedDiff.None?
  {
  }

  /** When a similarity is returned, the saved screenshot is the decoded
      one if it had the answer key's shape and its resized copy otherwise;
      the similarity is 100 exactly when it equals the answer key, and 0
      exactly when every pixel differs; the diff is red exactly at the
      marked pixels and white elsewhere. */
  lemma ComparisonMeaning(indexExists: bool, size: Result<(int, int)>, capture: Capture,
                          answerKey: AnswerKeyFile,
                          resize: (Image, int, int) -> Image, gray: Pixel -> byte)
    requires ComparisonOf(indexExists, size, capture, answerKey, resize, gray).similarity.Ok?
    ensures capture.Captured? && capture.decoded.Some? && answerKey.Present? && answerKey.read.Some?
    ensures var c := ComparisonOf(indexExists, size, capture, answerKey, resize, gray);
      var key := answerKey.read.value;
      var shot := capture.decoded.value;
      var saved := c.savedScreenshot.value;
      && saved == (if SameShape(key, shot) then shot else resize(shot, size.value.0, size.value.1))
      && SameShape(key, saved)
      && (c.similarity.value == 100.0 <==> saved.pixels == key.pixels)
      && (c.similarity.value == 0.0 <==>
            forall i :: 0 <= i < |key.pixels| ==> key.pixels[i] != saved.pixels[i])
      && c.savedDiff.Some? && SameShape(key, c.savedDiff.value)
      && forall i :: 0 <= i < |key.pixels| ==>
           var d := c.savedDiff.value.pixels[i];
           (d == Red || d == White) && (d == Red <==> Marked(key.pixels[i], saved.pixels[i], gray) == 255)
  {
    var c := ComparisonOf(indexExists, size, capture, answerKey, resize, gray);
    var key := answerKey.read.value;
    var saved := c.savedScreenshot.value;
    SimilarityExtremes(key, saved);
  }

  /** With a resize that honours the requested size and a recorded size
      equal to the answer key's, a captured non-empty page always yields a
      similarity. */
  lemma AlignedComparisonSucceeds(size: (int, int), shot: Image, key: Image,
                                  resize: (Image, int, int) -> Image, gray: Pixel -> byte)
    requires ResizeHonoursSize(resize)
    requires size == (key.width, key.height) && key.height * key.width > 0
    ensures ComparisonOf(true, Ok(size), Captured(Some(shot)), Present(Some(key)), resize, gray)
              .similarity.Ok?
  {
    if !SameShape(key, shot) {
      assert key.height > 0 && key.width > 0;
      var r := resize(shot, size.0, size.1);
      assert SameShape(key, r);
    }
  }
}
