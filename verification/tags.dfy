/** The tag detector: `_is_tag` samples the pixel row just above an OCR word
    box for the highlight colour, and `_parse_tag_text` (`parse_target_tag`
    / `parse_translate_tag` in the legacy copy) turns the per-word verdicts
    into a tag string and a '0'/'1' mask. */
module Tags {
  import opened Base
  import opened Grids
  import opened Classifier
  import opened Text

  /** One OCR word box: its text and its position `((x1, y1), (x2, y2))`. */
  datatype WordBox = WordBox(content: string, x1: int, y1: int, x2: int, y2: int)

  /** What `array[y1 - TAG_OFFSET][x1:x2]` needs in order to be a non-empty
      row slice: the sampled row lies inside the image without wrapping to a
      negative index, and the slice (clamped to the width) is not empty. */
  predicate Fits(img: Image, b: WordBox) {
    && 0 <= b.x1 < b.x2
    && b.x1 < img.width
    && TAG_OFFSET <= b.y1
    && b.y1 - TAG_OFFSET < img.Height()
  }

  /** `array[y1 - TAG_OFFSET][x1:x2]`; numpy clamps `x2` to the width. */
  function Strip(img: Image, b: WordBox): (s: seq<Pixel>)
    requires img.Valid() && Fits(img, b)
    ensures 0 < |s| <= b.x2 - b.x1
  {
    img.rows[b.y1 - TAG_OFFSET][b.x1..Min(b.x2, img.width)]
  }

  /** The loop counter of `_is_tag`: pixels of the strip in the highlight range. */
  function CountInRange(ps: seq<Pixel>): (n: nat)
    ensures n <= |ps|
  {
    if ps == [] then 0
    else CountInRange(ps[..|ps| - 1]) + (if InARange(ps[|ps| - 1]) then 1 else 0)
  }

  lemma {:induction false} CountInRangeAll(ps: seq<Pixel>)
    ensures CountInRange(ps) == |ps| <==> forall i :: 0 <= i < |ps| ==> InARange(ps[i])
    ensures CountInRange(ps) == 0 <==> forall i :: 0 <= i < |ps| ==> !InARange(ps[i])
  {
    if ps != [] {
      var init := ps[..|ps| - 1];
      CountInRangeAll(init);
      assert forall i :: 0 <= i < |init| ==> init[i] == ps[i];
    }
  }

  /** Python's float quotient, truncated by `int`, is the integer quotient,
      and comparing it with the threshold is a cross-multiplication. */
  lemma FloorOfQuotient(a: nat, b: nat)
    requires b > 0
    ensures ((a as real) / (b as real)).Floor == a / b
    ensures (a as real) / (b as real) >= THRES_HOLD_TAG as real <==> a >= THRES_HOLD_TAG * b
  {
    var q := a / b;
    var v := (a as real) / (b as real);
    assert a == q * b + a % b;
    assert v * (b as real) == a as real;
    assert (q as real) * (b as real) <= a as real;
    assert a as real < ((q + 1) as real) * (b as real);
    assert (q as real) <= v;
    assert v < (q + 1) as real;
  }

  lemma MulLe(x: int, y: int, b: nat)
    requires x <= y
    ensures x * b <= y * b
  {
    assert (y - x) * b >= 0;
  }

  /** Division undoes multiplication by a positive number. */
  lemma DivOfMul(k: nat, n: nat)
    requires n > 0
    ensures (k * n) / n == k
  {
    var q := (k * n) / n;
    assert k * n == q * n + (k * n) % n;
    if q < k {
      MulLe(q + 1, k, n);
    } else if q > k {
      MulLe(k + 1, q, n);
    }
  }

  /** Integer facts about a percentage `a / b` with `a <= 100 * b`. */
  lemma PercentBounds(a: nat, b: nat)
    requires b > 0 && a <= 100 * b
    ensures 0 <= a / b <= 100
    ensures a / b >= THRES_HOLD_TAG <==> a >= THRES_HOLD_TAG * b
  {
    var q := a / b;
    assert a == q * b + a % b;
    if q >= 101 {
      MulLe(101, q, b);
    }
    if q >= THRES_HOLD_TAG {
      MulLe(THRES_HOLD_TAG, q, b);
    } else {
      MulLe(q + 1, THRES_HOLD_TAG, b);
    }
  }

  /** `_is_tag(array, position)`: the word is tagged when at least 15 per
      cent of its strip has the highlight colour; the percentage is also
      reported, truncated to an int. */
  function IsTag(img: Image, b: WordBox): (r: (bool, int))
    requires img.Valid() && Fits(img, b)
    ensures 0 <= r.1 <= 100
    ensures r.0 <==> r.1 >= THRES_HOLD_TAG
    ensures var s := Strip(img, b);
            && r.1 == 100 * CountInRange(s) / |s|
            && (r.0 <==> 100 * CountInRange(s) >= THRES_HOLD_TAG * |s|)
  {
    var s := Strip(img, b);
    var counter := CountInRange(s);
    var value: real := (100 * counter) as real / |s| as real;
    FloorOfQuotient(100 * counter, |s|);
    PercentBounds(100 * counter, |s|);
    (value >= THRES_HOLD_TAG as real, value.Floor)
  }

  /** A strip entirely in the highlight colour gives (True, 100); a strip
      with no highlight pixel gives (False, 0). */
  lemma IsTagExtremes(img: Image, b: WordBox)
    requires img.Valid() && Fits(img, b)
    ensures (forall i :: 0 <= i < |Strip(img, b)| ==> InARange(Strip(img, b)[i])) ==> IsTag(img, b) == (true, 100)
    ensures (forall i :: 0 <= i < |Strip(img, b)| ==> !InARange(Strip(img, b)[i])) ==> IsTag(img, b) == (false, 0)
  {
    var s := Strip(img, b);
    CountInRangeAll(s);
    var r := IsTag(img, b);
    if forall i :: 0 <= i < |s| ==> InARange(s[i]) {
      DivOfMul(100, |s|);
    }
    if forall i :: 0 <= i < |s| ==> !InARange(s[i]) {
      assert 100 * CountInRange(s) == 0;
    }
  }

  // ---------------------------------------------------------------------
  // _parse_tag_text
  // ---------------------------------------------------------------------

  const TRAILING_PUNCTUATION: set<char> := {',', '.'}

  predicate AllFit(img: Image, boxes: seq<WordBox>) {
    forall i :: 0 <= i < |boxes| ==> Fits(img, boxes[i])
  }

  /** The three lists the box loop builds: `parse_result` (tagged contents
      with trailing ',' and '.' stripped), `mask` and `threshold`. */
  datatype BoxScan = BoxScan(words: seq<string>, mask: string, values: seq<int>)

  /** The box loop, one box at a time in OCR order. */
  function ScanBoxes(img: Image, boxes: seq<WordBox>): (sc: BoxScan)
    requires img.Valid() && AllFit(img, boxes)
    ensures |sc.mask| == |sc.values| == |boxes|
  {
    if boxes == [] then BoxScan([], "", [])
    else
      var prev := ScanBoxes(img, boxes[..|boxes| - 1]);
      var last := boxes[|boxes| - 1];
      var (isTag, value) := IsTag(img, last);
      if isTag then BoxScan(prev.words + [RStrip(last.content, TRAILING_PUNCTUATION)], prev.mask + [IS_TRUE], prev.values + [value])
      else BoxScan(prev.words, prev.mask + [IS_FALSE], prev.values + [value])
  }

  /** The entries of `xs` whose mask character is '1', in order. */
  function SelectByMask(xs: seq<string>, mask: string): (ys: seq<string>)
    requires |xs| == |mask|
    ensures |ys| <= |xs|
  {
    if xs == [] then []
    else SelectByMask(xs[..|xs| - 1], mask[..|mask| - 1]) + (if mask[|mask| - 1] == IS_TRUE then [xs[|xs| - 1]] else [])
  }

  /** Every box content with its trailing ',' and '.' removed. */
  function Stripped(boxes: seq<WordBox>): (cs: seq<string>)
    ensures |cs| == |boxes|
  {
    seq(|boxes|, i requires 0 <= i < |boxes| => RStrip(boxes[i].content, TRAILING_PUNCTUATION))
  }

  /** The box loop in terms of the per-box verdicts: mask position `i` is '1'
      exactly for a tagged box and '0' otherwise, and every recorded value
      is the box's percentage. */
  lemma {:induction false} ScanBoxesMask(img: Image, boxes: seq<WordBox>)
    requires img.Valid() && AllFit(img, boxes)
    ensures var sc := ScanBoxes(img, boxes);
            && (forall i :: 0 <= i < |boxes| ==> (sc.mask[i] == IS_TRUE <==> IsTag(img, boxes[i]).0))
            && (forall i :: 0 <= i < |boxes| ==> (sc.mask[i] == IS_TRUE || sc.mask[i] == IS_FALSE))
            && (forall i :: 0 <= i < |boxes| ==> sc.values[i] == IsTag(img, boxes[i]).1)
  {
    if boxes != [] {
      var init := boxes[..|boxes| - 1];
      ScanBoxesMask(img, init);
      var prev := ScanBoxes(img, init);
      var sc := ScanBoxes(img, boxes);
      var t := IsTag(img, boxes[|boxes| - 1]);
      assert sc.mask == prev.mask + [if t.0 then IS_TRUE else IS_FALSE];
      assert sc.values == prev.values + [t.1];
      forall i | 0 <= i < |init|
        ensures sc.mask[i] == prev.mask[i] && sc.values[i] == prev.values[i] && boxes[i] == init[i]
      {
      }
    }
  }

  /** The words the box loop collects are the stripped contents the mask
      selects. */
  lemma {:induction false} ScanBoxesWords(img: Image, boxes: seq<WordBox>)
    requires img.Valid() && AllFit(img, boxes)
    ensures ScanBoxes(img, boxes).words == SelectByMask(Stripped(boxes), ScanBoxes(img, boxes).mask)
  {
    if boxes != [] {
      var init := boxes[..|boxes| - 1];
      ScanBoxesWords(img, init);
      var prev := ScanBoxes(img, init);
      var sc := ScanBoxes(img, boxes);
      var t := IsTag(img, boxes[|boxes| - 1]);
      var st := Stripped(boxes);
      assert sc.mask == prev.mask + [if t.0 then IS_TRUE else IS_FALSE];
      assert sc.mask[..|sc.mask| - 1] == prev.mask;
      assert st[..|st| - 1] == Stripped(init);
      assert st[|st| - 1] == RStrip(boxes[|boxes| - 1].content, TRAILING_PUNCTUATION);
    }
  }

  /** The non-zero entries of `xs` (`tuple(filter(None, xs))`). */
  function NonZero(xs: seq<int>): (ys: seq<int>)
    ensures |ys| <= |xs|
    ensures forall i :: 0 <= i < |ys| ==> ys[i] != 0 && ys[i] in xs
    ensures forall x :: x in xs && x != 0 ==> x in ys
    ensures multiset(ys) == multiset(xs)[0 := 0]
  {
    if xs == [] then []
    else
      var init := xs[..|xs| - 1];
      var last := xs[|xs| - 1];
      assert xs == init + [last];
      NonZero(init) + (if last != 0 then [last] else [])
  }

  /** `filter(None, ...)` works entry by entry in order: filtering a
      concatenation filters each part and concatenates the results, and
      a single entry is kept exactly when it is non-zero.  These two facts
      determine the result, so the kept entries keep their order. */
  lemma NonZeroSingle(x: int)
    ensures NonZero([x]) == if x != 0 then [x] else []
  {
    assert [x][..0] == [];
  }

  lemma {:induction false} NonZeroConcat(a: seq<int>, b: seq<int>)
    ensures NonZero(a + b) == NonZero(a) + NonZero(b)
    decreases |b|
  {
    if b != [] {
      var init := b[..|b| - 1];
      var last := b[|b| - 1];
      NonZeroConcat(a, init);
      assert (a + b)[..|a + b| - 1] == a + init;
      assert (a + b)[|a + b| - 1] == last;
    } else {
      assert a + b == a;
    }
  }

  /** The percentage `_is_tag` computes for every box, in box order. */
  function Percentages(img: Image, boxes: seq<WordBox>): (ps: seq<int>)
    requires img.Valid() && AllFit(img, boxes)
    ensures |ps| == |boxes|
    ensures forall i :: 0 <= i < |boxes| ==> ps[i] == IsTag(img, boxes[i]).1 && 0 <= ps[i] <= 100
  {
    seq(|boxes|, i requires 0 <= i < |boxes| => IsTag(img, boxes[i]).1)
  }

  /** What `_parse_tag_text` returns, plus the tuple it appends to
      `metadata['threshold']`. */
  datatype TagText = TagText(text: string, mask: string, threshold: seq<int>)

  function LowerAll(ws: seq<string>): (ls: seq<string>)
    ensures |ls| == |ws|
  {
    seq(|ws|, i requires 0 <= i < |ws| => Lower(ws[i]))
  }

  /** `_parse_tag_text(image, image_array)` given the OCR boxes of `image`;
      only the current copy replaces '\n' in the joined text by a space. */
  function ParseTagText(variant: Variant, img: Image, boxes: seq<WordBox>): (r: TagText)
    requires img.Valid() && AllFit(img, boxes)
    ensures |r.mask| == |boxes|
    ensures forall i :: 0 <= i < |boxes| ==> (r.mask[i] == IS_TRUE <==> IsTag(img, boxes[i]).0)
    ensures forall i :: 0 <= i < |boxes| ==> (r.mask[i] == IS_TRUE || r.mask[i] == IS_FALSE)
    ensures var joined := Join(LowerAll(SelectByMask(Stripped(boxes), r.mask)), " ");
            r.text == if variant == Current then ReplaceChar(joined, '\n', ' ') else joined
    ensures r.threshold == NonZero(Percentages(img, boxes))
    ensures forall i :: 0 <= i < |r.threshold| ==> 0 < r.threshold[i] <= 100
  {
    ScanBoxesMask(img, boxes);
    ScanBoxesWords(img, boxes);
    var sc := ScanBoxes(img, boxes);
    assert sc.values == Percentages(img, boxes);
    var joined := Join(LowerAll(sc.words), " ");
    var text := if variant == Current then ReplaceChar(joined, '\n', ' ') else joined;
    TagText(text, sc.mask, NonZero(sc.values))
  }

  /** Counting '1's of a mask. */
  function Ones(mask: string): nat {
    if mask == [] then 0 else Ones(mask[..|mask| - 1]) + (if mask[|mask| - 1] == IS_TRUE then 1 else 0)
  }

  /** The tag text holds one entry per '1' of the mask, and the recorded
      threshold tuple has at least that many values: a tagged word's
      percentage is at least 15, so it is never filtered out. */
  lemma {:induction false} TaggedCounts(img: Image, boxes: seq<WordBox>)
    requires img.Valid() && AllFit(img, boxes)
    ensures var sc := ScanBoxes(img, boxes);
            |sc.words| == Ones(sc.mask) <= |NonZero(sc.values)|
  {
    if boxes != [] {
      var init := boxes[..|boxes| - 1];
      TaggedCounts(img, init);
      var prev := ScanBoxes(img, init);
      var sc := ScanBoxes(img, boxes);
      assert sc.mask[..|sc.mask| - 1] == prev.mask;
      assert sc.values[..|sc.values| - 1] == prev.values;
    }
  }

  /** With no box tagged the tag text is empty and the mask is all '0'. */
  lemma NoTagsEmptyText(variant: Variant, img: Image, boxes: seq<WordBox>)
    requires img.Valid() && AllFit(img, boxes)
    requires forall i :: 0 <= i < |boxes| ==> !IsTag(img, boxes[i]).0
    ensures ParseTagText(variant, img, boxes).text == ""
    ensures forall i :: 0 <= i < |boxes| ==> ParseTagText(variant, img, boxes).mask[i] == IS_FALSE
  {
    var r := ParseTagText(variant, img, boxes);
    NoOnesSelectsNothing(Stripped(boxes), r.mask);
  }

  lemma {:induction false} NoOnesSelectsNothing(xs: seq<string>, mask: string)
    requires |xs| == |mask|
    requires forall i :: 0 <= i < |mask| ==> mask[i] != IS_TRUE
    ensures SelectByMask(xs, mask) == []
  {
    if xs != [] {
      NoOnesSelectsNothing(xs[..|xs| - 1], mask[..|mask| - 1]);
    }
  }
}
