/** `split_image`: cut a screenshot into phrase-pair blocks.  A block is a
    stretch of pure white pixels in pixel column 7 (the cards of the
    screenshot are white against a darker page); every stretch taller than
    140 rows becomes a record. */
module Blocks {
  import opened Base
  import opened Grids
  import opened Separator
  import opened Phrase

  // ---------------------------------------------------------------------
  // The column scan
  // ---------------------------------------------------------------------

  /** numpy's `pixel.sum()` for one RGB pixel. */
  function PixelSum(p: Pixel): int {
    p.r + p.g + p.b
  }

  /** A channel sum of 765 means a pure white pixel. */
  lemma PixelSumIsWhite(p: Pixel)
    ensures PixelSum(p) == PIXEL_SUM <==> p.r == 255 && p.g == 255 && p.b == 255
  {
  }

  /** Crops the one-pixel column `image.crop((7, 0, 8, Y))` and tests each
      of its pixels for the sum 765, top to bottom. */
  function ColumnFlags(img: Image): (flags: seq<bool>)
    requires img.Valid()
    ensures |flags| == img.Height()
    ensures forall y :: 0 <= y < |flags| ==> (flags[y] <==> PixelSum(At(img, SPLIT_PIXEL_OFFSET, y, Black)) == PIXEL_SUM)
  {
    var col := Crop(img, SPLIT_PIXEL_OFFSET, 0, SPLIT_PIXEL_OFFSET + 1, img.Height(), Black).value;
    seq(col.Height(), y requires 0 <= y < col.Height() => PixelSum(col.rows[y][0]) == PIXEL_SUM)
  }

  /** An image at most 7 pixels wide has only the black padding in column
      7, so it yields no block at all. */
  lemma NarrowImageHasNoColumn(img: Image)
    requires img.Valid() && img.width <= SPLIT_PIXEL_OFFSET
    ensures forall y :: 0 <= y < |ColumnFlags(img)| ==> !ColumnFlags(img)[y]
  {
  }

  /** The pixel loop of `split_image`.  `need` is `need_second`; `start`
      is the 1-based index that opened the current stretch; `n` pixels
      have been seen.  A stretch closes at the 1-based index of the first
      pixel that does not match, or, if it runs to the bottom, at the index
      of the last pixel. */
  function ColumnScan(flags: seq<bool>, n: nat, need: bool, start: int, acc: seq<(int, int)>): (cs: seq<(int, int)>)
    requires n <= |flags|
    decreases |flags| - n
  {
    if n == |flags| then
      if need then acc + [(start, n)] else acc
    else
      var idx := n + 1;
      if flags[n] then
        if !need then ColumnScan(flags, n + 1, true, idx, acc) else ColumnScan(flags, n + 1, true, start, acc)
      else if need then ColumnScan(flags, n + 1, false, start, acc + [(start, idx)])
      else ColumnScan(flags, n + 1, false, start, acc)
  }

  /** `candidate_list`: the `[start, end]` pairs of the column scan. */
  function Candidates(flags: seq<bool>): (cs: seq<(int, int)>)
  {
    ColumnScan(flags, 0, false, 0, [])
  }

  /** The pair the scan records for a maximal run of white pixels: the run
      starts at 1-based index `lo + 1`; it ends at the index `hi + 1` of the
      pixel that broke it, or at the last index when it reaches the bottom. */
  function CandidateOf(b: Band, height: nat): (c: (int, int))
  {
    if b.hi == height then (b.lo + 1, height) else (b.lo + 1, b.hi + 1)
  }

  function CandidatesOf(bs: seq<Band>, height: nat): (cs: seq<(int, int)>)
    ensures |cs| == |bs|
    ensures forall i :: 0 <= i < |bs| ==> cs[i] == CandidateOf(bs[i], height)
  {
    seq(|bs|, i requires 0 <= i < |bs| => CandidateOf(bs[i], height))
  }

  lemma CandidatesOfSnoc(bs: seq<Band>, b: Band, height: nat)
    ensures CandidatesOf(bs + [b], height) == CandidatesOf(bs, height) + [CandidateOf(b, height)]
  {
    assert CandidatesOf(bs + [b], height)[|bs|] == CandidateOf(b, height);
  }

  /** The column loop follows the row loop of `find_split_index` step by
      step: it records one pair per maximal run, in the same order. */
  lemma {:induction false} ColumnScanFollowsScan(flags: seq<bool>, n: nat, open: nat, start: int, acc: seq<Band>)
    requires open <= n <= |flags|
    requires ScanInv(flags, n, open, acc)
    requires open > 0 ==> start == n - open + 1
    ensures ColumnScan(flags, n, open > 0, start, CandidatesOf(acc, |flags|))
            == CandidatesOf(Scan(flags, n, open, acc), |flags|)
    decreases |flags| - n
  {
    if n == |flags| {
      if open > 0 {
        CandidatesOfSnoc(acc, Band(n - open, n), |flags|);
      }
    } else if flags[n] {
      ScanInvExtend(flags, n, open, acc);
      ColumnScanFollowsScan(flags, n + 1, open + 1, if open > 0 then start else n + 1, acc);
    } else if open > 0 {
      ScanInvClose(flags, n, open, acc);
      CandidatesOfSnoc(acc, Band(n - open, n), |flags|);
      ColumnScanFollowsScan(flags, n + 1, 0, start, acc + [Band(n - open, n)]);
    } else {
      ScanInvSkip(flags, n, acc);
      ColumnScanFollowsScan(flags, n + 1, 0, start, acc);
    }
  }

  /** The candidates are exactly the maximal runs of white column pixels,
      each as its `CandidateOf` pair. */
  lemma CandidatesAreBands(flags: seq<bool>)
    ensures Candidates(flags) == CandidatesOf(Bands(flags), |flags|)
  {
    ColumnScanFollowsScan(flags, 0, 0, 0, []);
  }

  /** Facts about the pairs of any list of maximal runs: each pair is
      ordered, pairs are disjoint and in order (each end before the next
      start), every index in `[start, end)` is a white pixel, and a run
      reaching the bottom ends at the last index. */
  lemma CandidatePairs(flags: seq<bool>, bs: seq<Band>)
    requires MaximalRuns(flags, bs)
    ensures var cs := CandidatesOf(bs, |flags|);
            && (forall i :: 0 <= i < |cs| ==> 1 <= cs[i].0 <= cs[i].1 <= |flags|)
            && (forall i, j :: 0 <= i < j < |cs| ==> cs[i].1 < cs[j].0)
            && (forall i, y :: 0 <= i < |cs| && 0 <= y < |flags| && cs[i].0 <= y + 1 < cs[i].1 ==> flags[y])
            && (forall i :: 0 <= i < |cs| && bs[i].hi == |flags| ==> cs[i].1 == |flags|)
            && (forall i :: 0 <= i < |cs| && flags[cs[i].1 - 1] ==> cs[i].1 == |flags|)
  {
    var cs := CandidatesOf(bs, |flags|);
    forall i | 0 <= i < |cs|
      ensures 1 <= cs[i].0 <= cs[i].1 <= |flags|
    {
      assert IsBand(flags, bs[i]);
    }
    forall i, j | 0 <= i < j < |cs|
      ensures cs[i].1 < cs[j].0
    {
      assert bs[i].hi < bs[j].lo && IsBand(flags, bs[j]);
    }
    forall i, y | 0 <= i < |cs| && 0 <= y < |flags| && cs[i].0 <= y + 1 < cs[i].1
      ensures flags[y]
    {
      assert IsBand(flags, bs[i]);
    }
    forall i | 0 <= i < |cs| && flags[cs[i].1 - 1]
      ensures cs[i].1 == |flags|
    {
      assert IsBand(flags, bs[i]);
    }
  }

  /** The scan's candidates in plain terms; every white pixel of the column
      lies in some run, so in some candidate `[start, end]`. */
  lemma CandidatesFacts(flags: seq<bool>)
    ensures var cs := Candidates(flags);
            && (forall i :: 0 <= i < |cs| ==> 1 <= cs[i].0 <= cs[i].1 <= |flags|)
            && (forall i, j :: 0 <= i < j < |cs| ==> cs[i].1 < cs[j].0)
            && (forall i, y :: 0 <= i < |cs| && 0 <= y < |flags| && cs[i].0 <= y + 1 < cs[i].1 ==> flags[y])
            && (forall y :: 0 <= y < |flags| && flags[y] ==> exists i :: 0 <= i < |cs| && cs[i].0 <= y + 1 <= cs[i].1)
            && (forall i :: 0 <= i < |cs| && flags[cs[i].1 - 1] ==> cs[i].1 == |flags|)
  {
    var bs := Bands(flags);
    CandidatesAreBands(flags);
    CandidatePairs(flags, bs);
    var cs := Candidates(flags);
    forall y | 0 <= y < |flags| && flags[y]
      ensures exists i :: 0 <= i < |cs| && cs[i].0 <= y + 1 <= cs[i].1
    {
      var i :| 0 <= i < |bs| && bs[i].lo <= y < bs[i].hi;
      assert cs[i].0 <= y + 1 <= cs[i].1;
    }
  }

  // ---------------------------------------------------------------------
  // Filtering and records
  // ---------------------------------------------------------------------

  /** `y2 - y1 > MIN_HEIGHT`: the stretch is tall enough to be a block. */
  predicate Tall(c: (int, int)) {
    c.1 - c.0 > MIN_HEIGHT
  }

  /** `candidate_filtered`: the tall candidates, in scan order. */
  function TallOnly(cs: seq<(int, int)>): (ts: seq<(int, int)>)
    ensures |ts| <= |cs|
    ensures forall i :: 0 <= i < |ts| ==> Tall(ts[i]) && ts[i] in cs
  {
    if cs == [] then []
    else
      var init := TallOnly(cs[..|cs| - 1]);
      var last := cs[|cs| - 1];
      assert forall i :: 0 <= i < |init| ==> init[i] in cs[..|cs| - 1];
      if Tall(last) then init + [last] else init
  }

  /** The filter keeps exactly the tall candidates (the strict `>`: a
      stretch of height 140 is dropped) and keeps their order. */
  lemma {:induction false} TallOnlyKeeps(cs: seq<(int, int)>)
    ensures forall c :: c in TallOnly(cs) <==> c in cs && Tall(c)
    ensures (forall i, j :: 0 <= i < j < |cs| ==> cs[i].1 < cs[j].0) ==>
              forall i, j :: 0 <= i < j < |TallOnly(cs)| ==> TallOnly(cs)[i].1 < TallOnly(cs)[j].0
  {
    if cs != [] {
      var init := cs[..|cs| - 1];
      TallOnlyKeeps(init);
      var last := cs[|cs| - 1];
      assert cs == init + [last];
      if forall i, j :: 0 <= i < j < |cs| ==> cs[i].1 < cs[j].0 {
        var ts := TallOnly(cs);
        forall i, j | 0 <= i < j < |ts|
          ensures ts[i].1 < ts[j].0
        {
          if j == |ts| - 1 && Tall(last) {
            assert ts[j] == last;
            var a :| 0 <= a < |init| && init[a] == ts[i];
          }
        }
      }
    }
  }

  /** Pillow's `size` of the crop: `(X - 14, y2 - y1)`. */
  function BlockSize(img: Image, c: (int, int)): (int, int) {
    (img.width - 2 * SPLIT_PIXEL_OFFSET, c.1 - c.0)
  }

  /** The keyword arguments a block record receives: the caller's, with
      `file_index`, `coordinates`, a fresh threshold list and (current copy
      only) `size` set. */
  function BlockMetadata(variant: Variant, kw: Metadata, index: nat, img: Image, c: (int, int)): Metadata
  {
    var m := kw[FileIndex := IntValue(index)][Coordinates := PairValue(c.0, c.1)][ThresholdKey(variant) := TupleList([])];
    if variant == Current then m[Size := PairValue(BlockSize(img, c).0, BlockSize(img, c).1)] else m
  }

  /** The block metadata: the caller's keys plus the four set here, with
      the file index, the coordinates, an empty threshold list and (current
      copy only) the block size; every other key keeps the caller's value. */
  lemma BlockMetadataFacts(variant: Variant, kw: Metadata, index: nat, img: Image, c: (int, int))
    ensures var m := BlockMetadata(variant, kw, index, img, c);
            && m.Keys == kw.Keys + {FileIndex, Coordinates, ThresholdKey(variant)}
                         + (if variant == Current then {Size} else {})
            && m[FileIndex] == IntValue(index)
            && m[Coordinates] == PairValue(c.0, c.1)
            && m[ThresholdKey(variant)] == TupleList([])
            && (variant == Current ==> m[Size] == PairValue(BlockSize(img, c).0, BlockSize(img, c).1))
            && (forall k :: k in kw && k !in {FileIndex, Coordinates, ThresholdKey(variant), Size} ==> m[k] == kw[k])
            && (variant == Legacy && Size in kw ==> m[Size] == kw[Size])
  {
  }

  /** `image.crop((7, y1, X - 7, y2))`. */
  function BlockImage(img: Image, c: (int, int)): (b: Image)
    requires img.Valid() && c.0 <= c.1 && 2 * SPLIT_PIXEL_OFFSET <= img.width
    ensures b.Valid() && b.width == BlockSize(img, c).0 && b.Height() == BlockSize(img, c).1
    ensures forall y, x :: 0 <= y < b.Height() && 0 <= x < b.width ==>
              b.rows[y][x] == At(img, SPLIT_PIXEL_OFFSET + x, c.0 + y, Black)
  {
    Crop(img, SPLIT_PIXEL_OFFSET, c.0, img.width - SPLIT_PIXEL_OFFSET, c.1, Black).value
  }

  /** The tall candidates of an image, in scan order. */
  function Blocks(img: Image): (cs: seq<(int, int)>)
    requires img.Valid()
    ensures forall i :: 0 <= i < |cs| ==> 1 <= cs[i].0 < cs[i].1 <= img.Height() && Tall(cs[i])
    ensures forall i, j :: 0 <= i < j < |cs| ==> cs[i].1 < cs[j].0
  {
    var flags := ColumnFlags(img);
    CandidatesFacts(flags);
    TallOnlyKeeps(Candidates(flags));
    TallOnly(Candidates(flags))
  }

  /** The blocks are exactly the tall candidates of the column scan. */
  lemma BlocksAreTallCandidates(img: Image)
    requires img.Valid()
    ensures forall c :: c in Blocks(img) <==> c in Candidates(ColumnFlags(img)) && Tall(c)
  {
    TallOnlyKeeps(Candidates(ColumnFlags(img)));
  }

  /** Where a block's crop lies against its stretch of white pixels: the
      scan's 1-based indices are used as 0-based crop rows, so the first
      white row of the stretch sits just above the crop, every crop row but
      the last is white, and the last crop row is the non-white pixel that
      ended the stretch unless the stretch reaches the bottom. */
  lemma BlockCropRows(img: Image)
    requires img.Valid()
    ensures var flags := ColumnFlags(img);
            var cs := Blocks(img);
            forall i :: 0 <= i < |cs| ==>
              && flags[cs[i].0 - 1]
              && (forall y :: cs[i].0 <= y < cs[i].1 - 1 ==> flags[y])
              && (flags[cs[i].1 - 1] ==> cs[i].1 == img.Height())
  {
    var cs := Blocks(img);
    forall i | 0 <= i < |cs|
      ensures var flags := ColumnFlags(img);
              && flags[cs[i].0 - 1]
              && (forall y :: cs[i].0 <= y < cs[i].1 - 1 ==> flags[y])
              && (flags[cs[i].1 - 1] ==> cs[i].1 == img.Height())
    {
      CandidateCropRows(ColumnFlags(img), cs[i]);
    }
  }

  /** The same for any candidate of the column scan. */
  lemma CandidateCropRows(flags: seq<bool>, c: (int, int))
    requires c in Candidates(flags) && c.0 < c.1
    ensures 1 <= c.0 < c.1 <= |flags|
    ensures flags[c.0 - 1]
    ensures forall y :: c.0 <= y < c.1 - 1 ==> flags[y]
    ensures flags[c.1 - 1] ==> c.1 == |flags|
  {
    var cands := Candidates(flags);
    CandidatesFacts(flags);
    var j :| 0 <= j < |cands| && cands[j] == c;
    assert cands[j].0 <= (c.0 - 1) + 1 < cands[j].1;
    forall y | c.0 <= y < c.1 - 1
      ensures flags[y]
    {
      assert cands[j].0 <= y + 1 < cands[j].1;
    }
  }

  /** The crop and the keyword arguments of each tall stretch, block
      numbers counted from 1. */
  function BlockInputs(variant: Variant, img: Image, kw: Metadata, cs: seq<(int, int)>): (ins: seq<(Image, Metadata)>)
    requires img.Valid() && 2 * SPLIT_PIXEL_OFFSET <= img.width
    requires forall i :: 0 <= i < |cs| ==> cs[i].0 <= cs[i].1
    ensures |ins| == |cs|
    ensures forall i :: 0 <= i < |cs| ==>
              ins[i].0 == BlockImage(img, cs[i]) && ins[i].1 == BlockMetadata(variant, kw, i + 1, img, cs[i])
  {
    seq(|cs|, i requires 0 <= i < |cs| => (BlockImage(img, cs[i]), BlockMetadata(variant, kw, i + 1, img, cs[i])))
  }

  /** `FrapperImage(image_x, **kw)` for each block in turn: record `i` is
      the record built from crop `i` and keyword arguments `i`. */
  function MakeRecords(variant: Variant, env: Env, ins: seq<(Image, Metadata)>): (rs: seq<Record>)
    requires forall i :: 0 <= i < |ins| ==> ins[i].0.Valid()
    ensures |rs| == |ins|
    ensures forall i {:trigger NewRecord(variant, env, ins[i].0, ins[i].1)} :: 0 <= i < |ins| ==> rs[i] == NewRecord(variant, env, ins[i].0, ins[i].1)
  {
    if ins == [] then []
    else
      var r := NewRecord(variant, env, ins[0].0, ins[0].1);
      var rest := MakeRecords(variant, env, ins[1..]);
      var build := (p: (Image, Metadata)) requires p.0.Valid() => NewRecord(variant, env, p.0, p.1);
      assert forall i :: 0 <= i < |ins| ==> build.requires(ins[i]);
      assert forall i :: 0 <= i < |rest| ==> rest[i] == build(ins[1..][i]);
      MappedCons(build, ins, r, rest);
      assert forall i :: 0 <= i < |ins| ==> build(ins[i]) == NewRecord(variant, env, ins[i].0, ins[i].1);
      [r] + rest
  }

  /** Putting `f(x)` in front of the images of the rest of a sequence gives
      the image of the whole sequence, index by index. */
  lemma MappedCons<A, B>(f: A --> B, xs: seq<A>, y: B, ys: seq<B>)
    requires |xs| >= 1 && |ys| == |xs| - 1
    requires forall i :: 0 <= i < |xs| ==> f.requires(xs[i])
    requires y == f(xs[0])
    requires forall i :: 0 <= i < |ys| ==> ys[i] == f(xs[1..][i])
    ensures forall i :: 0 <= i < |xs| ==> ([y] + ys)[i] == f(xs[i])
  {
    forall i | 1 <= i < |xs|
      ensures ([y] + ys)[i] == f(xs[i])
    {
      assert xs[i] == xs[1..][i - 1];
    }
  }

  /** `split_image(image, **kw)`: one record per tall white stretch of column
      7, numbered from 1 top to bottom.  Pillow refuses the crop of an
      image narrower than 14 pixels, so such an image with a tall stretch
      raises `ValueError`. */
  function SplitImage(variant: Variant, env: Env, img: Image, kw: Metadata): (res: Result<seq<Record>>)
    requires img.Valid()
    ensures res.Err? <==> |Blocks(img)| > 0 && img.width < 2 * SPLIT_PIXEL_OFFSET
    ensures res.Err? ==> res.error == ValueError
    ensures res.Ok? ==> |res.value| == |Blocks(img)|
  {
    var cs := Blocks(img);
    if |cs| == 0 then Ok([])
    else if img.width < 2 * SPLIT_PIXEL_OFFSET then Err(ValueError)
    else Ok(MakeRecords(variant, env, BlockInputs(variant, img, kw, cs)))
  }

  /** Record `i` of `split_image` is block number `i + 1`: the crop of the
      `i`-th tall stretch with that stretch's metadata. */
  lemma SplitImageAt(variant: Variant, env: Env, img: Image, kw: Metadata, i: nat)
    requires img.Valid() && SplitImage(variant, env, img, kw).Ok?
    requires i < |SplitImage(variant, env, img, kw).value|
    ensures 2 * SPLIT_PIXEL_OFFSET <= img.width
    ensures var r := SplitImage(variant, env, img, kw).value[i];
            var c := Blocks(img)[i];
            && r.image == BlockImage(img, c) && r.variant == variant
            && (r.state == Todo || r.state == Error)
            && (r.state == Error <==> FindSplitIndex(Binarizer.ToGray(r.image, env.luma)).None?)
            && r.metadata == BlockMetadata(variant, kw, i + 1, img, c)
  {
    var cs := Blocks(img);
    var ins := BlockInputs(variant, img, kw, cs);
    assert MakeRecords(variant, env, ins)[i] == NewRecord(variant, env, ins[i].0, ins[i].1);
  }

  /** Record `i` is exactly what `FrapperImage(image_x, **kw)` builds from
      the crop of the `i`-th tall stretch and that block's keyword
      arguments, so it is well formed. */
  lemma SplitImageRecord(variant: Variant, env: Env, img: Image, kw: Metadata, i: nat)
    requires img.Valid() && SplitImage(variant, env, img, kw).Ok?
    requires i < |SplitImage(variant, env, img, kw).value|
    ensures var r := SplitImage(variant, env, img, kw).value[i];
            var c := Blocks(img)[i];
            && r == NewRecord(variant, env, BlockImage(img, c), BlockMetadata(variant, kw, i + 1, img, c))
            && r.Valid()
  {
    var cs := Blocks(img);
    var ins := BlockInputs(variant, img, kw, cs);
    assert MakeRecords(variant, env, ins)[i] == NewRecord(variant, env, ins[i].0, ins[i].1);
  }

  /** The metadata of record `i`: file index `i + 1`, the coordinates of
      the `i`-th tall stretch, an empty threshold list under the copy's
      key, in the current copy the size of the record's own image, and in
      the legacy copy a `size` only if the caller passed one. */
  lemma SplitImageMetadataAt(variant: Variant, env: Env, img: Image, kw: Metadata, i: nat)
    requires img.Valid() && SplitImage(variant, env, img, kw).Ok?
    requires i < |SplitImage(variant, env, img, kw).value|
    ensures var r := SplitImage(variant, env, img, kw).value[i];
            var c := Blocks(img)[i];
            && FileIndex in r.metadata && r.metadata[FileIndex] == IntValue(i + 1)
            && Coordinates in r.metadata && r.metadata[Coordinates] == PairValue(c.0, c.1)
            && ThresholdReady(r.metadata, ThresholdKey(variant)) && r.metadata[ThresholdKey(variant)].tuples == []
            && r.state != Done
            && (variant == Current ==> Size in r.metadata && r.metadata[Size] == PairValue(r.image.width, r.image.Height()))
            && (variant == Legacy ==> (Size in r.metadata <==> Size in kw))
  {
    SplitImageAt(variant, env, img, kw, i);
    var r := SplitImage(variant, env, img, kw).value[i];
    var c := Blocks(img)[i];
    BlockMetadataFacts(variant, kw, i + 1, img, c);
    assert r.metadata == BlockMetadata(variant, kw, i + 1, img, c) && r.image == BlockImage(img, c);
  }

  /** The records come out top to bottom: record `i` is block number
      `i + 1`, a record's stretch ends before the next record's stretch
      starts, and each stretch is taller than 140 rows. */
  lemma SplitImageOrdered(variant: Variant, env: Env, img: Image, kw: Metadata)
    requires img.Valid() && SplitImage(variant, env, img, kw).Ok?
    ensures var rs := SplitImage(variant, env, img, kw).value;
            && (forall i :: 0 <= i < |rs| ==>
                  && FileIndex in rs[i].metadata && rs[i].metadata[FileIndex] == IntValue(i + 1)
                  && Coordinates in rs[i].metadata && rs[i].metadata[Coordinates].PairValue?
                  && rs[i].metadata[Coordinates].second - rs[i].metadata[Coordinates].first > MIN_HEIGHT)
            && (forall i, j :: 0 <= i < j < |rs| ==>
                  rs[i].metadata[Coordinates].second < rs[j].metadata[Coordinates].first)
  {
    var rs := SplitImage(variant, env, img, kw).value;
    var cs := Blocks(img);
    forall i | 0 <= i < |rs|
      ensures FileIndex in rs[i].metadata && rs[i].metadata[FileIndex] == IntValue(i + 1)
      ensures Coordinates in rs[i].metadata && rs[i].metadata[Coordinates] == PairValue(cs[i].0, cs[i].1)
    {
      SplitImageMetadataAt(variant, env, img, kw, i);
    }
  }

  /** Every record `split_image` builds can be performed without a
      `KeyError`: it is well formed, carries an empty threshold list under
      its copy's key and starts as `todo` or `error`, so `perform()`
      succeeds on it whenever the OCR boxes fit its halves; in the current
      copy its `size` is the size of its own image, and the legacy copy
      sets no `size`. */
  lemma SplitImageRecordsReady(variant: Variant, env: Env, img: Image, kw: Metadata)
    requires img.Valid() && SplitImage(variant, env, img, kw).Ok?
    ensures var rs := SplitImage(variant, env, img, kw).value;
            forall i :: 0 <= i < |rs| ==>
              && rs[i].Valid()
              && ThresholdReady(rs[i].metadata, ThresholdKey(variant)) && rs[i].metadata[ThresholdKey(variant)].tuples == []
              && rs[i].state != Done
              && ((rs[i].state != Error ==> BoxesFit(env, rs[i])) ==> Perform(env, rs[i]).Ok?)
              && (variant == Current ==> Size in rs[i].metadata && rs[i].metadata[Size] == PairValue(rs[i].image.width, rs[i].image.Height()))
              && (variant == Legacy ==> (Size in rs[i].metadata <==> Size in kw))
  {
    var rs := SplitImage(variant, env, img, kw).value;
    forall i | 0 <= i < |rs|
      ensures rs[i].Valid()
      ensures ThresholdReady(rs[i].metadata, ThresholdKey(variant)) && rs[i].metadata[ThresholdKey(variant)].tuples == []
      ensures rs[i].state != Done
      ensures (rs[i].state != Error ==> BoxesFit(env, rs[i])) ==> Perform(env, rs[i]).Ok?
      ensures variant == Current ==> Size in rs[i].metadata && rs[i].metadata[Size] == PairValue(rs[i].image.width, rs[i].image.Height())
      ensures variant == Legacy ==> (Size in rs[i].metadata <==> Size in kw)
    {
      SplitImageRecord(variant, env, img, kw, i);
      SplitImageMetadataAt(variant, env, img, kw, i);
    }
  }
}
