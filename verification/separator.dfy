/** `find_split_index`: locate the white band that separates the target
    sentence from the translate sentence inside one phrase-pair block. */
module Separator {
  import opened Base
  import opened Grids

  // ---------------------------------------------------------------------
  // Row whiteness
  // ---------------------------------------------------------------------

  /** numpy's `row.sum()`. */
  function RowSum(row: seq<Byte>): nat {
    if row == [] then 0 else RowSum(row[..|row| - 1]) + row[|row| - 1]
  }

  /** `int(row.sum() / 255) == X`: Python's `int` of a non-negative float
      is its floor, which Dafny's `/` computes on naturals. */
  predicate RowIsWhite(row: seq<Byte>, width: nat) {
    RowSum(row) / WHITE_NUM == width
  }

  lemma {:induction false} RowSumBound(row: seq<Byte>)
    ensures RowSum(row) <= WHITE_NUM * |row|
    ensures RowSum(row) == WHITE_NUM * |row| <==> forall i :: 0 <= i < |row| ==> row[i] == WHITE_NUM
  {
    if row != [] {
      var init := row[..|row| - 1];
      RowSumBound(init);
      assert forall i :: 0 <= i < |init| ==> init[i] == row[i];
    }
  }

  /** The sum test accepts a row exactly when every pixel in it is white. */
  lemma RowIsWhiteIff(row: seq<Byte>, width: nat)
    requires |row| == width
    ensures RowIsWhite(row, width) <==> forall i :: 0 <= i < |row| ==> row[i] == WHITE_NUM
  {
    RowSumBound(row);
    if RowIsWhite(row, width) {
      assert RowSum(row) >= WHITE_NUM * width;
    }
  }

  /** Whiteness of every row of a gray image, top to bottom. */
  function WhiteFlags(g: Gray): (flags: seq<bool>)
    ensures |flags| == g.Height()
  {
    seq(|g.rows|, y requires 0 <= y < |g.rows| => RowIsWhite(g.rows[y], g.width))
  }

  // ---------------------------------------------------------------------
  // Maximal runs of white rows
  // ---------------------------------------------------------------------

  /** Rows `lo .. hi-1` (0-based); their 1-based numbers are `lo+1 .. hi`. */
  datatype Band = Band(lo: nat, hi: nat) {
    function Size(): int { hi - lo }
  }

  /** `b` is a maximal run of set flags: non-empty, all set, and bounded on
      both sides by an unset flag or the end of the sequence. */
  ghost predicate IsBand(flags: seq<bool>, b: Band) {
    && b.lo < b.hi <= |flags|
    && (forall k :: b.lo <= k < b.hi ==> flags[k])
    && (b.lo == 0 || !flags[b.lo - 1])
    && (b.hi == |flags| || !flags[b.hi])
  }

  /** `bs` lists all maximal runs of `flags`, top to bottom. */
  ghost predicate MaximalRuns(flags: seq<bool>, bs: seq<Band>) {
    && (forall i :: 0 <= i < |bs| ==> IsBand(flags, bs[i]))
    && (forall i, j :: 0 <= i < j < |bs| ==> bs[i].hi < bs[j].lo)
    && (forall k :: 0 <= k < |flags| && flags[k] ==> exists i :: 0 <= i < |bs| && bs[i].lo <= k < bs[i].hi)
  }

  /** What the scan knows after `n` rows: `acc` holds the closed runs and the
      last `open` rows form the run still being collected (Python's `point`). */
  ghost predicate ScanInv(flags: seq<bool>, n: nat, open: nat, acc: seq<Band>)
    requires open <= n <= |flags|
  {
    && (forall k :: n - open <= k < n ==> flags[k])
    && (0 < open && 0 < n - open ==> !flags[n - open - 1])
    && (forall i :: 0 <= i < |acc| ==> IsBand(flags, acc[i]) && acc[i].hi < n - open)
    && (forall i, j :: 0 <= i < j < |acc| ==> acc[i].hi < acc[j].lo)
    && (forall k :: 0 <= k < n - open && flags[k] ==> exists i :: 0 <= i < |acc| && acc[i].lo <= k < acc[i].hi)
  }

  /** The runs found among the first `n` flags: maximal, ordered, ending at
      or before `n`, and covering every set flag before `n`. */
  ghost predicate RunsUpTo(flags: seq<bool>, n: nat, acc: seq<Band>)
    requires n <= |flags|
  {
    && (forall i :: 0 <= i < |acc| ==> IsBand(flags, acc[i]) && acc[i].hi <= n)
    && (forall i, j :: 0 <= i < j < |acc| ==> acc[i].hi < acc[j].lo)
    && (forall k :: 0 <= k < n && flags[k] ==> exists i :: 0 <= i < |acc| && acc[i].lo <= k < acc[i].hi)
  }

  /** Closing the open run at row `n` (a non-white row or the bottom) adds a
      maximal run and accounts for every set flag before `n`. */
  lemma CloseRun(flags: seq<bool>, n: nat, open: nat, acc: seq<Band>)
    requires 0 < open <= n <= |flags|
    requires n == |flags| || !flags[n]
    requires ScanInv(flags, n, open, acc)
    ensures RunsUpTo(flags, n, acc + [Band(n - open, n)])
  {
    var acc' := acc + [Band(n - open, n)];
    assert IsBand(flags, Band(n - open, n));
    forall i | 0 <= i < |acc'|
      ensures IsBand(flags, acc'[i]) && acc'[i].hi <= n
    {
      if i < |acc| { assert acc'[i] == acc[i]; }
    }
    forall i, j | 0 <= i < j < |acc'|
      ensures acc'[i].hi < acc'[j].lo
    {
      if j < |acc| { assert acc'[i] == acc[i] && acc'[j] == acc[j]; }
      else { assert acc'[i] == acc[i]; }
    }
    forall k | 0 <= k < n && flags[k]
      ensures exists i :: 0 <= i < |acc'| && acc'[i].lo <= k < acc'[i].hi
    {
      if k >= n - open {
        assert acc'[|acc|].lo <= k < acc'[|acc|].hi;
      } else {
        var i :| 0 <= i < |acc| && acc[i].lo <= k < acc[i].hi;
        assert acc'[i] == acc[i];
      }
    }
  }

  /** A white row extends the open run. */
  lemma ScanInvExtend(flags: seq<bool>, n: nat, open: nat, acc: seq<Band>)
    requires open <= n < |flags| && flags[n]
    requires ScanInv(flags, n, open, acc)
    ensures ScanInv(flags, n + 1, open + 1, acc)
  {
  }

  /** A non-white row with no open run changes nothing but the position. */
  lemma ScanInvSkip(flags: seq<bool>, n: nat, acc: seq<Band>)
    requires n < |flags| && !flags[n]
    requires ScanInv(flags, n, 0, acc)
    ensures ScanInv(flags, n + 1, 0, acc)
  {
  }

  /** A non-white row closes the open run. */
  lemma ScanInvClose(flags: seq<bool>, n: nat, open: nat, acc: seq<Band>)
    requires 0 < open <= n < |flags| && !flags[n]
    requires ScanInv(flags, n, open, acc)
    ensures ScanInv(flags, n + 1, 0, acc + [Band(n - open, n)])
  {
    CloseRun(flags, n, open, acc);
  }

  /** The row loop of `find_split_index`: a white row extends the open run, a
      non-white row closes it, and a run open at the bottom closes there. */
  function Scan(flags: seq<bool>, n: nat, open: nat, acc: seq<Band>): (bs: seq<Band>)
    requires open <= n <= |flags|
    requires ScanInv(flags, n, open, acc)
    ensures MaximalRuns(flags, bs)
    decreases |flags| - n
  {
    if n == |flags| then
      if 0 < open then
        CloseRun(flags, n, open, acc);
        acc + [Band(n - open, n)]
      else
        acc
    else if flags[n] then
      ScanInvExtend(flags, n, open, acc);
      Scan(flags, n + 1, open + 1, acc)
    else if 0 < open then
      ScanInvClose(flags, n, open, acc);
      Scan(flags, n + 1, 0, acc + [Band(n - open, n)])
    else
      ScanInvSkip(flags, n, acc);
      Scan(flags, n + 1, 0, acc)
  }

  /** The maximal runs of set flags, in order. */
  function Bands(flags: seq<bool>): (bs: seq<Band>)
    ensures MaximalRuns(flags, bs)
  {
    Scan(flags, 0, 0, [])
  }

  /** Python's list of row numbers for one run; the run that reaches the
      bottom gets its last row number appended a second time. */
  function PointList(b: Band, dup: bool): (ps: seq<nat>)
    requires b.lo < b.hi
  {
    seq(b.hi - b.lo, j => b.lo + 1 + j) + (if dup then [b.hi] else [])
  }

  /** `result` of `find_split_index`: one point list per run. */
  function Points(flags: seq<bool>): (result: seq<seq<nat>>)
    ensures |result| == |Bands(flags)|
  {
    var bs := Bands(flags);
    seq(|bs|, i requires 0 <= i < |bs| => PointList(bs[i], i == |bs| - 1 && bs[i].hi == |flags|))
  }

  // ---------------------------------------------------------------------
  // max / list.index
  // ---------------------------------------------------------------------

  /** Python's `max(xs)`. */
  function Max(xs: seq<int>): (m: int)
    requires |xs| > 0
    ensures exists i :: 0 <= i < |xs| && xs[i] == m
    ensures forall i :: 0 <= i < |xs| ==> xs[i] <= m
  {
    if |xs| == 1 then xs[0]
    else
      var m := Max(xs[..|xs| - 1]);
      if xs[|xs| - 1] > m then xs[|xs| - 1] else m
  }

  /** Python's `xs.index(v)`: the first position holding `v`. */
  function IndexOf(xs: seq<int>, v: int): (i: nat)
    requires exists k :: 0 <= k < |xs| && xs[k] == v
    ensures i < |xs| && xs[i] == v
    ensures forall j :: 0 <= j < i ==> xs[j] != v
  {
    if xs[0] == v then 0 else 1 + IndexOf(xs[1..], v)
  }

  /** `xs.index(max(xs))`: the first position of a largest element. */
  function FirstLargest(xs: seq<int>): (i: nat)
    requires |xs| > 0
    ensures i < |xs|
    ensures forall j :: 0 <= j < |xs| ==> xs[j] <= xs[i]
    ensures forall j :: 0 <= j < i ==> xs[j] < xs[i]
  {
    IndexOf(xs, Max(xs))
  }

  // ---------------------------------------------------------------------
  // find_split_index
  // ---------------------------------------------------------------------

  function Lengths(result: seq<seq<nat>>): (lens: seq<int>)
    ensures |lens| == |result|
    ensures forall i :: 0 <= i < |result| ==> lens[i] == |result[i]|
  {
    seq(|result|, i requires 0 <= i < |result| => |result[i]|)
  }

  /** The final choice of `find_split_index`, on the list of point lists:
      the middle entry of the first longest list other than the first and
      the last one. */
  function ChooseSplit(result: seq<seq<nat>>): (r: Option<nat>)
    requires forall i :: 0 <= i < |result| ==> |result[i]| > 0
    ensures r.None? <==> |result| < WHITE_SEPARATOR_COUNT
  {
    if |result| < WHITE_SEPARATOR_COUNT then None
    else
      var lens := Lengths(result)[1..|result| - 1];
      var index := FirstLargest(lens);
      var suitable := result[index + 1];
      Some(suitable[|suitable| / 2])
  }

  /** Entry `i` of `Points`, and the fact that only the last one can carry
      the duplicated row number. */
  lemma PointsAt(flags: seq<bool>, i: nat)
    requires i < |Bands(flags)|
    ensures Bands(flags)[i].lo < Bands(flags)[i].hi
    ensures i < |Bands(flags)| - 1 ==> Points(flags)[i] == PointList(Bands(flags)[i], false)
    ensures |Points(flags)[i]| > 0
  {
  }

  /** `find_split_index(gray)`: `None` stands for the `False` it returns when
      fewer than three white runs exist. */
  function FindSplitIndex(g: Gray): (r: Option<nat>)
    ensures r.None? <==> |Bands(WhiteFlags(g))| < WHITE_SEPARATOR_COUNT
  {
    var flags := WhiteFlags(g);
    forall i | 0 <= i < |Points(flags)| ensures |Points(flags)[i]| > 0 {
      PointsAt(flags, i);
    }
    ChooseSplit(Points(flags))
  }

  /** The same choice made directly on the runs: the middle row (1-based) of
      the first longest run among the runs 2 .. k-1. */
  function SplitFromBands(bs: seq<Band>): (r: Option<nat>)
  {
    if |bs| < WHITE_SEPARATOR_COUNT then None
    else
      var j := FirstLargest(InteriorSizes(bs)) + 1;
      Some(bs[j].lo + 1 + bs[j].Size() / 2)
  }

  /** The sizes of the runs other than the first and the last. */
  function InteriorSizes(bs: seq<Band>): (sizes: seq<int>)
    requires |bs| >= 2
    ensures |sizes| == |bs| - 2
    ensures forall i :: 0 <= i < |sizes| ==> sizes[i] == bs[i + 1].Size()
  {
    seq(|bs| - 2, i requires 0 <= i < |bs| - 2 => bs[i + 1].Size())
  }

  /** The middle entry of a run's point list is the run's middle row. */
  lemma PointListMiddle(b: Band)
    requires b.lo < b.hi
    ensures |PointList(b, false)| == b.Size()
    ensures PointList(b, false)[b.Size() / 2] == b.lo + 1 + b.Size() / 2
  {
  }

  /** The lengths of the interior point lists are the interior run sizes. */
  lemma InteriorLengths(result: seq<seq<nat>>, bs: seq<Band>)
    requires |result| == |bs| >= 2
    requires forall i :: 0 <= i < |bs| ==> bs[i].lo < bs[i].hi
    requires forall i :: 0 < i < |bs| - 1 ==> result[i] == PointList(bs[i], false)
    ensures Lengths(result)[1..|result| - 1] == InteriorSizes(bs)
  {
    var lens := Lengths(result)[1..|result| - 1];
    var sizes := InteriorSizes(bs);
    forall i | 0 <= i < |lens|
      ensures lens[i] == sizes[i]
    {
      PointListMiddle(bs[i + 1]);
    }
  }

  /** Choosing on the point lists and choosing on the runs agree whenever
      every interior list is its run's row numbers: what the last list holds
      (the duplicated bottom row) does not matter. */
  lemma ChooseSplitOnRuns(result: seq<seq<nat>>, bs: seq<Band>)
    requires |result| == |bs|
    requires forall i :: 0 <= i < |result| ==> |result[i]| > 0
    requires forall i :: 0 <= i < |bs| ==> bs[i].lo < bs[i].hi
    requires forall i :: 0 < i < |bs| - 1 ==> result[i] == PointList(bs[i], false)
    ensures ChooseSplit(result) == SplitFromBands(bs)
  {
    if |result| >= WHITE_SEPARATOR_COUNT {
      InteriorLengths(result, bs);
      var j := FirstLargest(InteriorSizes(bs)) + 1;
      PointListMiddle(bs[j]);
    }
  }

  /** The row number appended twice to a run that reaches the bottom only
      lengthens the last run, which is never a candidate; and the middle
      entry of a point list is the middle row of its run. */
  lemma FindSplitIndexFromBands(g: Gray)
    ensures FindSplitIndex(g) == SplitFromBands(Bands(WhiteFlags(g)))
  {
    var flags := WhiteFlags(g);
    var bs := Bands(flags);
    var result := Points(flags);
    forall i | 0 <= i < |bs|
      ensures |result[i]| > 0 && bs[i].lo < bs[i].hi
      ensures 0 < i < |bs| - 1 ==> result[i] == PointList(bs[i], false)
    {
      PointsAt(flags, i);
    }
    ChooseSplitOnRuns(result, bs);
  }

  /** The run `SplitFromBands` picks: an interior run, the first of the
      longest interior runs, and the split is its middle row. */
  lemma SplitFromBandsChoice(bs: seq<Band>)
    requires SplitFromBands(bs).Some?
    ensures var s := SplitFromBands(bs).value;
            exists j :: 1 <= j < |bs| - 1
              && s == bs[j].lo + 1 + bs[j].Size() / 2
              && (forall i :: 1 <= i < |bs| - 1 ==> bs[i].Size() <= bs[j].Size())
              && (forall i :: 1 <= i < j ==> bs[i].Size() < bs[j].Size())
  {
    var sizes := InteriorSizes(bs);
    var j := FirstLargest(sizes) + 1;
    forall i | 1 <= i < |bs| - 1
      ensures bs[i].Size() <= bs[j].Size()
    {
      assert sizes[i - 1] == bs[i].Size();
    }
    forall i | 1 <= i < j
      ensures bs[i].Size() < bs[j].Size()
    {
      assert sizes[i - 1] == bs[i].Size();
    }
  }

  /** The row `SplitFromBands` picks is white and lies strictly between
      the first and the last run. */
  lemma SplitRowIsInterior(flags: seq<bool>, bs: seq<Band>)
    requires MaximalRuns(flags, bs)
    requires SplitFromBands(bs).Some?
    ensures var s := SplitFromBands(bs).value;
            1 <= s <= |flags| && flags[s - 1] && bs[0].hi < s <= bs[|bs| - 1].lo
  {
    SplitFromBandsChoice(bs);
    var s := SplitFromBands(bs).value;
    var j :| 1 <= j < |bs| - 1 && s == bs[j].lo + 1 + bs[j].Size() / 2;
    assert IsBand(flags, bs[j]);
    assert bs[0].hi < bs[j].lo;
    assert bs[j].hi < bs[|bs| - 1].lo;
  }

  /** A successful split is a 1-based row number inside the image, and
      that row is white and lies strictly between the first and the last
      run of white rows. */
  lemma SplitRowIsWhite(g: Gray)
    requires FindSplitIndex(g).Some?
    ensures var flags := WhiteFlags(g);
            var bs := Bands(flags);
            var s := FindSplitIndex(g).value;
            && 1 <= s <= g.Height() && flags[s - 1]
            && bs[0].hi < s <= bs[|bs| - 1].lo
  {
    FindSplitIndexFromBands(g);
    SplitRowIsInterior(WhiteFlags(g), Bands(WhiteFlags(g)));
  }

  /** A successful split is the middle row of run `j`, where `j` is neither
      the first nor the last run and is the first of the longest interior
      runs. */
  lemma SplitIsMiddleOfFirstLongest(g: Gray)
    requires FindSplitIndex(g).Some?
    ensures var bs := Bands(WhiteFlags(g));
            var s := FindSplitIndex(g).value;
            exists j :: 1 <= j < |bs| - 1
              && s == bs[j].lo + 1 + bs[j].Size() / 2
              && (forall i :: 1 <= i < |bs| - 1 ==> bs[i].Size() <= bs[j].Size())
              && (forall i :: 1 <= i < j ==> bs[i].Size() < bs[j].Size())
  {
    FindSplitIndexFromBands(g);
    SplitFromBandsChoice(Bands(WhiteFlags(g)));
  }
}
