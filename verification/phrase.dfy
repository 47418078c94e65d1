/** `FrapperImage`: one phrase-pair block cut out of a screenshot, split
    into its target and translate halves and parsed by OCR.  A record is
    `todo` when the halves were found, `error` when they were not, and
    `done` once it has been parsed. */
module Phrase {
  import opened Base
  import opened Grids
  import opened Binarizer
  import opened Separator
  import opened Tags

  datatype State = Todo | Error | Done

  /** A value stored in a record's `metadata` dict. */
  datatype Value =
    | IntValue(i: int)
    | StrValue(s: string)
    | BoolValue(b: bool)
    | PairValue(first: int, second: int)
    | TupleList(tuples: seq<seq<int>>)

  /** The keys of the `metadata` dict the code reads or writes, named after
      the Python strings ('meta_id', 'message_id', 'message_date',
      'file_index', 'coordinates', 'threshold', 'treshold', 'size'); any
      other key a caller passes is `Other`. */
  datatype Key =
    | MetaId
    | MessageId
    | MessageDate
    | FileIndex
    | Coordinates
    | Threshold
    | Treshold
    | Size
    | Other(name: string)

  /** The keyword arguments a record is built with. */
  type Metadata = map<Key, Value>

  /** What the pipeline takes from outside: Pillow's `convert('L')`
      luminance, and tesseract's text and word boxes for a gray image. */
  datatype Env = Env(luma: Pixel -> Byte, text: Gray -> string, boxes: Gray -> seq<WordBox>)

  /** The metadata key the tag detector appends to; the legacy copy spells
      it 'treshold'. */
  function ThresholdKey(variant: Variant): Key {
    if variant == Current then Threshold else Treshold
  }

  datatype Record = Record(
    variant: Variant,
    state: State,
    image: Image,
    target: Image,
    translate: Image,
    targetGray: Gray,
    translateGray: Gray,
    targetString: string,
    targetTag: string,
    targetMask: string,
    translateString: string,
    translateTag: string,
    translateMask: string,
    metadata: Metadata)
  {
    /** Every image of the record is rectangular, and each gray half has
        the size of its colour half (that it is the thresholded colour half
        is stated by `NewRecord`). */
    ghost predicate Valid() {
      && image.Valid() && target.Valid() && translate.Valid()
      && targetGray.Valid() && targetGray.width == target.width && targetGray.Height() == target.Height()
      && translateGray.Valid() && translateGray.width == translate.width && translateGray.Height() == translate.Height()
    }
  }

  // ---------------------------------------------------------------------
  // Construction: split_row_image / _init_row_image
  // ---------------------------------------------------------------------

  /** The state and the two halves `split_row_image` produces for a split
      row (or none): crops [0, s) and [s, Y) of the full width, or the
      whole image twice and `error` when there is no split row. */
  function Halves(img: Image, split: Option<nat>): (h: (State, Image, Image))
    requires img.Valid()
    requires split.Some? ==> 1 <= split.value <= img.Height()
    ensures h.1.Valid() && h.2.Valid()
    ensures h.0 == Error <==> split.None?
    ensures h.0 == Todo || h.0 == Error
    ensures h.0 == Error ==> h.1 == img && h.2 == img
    ensures h.0 == Todo ==>
              && h.1.width == img.width && h.2.width == img.width
              && h.1.Height() == split.value
              && h.1.rows + h.2.rows == img.rows
  {
    if split.None? || split.value == 0 then (Error, img, img)
    else
      var s := split.value;
      CropRowsIsSlice(img, 0, s, Black);
      CropRowsIsSlice(img, s, img.Height(), Black);
      assert img.rows[0..s] == img.rows[..s] && img.rows[s..img.Height()] == img.rows[s..];
      (Todo, Crop(img, 0, 0, img.width, s, Black).value, Crop(img, 0, s, img.width, img.Height(), Black).value)
  }

  /** `FrapperImage(image, **metadata)`: threshold the image, look for the
      white band between the two sentences, and crop the halves above and
      below the split row; without a split row the record is `error` and
      both halves are the whole image. */
  function NewRecord(variant: Variant, env: Env, img: Image, metadata: Metadata): (r: Record)
    requires img.Valid()
    ensures r.Valid() && r.variant == variant && r.image == img && r.metadata == metadata
    ensures r.state == Error <==> FindSplitIndex(ToGray(img, env.luma)).None?
    ensures r.state == Todo || r.state == Error
    ensures r.state == Error ==> r.target == img && r.translate == img
    ensures r.state == Todo ==>
              && r.target.width == img.width && r.translate.width == img.width
              && r.target.Height() == FindSplitIndex(ToGray(img, env.luma)).value
              && r.target.rows + r.translate.rows == img.rows
    ensures r.targetGray == ToGray(r.target, env.luma) && r.translateGray == ToGray(r.translate, env.luma)
    ensures r.targetString == r.targetTag == r.targetMask == ""
    ensures r.translateString == r.translateTag == r.translateMask == ""
  {
    var gray := ToGray(img, env.luma);
    var split := FindSplitIndex(gray);
    assert split.Some? ==> 1 <= split.value <= img.Height() by {
      if split.Some? { SplitRowInside(gray); }
    }
    var (state, target, translate) := Halves(img, split);
    Record(variant, state, img, target, translate, ToGray(target, env.luma), ToGray(translate, env.luma),
           "", "", "", "", "", "", metadata)
  }

  /** The split row is a 1-based row number of the image, so the
      `not split_index` test fails only when no split row was found, and
      both crops lie inside the image. */
  lemma SplitRowInside(g: Gray)
    requires FindSplitIndex(g).Some?
    ensures 1 <= FindSplitIndex(g).value <= g.Height()
  {
    SplitRowIsWhite(g);
  }

  // ---------------------------------------------------------------------
  // Parsing
  // ---------------------------------------------------------------------

  /** `parse_text(image)`: the OCR text; the current copy turns every line
      break into a space. */
  function ParseText(variant: Variant, env: Env, g: Gray): (t: string)
    ensures |t| == |env.text(g)|
    ensures variant == Current ==> '\n' !in t
    ensures forall i :: 0 <= i < |t| && env.text(g)[i] != '\n' ==> t[i] == env.text(g)[i]
    ensures variant == Current ==> forall i :: 0 <= i < |t| && env.text(g)[i] == '\n' ==> t[i] == ' '
    ensures variant == Legacy ==> t == env.text(g)
    ensures Text.Words(t) == Text.Words(env.text(g))
  {
    var raw := env.text(g);
    if variant == Current then
      var t := Text.ReplaceChar(raw, '\n', ' ');
      assert forall i :: 0 <= i < |t| ==> t[i] != '\n';
      Text.NewlinesToSpacesKeepWords(raw);
      t
    else raw
  }

  /** `metadata[key]` exists and is a list, so `.append` works on it. */
  predicate ThresholdReady(m: Metadata, key: Key) {
    key in m && m[key].TupleList?
  }

  /** `metadata[key].append(values)`: a missing key raises `KeyError`, and
      a value without `append` raises `AttributeError`. */
  function AppendThreshold(m: Metadata, key: Key, values: seq<int>): (r: Result<Metadata>)
    ensures r.Ok? <==> ThresholdReady(m, key)
    ensures r.Err? ==> r.error == if key in m then AttributeError else KeyError
    ensures r.Ok? ==> && ThresholdReady(r.value, key)
                      && r.value[key].tuples == m[key].tuples + [values]
                      && r.value.Keys == m.Keys
                      && forall k :: k in m && k != key ==> r.value[k] == m[k]
  {
    if key !in m then Err(KeyError)
    else if !m[key].TupleList? then Err(AttributeError)
    else Ok(m[key := TupleList(m[key].tuples + [values])])
  }

  /** The tag detector may read every OCR box of both halves. */
  ghost predicate BoxesFit(env: Env, r: Record) {
    AllFit(r.target, env.boxes(r.targetGray)) && AllFit(r.translate, env.boxes(r.translateGray))
  }

  /** The record after a successful `perform()` on a record that is not
      `error`: both halves read by OCR and their tags detected, one
      threshold tuple per half appended in order (target first), `done`. */
  function Performed(env: Env, r: Record): (r': Record)
    requires r.Valid() && BoxesFit(env, r)
    requires ThresholdReady(r.metadata, ThresholdKey(r.variant))
    ensures r'.Valid() && BoxesFitKept(env, r, r')
    ensures var key := ThresholdKey(r.variant);
            var tt := ParseTagText(r.variant, r.target, env.boxes(r.targetGray));
            var tr := ParseTagText(r.variant, r.translate, env.boxes(r.translateGray));
            && r'.state == Done
            && r'.targetString == ParseText(r.variant, env, r.targetGray)
            && r'.translateString == ParseText(r.variant, env, r.translateGray)
            && r'.targetTag == tt.text && r'.targetMask == tt.mask
            && r'.translateTag == tr.text && r'.translateMask == tr.mask
            && ThresholdReady(r'.metadata, key)
            && r'.metadata.Keys == r.metadata.Keys
            && r'.metadata[key].tuples == r.metadata[key].tuples + [tt.threshold, tr.threshold]
            && forall k :: k in r.metadata && k != key ==> r'.metadata[k] == r.metadata[k]
  {
    var key := ThresholdKey(r.variant);
    var tt := ParseTagText(r.variant, r.target, env.boxes(r.targetGray));
    var tr := ParseTagText(r.variant, r.translate, env.boxes(r.translateGray));
    var m1 := AppendThreshold(r.metadata, key, tt.threshold).value;
    var m2 := AppendThreshold(m1, key, tr.threshold).value;
    assert m2[key].tuples == r.metadata[key].tuples + [tt.threshold] + [tr.threshold];
    assert r.metadata[key].tuples + [tt.threshold] + [tr.threshold] == r.metadata[key].tuples + [tt.threshold, tr.threshold];
    r.(state := Done,
       targetString := ParseText(r.variant, env, r.targetGray), targetTag := tt.text, targetMask := tt.mask,
       translateString := ParseText(r.variant, env, r.translateGray), translateTag := tr.text, translateMask := tr.mask,
       metadata := m2)
  }

  /** `perform()`: an `error` record answers False and is left alone;
      otherwise the record is parsed (see `Performed`) and it answers True,
      unless the metadata has no threshold list to append to. */
  function Perform(env: Env, r: Record): (res: Result<(bool, Record)>)
    requires r.Valid()
    requires r.state != Error ==> BoxesFit(env, r)
    ensures r.state == Error ==> res == Ok((false, r))
    ensures r.state != Error ==> (res.Ok? <==> ThresholdReady(r.metadata, ThresholdKey(r.variant)))
    ensures r.state != Error && res.Err? ==>
              res.error == if ThresholdKey(r.variant) in r.metadata then AttributeError else KeyError
    ensures res.Ok? && r.state != Error ==> res.value == (true, Performed(env, r))
    ensures res.Ok? ==> res.value.1.Valid() && BoxesFitKept(env, r, res.value.1)
  {
    if r.state == Error then Ok((false, r))
    else
      var key := ThresholdKey(r.variant);
      if key !in r.metadata then Err(KeyError)
      else if !r.metadata[key].TupleList? then Err(AttributeError)
      else Ok((true, Performed(env, r)))
  }

  /** Parsing leaves the images alone, so whatever OCR boxes fitted before
      still fit. */
  ghost predicate BoxesFitKept(env: Env, r: Record, r': Record) {
    && r'.target == r.target && r'.translate == r.translate
    && r'.targetGray == r.targetGray && r'.translateGray == r.translateGray
    && r'.image == r.image && r'.variant == r.variant
    && (BoxesFit(env, r) ==> BoxesFit(env, r'))
  }

  // ---------------------------------------------------------------------
  // Reporting
  // ---------------------------------------------------------------------

  /** Keys `get_metainfo` removes before the metadata is shown. */
  const PRIVATE_KEYS: set<Key> := {MetaId, MessageId, MessageDate}

  /** `get_metainfo()`: a copy of the metadata without the message keys. */
  function GetMetainfo(m: Metadata): (r: Metadata)
    ensures r.Keys == m.Keys - PRIVATE_KEYS
    ensures forall k :: k in r ==> r[k] == m[k]
  {
    map k | k in m && k !in PRIVATE_KEYS :: m[k]
  }

  /** Removing the message keys twice is removing them once, and every
      other entry (file index, coordinates, thresholds) is kept. */
  lemma GetMetainfoIdempotent(m: Metadata)
    ensures GetMetainfo(GetMetainfo(m)) == GetMetainfo(m)
    ensures forall k :: k in m && k !in PRIVATE_KEYS ==> k in GetMetainfo(m) && GetMetainfo(m)[k] == m[k]
    ensures Threshold in m ==> GetMetainfo(m)[Threshold] == m[Threshold]
  {
  }

  /** The dict `parse()` returns. */
  datatype Report = Report(
    state: State,
    targetString: string,
    targetTag: string,
    translateString: string,
    translateTag: string,
    metadata: Metadata)

  /** The dict built from a record's fields; only the current copy filters
      the metadata through `get_metainfo`. */
  function ReportOf(r: Record): Report {
    Report(r.state, r.targetString, r.targetTag, r.translateString, r.translateTag,
           if r.variant == Current then GetMetainfo(r.metadata) else r.metadata)
  }

  /** `parse()`: performs only a `todo` record, then reports. */
  function Parse(env: Env, r: Record): (res: Result<(Report, Record)>)
    requires r.Valid()
    requires r.state != Error ==> BoxesFit(env, r)
    ensures r.state != Todo ==> res == Ok((ReportOf(r), r))
    ensures r.state == Todo ==> (res.Ok? <==> Perform(env, r).Ok?)
    ensures res.Ok? && r.state == Todo ==> res.value.1 == Perform(env, r).value.1 && res.value.1.state == Done
    ensures res.Ok? ==> res.value.0 == ReportOf(res.value.1) && res.value.1.Valid() && BoxesFitKept(env, r, res.value.1)
  {
    if r.state == Todo then
      var p := Perform(env, r);
      if p.Err? then Err(p.error) else Ok((ReportOf(p.value.1), p.value.1))
    else Ok((ReportOf(r), r))
  }

  /** `success` (`status` in the legacy copy): parsed, with both texts and
      the target tag non-empty.  The translate tag is not consulted. */
  predicate Success(r: Record) {
    && r.state == Done
    && r.targetString != ""
    && r.targetTag != ""
    && r.translateString != ""
  }

  /** Success needs a parsed record and does not look at the translate tag;
      a freshly built record is never a success. */
  lemma SuccessFacts(r: Record, tag: string, variant: Variant, env: Env, img: Image, m: Metadata)
    requires img.Valid()
    ensures Success(r) ==> r.state == Done && r.targetTag != ""
    ensures Success(r.(translateTag := tag)) == Success(r)
    ensures !Success(NewRecord(variant, env, img, m))
  {
  }

  /** A parse that starts from `todo` and succeeds leaves a `done` record,
      so a second parse changes nothing and reports the same dict. */
  lemma ParseTwice(env: Env, r: Record)
    requires r.Valid()
    requires r.state != Error ==> BoxesFit(env, r)
    requires Parse(env, r).Ok?
    ensures var r' := Parse(env, r).value.1;
            r'.state != Todo && Parse(env, r') == Parse(env, r)
  {
  }

  // ---------------------------------------------------------------------
  // The state machine
  // ---------------------------------------------------------------------

  /** The calls a caller can make on a record. */
  datatype Op = PerformOp | ParseOp

  /** Applies the calls in order; an exception stops the sequence. */
  function Run(env: Env, r: Record, ops: seq<Op>): (res: Result<Record>)
    requires r.Valid()
    requires r.state != Error ==> BoxesFit(env, r)
    ensures res.Ok? ==> res.value.Valid() && BoxesFitKept(env, r, res.value)
    decreases |ops|
  {
    if ops == [] then Ok(r)
    else
      var step := if ops[0] == PerformOp then
                    (match Perform(env, r) case Ok(v) => Ok(v.1) case Err(e) => Err(e))
                  else
                    (match Parse(env, r) case Ok(v) => Ok(v.1) case Err(e) => Err(e));
      if step.Err? then Err(step.error) else Run(env, step.value, ops[1..])
  }

  /** No call returns a record to `todo` once it has left it: `error` is
      final and unchanged, and `done` stays `done`. */
  lemma {:induction false} NoReturnToTodo(env: Env, r: Record, ops: seq<Op>)
    requires r.Valid()
    requires r.state != Error ==> BoxesFit(env, r)
    requires Run(env, r, ops).Ok?
    ensures r.state == Error ==> Run(env, r, ops).value == r
    ensures r.state == Done ==> Run(env, r, ops).value.state == Done
    ensures ops != [] && r.state == Todo ==> Run(env, r, ops).value.state == Done
    decreases |ops|
  {
    if ops != [] {
      var step := if ops[0] == PerformOp then Perform(env, r).value.1 else Parse(env, r).value.1;
      assert Run(env, r, ops) == Run(env, step, ops[1..]);
      NoReturnToTodo(env, step, ops[1..]);
    }
  }

  /** Performing a parsed record again re-reads both halves and appends two
      more threshold tuples, so the list records every perform. */
  lemma PerformAgainGrows(env: Env, r: Record)
    requires r.Valid() && BoxesFit(env, r) && r.state == Done
    requires ThresholdReady(r.metadata, ThresholdKey(r.variant))
    ensures Perform(env, r).Ok?
    ensures var r' := Perform(env, r).value.1;
            var key := ThresholdKey(r.variant);
            r'.state == Done && |r'.metadata[key].tuples| == |r.metadata[key].tuples| + 2
  {
  }
}
