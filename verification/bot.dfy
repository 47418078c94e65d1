/** The pure helpers of the Telegram front end (frapper/bot.py): turning a
    stored phrase and its tag mask back into HTML, and checking the
    arguments of the `/c`, `/l`, `/s`, `/f` and `/t` commands. */
module Bot {
  import opened Base
  import opened Text

  // ---------------------------------------------------------------------
  // Rebuilding a phrase with its tags underlined
  // ---------------------------------------------------------------------

  const TARGET_EMOJI: char := '\U{2139}'
  const TRANSLATE_EMOJI: char := '\U{21AA}'

  /** A word as it is shown for its mask flag: underlined when the flag's
      digit value is not zero. */
  function Underline(w: string, flag: char): string
    requires IsDigit(flag)
  {
    if DigitValue(flag) != 0 then "<u>" + w + "</u>" else w
  }

  /** Every word paired with the flag at the same position (as `zip` does,
      up to the shorter of the two) and underlined by it. */
  function Marked(mask: string, words: seq<string>): (ms: seq<string>)
    requires forall i :: 0 <= i < |mask| && i < |words| ==> IsDigit(mask[i])
    ensures |ms| == Min(|mask|, |words|)
  {
    seq(Min(|mask|, |words|), i requires 0 <= i < Min(|mask|, |words|) => Underline(words[i], mask[i]))
  }


  /** Each string followed by one space, all concatenated. */
  function Spaced(ws: seq<string>): string {
    if ws == [] then "" else ws[0] + " " + Spaced(ws[1..])
  }

  /** The loop of `_rebuild_string` over the zipped flags and words: it
      fails with `ValueError` as soon as `int(flag)` meets a flag that is
      not a digit, and otherwise emits every underlined word followed by a
      space. */
  function Rebuild(mask: string, words: seq<string>): (res: Result<string>)
    ensures res.Ok? <==> forall i :: 0 <= i < |mask| && i < |words| ==> IsDigit(mask[i])
    ensures res.Err? ==> res.error == ValueError
    ensures res.Ok? ==> res.value == Spaced(Marked(mask, words))
    decreases |words|
  {
    if |mask| == 0 || |words| == 0 then Ok("")
    else if !IsDigit(mask[0]) then Err(ValueError)
    else
      var rest := Rebuild(mask[1..], words[1..]);
      if rest.Err? then rest
      else
        assert Marked(mask, words)[1..] == Marked(mask[1..], words[1..]);
        Ok(Underline(words[0], mask[0]) + " " + rest.value)
  }

  /** `_rebuild_string(sentence, mask)`. */
  function RebuildString(sentence: string, mask: string): (res: Result<string>)
    ensures res.Ok? <==> forall i :: 0 <= i < |mask| && i < |Words(sentence)| ==> IsDigit(mask[i])
    ensures res.Err? ==> res.error == ValueError
  {
    Rebuild(mask, Words(sentence))
  }

  /** The spaced list is the space-joined list plus one trailing space. */
  lemma {:induction false} SpacedIsJoin(ws: seq<string>)
    ensures Spaced(ws) == if ws == [] then "" else Join(ws, " ") + " "
  {
    if |ws| > 1 {
      SpacedIsJoin(ws[1..]);
    }
  }

  /** Splitting a spaced list of words gives the words back. */
  lemma {:induction false} WordsOfSpaced(ws: seq<string>)
    requires forall i :: 0 <= i < |ws| ==> IsWord(ws[i])
    ensures Words(Spaced(ws)) == ws
  {
    if ws != [] {
      var tail := Spaced(ws[1..]);
      WordsOfSpaced(ws[1..]);
      assert Spaced(ws) == ws[0] + (" " + tail);
      WordsCons(ws[0], " " + tail);
      WordsAfterSpace(tail);
    }
  }

  /** An underlined word is still one word. */
  lemma UnderlineIsWord(w: string, flag: char)
    requires IsWord(w) && IsDigit(flag)
    ensures IsWord(Underline(w, flag))
    ensures '\n' !in Underline(w, flag)
  {
    var u := Underline(w, flag);
    assert forall i :: 0 <= i < |u| ==> !IsSpace(u[i]) by {
      if DigitValue(flag) != 0 {
        assert forall i :: 0 <= i < |u| ==> u[i] in "<u/>" || u[i] in w;
      }
    }
  }

  /** The rebuilt phrase has the same tokens as the phrase, in the same
      order, up to the length of the mask, each underlined exactly when
      its flag is not `'0'`. */
  lemma RebuildStringWords(sentence: string, mask: string)
    requires RebuildString(sentence, mask).Ok?
    ensures var ws := Words(sentence);
            && Words(RebuildString(sentence, mask).value) == Marked(mask, ws)
            && forall i :: 0 <= i < |mask| && i < |ws| ==>
                 (Marked(mask, ws)[i] == "<u>" + ws[i] + "</u>" <==> mask[i] != '0')
  {
    var ws := Words(sentence);
    var ms := Marked(mask, ws);
    forall i | 0 <= i < |ms|
      ensures IsWord(ms[i])
    {
      UnderlineIsWord(ws[i], mask[i]);
    }
    WordsOfSpaced(ms);
    forall i | 0 <= i < |mask| && i < |ws|
      ensures ms[i] == "<u>" + ws[i] + "</u>" <==> mask[i] != '0'
    {
      if mask[i] == '0' {
        assert |ms[i]| == |ws[i]|;
      }
    }
  }

  /** With a mask of zeros at least as long as the phrase, nothing is
      underlined: the result is the phrase's words joined by single spaces
      with one trailing space. */
  lemma PlainMaskRebuild(sentence: string, mask: string)
    requires |mask| >= |Words(sentence)|
    requires forall i :: 0 <= i < |mask| ==> mask[i] == IS_FALSE
    ensures RebuildString(sentence, mask).Ok?
    ensures var ws := Words(sentence);
            RebuildString(sentence, mask).value == if ws == [] then "" else Join(ws, " ") + " "
  {
    var ws := Words(sentence);
    assert Marked(mask, ws) == ws;
    SpacedIsJoin(ws);
  }

  /** The rebuilt phrase is a single line. */
  lemma RebuildStringOneLine(sentence: string, mask: string)
    requires RebuildString(sentence, mask).Ok?
    ensures '\n' !in RebuildString(sentence, mask).value
  {
    RebuildStringWords(sentence, mask);
    var ms := Marked(mask, Words(sentence));
    forall i | 0 <= i < |ms|
      ensures '\n' !in ms[i]
    {
      UnderlineIsWord(Words(sentence)[i], mask[i]);
    }
    SpacedOneLine(ms);
  }

  lemma {:induction false} SpacedOneLine(ws: seq<string>)
    requires forall i :: 0 <= i < |ws| ==> '\n' !in ws[i]
    ensures '\n' !in Spaced(ws)
  {
    if ws != [] {
      SpacedOneLine(ws[1..]);
    }
  }

  // ---------------------------------------------------------------------
  // The message for one phrase
  // ---------------------------------------------------------------------

  /** A stored phrase as the bot reads it back. */
  datatype Item = Item(id: int, target: string, targetMask: string, translate: string, translateMask: string)

  /** The first line: `{id} ({index}/{count})`. */
  function Head(id: int, index: int, count: int): string {
    IntToString(id) + " (" + IntToString(index) + "/" + IntToString(count) + ")"
  }

  function TargetLine(t: string): string {
    [TARGET_EMOJI] + "\t\t" + t
  }

  function TranslateLine(t: string): string {
    [TRANSLATE_EMOJI] + "\t\t<i>" + t + "</i>"
  }

  /** `_prepare_html(item, index, count)`: the head line, a blank line,
      the target with its tags underlined, a blank line, and the
      translation in italics. The target is rebuilt first, so its error
      is the one reported when both masks are broken. */
  function PrepareHtml(item: Item, index: int, count: int): (res: Result<string>)
    ensures res.Ok? <==> RebuildString(item.target, item.targetMask).Ok? && RebuildString(item.translate, item.translateMask).Ok?
    ensures res.Err? ==> res.error == ValueError
  {
    var target := RebuildString(item.target, item.targetMask);
    if target.Err? then Err(target.error)
    else
      var translate := RebuildString(item.translate, item.translateMask);
      if translate.Err? then Err(translate.error)
      else
        Ok(Head(item.id, index, count) + "\n\n" + TargetLine(target.value) + "\n\n" + TranslateLine(translate.value))
  }

  lemma NatToStringOneLine(n: nat)
    ensures '\n' !in NatToString(n)
  {
    var s := NatToString(n);
    assert forall i :: 0 <= i < |s| ==> IsDigit(s[i]);
  }

  lemma IntToStringOneLine(i: int)
    ensures '\n' !in IntToString(i)
  {
    NatToStringOneLine(if i < 0 then -i else i);
  }

  lemma HeadOneLine(id: int, index: int, count: int)
    ensures '\n' !in Head(id, index, count)
  {
    IntToStringOneLine(id);
    IntToStringOneLine(index);
    IntToStringOneLine(count);
  }

  /** A single line, a blank line, then the rest. */
  lemma LineThenBlank(x: string, rest: string)
    requires '\n' !in x
    ensures SplitAll(x + "\n\n" + rest, '\n') == [x, ""] + SplitAll(rest, '\n')
  {
    var nl := '\n';
    var y := "" + [nl] + rest;
    assert x + "\n\n" + rest == x + [nl] + y by {
      assert "\n\n" == [nl] + [nl];
      assert y == [nl] + rest;
    }
    SplitAllCons(x, nl, y);
    SplitAllCons("", nl, rest);
    assert [x] + ([""] + SplitAll(rest, nl)) == [x, ""] + SplitAll(rest, nl);
  }

  /** Three single lines joined by blank lines split back into five. */
  lemma FiveLines(h: string, t: string, r: string)
    requires '\n' !in h && '\n' !in t && '\n' !in r
    ensures SplitAll(h + "\n\n" + t + "\n\n" + r, '\n') == [h, "", t, "", r]
  {
    var tail := t + "\n\n" + r;
    assert h + "\n\n" + t + "\n\n" + r == h + "\n\n" + tail;
    LineThenBlank(h, tail);
    LineThenBlank(t, r);
    SplitAllNone(r, '\n');
    assert [h, ""] + ([t, ""] + [r]) == [h, "", t, "", r];
  }

  /** The message has exactly five lines: the head, a blank line, the
      target line, a blank line and the translate line. */
  lemma PrepareHtmlLines(item: Item, index: int, count: int)
    requires PrepareHtml(item, index, count).Ok?
    ensures var t := RebuildString(item.target, item.targetMask).value;
            var tr := RebuildString(item.translate, item.translateMask).value;
            SplitAll(PrepareHtml(item, index, count).value, '\n')
              == [Head(item.id, index, count), "", TargetLine(t), "", TranslateLine(tr)]
  {
    var t := RebuildString(item.target, item.targetMask).value;
    var tr := RebuildString(item.translate, item.translateMask).value;
    HeadOneLine(item.id, index, count);
    RebuildStringOneLine(item.target, item.targetMask);
    RebuildStringOneLine(item.translate, item.translateMask);
    FiveLines(Head(item.id, index, count), TargetLine(t), TranslateLine(tr));
  }

  // ---------------------------------------------------------------------
  // Command validators
  // ---------------------------------------------------------------------

  /** A `count` argument: the default int or the token as typed. */
  datatype Count = CountInt(n: int) | CountStr(s: string)

  /** The keyword arguments a validator hands to the request. */
  datatype Params =
    | NoParams
    | CountParams(count: Count)
    | CountTailParams(count: Count, tail: int)
    | SinceParams(sinceId: string, sinceCount: string)
    | TagParams(tag: string)

  /** `_c_validator`: the last token is the count; one token alone means
      the default count 3, more than two tokens is rejected, and two
      tokens are accepted when the second is all digits. An empty query
      has no last token and raises `IndexError`. */
  function CValidator(query: string): (res: Result<(bool, Params)>)
    ensures res.Err? <==> Words(query) == []
    ensures res.Err? ==> res.error == IndexError
    ensures res.Ok? ==>
              var ws := Words(query);
              && (res.value.0 <==> |ws| == 1 || (|ws| == 2 && IsDigits(ws[1])))
              && res.value.1.CountParams?
              && (|ws| == 1 <==> res.value.1.count == CountInt(3))
              && (|ws| > 1 ==> res.value.1.count == CountStr(ws[|ws| - 1]))
  {
    var ws := Words(query);
    if |ws| == 0 then Err(IndexError)
    else
      var target := ws[|ws| - 1];
      if |ws| == 1 then Ok((true, CountParams(CountInt(3))))
      else if |ws| > 2 then Ok((false, CountParams(CountStr(target))))
      else if !IsDigits(target) then Ok((false, CountParams(CountStr(target))))
      else Ok((true, CountParams(CountStr(target))))
  }

  /** `_l_validator`: the same checks as `_c_validator`, written out again
      in the source, with `tail=100` added. */
  function LValidator(query: string): (res: Result<(bool, Params)>)
    ensures res.Err? <==> CValidator(query).Err?
    ensures res.Err? ==> res.error == CValidator(query).error
    ensures res.Ok? ==>
              && res.value.0 == CValidator(query).value.0
              && res.value.1 == CountTailParams(CValidator(query).value.1.count, 100)
  {
    var ws := Words(query);
    if |ws| == 0 then Err(IndexError)
    else
      var target := ws[|ws| - 1];
      if |ws| == 1 then Ok((true, CountTailParams(CountInt(3), 100)))
      else if |ws| > 2 then Ok((false, CountTailParams(CountStr(target), 100)))
      else if !IsDigits(target) then Ok((false, CountTailParams(CountStr(target), 100)))
      else Ok((true, CountTailParams(CountStr(target), 100)))
  }

  /** `_s_validator`: the argument after the command is `since_id:count`.
      Without an argument the query is rejected; without a `:` the count
      stays the int 10 and `count.isdigit()` raises `AttributeError`;
      otherwise the query is accepted when both halves are all digits. */
  function SValidator(query: string): (res: Result<(bool, Params)>)
    ensures var parts := SplitOnce(query);
            && (res.Err? <==> |parts| == 2 && ':' !in parts[1])
            && (res.Err? ==> res.error == AttributeError)
            && (res.Ok? && |parts| < 2 ==> res.value == (false, NoParams))
            && (res.Ok? && |parts| == 2 ==>
                  && res.value.1.SinceParams?
                  && res.value.1.sinceId + ":" + res.value.1.sinceCount == parts[1]
                  && ':' !in res.value.1.sinceId
                  && (res.value.0 <==> IsDigits(res.value.1.sinceId) && IsDigits(res.value.1.sinceCount)))
  {
    var parts := SplitOnce(query);
    if |parts| < 2 then Ok((false, NoParams))
    else
      var target := SplitAtFirst(parts[1], ':');
      var sinceId := target[0];
      if |target| != 2 then Err(AttributeError)
      else
        var count := target[1];
        Ok((IsDigits(sinceId) && IsDigits(count), SinceParams(sinceId, count)))
  }

  /** `_f_validator`, which `_t_validator` calls unchanged: everything
      after the command word is the tag; without it the query is
      rejected. */
  function FValidator(query: string): (res: (bool, Params))
    ensures res.0 <==> |Words(query)| >= 2
    ensures res.0 ==> res.1.TagParams? && Words(res.1.tag) == Words(query)[1..]
    ensures res.0 ==> res.1.tag == SplitOnce(query)[1]
    ensures res.0 ==> exists a, b :: AllSpace(a) && AllSpace(b) && b != [] && query == a + Words(query)[0] + b + res.1.tag
    ensures !res.0 ==> res.1 == NoParams
  {
    SplitOnceWords(query);
    var parts := SplitOnce(query);
    if |parts| < 2 then (false, NoParams)
    else (true, TagParams(parts[1]))
  }

  // ---------------------------------------------------------------------
  // Validators on the queries the commands are meant for
  // ---------------------------------------------------------------------

  /** `/c` alone asks for the default three phrases. */
  lemma CValidatorDefault(cmd: string)
    requires IsWord(cmd)
    ensures CValidator(cmd) == Ok((true, CountParams(CountInt(3))))
  {
    WordsOfJoin([cmd]);
  }

  /** `/c n` is accepted and hands on the count as typed, which reads back
      as `n`. */
  lemma CValidatorRoundTrip(cmd: string, n: nat)
    requires IsWord(cmd)
    ensures CValidator(cmd + " " + NatToString(n)) == Ok((true, CountParams(CountStr(NatToString(n)))))
    ensures DigitsValue(NatToString(n)) == n
  {
    var s := NatToString(n);
    assert IsWord(s);
    WordsOfJoin([cmd, s]);
    NatToStringRoundTrip(n);
  }

  /** Two digit strings around a colon form one token without another
      colon in front. */
  lemma SinceArgIsWord(a: string, b: string)
    requires IsDigits(a) && IsDigits(b)
    ensures IsWord(a + ":" + b) && ':' !in a
  {
    var arg := a + ":" + b;
    assert forall i :: 0 <= i < |arg| ==> !IsSpace(arg[i]) by {
      forall i | 0 <= i < |arg|
        ensures !IsSpace(arg[i])
      {
        if i < |a| {
          assert arg[i] == a[i];
        } else if i > |a| {
          assert arg[i] == b[i - |a| - 1];
        }
      }
    }
    assert forall i :: 0 <= i < |a| ==> a[i] != ':' by {
      forall i | 0 <= i < |a|
        ensures a[i] != ':'
      {
        assert IsDigit(a[i]);
      }
    }
  }

  /** `/s a:b` with two digit strings is accepted and hands on both as
      typed. */
  lemma SValidatorAccepts(cmd: string, a: string, b: string)
    requires IsWord(cmd) && IsDigits(a) && IsDigits(b)
    ensures SValidator(cmd + " " + (a + ":" + b)) == Ok((true, SinceParams(a, b)))
  {
    SinceArgIsWord(a, b);
    SplitOnceCons(cmd, a + ":" + b);
    SplitAtFirstUnique(a, ':', b);
  }

  /** `/s a:b` with numbers `a` and `b` is accepted and hands on both
      numbers as typed. */
  lemma SValidatorRoundTrip(cmd: string, sinceId: nat, count: nat)
    requires IsWord(cmd)
    ensures var a := NatToString(sinceId);
            var b := NatToString(count);
            SValidator(cmd + " " + (a + ":" + b)) == Ok((true, SinceParams(a, b)))
  {
    SValidatorAccepts(cmd, NatToString(sinceId), NatToString(count));
  }

  /** A query `/s` accepts has exactly two tokens, the second being
      `since_id:count`. */
  lemma SValidatorAcceptsTwoTokens(query: string)
    requires SValidator(query).Ok? && SValidator(query).value.0
    ensures var p := SValidator(query).value.1;
            Words(query) == [SplitOnce(query)[0], p.sinceId + ":" + p.sinceCount]
  {
    var p := SValidator(query).value.1;
    var arg := p.sinceId + ":" + p.sinceCount;
    var parts := SplitOnce(query);
    assert |parts| == 2 && parts[1] == arg;
    SinceArgIsWord(p.sinceId, p.sinceCount);
    WordsOfWord(arg);
    SplitOnceWords(query);
    var ws := Words(query);
    assert ws[1..] == [arg] && ws[0] == parts[0];
    assert ws == [ws[0]] + ws[1..];
  }

  lemma WordsOfWord(w: string)
    requires IsWord(w)
    ensures Words(w) == [w]
  {
    WordsOfJoin([w]);
  }

  /** `/f tag` and `/t tag` hand on the tag as typed. */
  lemma FValidatorRoundTrip(cmd: string, tag: string)
    requires IsWord(cmd)
    requires tag != [] && !IsSpace(tag[0])
    ensures FValidator(cmd + " " + tag) == (true, TagParams(tag))
  {
    SplitOnceCons(cmd, tag);
  }
}
