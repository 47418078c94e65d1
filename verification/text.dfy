/** The Python `str` operations the pipeline and the bot rely on:
    `split()`, `split(maxsplit=1)`, `split(':', maxsplit=1)`, `' '.join`,
    `rstrip`, `lower`, `replace`, `isdigit` and `str(int)`. */
module Text {

  // ---------------------------------------------------------------------
  // Whitespace and words
  // ---------------------------------------------------------------------

  /** Python's `str.isspace` for one character. */
  predicate IsSpace(c: char) {
    if c <= ' ' then '\t' <= c <= '\r' || '\U{1c}' <= c
    else
      || c == '\U{85}' || c == '\U{a0}' || c == '\U{1680}' || ('\U{2000}' <= c <= '\U{200a}')
      || c == '\U{2028}' || c == '\U{2029}' || c == '\U{202f}' || c == '\U{205f}' || c == '\U{3000}'
  }

  /** A token of `str.split()`: non-empty, no whitespace. */
  predicate IsWord(w: string) {
    |w| > 0 && forall i :: 0 <= i < |w| ==> !IsSpace(w[i])
  }

  /** `s` with its leading whitespace removed. */
  function DropSpaces(s: string): (t: string)
    ensures |t| <= |s|
    ensures t == [] || !IsSpace(t[0])
    ensures forall i :: 0 <= i < |s| - |t| ==> IsSpace(s[i])
  {
    if |s| > 0 && IsSpace(s[0]) then DropSpaces(s[1..]) else s
  }

  /** `s` is its leading whitespace followed by what `DropSpaces` leaves. */
  lemma {:induction false} LeadingSpaces(s: string)
    ensures var t := DropSpaces(s);
            AllSpace(s[..|s| - |t|]) && s == s[..|s| - |t|] + t
    decreases |s|
  {
    if |s| > 0 && IsSpace(s[0]) {
      LeadingSpaces(s[1..]);
      var t := DropSpaces(s);
      assert s[1..] == s[1..][..|s| - 1 - |t|] + t;
      assert s[..|s| - |t|] == [s[0]] + s[1..][..|s| - 1 - |t|];
    } else {
      assert s[..0] == [];
    }
  }

  /** Length of the leading run of non-whitespace characters. */
  function WordLen(s: string): (n: nat)
    ensures n <= |s|
    ensures forall i :: 0 <= i < n ==> !IsSpace(s[i])
    ensures n == |s| || IsSpace(s[n])
  {
    if |s| > 0 && !IsSpace(s[0]) then 1 + WordLen(s[1..]) else 0
  }

  /** `s.split()`: the maximal runs of non-whitespace characters. */
  function Words(s: string): (ws: seq<string>)
    ensures forall i :: 0 <= i < |ws| ==> IsWord(ws[i])
    decreases |s|
  {
    var t := DropSpaces(s);
    if t == [] then []
    else
      var n := WordLen(t);
      var w := t[..n];
      assert IsWord(w);
      var rest := Words(t[n..]);
      var r := [w] + rest;
      assert forall i :: 0 < i < |r| ==> r[i] == rest[i - 1];
      r
  }

  /** `sep.join(ws)`. */
  function Join(ws: seq<string>, sep: string): string {
    if |ws| == 0 then ""
    else if |ws| == 1 then ws[0]
    else ws[0] + sep + Join(ws[1..], sep)
  }

  /** Nothing but whitespace. */
  predicate AllSpace(u: string) {
    forall i :: 0 <= i < |u| ==> IsSpace(u[i])
  }

  /** `s.split(maxsplit=1)`: the first word and, when anything but
      whitespace follows it, the rest of the string from its next
      non-whitespace character on (trailing whitespace kept).  The three
      shapes below are the only ways to read `s`, so they pin the parts
      down. */
  function SplitOnce(s: string): (parts: seq<string>)
    ensures |parts| <= 2
    ensures |parts| == 0 <==> AllSpace(s)
    ensures |parts| >= 1 ==> IsWord(parts[0])
    ensures |parts| == 1 ==> exists a, b :: AllSpace(a) && AllSpace(b) && s == a + parts[0] + b
    ensures |parts| == 2 ==>
              && parts[1] != [] && !IsSpace(parts[1][0])
              && exists a, b :: AllSpace(a) && AllSpace(b) && b != [] && s == a + parts[0] + b + parts[1]
  {
    var t := DropSpaces(s);
    LeadingSpaces(s);
    var a := s[..|s| - |t|];
    if t == [] then
      assert s == a + t;
      []
    else
      NotAllSpace(a, t);
      var n := WordLen(t);
      FirstWord(t);
      var u := t[n..];
      SpaceGap(u);
      var rest := DropSpaces(u);
      var b := u[..|u| - |rest|];
      if rest == [] then
        OneTokenForm(s, a, t, t[..n], u, b);
        [t[..n]]
      else
        TwoTokenForm(s, a, t, t[..n], u, b, rest);
        [t[..n], rest]
  }

  lemma NotAllSpace(a: string, t: string)
    requires t != [] && !IsSpace(t[0])
    ensures !AllSpace(a + t)
  {
    assert (a + t)[|a|] == t[0];
  }

  lemma OneTokenForm(s: string, a: string, t: string, w: string, u: string, b: string)
    requires s == a + t && t == w + u && u == b + []
    requires AllSpace(a) && AllSpace(b)
    ensures exists a, b :: AllSpace(a) && AllSpace(b) && s == a + w + b
  {
    assert s == a + w + b;
  }

  lemma TwoTokenForm(s: string, a: string, t: string, w: string, u: string, b: string, rest: string)
    requires s == a + t && t == w + u && u == b + rest
    requires AllSpace(a) && AllSpace(b) && b != []
    ensures exists a, b :: AllSpace(a) && AllSpace(b) && b != [] && s == a + w + b + rest
  {
    assert s == a + w + b + rest;
  }

  /** A string starting with a word: the word is a token, and what follows
      it is empty or starts with whitespace. */
  lemma FirstWord(t: string)
    requires t != [] && !IsSpace(t[0])
    ensures IsWord(t[..WordLen(t)])
    ensures t[WordLen(t)..] == [] || IsSpace(t[WordLen(t)..][0])
    ensures t == t[..WordLen(t)] + t[WordLen(t)..]
  {
    assert WordLen(t) > 0;
  }

  /** Leading whitespace, then the rest; the whitespace is non-empty when
      the string starts with it. */
  lemma SpaceGap(u: string)
    requires u == [] || IsSpace(u[0])
    ensures var rest := DropSpaces(u);
            var b := u[..|u| - |rest|];
            && AllSpace(b) && u == b + rest
            && (rest != [] ==> b != [])
  {
    LeadingSpaces(u);
  }

  /** `WordLen` is the only length whose prefix has no whitespace and is
      followed by whitespace or the end. */
  lemma {:induction false} WordLenUnique(s: string, m: nat)
    requires m <= |s|
    requires forall i :: 0 <= i < m ==> !IsSpace(s[i])
    requires m == |s| || IsSpace(s[m])
    ensures WordLen(s) == m
  {
    if m > 0 {
      WordLenUnique(s[1..], m - 1);
    }
  }

  lemma WordLenOfWord(w: string, rest: string)
    requires IsWord(w)
    requires rest == [] || IsSpace(rest[0])
    ensures WordLen(w + rest) == |w|
  {
    var s := w + rest;
    assert forall i :: 0 <= i < |w| ==> s[i] == w[i];
    WordLenUnique(s, |w|);
  }

  /** A word followed by whitespace (or nothing) is the first token. */
  lemma WordsCons(w: string, rest: string)
    requires IsWord(w)
    requires rest == [] || IsSpace(rest[0])
    ensures Words(w + rest) == [w] + Words(rest)
  {
    var s := w + rest;
    assert DropSpaces(s) == s by {
      assert s[0] == w[0];
    }
    WordLenOfWord(w, rest);
    assert s[..|w|] == w;
    assert s[|w|..] == rest;
  }

  lemma DropSpacesIdempotent(s: string)
    ensures DropSpaces(DropSpaces(s)) == DropSpaces(s)
  {
  }

  /** Leading whitespace does not change the tokens. */
  lemma WordsDropSpaces(s: string)
    ensures Words(DropSpaces(s)) == Words(s)
  {
    DropSpacesIdempotent(s);
  }

  /** Whitespace in front of a string does not change its tokens. */
  lemma WordsAfterSpace(s: string)
    ensures Words(" " + s) == Words(s)
  {
    assert (" " + s)[1..] == s;
    assert DropSpaces(" " + s) == DropSpaces(s);
  }

  /** Splitting a space-joined list of words gives the words back. */
  lemma {:induction false} WordsOfJoin(ws: seq<string>)
    requires forall i :: 0 <= i < |ws| ==> IsWord(ws[i])
    ensures Words(Join(ws, " ")) == ws
  {
    if |ws| == 1 {
      WordsCons(ws[0], "");
      assert ws[0] + "" == ws[0];
    } else if |ws| > 1 {
      var tail := Join(ws[1..], " ");
      WordsOfJoin(ws[1..]);
      assert Join(ws, " ") == ws[0] + (" " + tail);
      WordsCons(ws[0], " " + tail);
      WordsAfterSpace(tail);
      assert ws == [ws[0]] + ws[1..];
    }
  }

  /** `split(maxsplit=1)` agrees with `split()`: the same first token, a
      second part exactly when there are two or more tokens, and that part
      splits into the remaining tokens. */
  lemma SplitOnceWords(s: string)
    ensures |SplitOnce(s)| == if |Words(s)| < 2 then |Words(s)| else 2
    ensures |SplitOnce(s)| > 0 ==> SplitOnce(s)[0] == Words(s)[0]
    ensures |SplitOnce(s)| == 2 ==> Words(SplitOnce(s)[1]) == Words(s)[1..]
  {
    var t := DropSpaces(s);
    if t != [] {
      var n := WordLen(t);
      WordsDropSpaces(t[n..]);
      var rest := DropSpaces(t[n..]);
      if rest != [] {
        assert Words(rest) != [];
      }
    }
  }

  /** A word, one space and a remainder starting with a non-space
      character: `split(maxsplit=1)` gives the word and the remainder. */
  lemma SplitOnceCons(w: string, rest: string)
    requires IsWord(w)
    requires rest != [] && !IsSpace(rest[0])
    ensures SplitOnce(w + " " + rest) == [w, rest]
  {
    var s := w + " " + rest;
    assert DropSpaces(s) == s by {
      assert s[0] == w[0];
    }
    WordLenOfWord(w, " " + rest);
    assert s == w + (" " + rest);
    assert s[..|w|] == w;
    assert s[|w|..] == " " + rest;
    assert (" " + rest)[1..] == rest;
    assert DropSpaces(" " + rest) == DropSpaces(rest) == rest;
  }

  // ---------------------------------------------------------------------
  // Other str methods
  // ---------------------------------------------------------------------

  /** `s.split(c, maxsplit=1)`: cut at the first `c`, if there is one. */
  function SplitAtFirst(s: string, c: char): (parts: seq<string>)
    ensures 1 <= |parts| <= 2
    ensures |parts| == 1 <==> c !in s
    ensures |parts| == 1 ==> parts[0] == s
    ensures |parts| == 2 ==> parts[0] + [c] + parts[1] == s && c !in parts[0]
  {
    if |s| == 0 then [s]
    else if s[0] == c then ["", s[1..]]
    else
      var p := SplitAtFirst(s[1..], c);
      assert s == [s[0]] + s[1..];
      if |p| == 1 then [s] else [[s[0]] + p[0], p[1]]
  }

  /** `s.split(c)`: every piece between occurrences of `c`. */
  function SplitAll(s: string, c: char): (parts: seq<string>)
    ensures |parts| >= 1
    ensures forall i :: 0 <= i < |parts| ==> c !in parts[i]
    decreases |s|
  {
    var p := SplitAtFirst(s, c);
    if |p| == 1 then [s]
    else
      var rest := SplitAll(p[1], c);
      var r := [p[0]] + rest;
      assert forall i :: 0 < i < |r| ==> r[i] == rest[i - 1];
      r
  }

  /** The cut at the first `c` is the only one whose left part has no `c`. */
  lemma SplitAtFirstUnique(x: string, c: char, y: string)
    requires c !in x
    ensures SplitAtFirst(x + [c] + y, c) == [x, y]
  {
    var s := x + [c] + y;
    assert s[|x|] == c;
    var p := SplitAtFirst(s, c);
    assert s[|p[0]|] == c && s[|x|] == c;
    assert forall i :: 0 <= i < |x| ==> s[i] == x[i];
    assert forall i :: 0 <= i < |p[0]| ==> s[i] == p[0][i];
    assert p[0] == s[..|x|] == x;
    assert p[1] == s[|x| + 1..] == y;
  }

  /** Joining the pieces of `s.split(c)` with `c` gives `s` back. */
  lemma {:induction false} SplitAllJoin(s: string, c: char)
    ensures Join(SplitAll(s, c), [c]) == s
    decreases |s|
  {
    var p := SplitAtFirst(s, c);
    if |p| == 2 {
      SplitAllJoin(p[1], c);
      var parts := SplitAll(s, c);
      assert parts[1..] == SplitAll(p[1], c);
    }
  }

  /** A piece without `c`, then `c`, then the rest: the piece comes first. */
  lemma SplitAllCons(x: string, c: char, y: string)
    requires c !in x
    ensures SplitAll(x + [c] + y, c) == [x] + SplitAll(y, c)
  {
    SplitAtFirstUnique(x, c, y);
  }

  /** Without `c` there is one piece, the whole string. */
  lemma SplitAllNone(s: string, c: char)
    requires c !in s
    ensures SplitAll(s, c) == [s]
  {
  }

  /** `s.rstrip(chars)`. */
  function RStrip(s: string, chars: set<char>): (t: string)
    ensures |t| <= |s| && t == s[..|t|]
    ensures t == [] || t[|t| - 1] !in chars
    ensures forall i :: |t| <= i < |s| ==> s[i] in chars
  {
    if |s| > 0 && s[|s| - 1] in chars then RStrip(s[..|s| - 1], chars) else s
  }

  /** `s.replace(a, b)` for single characters. */
  function ReplaceChar(s: string, a: char, b: char): (t: string)
    ensures |t| == |s|
    ensures forall i :: 0 <= i < |s| ==> t[i] == if s[i] == a then b else s[i]
  {
    seq(|s|, i requires 0 <= i < |s| => if s[i] == a then b else s[i])
  }

  /** `s.replace(a, b)` splits at every `a` and joins the pieces with `b`. */
  lemma {:induction false} ReplaceCharIsSplitJoin(s: string, a: char, b: char)
    ensures ReplaceChar(s, a, b) == Join(SplitAll(s, a), [b])
    decreases |s|
  {
    var p := SplitAtFirst(s, a);
    if |p| == 1 {
      assert ReplaceChar(s, a, b) == s;
    } else {
      ReplaceCharIsSplitJoin(p[1], a, b);
      var rest := SplitAll(p[1], a);
      assert SplitAll(s, a) == [p[0]] + rest;
      JoinCons(p[0], rest, [b]);
      ReplaceCharPiece(p[0], p[1], a, b);
    }
  }

  lemma JoinCons(x: string, rest: seq<string>, sep: string)
    requires |rest| >= 1
    ensures Join([x] + rest, sep) == x + sep + Join(rest, sep)
  {
    assert ([x] + rest)[1..] == rest;
  }

  /** A piece without `a`, then `a`: the piece stays, the `a` becomes `b`. */
  lemma ReplaceCharPiece(x: string, y: string, a: char, b: char)
    requires a !in x
    ensures ReplaceChar(x + [a] + y, a, b) == x + [b] + ReplaceChar(y, a, b)
  {
    var s := x + [a] + y;
    var r := x + [b] + ReplaceChar(y, a, b);
    forall i | 0 <= i < |s|
      ensures ReplaceChar(s, a, b)[i] == r[i]
    {
      if i < |x| {
        assert s[i] == x[i] && r[i] == x[i];
      } else if i > |x| {
        assert s[i] == y[i - |x| - 1] && r[i] == ReplaceChar(y, a, b)[i - |x| - 1];
      }
    }
  }

  /** After replacing `a` by another character, no `a` is left. */
  lemma ReplaceCharRemoves(s: string, a: char, b: char)
    requires a != b
    ensures a !in ReplaceChar(s, a, b)
    ensures ReplaceChar(ReplaceChar(s, a, b), a, b) == ReplaceChar(s, a, b)
  {
    var t := ReplaceChar(s, a, b);
    assert forall i :: 0 <= i < |t| ==> t[i] != a;
  }

  // ---------------------------------------------------------------------
  // Exchanging whitespace characters
  // ---------------------------------------------------------------------

  /** `s` and `t` differ at most in which whitespace character stands at a
      position. */
  predicate SameUpToSpaces(s: string, t: string) {
    && |s| == |t|
    && forall i :: 0 <= i < |s| ==> s[i] == t[i] || (IsSpace(s[i]) && IsSpace(t[i]))
  }

  lemma {:induction false} DropSpacesUpToSpaces(s: string, t: string)
    requires SameUpToSpaces(s, t)
    ensures SameUpToSpaces(DropSpaces(s), DropSpaces(t))
    decreases |s|
  {
    if |s| > 0 && IsSpace(s[0]) {
      assert IsSpace(t[0]);
      DropSpacesUpToSpaces(s[1..], t[1..]);
    }
  }

  lemma {:induction false} WordLenUpToSpaces(s: string, t: string)
    requires SameUpToSpaces(s, t)
    ensures WordLen(s) == WordLen(t) && s[..WordLen(s)] == t[..WordLen(t)]
    decreases |s|
  {
    if |s| > 0 && !IsSpace(s[0]) {
      assert s[0] == t[0];
      WordLenUpToSpaces(s[1..], t[1..]);
      assert s[..WordLen(s)] == [s[0]] + s[1..][..WordLen(s[1..])];
      assert t[..WordLen(t)] == [t[0]] + t[1..][..WordLen(t[1..])];
    }
  }

  /** Exchanging one whitespace character for another never changes the
      tokens of `split()`. */
  lemma {:induction false} WordsUpToSpaces(s: string, t: string)
    requires SameUpToSpaces(s, t)
    ensures Words(s) == Words(t)
    decreases |s|
  {
    DropSpacesUpToSpaces(s, t);
    var ds, dt := DropSpaces(s), DropSpaces(t);
    if ds != [] {
      WordLenUpToSpaces(ds, dt);
      var n := WordLen(ds);
      WordsUpToSpaces(ds[n..], dt[n..]);
    }
  }

  /** Turning line breaks into spaces keeps the tokens of `split()`. */
  lemma NewlinesToSpacesKeepWords(s: string)
    ensures Words(ReplaceChar(s, '\n', ' ')) == Words(s)
  {
    WordsUpToSpaces(ReplaceChar(s, '\n', ' '), s);
  }

  /** Python's `lower` on one character, for ASCII, Latin-1 and the
      Polish letters; every other character is left as it is. */
  function LowerChar(c: char): char {
    if 'A' <= c <= 'Z' || ('\U{c0}' <= c <= '\U{de}' && c != '\U{d7}') then (c as int + 32) as char
    else if c == '\U{104}' || c == '\U{106}' || c == '\U{118}' || c == '\U{141}' || c == '\U{143}'
         || c == '\U{15a}' || c == '\U{179}' || c == '\U{17b}' then (c as int + 1) as char
    else c
  }

  /** `s.lower()`. */
  function Lower(s: string): (t: string)
    ensures |t| == |s|
  {
    seq(|s|, i requires 0 <= i < |s| => LowerChar(s[i]))
  }

  predicate IsDigit(c: char) {
    '0' <= c <= '9'
  }

  /** `s.isdigit()`: non-empty and all digits. */
  predicate IsDigits(s: string) {
    |s| > 0 && forall i :: 0 <= i < |s| ==> IsDigit(s[i])
  }

  function DigitValue(c: char): nat
    requires IsDigit(c)
  {
    c as int - '0' as int
  }

  // ---------------------------------------------------------------------
  // Decimal numbers
  // ---------------------------------------------------------------------

  /** `str(n)` for a natural number. */
  function NatToString(n: nat): (s: string)
    ensures IsDigits(s)
  {
    if n < 10 then [('0' as int + n) as char]
    else NatToString(n / 10) + [('0' as int + n % 10) as char]
  }

  /** `str(i)` (also what an f-string prints) for any int. */
  function IntToString(i: int): string {
    if i < 0 then "-" + NatToString(-i) else NatToString(i)
  }

  /** The value of a digit string, most significant digit first (`int(s)`). */
  function DigitsValue(s: string): nat
    requires forall i :: 0 <= i < |s| ==> IsDigit(s[i])
  {
    if s == [] then 0 else 10 * DigitsValue(s[..|s| - 1]) + DigitValue(s[|s| - 1])
  }

  /** Reading back what `str` printed gives the number again. */
  lemma {:induction false} NatToStringRoundTrip(n: nat)
    ensures DigitsValue(NatToString(n)) == n
  {
    if n >= 10 {
      NatToStringRoundTrip(n / 10);
      var s := NatToString(n);
      assert s[..|s| - 1] == NatToString(n / 10);
    }
  }
}
