/**
 The string operations that the HTTP code applies to header names and values. A Rust `str` is its
 UTF-8 bytes; white space is the Unicode White_Space property, recognised by its encodings.
 */
module HttpText {
  import opened Basics
  import Utf8

  type Text = seq<byte>

  /** The bytes of an ASCII literal. */
  function Ascii(s: string): (t: Text)
    ensures |t| == |s|
  {
    seq(|s|, i requires 0 <= i < |s| => s[i] as int % 256)
  }

  const COMMA: byte := 44
  const SPACE: byte := 32
  const COLON: byte := 58

  // ----- letter case

  function Lower(b: byte): byte {
    if 65 <= b <= 90 then b + 32 else b
  }

  /** `to_ascii_lowercase` */
  function LowerAll(t: Text): (r: Text)
    ensures |r| == |t|
  {
    seq(|t|, i requires 0 <= i < |t| => Lower(t[i]))
  }

  /** `eq_ignore_ascii_case` */
  predicate EqIgnoreCase(a: Text, b: Text) {
    |a| == |b| && forall i :: 0 <= i < |a| ==> Lower(a[i]) == Lower(b[i])
  }

  /** Two codes of the same letter, whatever its case, or the same code. */
  predicate SameLetter(a: int, b: int) {
    a == b || (65 <= a <= 90 && b == a + 32) || (65 <= b <= 90 && a == b + 32)
  }

  predicate SameLetters(a: Text, b: Text) {
    |a| == |b| && forall i :: 0 <= i < |a| ==> SameLetter(a[i], b[i])
  }

  /** The text is this ASCII word, in any case. */
  predicate Spelled(t: Text, word: string) {
    |t| == |word| && forall i :: 0 <= i < |t| ==> SameLetter(t[i], word[i] as int)
  }

  predicate AsciiWord(word: string) {
    forall i :: 0 <= i < |word| ==> word[i] as int < 128
  }

  /** Ignoring case means that only the case of letters is ignored. */
  lemma EqIgnoreCaseExactly(a: Text, b: Text)
    ensures EqIgnoreCase(a, b) <==> SameLetters(a, b)
  {
    if |a| == |b| {
      forall i | 0 <= i < |a| ensures Lower(a[i]) == Lower(b[i]) <==> SameLetter(a[i], b[i]) {
      }
    }
  }

  lemma SpelledExactly(t: Text, word: string)
    requires AsciiWord(word)
    ensures EqIgnoreCase(t, Ascii(word)) <==> Spelled(t, word)
    ensures EqIgnoreCase(Ascii(word), t) <==> Spelled(t, word)
  {
    EqIgnoreCaseExactly(t, Ascii(word));
    EqIgnoreCaseExactly(Ascii(word), t);
    hide EqIgnoreCase;
    if |t| == |word| {
      forall i | 0 <= i < |t| ensures Ascii(word)[i] == word[i] as int {
      }
    }
  }

  /** Lower case has no capital letters left, and is the same text otherwise. */
  lemma LowerAllExactly(t: Text, low: Text)
    ensures LowerAll(t) == low <==> SameLetters(t, low) && forall i :: 0 <= i < |low| ==> !(65 <= low[i] <= 90)
  {
    if |t| == |low| {
      forall i | 0 <= i < |t|
        ensures Lower(t[i]) == low[i] <==> SameLetter(t[i], low[i]) && !(65 <= low[i] <= 90)
      {
      }
      if forall i :: 0 <= i < |low| ==> Lower(t[i]) == low[i] {
        assert LowerAll(t) == low;
      }
      if LowerAll(t) == low {
        forall i | 0 <= i < |low| ensures Lower(t[i]) == low[i] {
          assert LowerAll(t)[i] == low[i];
        }
      }
    }
  }

  // ----- splitting

  /** `split(sep)`: always at least one part, separators removed. */
  function Split(t: Text, sep: byte): (parts: seq<Text>)
    ensures |parts| >= 1
  {
    if t == [] then [[]]
    else
      var rest := Split(t[1..], sep);
      if t[0] == sep then [[]] + rest else [[t[0]] + rest[0]] + rest[1..]
  }

  lemma {:induction false} SplitAt(a: Text, sep: byte, b: Text)
    ensures Split(a + [sep] + b, sep) == Split(a, sep) + Split(b, sep)
  {
    var t := a + [sep] + b;
    if a == [] {
      assert t[1..] == b;
    } else {
      assert t[1..] == a[1..] + [sep] + b;
      SplitAt(a[1..], sep, b);
    }
  }

  /** The part before the first separator, or the whole text. */
  lemma {:induction false} SplitHead(t: Text, sep: byte, first: Text)
    ensures Split(t, sep)[0] == first <==> sep !in first && (t == first || first + [sep] <= t)
  {
    if t != [] {
      var rest := t[1..];
      assert t == [t[0]] + rest;
      if t[0] == sep {
        assert first != [] && (t == first || first + [sep] <= t) ==> first[0] == sep;
      } else if first != [] {
        SplitHead(rest, sep, first[1..]);
        assert first == [first[0]] + first[1..];
        assert (first + [sep])[1..] == first[1..] + [sep];
        if first[0] == t[0] {
          assert first + [sep] <= t <==> first[1..] + [sep] <= rest by {
            assert first + [sep] == [t[0]] + (first[1..] + [sep]);
          }
        }
      }
    }
  }

  lemma {:induction false} SplitWhole(t: Text, sep: byte)
    requires sep !in t
    ensures Split(t, sep) == [t]
  {
    if t != [] {
      assert t == [t[0]] + t[1..];
      SplitWhole(t[1..], sep);
    }
  }

  // ----- white space

  predicate AsciiWhite(b: byte) {
    9 <= b <= 13 || b == SPACE
  }

  /** Length of the white-space character at the front; 0 if there is none. */
  function WhiteFront(t: Text): (n: nat)
    ensures n <= |t| && n <= 3
  {
    if |t| >= 1 && AsciiWhite(t[0]) then 1
    else if |t| >= 2 && t[0] == 0xC2 && t[1] in {0x85, 0xA0} then 2
    else if |t| >= 3 && ((t[0] == 0xE1 && t[1] == 0x9A && t[2] == 0x80)
                         || (t[0] == 0xE2 && t[1] == 0x80 && (0x80 <= t[2] <= 0x8A || t[2] in {0xA8, 0xA9, 0xAF}))
                         || (t[0] == 0xE2 && t[1] == 0x81 && t[2] == 0x9F)
                         || (t[0] == 0xE3 && t[1] == 0x80 && t[2] == 0x80)) then 3
    else 0
  }

  /** Length of the white-space character at the end; 0 if there is none. */
  function WhiteBack(t: Text): (n: nat)
    ensures n <= |t| && n <= 3
    ensures n > 0 ==> WhiteFront(t[|t| - n..]) == n
  {
    if |t| >= 1 && WhiteFront(t[|t| - 1..]) == 1 then 1
    else if |t| >= 2 && WhiteFront(t[|t| - 2..]) == 2 then 2
    else if |t| >= 3 && WhiteFront(t[|t| - 3..]) == 3 then 3
    else 0
  }

  /** The white-space characters that are recognised are exactly those of Unicode, in their encodings. */
  lemma WhiteFrontExactly(t: Text, n: nat)
    ensures n > 0 && WhiteFront(t) == n <==>
      exists c: Utf8.Scalar :: Utf8.WhiteScalar(c) && |Utf8.ScalarBytes(c)| == n && Utf8.ScalarBytes(c) <= t
  {
    if n > 0 && WhiteFront(t) == n {
      var c := WhiteDecoded(t);
    }
    forall c: Utf8.Scalar | Utf8.WhiteScalar(c) && |Utf8.ScalarBytes(c)| == n && Utf8.ScalarBytes(c) <= t
      ensures n > 0 && WhiteFront(t) == n
    {
      WhiteRecognised(c, t);
    }
  }

  lemma WhiteDecoded(t: Text) returns (c: Utf8.Scalar)
    requires WhiteFront(t) > 0
    ensures Utf8.WhiteScalar(c) && |Utf8.ScalarBytes(c)| == WhiteFront(t) && Utf8.ScalarBytes(c) <= t
  {
    var n := WhiteFront(t);
    if n == 1 {
      c := t[0];
    } else if n == 2 {
      c := t[1];
    } else {
      c := (t[0] as int - 0xE0) * 0x1000 + (t[1] as int - 0x80) * 0x40 + (t[2] as int - 0x80);
    }
  }

  lemma WhiteRecognised(c: Utf8.Scalar, t: Text)
    requires Utf8.WhiteScalar(c) && Utf8.ScalarBytes(c) <= t
    ensures WhiteFront(t) == |Utf8.ScalarBytes(c)|
  {
    var b := Utf8.ScalarBytes(c);
    assert forall i :: 0 <= i < |b| ==> t[i] == b[i];
  }

  function TrimStart(t: Text): (r: Text)
    ensures WhiteFront(r) == 0
    decreases |t|
  {
    if WhiteFront(t) == 0 then t else TrimStart(t[WhiteFront(t)..])
  }

  function TrimEnd(t: Text): (r: Text)
    ensures r <= t && WhiteBack(r) == 0
    decreases |t|
  {
    if WhiteBack(t) == 0 then t else TrimEnd(t[..|t| - WhiteBack(t)])
  }

  predicate Trimmed(t: Text) {
    WhiteFront(t) == 0 && WhiteBack(t) == 0
  }

  /** `trim()` */
  function Trim(t: Text): (r: Text)
    ensures Trimmed(r)
    ensures Trimmed(t) ==> r == t
  {
    TrimEnd(TrimStart(t))
  }

  /** One white-space character after the other. */
  predicate AllWhite(t: Text)
    decreases |t|
  {
    t == [] || (WhiteFront(t) > 0 && AllWhite(t[WhiteFront(t)..]))
  }

  lemma WhiteFrontExtends(a: Text, b: Text)
    requires WhiteFront(a) > 0
    ensures WhiteFront(a + b) == WhiteFront(a)
  {
  }

  lemma {:induction false} AllWhiteAppend(a: Text, b: Text)
    requires AllWhite(a) && AllWhite(b)
    ensures AllWhite(a + b)
    decreases |a|
  {
    if a == [] {
      assert a + b == b;
    } else {
      var n := WhiteFront(a);
      WhiteFrontExtends(a, b);
      hide WhiteFront;
      assert (a + b)[n..] == a[n..] + b;
      AllWhiteAppend(a[n..], b);
    }
  }

  lemma WhiteAtFront(t: Text)
    requires WhiteFront(t) > 0
    ensures var n := WhiteFront(t); AllWhite(t[..n]) && t == t[..n] + t[n..]
  {
    OneWhite(t);
    hide WhiteFront, AllWhite;
  }

  lemma {:induction false} TrimStartExactly(t: Text) returns (front: Text)
    ensures t == front + TrimStart(t) && AllWhite(front)
    decreases |t|
  {
    hide WhiteFront, AllWhite;
    var n := WhiteFront(t);
    if n == 0 {
      front := [];
      NothingIsWhite();
      assert t == [] + t;
    } else {
      var first, rest := t[..n], t[n..];
      WhiteAtFront(t);
      var more := TrimStartExactly(rest);
      front := first + more;
      AllWhiteAppend(first, more);
      Assoc(first, more, TrimStart(rest));
    }
  }

  lemma OneWhite(t: Text)
    requires WhiteFront(t) > 0
    ensures AllWhite(t[..WhiteFront(t)]) && WhiteFront(t[..WhiteFront(t)]) == WhiteFront(t)
  {
    var one := t[..WhiteFront(t)];
    assert WhiteFront(one) == |one| && one[|one|..] == [];
  }

  lemma WhiteAtBack(t: Text)
    requires WhiteBack(t) > 0
    ensures var k := |t| - WhiteBack(t); AllWhite(t[k..]) && t == t[..k] + t[k..]
  {
    var k := |t| - WhiteBack(t);
    OneWhite(t[k..]);
    assert t[k..][..WhiteBack(t)] == t[k..];
    hide AllWhite;
  }

  lemma {:induction false} TrimEndExactly(t: Text) returns (back: Text)
    ensures t == TrimEnd(t) + back && AllWhite(back)
    decreases |t|
  {
    hide WhiteFront, WhiteBack, AllWhite;
    var n := WhiteBack(t);
    if n == 0 {
      back := [];
      NothingIsWhite();
      assert t == t + [];
    } else {
      var front, last := t[..|t| - n], t[|t| - n..];
      WhiteAtBack(t);
      var more := TrimEndExactly(front);
      back := more + last;
      AllWhiteAppend(more, last);
      Assoc(TrimEnd(front), more, last);
    }
  }

  lemma NothingIsWhite()
    ensures AllWhite([])
  {
  }

  /** Trimming removes white space at both ends and nothing else, and leaves none there. */
  lemma TrimExactly(t: Text) returns (front: Text, back: Text)
    ensures t == front + Trim(t) + back && AllWhite(front) && AllWhite(back) && Trimmed(Trim(t))
  {
    front := TrimStartExactly(t);
    back := TrimEndExactly(TrimStart(t));
    Assoc(front, Trim(t), back);
  }

  lemma {:induction false} TrimStartIsSuffix(t: Text)
    ensures forall b :: b in TrimStart(t) ==> b in t
    decreases |t|
  {
    if WhiteFront(t) > 0 {
      TrimStartIsSuffix(t[WhiteFront(t)..]);
    }
  }

  lemma TrimIsPart(t: Text)
    ensures forall b :: b in Trim(t) ==> b in t
  {
    TrimStartIsSuffix(t);
  }

  /** Trimming removes whole characters. */
  lemma {:induction false} TrimStaysValid(t: Text)
    requires Utf8.Valid(t)
    ensures Utf8.Valid(Trim(t))
  {
    TrimStartStaysValid(t);
    TrimEndStaysValid(TrimStart(t));
  }

  lemma {:induction false} TrimStartStaysValid(t: Text)
    requires Utf8.Valid(t)
    ensures Utf8.Valid(TrimStart(t))
    decreases |t|
  {
    if WhiteFront(t) > 0 {
      assert Utf8.Matched(t) == WhiteFront(t);
      TrimStartStaysValid(t[WhiteFront(t)..]);
    }
  }

  lemma {:induction false} TrimEndStaysValid(t: Text)
    requires Utf8.Valid(t)
    ensures Utf8.Valid(TrimEnd(t))
    decreases |t|
  {
    var n := WhiteBack(t);
    if n > 0 {
      assert t == t[..|t| - n] + t[|t| - n..];
      ValidFront(t[..|t| - n], t[|t| - n..]);
      TrimEndStaysValid(t[..|t| - n]);
    }
  }

  /** Cutting before a byte that is not a continuation byte leaves valid UTF-8. */
  lemma {:induction false} ValidFront(front: Text, back: Text)
    requires Utf8.Valid(front + back) && back != [] && !Utf8.Continuation(back[0])
    ensures Utf8.Valid(front)
    decreases |front|
  {
    if front != [] {
      var t := front + back;
      var n := Utf8.Matched(t);
      assert t[|front|] == back[0];
      assert n <= |front|;
      assert Utf8.Matched(front) == n;
      assert t[n..] == front[n..] + back;
      ValidFront(front[n..], back);
    }
  }

  /** Length of the word at the front. */
  function WordLen(t: Text): (n: nat)
    ensures n <= |t|
    ensures t != [] && WhiteFront(t) == 0 ==> n > 0
  {
    if t == [] || WhiteFront(t) > 0 then 0 else 1 + WordLen(t[1..])
  }

  /** `split_whitespace()` */
  function Words(t: Text): seq<Text>
    decreases |t|
  {
    if t == [] then []
    else if WhiteFront(t) > 0 then Words(t[WhiteFront(t)..])
    else [t[..WordLen(t)]] + Words(t[WordLen(t)..])
  }

  lemma {:induction false} WordsSkip(white: Text, t: Text)
    requires AllWhite(white)
    ensures Words(white + t) == Words(t)
    decreases |white|
  {
    if white == [] {
      assert white + t == t;
    } else {
      var n := WhiteFront(white);
      WhiteFrontExtends(white, t);
      hide WhiteFront;
      assert (white + t)[n..] == white[n..] + t;
      WordsSkip(white[n..], t);
    }
  }

  /** No white-space character starts before offset `n`, and one starts there or the text ends. */
  predicate WordEnds(t: Text, n: nat) {
    && n <= |t| && (n == |t| || WhiteFront(t[n..]) > 0)
    && forall i :: 0 <= i < n ==> WhiteFront(t[i..]) == 0
  }

  lemma {:induction false} WordLenExactly(t: Text, n: nat)
    ensures WordEnds(t, n) <==> WordLen(t) == n
  {
    hide WhiteFront;
    assert t[0..] == t;
    if t != [] && WhiteFront(t) == 0 && n > 0 {
      WordLenExactly(t[1..], n - 1);
      if n <= |t| {
        assert t[1..][n - 1..] == t[n..];
        assert forall i :: 0 <= i < n - 1 ==> t[1..][i..] == t[i + 1..];
        assert forall i :: 0 < i < n ==> t[1..][i - 1..] == t[i..];
      }
    }
  }

  /** Leading white space is skipped, and a word reaches to the next white space or the end. */
  lemma WordsExactly(white: Text, t: Text, n: nat)
    requires AllWhite(white) && n > 0 && WordEnds(t, n)
    ensures Words(white + t) == [t[..n]] + Words(t[n..])
  {
    WordsSkip(white, t);
    WordLenExactly(t, n);
    assert t[0..] == t;
  }

  /** A text that has words starts with white space `t[..p]` and a word of `n` bytes. */
  lemma {:induction false} FirstWord(t: Text) returns (p: nat, n: nat)
    requires Words(t) != []
    ensures n > 0 && p + n <= |t| && AllWhite(t[..p]) && WordEnds(t[p..], n)
    ensures Words(t) == [t[p..p + n]] + Words(t[p + n..])
    decreases |t|
  {
    hide WhiteFront, AllWhite, WordEnds;
    var k := WhiteFront(t);
    if k == 0 {
      p, n := 0, WordLen(t);
      WordLenExactly(t, n);
      NothingIsWhite();
      assert t[0..] == t && t[..0] == [];
    } else {
      WhiteAtFront(t);
      var p', n' := FirstWord(t[k..]);
      p, n := k + p', n';
      AllWhiteAppend(t[..k], t[k..][..p']);
      Shifted(t, k, p', n');
    }
  }

  lemma Shifted(t: Text, k: nat, p: nat, n: nat)
    requires k + p + n <= |t|
    ensures t[..k + p] == t[..k] + t[k..][..p] && t[k + p..] == t[k..][p..] && t[k + p + n..] == t[k..][p + n..]
    ensures t[k + p..k + p + n] == t[k..][p..p + n]
  {
  }

  /** `t` is white space, a word up to `q`, white space, and the word `id` from `r` to `u`, then more or nothing. */
  ghost predicate SecondWordAt(t: Text, id: Text, p: nat, q: nat, r: nat, u: nat) {
    && p < q <= r < u <= |t|
    && AllWhite(t[..p]) && WordEnds(t[p..], q - p) && AllWhite(t[q..r]) && WordEnds(t[r..], u - r)
    && t[r..u] == id
  }

  ghost predicate SecondWord(t: Text, id: Text) {
    exists p, q, r, u :: SecondWordAt(t, id, p, q, r, u)
  }

  lemma SecondWordOnly(t: Text, id: Text, p: nat, q: nat, r: nat, u: nat)
    requires SecondWordAt(t, id, p, q, r, u)
    ensures |Words(t)| > 1 && Words(t)[1] == id
  {
    hide WordEnds, AllWhite, WhiteFront, Words;
    WordsExactly(t[..p], t[p..], q - p);
    assert t == t[..p] + t[p..] && t[p..][q - p..] == t[q..];
    WordsExactly(t[q..r], t[r..], u - r);
    assert t[q..] == t[q..r] + t[r..] && t[r..][..u - r] == t[r..u];
  }

  /** `split_whitespace().nth(1)` */
  lemma SecondWordExactly(t: Text, id: Text)
    ensures |Words(t)| > 1 && Words(t)[1] == id <==> SecondWord(t, id)
  {
    hide Words, SecondWordAt;
    if |Words(t)| > 1 && Words(t)[1] == id {
      SecondWordFound(t);
    }
    if SecondWord(t, id) {
      var p, q, r, u :| SecondWordAt(t, id, p, q, r, u);
      SecondWordOnly(t, id, p, q, r, u);
    }
  }

  lemma SecondWordFound(t: Text)
    requires |Words(t)| > 1
    ensures SecondWord(t, Words(t)[1])
  {
    hide WordEnds, AllWhite, WhiteFront, Words;
    var p, n := FirstWord(t);
    var q := p + n;
    var p', m := FirstWord(t[q..]);
    var r := q + p';
    assert t[q..][..p'] == t[q..r] && t[q..][p'..] == t[r..] && t[q..][p'..p' + m] == t[r..r + m];
    assert SecondWordAt(t, Words(t)[1], p, q, r, r + m);
  }

  /** Printable ASCII other than a space or a comma: what listener identifiers are made of. */
  predicate Token(t: Text) {
    t != [] && forall i :: 0 <= i < |t| ==> 33 <= t[i] <= 126 && t[i] != COMMA
  }

  lemma {:induction false} TokenWordLen(t: Text, rest: Text)
    requires Token(t) && (rest != [] ==> WhiteFront(rest) > 0)
    ensures WordLen(t + rest) == |t|
  {
    assert (t + rest)[1..] == t[1..] + rest;
    if |t| > 1 {
      TokenWordLen(t[1..], rest);
    } else {
      assert t[1..] + rest == rest;
    }
  }

  lemma TwoWords(a: Text, b: Text)
    requires Token(a) && Token(b)
    ensures Words(a + [SPACE] + b) == [a, b]
  {
    var t := a + [SPACE] + b;
    assert t == a + ([SPACE] + b);
    TokenWordLen(a, [SPACE] + b);
    assert t[..|a|] == a && t[|a|..] == [SPACE] + b;
    assert Words(t) == [a] + Words([SPACE] + b);
    assert ([SPACE] + b)[1..] == b;
    assert b + [] == b;
    TokenWordLen(b, []);
    assert b[..|b|] == b && b[|b|..] == [];
    assert Words(b) == [b] + Words([]);
    assert WhiteFront([SPACE] + b) == 1;
    assert Words([SPACE] + b) == Words(b);
    assert [a] + [b] == [a, b];
  }

  lemma PrintableIsTrimmed(t: Text)
    requires t != [] ==> 33 <= t[0] <= 126 && 33 <= t[|t| - 1] <= 126
    ensures Trimmed(t)
  {
  }

  lemma {:induction false} AsciiIsValid(t: Text)
    requires forall i :: 0 <= i < |t| ==> t[i] < 128
    ensures Utf8.Valid(t)
  {
    if t != [] {
      AsciiIsValid(t[1..]);
    }
  }

  // ----- header lists

  datatype Header = Header(name: Text, value: Text)

  /** The comma-separated items of every header with this name, in order. */
  function Items(headers: seq<Header>, name: Text): seq<Text> {
    if headers == [] then []
    else
      (if EqIgnoreCase(headers[0].name, name) then Split(headers[0].value, COMMA) else [])
      + Items(headers[1..], name)
  }

  lemma {:induction false} ItemsAppend(a: seq<Header>, b: seq<Header>, name: Text)
    ensures Items(a + b, name) == Items(a, name) + Items(b, name)
  {
    if a == [] {
      assert a + b == b;
    } else {
      assert (a + b)[1..] == a[1..] + b;
      ItemsAppend(a[1..], b, name);
    }
  }

  /** A comma item of some header with this name, in any case. */
  ghost predicate HeaderItem(headers: seq<Header>, name: string, item: Text) {
    exists h :: h in headers && Spelled(h.name, name) && item in Split(h.value, COMMA)
  }

  lemma ItemsExactly(headers: seq<Header>, name: string, item: Text)
    requires AsciiWord(name)
    ensures item in Items(headers, Ascii(name)) <==> HeaderItem(headers, name, item)
  {
    ItemOrigin(headers, Ascii(name), item);
    forall h: Header ensures EqIgnoreCase(h.name, Ascii(name)) <==> Spelled(h.name, name) {
      SpelledExactly(h.name, name);
    }
    hide EqIgnoreCase, Spelled, Split, Items, Ascii;
  }

  lemma AllItemsExactly(headers: seq<Header>, name: string)
    requires AsciiWord(name)
    ensures forall item: Text :: item in Items(headers, Ascii(name)) <==> HeaderItem(headers, name, item)
  {
    hide Items, Ascii, HeaderItem, AsciiWord;
    forall item: Text ensures item in Items(headers, Ascii(name)) <==> HeaderItem(headers, name, item) {
      ItemsExactly(headers, name, item);
    }
  }

  lemma {:induction false} ItemOrigin(headers: seq<Header>, name: Text, item: Text)
    ensures item in Items(headers, name)
      <==> exists h :: h in headers && EqIgnoreCase(h.name, name) && item in Split(h.value, COMMA)
  {
    if headers != [] {
      ItemOrigin(headers[1..], name, item);
      assert forall h :: h in headers <==> h == headers[0] || h in headers[1..];
    }
  }

  lemma {:induction false} NoItems(headers: seq<Header>, name: Text)
    requires forall i :: 0 <= i < |headers| ==> !EqIgnoreCase(headers[i].name, name)
    ensures Items(headers, name) == []
  {
    hide EqIgnoreCase, Split;
    if headers != [] {
      NoItems(headers[1..], name);
    }
  }

  lemma SameNameReflexive(name: Text)
    ensures EqIgnoreCase(name, name)
  {
  }

  /** A header whose value is no list. */
  lemma OneItem(name: Text, value: Text)
    requires COMMA !in value
    ensures Items([Header(name, value)], name) == [value]
  {
    SplitWhole(value, COMMA);
    SameNameReflexive(name);
    hide Split, EqIgnoreCase;
    assert [Header(name, value)][1..] == [];
    assert [value] + [] == [value];
  }
}
