/** The bounded log of recent errors, and the HTML escaping of what is shown from it. */
module ErrorLog {
  import opened Basics
  import Utf8

  const MAX_RECENT_ERRORS := 100
  const MAX_ERROR_MESSAGE_CHARS := 240

  // ----- normalisation

  predicate White(c: char) {
    Utf8.WhiteScalar(c as int)
  }

  function WordLen(s: string): (n: nat)
    ensures n <= |s|
    ensures s != "" && !White(s[0]) ==> n > 0
    ensures forall i :: 0 <= i < n ==> !White(s[i])
    ensures n < |s| ==> White(s[n])
  {
    if s == "" || White(s[0]) then 0 else 1 + WordLen(s[1..])
  }

  /** `split_whitespace()` */
  function Words(s: string): seq<string>
    decreases |s|
  {
    if s == "" then []
    else if White(s[0]) then Words(s[1..])
    else [s[..WordLen(s)]] + Words(s[WordLen(s)..])
  }

  /** `join(" ")` */
  function Join(words: seq<string>): string {
    if words == [] then "" else if |words| == 1 then words[0] else words[0] + " " + Join(words[1..])
  }

  function Normalize(message: string): string {
    Join(Words(message))
  }

  predicate Word(w: string) {
    w != "" && forall c :: c in w ==> !White(c)
  }

  lemma {:induction false} WordsAreWords(s: string)
    ensures forall w :: w in Words(s) ==> Word(w)
    decreases |s|
  {
    if s != "" {
      WordsAreWords(if White(s[0]) then s[1..] else s[WordLen(s)..]);
    }
  }

  lemma WordAtFront(w: string, rest: string)
    requires Word(w) && (rest != "" ==> White(rest[0]))
    ensures Words(w + rest) == [w] + Words(rest)
  {
    var s := w + rest;
    var n := WordLen(s);
    assert forall k :: 0 <= k < |w| ==> s[k] == w[k] && w[k] in w;
    assert rest != "" ==> White(s[|w|]);
    assert n == |w|;
    FrontAndBack(w, rest);
  }

  // ----- the words of a message are what stands between its white space

  /** White space, a word, white space, a word, and so on; white space comes last. */
  function Spaced(gaps: seq<string>, words: seq<string>): string
    requires |gaps| == |words| + 1
  {
    if words == [] then gaps[0] else gaps[0] + (words[0] + Spaced(gaps[1..], words[1..]))
  }

  predicate Gap(g: string) {
    forall c :: c in g ==> White(c)
  }

  /** Only the first and the last gap may be empty. */
  ghost predicate Spacing(gaps: seq<string>, words: seq<string>) {
    && |gaps| == |words| + 1
    && (forall i :: 0 <= i < |words| ==> Word(words[i]))
    && (forall i :: 0 <= i < |gaps| ==> Gap(gaps[i]) && (0 < i < |words| ==> gaps[i] != ""))
  }

  lemma {:induction false} GapSkips(gap: string, rest: string)
    requires Gap(gap)
    ensures Words(gap + rest) == Words(rest)
  {
    if gap == "" {
      assert gap + rest == rest;
    } else {
      assert gap[0] in gap && (gap + rest)[1..] == gap[1..] + rest;
      GapSkips(gap[1..], rest);
    }
  }

  lemma {:induction false} WordsOfSpaced(gaps: seq<string>, words: seq<string>)
    requires Spacing(gaps, words)
    ensures Words(Spaced(gaps, words)) == words
    decreases |words|
  {
    hide Words, Word, Gap;
    if words == [] {
      GapSkips(gaps[0], "");
      assert gaps[0] + "" == gaps[0];
      NoWords();
    } else {
      var rest := Spaced(gaps[1..], words[1..]);
      SpacedStart(gaps[1..], words[1..]);
      GapSkips(gaps[0], words[0] + rest);
      WordAtFront(words[0], rest);
      WordsOfSpaced(gaps[1..], words[1..]);
      assert words == [words[0]] + words[1..];
    }
  }

  lemma NoWords()
    ensures Words("") == []
  {
  }

  /** Behind a word comes white space or nothing. */
  lemma SpacedStart(gaps: seq<string>, words: seq<string>)
    requires |gaps| == |words| + 1 && Gap(gaps[0]) && (words != [] ==> gaps[0] != "")
    ensures Spaced(gaps, words) != "" ==> White(Spaced(gaps, words)[0])
  {
    if gaps[0] != "" {
      assert gaps[0][0] in gaps[0];
    }
  }

  /** Every message is such an alternation. */
  lemma {:induction false} EveryMessageIsSpaced(s: string) returns (gaps: seq<string>)
    ensures Spacing(gaps, Words(s)) && Spaced(gaps, Words(s)) == s
    decreases |s|
  {
    if s == "" {
      gaps := [""];
    } else if White(s[0]) {
      var g := EveryMessageIsSpaced(s[1..]);
      gaps := [[s[0]] + g[0]] + g[1..];
      MoreGap(s[0], s[1..], g, Words(s[1..]));
    } else {
      var n := WordLen(s);
      var g := EveryMessageIsSpaced(s[n..]);
      gaps := [""] + g;
      WordBefore(s, n, g, Words(s[n..]));
    }
  }

  lemma MoreGap(c: char, rest: string, g: seq<string>, words: seq<string>)
    requires White(c) && Spacing(g, words) && Spaced(g, words) == rest
    ensures var gaps := [[c] + g[0]] + g[1..];
            Spacing(gaps, words) && Spaced(gaps, words) == [c] + rest
  {
    hide White, Word;
    var gaps := [[c] + g[0]] + g[1..];
    assert gaps[1..] == g[1..];
    assert Gap(gaps[0]);
    if words != [] {
      Assoc([c], g[0], words[0] + Spaced(g[1..], words[1..]));
    }
  }

  lemma WordComesFirst(g: seq<string>, words: seq<string>)
    requires |g| == |words| + 1 && words != [] && Word(words[0]) && g[0] == ""
    ensures Spaced(g, words) != "" && !White(Spaced(g, words)[0])
  {
    assert words[0][0] in words[0] && Spaced(g, words)[0] == words[0][0];
  }

  lemma WordBefore(s: string, n: nat, g: seq<string>, words: seq<string>)
    requires 0 < n <= |s| && (forall i :: 0 <= i < n ==> !White(s[i])) && (n < |s| ==> White(s[n]))
    requires Spacing(g, words) && Spaced(g, words) == s[n..]
    ensures Spacing([""] + g, [s[..n]] + words) && Spaced([""] + g, [s[..n]] + words) == s
  {
    hide White;
    var gaps, all := [""] + g, [s[..n]] + words;
    assert gaps[1..] == g && all[1..] == words;
    assert Word(s[..n]);
    if words != [] && g[0] == "" {
      WordComesFirst(g, words);
      assert false;
    }
    assert s == s[..n] + s[n..] && "" + (s[..n] + s[n..]) == s;
  }

  lemma {:induction false} WordsOfJoin(words: seq<string>)
    requires forall w :: w in words ==> Word(w)
    ensures Words(Join(words)) == words
  {
    if |words| == 1 {
      assert words[0] + "" == words[0] && words == [words[0]];
      WordAtFront(words[0], "");
    } else if |words| > 1 {
      var rest := " " + Join(words[1..]);
      assert Join(words) == words[0] + rest;
      WordAtFront(words[0], rest);
      WordsOfJoin(words[1..]);
      assert rest[1..] == Join(words[1..]);
      assert words == [words[0]] + words[1..];
    }
  }

  /** The only white space is single spaces between other characters: no line break, none at the ends. */
  ghost predicate OneLine(s: string) {
    forall i :: 0 <= i < |s| && White(s[i]) ==>
      s[i] == ' ' && 0 < i < |s| - 1 && !White(s[i - 1]) && !White(s[i + 1])
  }

  /** Words joined are one line that neither starts nor ends with white space. */
  lemma {:induction false} JoinIsOneLine(words: seq<string>)
    requires forall w :: w in words ==> Word(w)
    ensures OneLine(Join(words))
    ensures words != [] ==> Join(words) != "" && !White(Join(words)[0])
  {
    if words != [] {
      var w := words[0];
      assert w in words;
      assert forall i :: 0 <= i < |w| ==> w[i] in w;
      if |words| > 1 {
        JoinIsOneLine(words[1..]);
        LinesJoin(w, Join(words[1..]));
      }
    }
  }

  lemma LinesJoin(w: string, rest: string)
    requires Word(w) && OneLine(rest) && rest != "" && !White(rest[0])
    ensures OneLine(w + " " + rest)
  {
    var s := w + " " + rest;
    assert forall i :: 0 <= i < |w| ==> s[i] == w[i] && w[i] in w;
    assert forall i :: 0 <= i < |rest| ==> s[|w| + 1 + i] == rest[i];
    forall i | 0 <= i < |s| && White(s[i])
      ensures s[i] == ' ' && 0 < i < |s| - 1 && !White(s[i - 1]) && !White(s[i + 1])
    {
      if i > |w| {
        assert s[i] == rest[i - |w| - 1];
      }
    }
  }

  /** The words of a message, exactly: those from which, with white space around them, it is made up. */
  lemma WordsExactly(s: string, words: seq<string>)
    ensures Words(s) == words <==> exists gaps :: Spacing(gaps, words) && Spaced(gaps, words) == s
  {
    hide Words, Word, Gap;
    if Words(s) == words {
      var gaps := EveryMessageIsSpaced(s);
    }
    forall gaps | Spacing(gaps, words) && Spaced(gaps, words) == s ensures Words(s) == words {
      WordsOfSpaced(gaps, words);
    }
  }

  /**
   Normalising keeps the words and nothing else: the words of two messages agree exactly when their
   normal forms do.
   */
  lemma NormalizeExact(a: string, b: string)
    ensures Words(Normalize(a)) == Words(a)
    ensures Normalize(Normalize(a)) == Normalize(a)
    ensures Normalize(a) == Normalize(b) <==> Words(a) == Words(b)
  {
    WordsAreWords(a);
    WordsAreWords(b);
    WordsOfJoin(Words(a));
    WordsOfJoin(Words(b));
  }

  // ----- truncation

  function Utf8Len(c: char): (n: nat)
    ensures 1 <= n <= 4
  {
    var u := c as int;
    if u < 0x80 then 1 else if u < 0x800 then 2 else if u < 0x1_0000 then 3 else 4
  }

  /** `str::len()`: the length in bytes. */
  function ByteLen(s: string): (n: nat)
    ensures n >= |s|
  {
    if s == "" then 0 else Utf8Len(s[0]) + ByteLen(s[1..])
  }

  /** `char_indices().nth(n)`: the byte offset of character `n`, if there is one. */
  function NthCharOffset(s: string, n: nat): Option<nat> {
    if n < |s| then Some(ByteLen(s[..n])) else None
  }

  function Truncate(message: string): string {
    if ByteLen(message) <= MAX_ERROR_MESSAGE_CHARS then message
    else match NthCharOffset(message, MAX_ERROR_MESSAGE_CHARS)
      case Some(end) => FirstBytes(message, end) + "..."
      case None => message
  }

  /** `&s[..end]`: the characters that lie within the first `end` bytes. */
  function FirstBytes(s: string, end: nat): string {
    if s == "" || end < Utf8Len(s[0]) then "" else [s[0]] + FirstBytes(s[1..], end - Utf8Len(s[0]))
  }

  lemma {:induction false} FirstBytesAtBoundary(s: string, n: nat)
    requires n <= |s|
    ensures FirstBytes(s, ByteLen(s[..n])) == s[..n]
    decreases n
  {
    if n > 0 {
      assert s[..n] == [s[0]] + s[1..][..n - 1];
      assert ByteLen(s[..n]) == Utf8Len(s[0]) + ByteLen(s[1..][..n - 1]) by {
        assert s[..n][1..] == s[1..][..n - 1];
      }
      FirstBytesAtBoundary(s[1..], n - 1);
    }
  }

  /** The shortcut on the byte length agrees with counting characters, whatever the characters are. */
  lemma TruncateExact(message: string)
    ensures Truncate(message) ==
      if |message| <= 240 then message else message[..240] + "..."
    ensures |Truncate(message)| <= 243
  {
    if |message| > MAX_ERROR_MESSAGE_CHARS {
      FirstBytesAtBoundary(message, MAX_ERROR_MESSAGE_CHARS);
    }
  }

  // ----- the ring buffer

  datatype RecentError = RecentError(unixSeconds: nat, message: string)

  /** A call of `record_error` and the time it read from the clock. */
  datatype Report = Report(now: nat, message: string)

  function Entry(r: Report): RecentError {
    RecentError(r.now, Truncate(Normalize(r.message)))
  }

  /**
   An entry is the words of the message with single spaces between them, cut after 240 characters. It
   is one line: whatever white space the message holds, line breaks included, none other is left.
   */
  lemma EntryExact(r: Report)
    ensures var line := Normalize(r.message);
            Entry(r).message ==
              if |line| <= 240 then line else line[..240] + "..."
    ensures |Entry(r).message| <= 243 && Entry(r).unixSeconds == r.now
    ensures OneLine(Normalize(r.message)) && OneLine(Entry(r).message)
    ensures forall c :: c in Entry(r).message ==> c !in LINE_ENDS
  {
    var line := Normalize(r.message);
    TruncateExact(line);
    WordsAreWords(r.message);
    JoinIsOneLine(Words(r.message));
    hide Normalize, Truncate;
    if |line| > MAX_ERROR_MESSAGE_CHARS {
      CutIsOneLine(line, MAX_ERROR_MESSAGE_CHARS);
    }
    OneLineHasNoEnd(Entry(r).message);
  }

  /** Tab, line feed, vertical tab, form feed, carriage return, next line, line and paragraph separator. */
  const LINE_ENDS: seq<char> :=
    ['\t', '\n', 0xB as char, 0xC as char, '\r', 0x85 as char, 0x2028 as char, 0x2029 as char]

  lemma OneLineHasNoEnd(s: string)
    requires OneLine(s)
    ensures forall c :: c in s ==> c !in LINE_ENDS
  {
    forall i | 0 <= i < |s| ensures s[i] !in LINE_ENDS {
      if s[i] in LINE_ENDS {
        assert White(s[i]);
      }
    }
  }

  lemma CutIsOneLine(s: string, n: nat)
    requires OneLine(s) && n <= |s|
    ensures OneLine(s[..n] + "...")
  {
    var cut := s[..n] + "...";
    assert forall i :: 0 <= i < n ==> cut[i] == s[i];
    assert forall i :: n <= i < |cut| ==> cut[i] == '.';
  }

  function Entries(reports: seq<Report>): (r: seq<RecentError>)
    ensures |r| == |reports| && forall i :: 0 <= i < |r| ==> r[i] == Entry(reports[i])
  {
    seq(|reports|, i requires 0 <= i < |reports| => Entry(reports[i]))
  }

  function LastErrors(history: seq<RecentError>): seq<RecentError> {
    if |history| <= 100 then history else history[|history| - 100..]
  }

  class Stats {
    const enabled: bool
    var recentErrors: seq<RecentError>

    constructor (enabled: bool)
      ensures this.enabled == enabled && recentErrors == []
    {
      this.enabled, recentErrors := enabled, [];
    }

    method RecordError(now: nat, message: string)
      modifies this
      ensures recentErrors ==
        if !enabled then old(recentErrors)
        else (if |old(recentErrors)| == MAX_RECENT_ERRORS then old(recentErrors)[1..] else old(recentErrors))
             + [Entry(Report(now, message))]
    {
      if !enabled {
        return;
      }
      var error := RecentError(now, Truncate(Normalize(message)));
      if |recentErrors| == MAX_RECENT_ERRORS {
        recentErrors := recentErrors[1..];
      }
      recentErrors := recentErrors + [error];
    }

    /** After any calls the buffer is the last hundred of all entries ever recorded, in order. */
    method RecordAll(reports: seq<Report>, ghost before: seq<RecentError>)
      requires enabled && recentErrors == LastErrors(before)
      modifies this
      ensures recentErrors == LastErrors(before + Entries(reports))
    {
      hide Entry;
      assert before + Entries([]) == before;
      for i := 0 to |reports|
        invariant recentErrors == LastErrors(before + Entries(reports[..i]))
      {
        assert Entries(reports[..i + 1]) == Entries(reports[..i]) + [Entry(reports[i])];
        LastOfLonger(before + Entries(reports[..i]), Entry(reports[i]));
        Assoc(before, Entries(reports[..i]), [Entry(reports[i])]);
        RecordError(reports[i].now, reports[i].message);
      }
      assert reports[..|reports|] == reports;
    }
  }

  /** Dropping the oldest of a full buffer and appending keeps the last hundred. */
  lemma LastOfLonger(history: seq<RecentError>, e: RecentError)
    ensures var kept := LastErrors(history);
            LastErrors(history + [e]) == (if |kept| == MAX_RECENT_ERRORS then kept[1..] else kept) + [e]
  {
  }

  // ----- escaping

  function EscapeChar(c: char): string {
    if c == '&' then "&amp;"
    else if c == '<' then "&lt;"
    else if c == '>' then "&gt;"
    else if c == '"' then "&quot;"
    else if c == '\'' then "&#39;"
    else [c]
  }

  function Escape(s: string): string {
    if s == "" then "" else EscapeChar(s[0]) + Escape(s[1..])
  }

  predicate Special(c: char) {
    c in {'<', '>', '"', '\''}
  }

  /** What a browser reads: the five references stand for their characters, other special characters are markup. */
  function Unescape(t: string): Option<string>
    decreases |t|
  {
    if t == "" then Some("")
    else if Special(t[0]) then None
    else if t[0] != '&' then Prepend(t[0], Unescape(t[1..]))
    else if "&amp;" <= t then Prepend('&', Unescape(t[5..]))
    else if "&lt;" <= t then Prepend('<', Unescape(t[4..]))
    else if "&gt;" <= t then Prepend('>', Unescape(t[4..]))
    else if "&quot;" <= t then Prepend('"', Unescape(t[6..]))
    else if "&#39;" <= t then Prepend('\'', Unescape(t[5..]))
    else None
  }

  function Prepend(c: char, rest: Option<string>): Option<string> {
    match rest
    case Some(s) => Some([c] + s)
    case None => None
  }

  lemma UnescapeOne(c: char, rest: string)
    ensures Unescape(EscapeChar(c) + rest) == Prepend(c, Unescape(rest))
  {
    var t := EscapeChar(c) + rest;
    FrontAndBack(EscapeChar(c), rest);
    assert t[0] == EscapeChar(c)[0];
    if c in {'&', '<', '>', '"', '\''} {
      assert t[1] == EscapeChar(c)[1] && t[2] == EscapeChar(c)[2];
    }
  }

  /** Escaping can be undone. */
  lemma {:induction false} UnescapeEscaped(s: string)
    ensures Unescape(Escape(s)) == Some(s)
  {
    if s != "" {
      UnescapeOne(s[0], Escape(s[1..]));
      UnescapeEscaped(s[1..]);
      assert s == [s[0]] + s[1..];
    }
  }

  /** Only escaped text reads back as text. */
  lemma {:induction false} EscapeUnescaped(t: string)
    requires Unescape(t).Some?
    ensures Escape(Unescape(t).value) == t
    decreases |t|
  {
    if t != "" {
      var c := Unescape(t).value[0];
      var n := |EscapeChar(c)|;
      assert t == EscapeChar(c) + t[n..];
      EscapeUnescaped(t[n..]);
      assert Unescape(t).value[1..] == Unescape(t[n..]).value;
    }
  }

  /** No character that could open or close markup is left. */
  lemma {:induction false} EscapedIsInert(s: string)
    ensures forall c :: c in Escape(s) ==> !Special(c)
  {
    if s != "" {
      EscapedIsInert(s[1..]);
      assert forall c :: c in EscapeChar(s[0]) ==> !Special(c);
    }
  }

  lemma EscapeLast(s: string, c: char)
    ensures Escape(s + [c]) == Escape(s) + EscapeChar(c)
  {
    if s == "" {
      assert s + [c] == [c] && [c][1..] == "";
    } else {
      assert (s + [c])[1..] == s[1..] + [c];
      EscapeLast(s[1..], c);
      Assoc(EscapeChar(s[0]), Escape(s[1..]), EscapeChar(c));
    }
  }

  /** `escape_html`: one pass that appends to the result. */
  method EscapeHtml(value: string) returns (escaped: string)
    ensures escaped == Escape(value)
  {
    escaped := "";
    for i := 0 to |value|
      invariant escaped == Escape(value[..i])
    {
      EscapeLast(value[..i], value[i]);
      assert value[..i + 1] == value[..i] + [value[i]];
      match value[i] {
        case '&' => escaped := escaped + "&amp;";
        case '<' => escaped := escaped + "&lt;";
        case '>' => escaped := escaped + "&gt;";
        case '"' => escaped := escaped + "&quot;";
        case '\'' => escaped := escaped + "&#39;";
        case c => escaped := escaped + [c];
      }
    }
    assert value[..|value|] == value;
  }
}
