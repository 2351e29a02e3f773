/**
 The statistics page. The program replaces the placeholders of the page one after the other; this is
 the same as substituting all of them in one pass, so text that gets onto the page is never expanded.
 */
module Template {
  import opened Basics

  datatype Entry = Entry(token: string, value: string)

  /** `str::replace`: every occurrence from left to right; the replacement is not searched again. */
  function Replace(s: string, token: string, value: string): string
    requires token != ""
  {
    if s == "" then ""
    else if token <= s then value + Replace(s[|token|..], token, value)
    else [s[0]] + Replace(s[1..], token, value)
  }

  predicate Brace(c: char) {
    c == '{' || c == '}'
  }

  predicate Plain(s: string) {
    forall c :: c in s ==> !Brace(c)
  }

  /** An opening brace, a name without braces, a closing brace. */
  predicate Placeholder(t: string) {
    |t| >= 2 && t[0] == '{' && t[|t| - 1] == '}' && Plain(t[1..|t| - 1])
  }

  ghost predicate Tokens(entries: seq<Entry>) {
    && (forall e :: e in entries ==> Placeholder(e.token))
    && (forall i, j :: 0 <= i < j < |entries| ==> entries[i].token != entries[j].token)
  }

  /** One replacement after the other. */
  function Render(template: string, entries: seq<Entry>): string
    requires Tokens(entries)
    decreases |entries|
  {
    if entries == [] then template
    else
      assert entries[0] in entries;
      assert Tokens(entries[1..]);
      Render(Replace(template, entries[0].token, entries[0].value), entries[1..])
  }

  /** The first entry whose token starts the text. */
  function Matching(s: string, entries: seq<Entry>): (i: nat)
    ensures i <= |entries|
    ensures i < |entries| ==> entries[i].token <= s
    ensures forall k :: 0 <= k < i ==> !(entries[k].token <= s)
  {
    if entries == [] then 0
    else if entries[0].token <= s then 0
    else 1 + Matching(s, entries[1..])
  }

  /** All placeholders at once, in one pass over the template. */
  function Substitute(s: string, entries: seq<Entry>): string
    requires Tokens(entries)
    decreases |s|
  {
    if s == "" then ""
    else
      var i := Matching(s, entries);
      if i < |entries| then
        assert entries[i] in entries;
        entries[i].value + Substitute(s[|entries[i].token|..], entries)
      else [s[0]] + Substitute(s[1..], entries)
  }

  /**
   No placeholder starts while an opening brace is pending, that is, with no brace since it. `open`
   says whether one is pending at the start.
   */
  ghost predicate Separated(s: string, open: bool, entries: seq<Entry>)
    requires Tokens(entries)
    decreases |s|
  {
    if s == "" then true
    else
      var i := Matching(s, entries);
      if i < |entries| then
        assert entries[i] in entries;
        !open && Separated(s[|entries[i].token|..], false, entries)
      else Separated(s[1..], if Brace(s[0]) then s[0] == '{' else open, entries)
  }

  lemma NoInnerBrace(t: string)
    requires Placeholder(t)
    ensures forall n :: 0 < n < |t| ==> t[n] != '{'
    ensures forall n :: 0 <= n < |t| - 1 ==> t[n] != '}'
  {
    forall n | 0 < n < |t| - 1 ensures !Brace(t[n]) {
      assert t[n] == t[1..|t| - 1][n - 1];
    }
  }

  lemma PlaceholderPrefixes(t: string, u: string, s: string)
    requires Placeholder(t) && Placeholder(u) && t <= s && u <= s
    ensures t == u
  {
    NoInnerBrace(t);
    NoInnerBrace(u);
    assert s[|t| - 1] == '}' && s[|u| - 1] == '}';
    assert t == s[..|t|] && u == s[..|u|];
  }

  lemma MatchIsUnique(s: string, entries: seq<Entry>, i: nat)
    requires Tokens(entries) && i < |entries| && entries[i].token <= s
    ensures Matching(s, entries) == i
  {
    var k := Matching(s, entries);
    assert entries[i] in entries && entries[k] in entries;
    PlaceholderPrefixes(entries[i].token, entries[k].token, s);
  }

  lemma TokenStep(s: string, open: bool, entries: seq<Entry>, i: nat)
    requires Tokens(entries) && i < |entries|
    ensures Substitute(entries[i].token + s, entries) == entries[i].value + Substitute(s, entries)
    ensures Separated(entries[i].token + s, open, entries) <==> !open && Separated(s, false, entries)
  {
    var t := entries[i].token;
    assert entries[i] in entries;
    MatchIsUnique(t + s, entries, i);
    FrontAndBack(t, s);
    hide Placeholder;
  }

  lemma CharStep(c: char, s: string, open: bool, entries: seq<Entry>)
    requires Tokens(entries) && Matching([c] + s, entries) == |entries|
    ensures Substitute([c] + s, entries) == [c] + Substitute(s, entries)
    ensures Separated([c] + s, open, entries) <==> Separated(s, if Brace(c) then c == '{' else open, entries)
  {
    assert ([c] + s)[1..] == s;
    hide Placeholder;
  }

  lemma NoTokenAt(s: string, entries: seq<Entry>)
    requires Tokens(entries) && (s == "" || s[0] != '{')
    ensures Matching(s, entries) == |entries|
  {
    forall k | 0 <= k < |entries| ensures !(entries[k].token <= s) {
      assert entries[k] in entries && entries[k].token[0] == '{';
    }
  }

  /** Text without braces passes through a substitution. */
  lemma {:induction false} PlainPasses(v: string, s: string, entries: seq<Entry>)
    requires Plain(v) && Tokens(entries)
    ensures Substitute(v + s, entries) == v + Substitute(s, entries)
    ensures Separated(v + s, false, entries) <==> Separated(s, false, entries)
  {
    hide Substitute, Separated, Tokens, Placeholder;
    if v == "" {
      assert v + s == s;
      assert v + Substitute(s, entries) == Substitute(s, entries);
    } else {
      assert v[0] in v && v == [v[0]] + v[1..];
      assert v + s == [v[0]] + (v[1..] + s);
      NoTokenAt(v + s, entries);
      CharStep(v[0], v[1..] + s, false, entries);
      PlainPasses(v[1..], s, entries);
      Assoc([v[0]], v[1..], Substitute(s, entries));
    }
  }

  /** A token is copied by the replacement of a different token. */
  lemma {:induction false} OtherTokenStays(u: string, from: nat, s: string, t: string, value: string)
    requires Placeholder(u) && Placeholder(t) && t != u && from <= |u|
    ensures Replace(u[from..] + s, t, value) == u[from..] + Replace(s, t, value)
    decreases |u| - from
  {
    var rest := u[from..] + s;
    if from == |u| {
      assert rest == s;
    } else {
      assert !(t <= rest) by {
        NoInnerBrace(u);
        assert rest[0] == u[from];
        if from == 0 && t <= rest {
          PlaceholderPrefixes(t, u, rest);
        }
      }
      assert rest[1..] == u[from + 1..] + s;
      OtherTokenStays(u, from + 1, s, t, value);
      assert u[from..] == [u[from]] + u[from + 1..];
    }
  }

  /** Behind a pending opening brace a replacement changes nothing up to the next brace. */
  lemma {:induction false} PendingNameStays(s: string, entry: Entry, rest: seq<Entry>, name: string)
    requires Tokens([entry] + rest) && Separated(s, true, [entry] + rest) && Plain(name)
    ensures Placeholder(entry.token)
    ensures name + "}" <= s <==> name + "}" <= Replace(s, entry.token, entry.value)
    decreases |s|
  {
    var all := [entry] + rest;
    assert all[0] == entry && entry in all;
    if s != "" {
      var i := Matching(s, all);
      assert i == |all|;
      assert !(entry.token <= s);
      var p, r, r' := name + "}", Replace(s, entry.token, entry.value), Replace(s[1..], entry.token, entry.value);
      assert r == [s[0]] + r' && r[1..] == r';
      PrefixSteps(p, s);
      PrefixSteps(p, r);
      if name == "" {
        assert p[1..] == "";
      } else {
        assert p[0] == name[0] && name[0] in name && p[1..] == name[1..] + "}";
        if !Brace(s[0]) {
          PendingNameStays(s[1..], entry, rest, name[1..]);
        }
      }
    }
  }

  lemma PrefixSteps(p: string, s: string)
    requires p != "" && s != ""
    ensures p <= s <==> p[0] == s[0] && p[1..] <= s[1..]
  {
    if p[0] == s[0] && p[1..] <= s[1..] {
      assert p == [p[0]] + p[1..] && s == [s[0]] + s[1..];
    }
  }

  /** Where no token starts, none starts after the replacement either. */
  lemma NoNewToken(s: string, open: bool, entry: Entry, rest: seq<Entry>)
    requires Tokens([entry] + rest) && Tokens(rest) && Separated(s, open, [entry] + rest)
    requires s != "" && Matching(s, [entry] + rest) == |rest| + 1
    ensures Placeholder(entry.token)
    ensures Matching([s[0]] + Replace(s[1..], entry.token, entry.value), rest) == |rest|
  {
    var all := [entry] + rest;
    assert all[0] == entry && entry in all;
    var r := [s[0]] + Replace(s[1..], entry.token, entry.value);
    forall k | 0 <= k < |rest| ensures !(rest[k].token <= r) {
      var u := rest[k].token;
      assert rest[k] in rest && rest[k] == all[k + 1];
      assert !(all[k + 1].token <= s);
      FrontAndBack([s[0]], Replace(s[1..], entry.token, entry.value));
      PrefixSteps(u, r);
      PrefixSteps(u, s);
      if s[0] == '{' {
        var name := u[1..|u| - 1];
        assert u[1..] == name + "}";
        PendingNameStays(s[1..], entry, rest, name);
      }
    }
  }

  /** Replacing one token first leaves the other placeholders in place for the substitution. */
  ghost predicate Undisturbed(s: string, open: bool, entry: Entry, rest: seq<Entry>)
    requires Tokens([entry] + rest) && Tokens(rest) && entry.token != ""
  {
    var r := Replace(s, entry.token, entry.value);
    Substitute(r, rest) == Substitute(s, [entry] + rest) && Separated(r, open, rest)
  }

  lemma BehindFirst(s: string, entry: Entry, rest: seq<Entry>)
    requires Tokens([entry] + rest) && Tokens(rest) && Plain(entry.value) && entry.token != ""
    requires Undisturbed(s, false, entry, rest)
    ensures Undisturbed(entry.token + s, false, entry, rest)
  {
    TokenStep(s, false, [entry] + rest, 0);
    PlainPasses(entry.value, Replace(s, entry.token, entry.value), rest);
    FrontAndBack(entry.token, s);
    hide Substitute, Separated, Tokens, Plain;
  }

  lemma BehindOther(s: string, entry: Entry, rest: seq<Entry>, i: nat)
    requires Tokens([entry] + rest) && Tokens(rest) && entry.token != "" && i < |rest|
    requires Undisturbed(s, false, entry, rest)
    ensures Undisturbed(rest[i].token + s, false, entry, rest)
  {
    var all, u := [entry] + rest, rest[i].token;
    assert all[0] == entry && all[i + 1] == rest[i] && entry in all && rest[i] in all;
    TokenStep(s, false, all, i + 1);
    OtherTokenStays(u, 0, s, entry.token, entry.value);
    assert u[0..] == u;
    TokenStep(Replace(s, entry.token, entry.value), false, rest, i);
    hide Substitute, Separated, Tokens;
  }

  lemma BehindToken(s: string, entry: Entry, rest: seq<Entry>, i: nat)
    requires Tokens([entry] + rest) && Tokens(rest) && Plain(entry.value) && entry.token != "" && i < |[entry] + rest|
    requires Undisturbed(s, false, entry, rest)
    ensures Undisturbed(([entry] + rest)[i].token + s, false, entry, rest)
  {
    hide Undisturbed, Tokens, Plain;
    if i == 0 {
      BehindFirst(s, entry, rest);
    } else {
      BehindOther(s, entry, rest, i - 1);
    }
  }

  lemma BehindChar(c: char, s: string, open: bool, entry: Entry, rest: seq<Entry>)
    requires Tokens([entry] + rest) && Tokens(rest) && entry.token != ""
    requires Separated([c] + s, open, [entry] + rest) && Matching([c] + s, [entry] + rest) == |rest| + 1
    requires Undisturbed(s, if Brace(c) then c == '{' else open, entry, rest)
    ensures Undisturbed([c] + s, open, entry, rest)
  {
    var all := [entry] + rest;
    assert all[0] == entry && ([c] + s)[1..] == s;
    CharStep(c, s, open, all);
    NoNewToken([c] + s, open, entry, rest);
    CharStep(c, Replace(s, entry.token, entry.value), open, rest);
    hide Substitute, Separated, Tokens;
  }

  lemma EmptyUndisturbed(open: bool, entry: Entry, rest: seq<Entry>)
    requires Tokens([entry] + rest) && Tokens(rest) && entry.token != ""
    ensures Undisturbed("", open, entry, rest)
  {
  }

  /** The placeholder or the single character at the front of a separated text. */
  lemma Front(s: string, open: bool, entries: seq<Entry>) returns (head: string, tail: string)
    requires Tokens(entries) && s != "" && Separated(s, open, entries)
    ensures s == head + tail && head != ""
    ensures var i := Matching(s, entries);
      if i < |entries| then head == entries[i].token && !open && Separated(tail, false, entries)
      else |head| == 1 && Separated(tail, if Brace(head[0]) then head[0] == '{' else open, entries)
  {
    var i := Matching(s, entries);
    hide Placeholder;
    if i < |entries| {
      TokenIsNotEmpty(entries, i);
      head, tail := entries[i].token, s[|entries[i].token|..];
    } else {
      head, tail := [s[0]], s[1..];
    }
  }

  /** Replacing one token first, by text without braces, does not disturb the substitution of the others. */
  lemma {:induction false} ReplaceFirst(s: string, open: bool, entry: Entry, rest: seq<Entry>)
    requires Tokens([entry] + rest) && Tokens(rest) && Plain(entry.value) && entry.token != ""
    requires Separated(s, open, [entry] + rest)
    ensures Undisturbed(s, open, entry, rest)
    decreases |s|
  {
    if s == "" {
      EmptyUndisturbed(open, entry, rest);
    } else {
      hide Substitute, Separated, Undisturbed, Tokens, Plain, Placeholder, Replace, Matching, Brace;
      var all := [entry] + rest;
      var i := Matching(s, all);
      var head, tail := Front(s, open, all);
      if i == |all| {
        ReplaceFirst(tail, if Brace(head[0]) then head[0] == '{' else open, entry, rest);
        assert head == [head[0]];
        BehindChar(head[0], tail, open, entry, rest);
      } else {
        ReplaceFirst(tail, false, entry, rest);
        BehindToken(tail, entry, rest, i);
      }
    }
  }

  lemma {:induction false} ReplaceLast(s: string, entry: Entry)
    requires Tokens([entry])
    ensures Placeholder(entry.token)
    ensures Replace(s, entry.token, entry.value) == Substitute(s, [entry])
    decreases |s|
  {
    assert [entry][0] == entry && entry in [entry];
    if s != "" {
      if entry.token <= s {
        ReplaceLast(s[|entry.token|..], entry);
      } else {
        ReplaceLast(s[1..], entry);
      }
    }
  }

  lemma {:induction false} NothingToReplace(s: string)
    ensures Tokens([]) && Substitute(s, []) == s
    decreases |s|
  {
    if s != "" {
      NothingToReplace(s[1..]);
      assert s == [s[0]] + s[1..];
    }
  }

  /**
   Replacing the placeholders in turn equals substituting them all in one pass, for every template
   whose placeholders are separated and all values but the last without braces; the last value is
   arbitrary.
   */
  lemma {:induction false} RenderIsOnePass(template: string, entries: seq<Entry>)
    requires Tokens(entries) && Separated(template, false, entries)
    requires forall i :: 0 <= i < |entries| - 1 ==> Plain(entries[i].value)
    ensures Render(template, entries) == Substitute(template, entries)
    decreases |entries|
  {
    if entries == [] {
      NothingToReplace(template);
    } else {
      var entry, rest := entries[0], entries[1..];
      assert entries == [entry] + rest;
      assert forall e :: e in rest ==> e in entries;
      if rest == [] {
        ReplaceLast(template, entry);
        assert entries == [entry];
        assert Render(template, entries) == Render(Replace(template, entry.token, entry.value), []);
      } else {
        assert entry in entries;
        ReplaceFirst(template, false, entry, rest);
        RenderIsOnePass(Replace(template, entry.token, entry.value), rest);
      }
    }
  }

  /** The value of entry `i` stands between the substitutions of what is around its placeholder. */
  ghost predicate Literal(before: string, entries: seq<Entry>, i: nat, after: string)
    requires Tokens(entries) && i < |entries|
  {
    Substitute(before + entries[i].token + after, entries)
      == Substitute(before, entries) + entries[i].value + Substitute(after, entries)
  }

  lemma LiteralBehindToken(before: string, entries: seq<Entry>, i: nat, after: string, k: nat)
    requires Tokens(entries) && i < |entries| && k < |entries| && Literal(before, entries, i, after)
    ensures Literal(entries[k].token + before, entries, i, after)
  {
    hide Substitute, Tokens;
    var t, u := entries[k].token, entries[i].token;
    TokenStep(before, false, entries, k);
    TokenStep(before + u + after, false, entries, k);
    Regroup(t, before, u, after);
    Regroup(entries[k].value, Substitute(before, entries), entries[i].value, Substitute(after, entries));
  }

  lemma LiteralBehindChar(c: char, before: string, entries: seq<Entry>, i: nat, after: string)
    requires Tokens(entries) && i < |entries| && Literal(before, entries, i, after)
    requires Matching([c] + before, entries) == |entries|
    ensures Literal([c] + before, entries, i, after)
  {
    hide Substitute, Tokens;
    var u := entries[i].token;
    NoneAcross([c] + before, entries, i, after);
    Regroup([c], before, u, after);
    CharStep(c, before, false, entries);
    CharStep(c, before + u + after, false, entries);
    Regroup([c], Substitute(before, entries), entries[i].value, Substitute(after, entries));
  }

  /** A value appears on the page as it is, whatever surrounds its placeholder, braces and tokens included. */
  lemma {:induction false} ValueIsLiteral(before: string, entries: seq<Entry>, i: nat, after: string)
    requires Tokens(entries) && i < |entries|
    ensures Literal(before, entries, i, after)
    decreases |before|
  {
    if before == "" {
      assert "" + entries[i].token + after == entries[i].token + after;
      TokenStep(after, false, entries, i);
      EmptySubstitute(entries);
      assert "" + entries[i].value == entries[i].value;
    } else {
      hide Substitute, Tokens, Literal;
      var k := Matching(before, entries);
      if k < |entries| {
        var t := entries[k].token;
        TokenIsNotEmpty(entries, k);
        assert before == t + before[|t|..];
        ValueIsLiteral(before[|t|..], entries, i, after);
        LiteralBehindToken(before[|t|..], entries, i, after, k);
      } else {
        assert before == [before[0]] + before[1..];
        ValueIsLiteral(before[1..], entries, i, after);
        LiteralBehindChar(before[0], before[1..], entries, i, after);
      }
    }
  }

  lemma EmptySubstitute(entries: seq<Entry>)
    requires Tokens(entries)
    ensures Substitute("", entries) == ""
  {
  }

  lemma TokenIsNotEmpty(entries: seq<Entry>, i: nat)
    requires Tokens(entries) && i < |entries|
    ensures entries[i].token != ""
  {
    assert entries[i] in entries;
  }

  lemma Regroup(a: string, b: string, c: string, d: string)
    ensures a + (b + c + d) == (a + b) + c + d
  {
  }

  /** A placeholder does not start before another one and reach into it. */
  lemma NoneAcross(before: string, entries: seq<Entry>, i: nat, after: string)
    requires Tokens(entries) && i < |entries| && before != "" && Matching(before, entries) == |entries|
    ensures Matching(before + entries[i].token + after, entries) == |entries|
  {
    var u := entries[i].token;
    var s := before + u + after;
    forall k | 0 <= k < |entries| ensures !(entries[k].token <= s) {
      var t := entries[k].token;
      assert entries[k] in entries && entries[i] in entries;
      NoInnerBrace(t);
      assert s[|before|] == u[0] == '{';
      assert |t| <= |before| ==> s[..|t|] == before[..|t|];
      if t <= s {
        assert false;
      }
    }
  }

  // ----- pages made of pieces with placeholders between them

  /** No token occurs in the text. */
  predicate TokenFree(p: string, entries: seq<Entry>) {
    forall i :: 0 <= i <= |p| ==> Matching(p[i..], entries) == |entries|
  }

  /** Every opening brace has a closing one somewhere behind it: the last brace, if any, is closing. */
  ghost predicate Closed(p: string) {
    forall i :: 0 <= i < |p| && p[i] == '{' ==> exists j :: i < j < |p| && p[j] == '}'
  }

  /** The pieces with the placeholders of the given entries between them. */
  function Assemble(pieces: seq<string>, slots: seq<nat>, entries: seq<Entry>): string
    requires |pieces| == |slots| + 1 && forall i :: 0 <= i < |slots| ==> slots[i] < |entries|
  {
    if slots == [] then pieces[0]
    else pieces[0] + entries[slots[0]].token + Assemble(pieces[1..], slots[1..], entries)
  }

  /** The pieces with values between them. */
  function Filled(pieces: seq<string>, slots: seq<nat>, entries: seq<Entry>): string
    requires |pieces| == |slots| + 1 && forall i :: 0 <= i < |slots| ==> slots[i] < |entries|
  {
    if slots == [] then pieces[0]
    else pieces[0] + entries[slots[0]].value + Filled(pieces[1..], slots[1..], entries)
  }

  ghost predicate Pieces(pieces: seq<string>, slots: seq<nat>, entries: seq<Entry>) {
    && |pieces| == |slots| + 1 && (forall i :: 0 <= i < |slots| ==> slots[i] < |entries|)
    && (forall p :: p in pieces ==> TokenFree(p, entries))
    && (forall i :: 0 <= i < |slots| ==> Closed(pieces[i]))
  }

  lemma TokenFreeTail(p: string, entries: seq<Entry>)
    requires TokenFree(p, entries) && p != ""
    ensures Matching(p, entries) == |entries| && TokenFree(p[1..], entries)
  {
    assert p[0..] == p;
    forall i | 0 <= i <= |p[1..]| ensures Matching(p[1..][i..], entries) == |entries| {
      assert p[1..][i..] == p[i + 1..];
    }
  }

  /** Text in which no token occurs is left alone. */
  lemma {:induction false} TokenFreeStays(p: string, entries: seq<Entry>)
    requires Tokens(entries) && TokenFree(p, entries)
    ensures Substitute(p, entries) == p
    decreases |p|
  {
    if p == "" {
      EmptySubstitute(entries);
    } else {
      TokenFreeTail(p, entries);
      TokenFreeStays(p[1..], entries);
      hide Tokens, TokenFree;
      assert p == [p[0]] + p[1..];
      CharStep(p[0], p[1..], false, entries);
    }
  }

  lemma {:induction false} TokenFreeIsSeparated(p: string, open: bool, entries: seq<Entry>)
    requires Tokens(entries) && TokenFree(p, entries)
    ensures Separated(p, open, entries)
    decreases |p|
  {
    if p != "" {
      TokenFreeTail(p, entries);
      TokenFreeIsSeparated(p[1..], if Brace(p[0]) then p[0] == '{' else open, entries);
      hide Tokens, TokenFree;
      assert p == [p[0]] + p[1..];
      CharStep(p[0], p[1..], open, entries);
    }
  }

  /** Behind a piece that leaves no brace open, a placeholder is separated; it does not mix with the piece. */
  lemma {:induction false} PieceStep(p: string, open: bool, entries: seq<Entry>, i: nat, s: string)
    requires Tokens(entries) && i < |entries| && TokenFree(p, entries) && Closed(p) && (open ==> '}' in p)
    requires Separated(s, false, entries)
    ensures Separated(p + entries[i].token + s, open, entries)
    decreases |p|
  {
    hide Tokens, TokenFree, Closed, Separated;
    var t := entries[i].token;
    if p == "" {
      assert "" + t + s == t + s;
      TokenStep(s, open, entries, i);
    } else {
      TokenFreeTail(p, entries);
      NoneAcross(p, entries, i, s);
      ClosedTail(p, open);
      PieceStep(p[1..], if Brace(p[0]) then p[0] == '{' else open, entries, i, s);
      assert p + t + s == [p[0]] + (p[1..] + t + s);
      CharStep(p[0], p[1..] + t + s, open, entries);
    }
  }

  lemma ClosedTail(p: string, open: bool)
    requires Closed(p) && p != "" && (open ==> '}' in p)
    ensures Closed(p[1..]) && ((if Brace(p[0]) then p[0] == '{' else open) ==> '}' in p[1..])
  {
    forall i | 0 <= i < |p[1..]| && p[1..][i] == '{' ensures exists j :: i < j < |p[1..]| && p[1..][j] == '}' {
      var j :| i + 1 < j < |p| && p[j] == '}';
      assert p[1..][j - 1] == '}';
    }
    if p[0] == '{' {
      var j :| 0 < j < |p| && p[j] == '}';
      assert p[1..][j - 1] == '}';
    }
  }

  lemma {:induction false} AssembledIsSeparated(pieces: seq<string>, slots: seq<nat>, entries: seq<Entry>)
    requires Tokens(entries) && Pieces(pieces, slots, entries)
    ensures Separated(Assemble(pieces, slots, entries), false, entries)
    decreases |slots|
  {
    hide Tokens, TokenFree, Closed, Separated;
    assert pieces[0] in pieces;
    if slots == [] {
      TokenFreeIsSeparated(pieces[0], false, entries);
    } else {
      AssembledIsSeparated(pieces[1..], slots[1..], entries);
      PieceStep(pieces[0], false, entries, slots[0], Assemble(pieces[1..], slots[1..], entries));
    }
  }

  lemma {:induction false} AssembledIsFilled(pieces: seq<string>, slots: seq<nat>, entries: seq<Entry>)
    requires Tokens(entries) && Pieces(pieces, slots, entries)
    ensures Substitute(Assemble(pieces, slots, entries), entries) == Filled(pieces, slots, entries)
    decreases |slots|
  {
    hide Tokens, TokenFree, Closed, Substitute;
    assert pieces[0] in pieces;
    TokenFreeStays(pieces[0], entries);
    if slots != [] {
      AssembledIsFilled(pieces[1..], slots[1..], entries);
      ValueIsLiteral(pieces[0], entries, slots[0], Assemble(pieces[1..], slots[1..], entries));
    }
  }

  // ----- why placeholders must be separated

  lemma {:induction false} NoOpeningBrace(s: string, entries: seq<Entry>)
    requires Tokens(entries) && '{' !in s
    ensures Substitute(s, entries) == s
    decreases |s|
  {
    if s == "" {
      EmptySubstitute(entries);
    } else {
      assert s == [s[0]] + s[1..];
      NoTokenAt(s, entries);
      CharStep(s[0], s[1..], false, entries);
      NoOpeningBrace(s[1..], entries);
    }
  }

  lemma {:induction false} NoClosingBrace(s: string, entries: seq<Entry>)
    requires Tokens(entries) && '}' !in s
    ensures Substitute(s, entries) == s
    decreases |s|
  {
    if s == "" {
      EmptySubstitute(entries);
    } else {
      assert s == [s[0]] + s[1..];
      forall k | 0 <= k < |entries| ensures !(entries[k].token <= s) {
        var t := entries[k].token;
        assert entries[k] in entries && t[|t| - 1] == '}';
        assert |t| <= |s| ==> s[|t| - 1] in s;
      }
      CharStep(s[0], s[1..], false, entries);
      NoClosingBrace(s[1..], entries);
    }
  }

  /** Text around one placeholder that no other placeholder can touch. */
  lemma OneValue(before: string, entries: seq<Entry>, i: nat, after: string)
    requires Tokens(entries) && i < |entries| && '}' !in before && '{' !in after
    ensures Substitute(before + entries[i].token + after, entries) == before + entries[i].value + after
  {
    hide Substitute, Tokens;
    ValueIsLiteral(before, entries, i, after);
    NoClosingBrace(before, entries);
    NoOpeningBrace(after, entries);
  }

  lemma ReplaceOne(before: string, e: Entry, after: string)
    requires Placeholder(e.token) && '}' !in before && '{' !in after
    ensures Tokens([e]) && Render(before + e.token + after, [e]) == before + e.value + after
  {
    assert Tokens([e]) && [e][0] == e && [e][1..] == [];
    hide Placeholder, Substitute, Tokens;
    ReplaceLast(before + e.token + after, e);
    OneValue(before, [e], 0, after);
  }

  lemma RenderTwo(s: string, a: Entry, b: Entry)
    requires Placeholder(a.token) && Placeholder(b.token) && a.token != b.token
    ensures Tokens([a, b]) && Tokens([a]) && Tokens([b])
    ensures Render(s, [a, b]) == Render(Render(s, [a]), [b])
  {
    assert [a, b][1..] == [b] && [a][1..] == [] && [a, b][0] == a;
  }

  /**
   A placeholder inside another one's braces: if its value completes a later placeholder, replacing in
   turn expands that one too, and substituting at once does not.
   */
  lemma NestedPlaceholdersDiffer(p: string, inner: Entry, q: string, value: string)
    requires Placeholder(inner.token) && Plain(p) && Plain(q) && Plain(inner.value)
    requires Wrap(p + inner.value + q) != inner.token
    ensures var outer := Entry(Wrap(p + inner.value + q), value);
            var template := "{" + p + inner.token + (q + "}");
      && Tokens([inner, outer])
      && Render(template, [inner, outer]) == value
      && Substitute(template, [inner, outer]) == outer.token
  {
    var outer := Entry(Wrap(p + inner.value + q), value);
    NestedToken(p, inner.value, q);
    hide Placeholder, Substitute, Render, Tokens, Wrap, Plain;
    OuterIsExpanded("{" + p, inner, q + "}", outer);
    OuterIsLiteral("{" + p, inner, q + "}", outer);
  }

  lemma OuterIsExpanded(before: string, inner: Entry, after: string, outer: Entry)
    requires Placeholder(inner.token) && Placeholder(outer.token) && inner.token != outer.token
    requires '}' !in before && '{' !in after && outer.token == before + inner.value + after
    ensures Tokens([inner, outer]) && Render(before + inner.token + after, [inner, outer]) == outer.value
  {
    hide Placeholder, Substitute, Render, Tokens;
    RenderTwo(before + inner.token + after, inner, outer);
    ReplaceOne(before, inner, after);
    ReplaceOne("", outer, "");
    assert outer.token == "" + outer.token + "" && outer.value == "" + outer.value + "";
  }

  lemma OuterIsLiteral(before: string, inner: Entry, after: string, outer: Entry)
    requires Tokens([inner, outer]) && '}' !in before && '{' !in after && outer.token == before + inner.value + after
    ensures Substitute(before + inner.token + after, [inner, outer]) == outer.token
  {
    hide Substitute, Tokens;
    assert [inner, outer][0] == inner;
    OneValue(before, [inner, outer], 0, after);
  }

  lemma NestedToken(p: string, v: string, q: string)
    requires Plain(p) && Plain(v) && Plain(q)
    ensures Placeholder(Wrap(p + v + q)) && Wrap(p + v + q) == "{" + p + v + (q + "}")
    ensures '}' !in "{" + p && '{' !in q + "}"
  {
    WrapFacts(p + v + q, "");
  }

  // ----- the page

  const PAGE_NAMES: seq<string> := [
    "uptime", "total_connections", "active_connections", "socks5_connections", "http_connections",
    "connection_limit_rejections", "total_traffic", "tcp_up", "tcp_down", "udp_associate_sessions",
    "udp_bytes_out", "udp_bytes_in", "connect_failures", "auth_failures", "relay_failures", "recent_errors"]

  lemma PlainNamesA()
    ensures Plain("uptime") && Plain("total_connections") && Plain("active_connections") && Plain("socks5_connections")
  {
  }

  lemma PlainNamesB()
    ensures Plain("http_connections") && Plain("connection_limit_rejections")
    ensures Plain("total_traffic") && Plain("tcp_up")
  {
  }

  lemma PlainNamesC()
    ensures Plain("tcp_down") && Plain("udp_associate_sessions") && Plain("udp_bytes_out") && Plain("udp_bytes_in")
  {
  }

  lemma PlainNamesD()
    ensures Plain("connect_failures") && Plain("auth_failures") && Plain("relay_failures") && Plain("recent_errors")
  {
  }

  lemma PageNamesArePlain()
    ensures |PAGE_NAMES| == 16 && forall i :: 0 <= i < 16 ==> Plain(PAGE_NAMES[i])
  {
    hide Plain;
    PlainNamesA();
    PlainNamesB();
    PlainNamesC();
    PlainNamesD();
  }

  lemma PageNamesAreDistinct()
    ensures forall i, j :: 0 <= i < j < 16 ==> PAGE_NAMES[i] != PAGE_NAMES[j]
  {
  }

  function Wrap(name: string): string {
    "{" + name + "}"
  }

  lemma WrapFacts(name: string, other: string)
    ensures Plain(name) ==> Placeholder(Wrap(name))
    ensures Wrap(name) == Wrap(other) ==> name == other
  {
    assert Wrap(name)[1..|Wrap(name)| - 1] == name && Wrap(other)[1..|Wrap(other)| - 1] == other;
  }

  /** The placeholders of the page with the values shown for them, in the program's order. */
  function PageEntries(values: seq<string>): (entries: seq<Entry>)
    requires |values| == 16
    ensures |entries| == 16 && Tokens(entries)
    ensures forall i :: 0 <= i < 16 ==> entries[i].value == values[i]
  {
    var entries := seq(16, i requires 0 <= i < 16 => Entry(Wrap(PAGE_NAMES[i]), values[i]));
    assert Tokens(entries) by {
      PageNamesArePlain();
      PageNamesAreDistinct();
      hide Wrap, Plain, Placeholder, PAGE_NAMES;
      forall i, j | 0 <= i < 16 && 0 <= j < 16
        ensures Placeholder(Wrap(PAGE_NAMES[i])) && (i < j ==> Wrap(PAGE_NAMES[i]) != Wrap(PAGE_NAMES[j]))
      {
        WrapFacts(PAGE_NAMES[i], PAGE_NAMES[j]);
      }
    }
    entries
  }

  /**
   Any separated page: with numbers, durations and sizes that contain no braces, and any text at all as
   the list of recent errors, the program's loop produces the one-pass substitution, and the error list
   appears on it as it is, even where it spells a placeholder.
   */
  lemma ErrorsAreLiteral(before: string, after: string, values: seq<string>)
    requires |values| == 16 && forall i :: 0 <= i < 15 ==> Plain(values[i])
    requires Separated(before + Wrap("recent_errors") + after, false, PageEntries(values))
    ensures Render(before + Wrap("recent_errors") + after, PageEntries(values))
         == Substitute(before, PageEntries(values)) + values[15] + Substitute(after, PageEntries(values))
  {
    var entries := PageEntries(values);
    RenderIsOnePass(before + Wrap("recent_errors") + after, entries);
    assert PAGE_NAMES[15] == "recent_errors";
    hide Render, Substitute, Separated, Tokens, Wrap;
    assert entries[15] == Entry(Wrap("recent_errors"), values[15]);
    ValueIsLiteral(before, entries, 15, after);
  }

  /** Braces of style sheets and scripts as the page writes them: each opening one ends its line. */
  ghost predicate OpensBlocks(p: string) {
    forall i :: 0 <= i < |p| && p[i] == '{' ==> i + 1 < |p| && p[i + 1] == '\n'
  }

  lemma NoNameIsALine()
    ensures |PAGE_NAMES| == 16 && forall i :: 0 <= i < 16 ==> PAGE_NAMES[i] != "" && PAGE_NAMES[i][0] != '\n'
  {
  }

  lemma BlocksAreTokenFree(p: string, values: seq<string>)
    requires |values| == 16 && OpensBlocks(p)
    ensures TokenFree(p, PageEntries(values))
  {
    var entries := PageEntries(values);
    NoNameIsALine();
    hide Tokens, PAGE_NAMES;
    forall i, k | 0 <= i <= |p| && 0 <= k < 16 ensures !(entries[k].token <= p[i..]) {
      var t, s := entries[k].token, p[i..];
      assert t == Wrap(PAGE_NAMES[k]) && t[0] == '{' && t[1] == PAGE_NAMES[k][0];
      assert |s| >= 1 ==> s[0] == p[i];
      assert |s| >= 2 ==> s[1] == p[i + 1];
    }
  }

  /**
   The page of the program: text whose opening braces end their lines, whose last brace before a
   placeholder, if any, is a closing one, and the sixteen placeholders in any order and number between.
   With values that contain no braces, and any text at all as the list of recent errors, the program's
   loop puts every value in the place of its placeholder and changes nothing else.
   */
  lemma PageIsOnePass(pieces: seq<string>, slots: seq<nat>, values: seq<string>)
    requires |values| == 16 && forall i :: 0 <= i < 15 ==> Plain(values[i])
    requires |pieces| == |slots| + 1 && forall i :: 0 <= i < |slots| ==> slots[i] < 16
    requires forall p :: p in pieces ==> OpensBlocks(p)
    requires forall i :: 0 <= i < |slots| ==> Closed(pieces[i])
    ensures var entries := PageEntries(values);
            Render(Assemble(pieces, slots, entries), entries) == Filled(pieces, slots, entries)
  {
    var entries := PageEntries(values);
    hide OpensBlocks, TokenFree, Closed, Tokens, Plain, Wrap, PAGE_NAMES;
    hide Render, Separated, Assemble, Filled, Substitute;
    forall p | p in pieces ensures TokenFree(p, entries) {
      BlocksAreTokenFree(p, values);
    }
    AssembledIsSeparated(pieces, slots, entries);
    RenderIsOnePass(Assemble(pieces, slots, entries), entries);
    AssembledIsFilled(pieces, slots, entries);
  }

  /** `render_template`: the program's loop. */
  method RenderTemplate(template: string, replacements: seq<Entry>) returns (rendered: string)
    requires Tokens(replacements)
    ensures rendered == Render(template, replacements)
  {
    rendered := template;
    for i := 0 to |replacements|
      invariant Tokens(replacements[i..])
      invariant Render(rendered, replacements[i..]) == Render(template, replacements)
    {
      assert replacements[i..][0] == replacements[i] && replacements[i..][1..] == replacements[i + 1..];
      assert replacements[i] in replacements;
      rendered := Replace(rendered, replacements[i].token, replacements[i].value);
    }
  }
}
