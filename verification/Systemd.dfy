/**
 The ExecStart line of the systemd unit. Arguments are quoted so that systemd's splitting rules, as
 described under "Quoting" in systemd.syntax(7), give back exactly the intended argument list.
 */
module Systemd {
  import opened Basics

  // ----- quoting

  predicate Safe(c: char) {
    'a' <= c <= 'z' || 'A' <= c <= 'Z' || '0' <= c <= '9' || c in {'-', '_', '.', '/', ':', '@', '=', ','}
  }

  function QuoteChar(c: char): string {
    if c == '\\' then "\\\\"
    else if c == '"' then "\\\""
    else if c == '\n' then "\\n"
    else if c == '\t' then "\\t"
    else [c]
  }

  function QuoteBody(arg: string): string {
    if arg == "" then "" else QuoteChar(arg[0]) + QuoteBody(arg[1..])
  }

  function QuoteArg(arg: string): string {
    if forall c :: c in arg ==> Safe(c) then arg else "\"" + (QuoteBody(arg) + "\"")
  }

  lemma {:induction false} QuoteBodyLast(s: string, c: char)
    ensures QuoteBody(s + [c]) == QuoteBody(s) + QuoteChar(c)
  {
    if s == "" {
      assert s + [c] == [c] && [c][1..] == "";
    } else {
      assert (s + [c])[1..] == s[1..] + [c];
      QuoteBodyLast(s[1..], c);
      Assoc(QuoteChar(s[0]), QuoteBody(s[1..]), QuoteChar(c));
    }
  }

  /** `quote_arg`: one pass that appends to the result. */
  method RunQuoteArg(arg: string) returns (quoted: string)
    ensures quoted == QuoteArg(arg)
  {
    if forall c | c in arg :: Safe(c) {
      return arg;
    }
    quoted := "\"";
    for i := 0 to |arg|
      invariant quoted == "\"" + QuoteBody(arg[..i])
    {
      QuoteBodyLast(arg[..i], arg[i]);
      assert arg[..i + 1] == arg[..i] + [arg[i]];
      Assoc("\"", QuoteBody(arg[..i]), QuoteChar(arg[i]));
      match arg[i] {
        case '\\' => quoted := quoted + "\\\\";
        case '"' => quoted := quoted + "\\\"";
        case '\n' => quoted := quoted + "\\n";
        case '\t' => quoted := quoted + "\\t";
        case c => quoted := quoted + [c];
      }
    }
    assert arg[..|arg|] == arg;
    Assoc("\"", QuoteBody(arg), "\"");
    quoted := quoted + "\"";
  }

  // ----- splitting

  predicate Separator(c: char) {
    c in {' ', '\t', '\n', '\r'}
  }

  /** The C-style escapes that matter here; any other makes the line invalid. */
  function Unescaped(c: char): Option<char> {
    if c == '\\' then Some('\\')
    else if c == '"' then Some('"')
    else if c == '\'' then Some('\'')
    else if c == 'n' then Some('\n')
    else if c == 't' then Some('\t')
    else if c == 'r' then Some('\r')
    else if c == 's' then Some(' ')
    else None
  }

  /** Between words, inside a word, or inside a quoted part opened by this quote character. */
  datatype Mode = Between | Inside(word: string) | Quoted(word: string, quote: char)

  /** The words of a line read from `mode` on; none if a quote or an escape is left open or unknown. */
  function Split(mode: Mode, line: string): Option<seq<string>>
    decreases |line|
  {
    if line == "" then
      match mode
      case Between => Some([])
      case Inside(word) => Some([word])
      case Quoted(_, _) => None
    else
      var c := line[0];
      match mode
      case Between =>
        if Separator(c) then Split(Between, line[1..])
        else if c == '"' || c == '\'' then Split(Quoted("", c), line[1..])
        else if c == '\\' then Escape("", None, line[1..])
        else Split(Inside([c]), line[1..])
      case Inside(word) =>
        if Separator(c) then AddWord(word, Split(Between, line[1..]))
        else if c == '"' || c == '\'' then Split(Quoted(word, c), line[1..])
        else if c == '\\' then Escape(word, None, line[1..])
        else Split(Inside(word + [c]), line[1..])
      case Quoted(word, quote) =>
        if c == quote then Split(Inside(word), line[1..])
        else if c == '\\' then Escape(word, Some(quote), line[1..])
        else Split(Quoted(word + [c], quote), line[1..])
  }

  /** After a backslash: one escaped character, then on inside the word or its open quote. */
  function Escape(word: string, quote: Option<char>, line: string): Option<seq<string>>
    decreases |line|
  {
    if line == "" || Unescaped(line[0]).None? then None
    else
      var longer := word + [Unescaped(line[0]).value];
      Split(if quote.Some? then Quoted(longer, quote.value) else Inside(longer), line[1..])
  }

  function AddWord(word: string, rest: Option<seq<string>>): Option<seq<string>> {
    match rest
    case Some(words) => Some([word] + words)
    case None => None
  }

  // ----- quoted arguments come back

  lemma {:induction false} SplitSafe(word: string, arg: string, line: string)
    requires forall c :: c in arg ==> Safe(c)
    ensures Split(Inside(word), arg + line) == Split(Inside(word + arg), line)
    decreases |arg|
  {
    if arg == "" {
      assert arg + line == line && word + arg == word;
    } else {
      assert arg[0] in arg && (arg + line)[0] == arg[0] && (arg + line)[1..] == arg[1..] + line;
      SplitSafe(word + [arg[0]], arg[1..], line);
      assert word + [arg[0]] + arg[1..] == word + arg;
    }
  }

  lemma SplitQuotedChar(word: string, c: char, line: string)
    ensures Split(Quoted(word, '"'), QuoteChar(c) + line) == Split(Quoted(word + [c], '"'), line)
  {
    var t := QuoteChar(c) + line;
    assert t[0] == QuoteChar(c)[0];
    if |QuoteChar(c)| == 2 {
      assert t[1..][0] == QuoteChar(c)[1] && t[1..][1..] == line;
    } else {
      assert t[1..] == line;
    }
  }

  lemma {:induction false} SplitQuoted(word: string, arg: string, line: string)
    ensures Split(Quoted(word, '"'), QuoteBody(arg) + ("\"" + line)) == Split(Inside(word + arg), line)
    decreases |arg|
  {
    hide Split, QuoteChar;
    if arg == "" {
      assert QuoteBody(arg) + ("\"" + line) == "\"" + line && word + arg == word;
      ClosingQuote(word, line);
    } else {
      var rest := QuoteBody(arg[1..]) + ("\"" + line);
      Assoc(QuoteChar(arg[0]), QuoteBody(arg[1..]), "\"" + line);
      SplitQuotedChar(word, arg[0], rest);
      SplitQuoted(word + [arg[0]], arg[1..], line);
      assert word + [arg[0]] + arg[1..] == word + arg;
    }
  }

  lemma ClosingQuote(word: string, line: string)
    ensures Split(Quoted(word, '"'), "\"" + line) == Split(Inside(word), line)
  {
    assert ("\"" + line)[1..] == line;
  }

  lemma SafeStart(c: char, line: string)
    requires Safe(c)
    ensures Split(Between, [c] + line) == Split(Inside([c]), line)
  {
    assert ([c] + line)[1..] == line;
  }

  lemma OpeningQuote(line: string)
    ensures Split(Between, "\"" + line) == Split(Quoted("", '"'), line)
  {
    assert ("\"" + line)[1..] == line;
  }

  /** A non-empty argument is read back whole, up to what follows its quoted form. */
  lemma SplitArg(arg: string, line: string)
    requires arg != ""
    ensures Split(Between, QuoteArg(arg) + line) == Split(Inside(arg), line)
  {
    hide Split, Safe, QuoteBody;
    if forall c :: c in arg ==> Safe(c) {
      assert arg[0] in arg && [arg[0]] + arg[1..] == arg;
      Assoc([arg[0]], arg[1..], line);
      SafeStart(arg[0], arg[1..] + line);
      SplitSafe([arg[0]], arg[1..], line);
    } else {
      Assoc(QuoteBody(arg), "\"", line);
      Assoc("\"", QuoteBody(arg) + "\"", line);
      OpeningQuote(QuoteBody(arg) + ("\"" + line));
      SplitQuoted("", arg, line);
      assert "" + arg == arg;
    }
  }

  // ----- the command line

  /** `join(" ")` over the quoted arguments. */
  function CommandLine(args: seq<string>): string {
    if args == [] then ""
    else if |args| == 1 then QuoteArg(args[0])
    else QuoteArg(args[0]) + (" " + CommandLine(args[1..]))
  }

  function NonEmpty(args: seq<string>): seq<string> {
    if args == [] then [] else (if args[0] == "" then [] else [args[0]]) + NonEmpty(args[1..])
  }

  lemma AfterWord(word: string, line: string)
    ensures Split(Inside(word), " " + line) == AddWord(word, Split(Between, line))
    ensures Split(Between, " " + line) == Split(Between, line)
    ensures Split(Inside(word), "") == Some([word]) && Split(Between, "") == Some([])
  {
    assert (" " + line)[1..] == line;
  }

  /** Splitting the line gives back all arguments in order, except that empty ones vanish. */
  lemma {:induction false} CommandLineSplits(args: seq<string>)
    ensures Split(Between, CommandLine(args)) == Some(NonEmpty(args))
    decreases |args|
  {
    EmptyLine();
    hide Split, Safe;
    if args != [] {
      var arg, rest := args[0], args[1..];
      CommandLineSplits(rest);
      var tail := if |args| == 1 then "" else " " + CommandLine(rest);
      assert CommandLine(args) == QuoteArg(arg) + tail;
      AfterWord(arg, CommandLine(rest));
      assert |args| == 1 ==> rest == [] && NonEmpty(rest) == [];
      if arg == "" {
        assert QuoteArg(arg) + tail == tail && [] + NonEmpty(rest) == NonEmpty(rest);
      } else {
        SplitArg(arg, tail);
        assert NonEmpty(args) == [arg] + NonEmpty(rest);
        assert |args| == 1 ==> NonEmpty(args) == [arg];
      }
    }
  }

  lemma EmptyLine()
    ensures Split(Between, "") == Some([])
  {
  }

  lemma {:induction false} NonEmptyIsAll(args: seq<string>)
    ensures NonEmpty(args) == args <==> forall a :: a in args ==> a != ""
    ensures |NonEmpty(args)| <= |args|
  {
    if args != [] {
      NonEmptyIsAll(args[1..]);
      assert args == [args[0]] + args[1..];
      assert forall a :: a in args <==> a == args[0] || a in args[1..];
      if args[0] == "" {
        assert |NonEmpty(args)| < |args| && args[0] in args;
      } else {
        assert NonEmpty(args) == args <==> NonEmpty(args[1..]) == args[1..] by {
          assert NonEmpty(args)[1..] == NonEmpty(args[1..]);
        }
      }
    }
  }

  /** The round trip holds exactly for argument lists without an empty argument. */
  lemma RoundTripExact(args: seq<string>)
    ensures Split(Between, CommandLine(args)) == Some(args) <==> forall a :: a in args ==> a != ""
  {
    CommandLineSplits(args);
    NonEmptyIsAll(args);
  }

  // ----- the service's arguments

  datatype RuntimeOptions = RuntimeOptions(
    bind: string,
    maxConnections: nat,
    disableStats: bool,
    username: Option<string>,
    password: Option<string>,
    bypassIps: seq<string>)

  const MAX_CONNECTIONS_LIMIT := 1_000_000

  /** Configuration is accepted; `isNetwork` answers for trimming and parsing an allowlist entry. */
  predicate Validates(o: RuntimeOptions, isNetwork: string -> bool) {
    var username := o.username.Some? && o.username.value != "";
    var password := o.password.Some? && o.password.value != "";
    && (forall e :: e in o.bypassIps ==> isNetwork(e))
    && o.bind != "" && 0 < o.maxConnections <= MAX_CONNECTIONS_LIMIT
    && ((username && password) || o.bypassIps != [])
    && username == password
  }

  predicate AllDigits(s: string) {
    forall i :: 0 <= i < |s| ==> '0' <= s[i] <= '9'
  }

  function Digits(n: nat): (s: string)
    ensures s != "" && AllDigits(s)
  {
    var last := ['0' + (n % 10) as char];
    if n < 10 then last else Digits(n / 10) + last
  }

  function NumberOf(s: string): nat
    requires AllDigits(s)
  {
    if s == "" then 0
    else NumberOf(s[..|s| - 1]) * 10 + (s[|s| - 1] as int - '0' as int)
  }

  /** The limit that the service is started with is the configured one. */
  lemma {:induction false} DigitsRoundTrip(n: nat)
    ensures NumberOf(Digits(n)) == n
  {
    var last := ['0' + (n % 10) as char];
    if n >= 10 {
      DigitsRoundTrip(n / 10);
      FrontAndBack(Digits(n / 10), last);
      assert Digits(n)[..|Digits(n)| - 1] == Digits(n / 10);
    } else {
      assert last[..0] == "";
    }
  }

  function JoinCommas(entries: seq<string>): string {
    if entries == [] then "" else if |entries| == 1 then entries[0] else entries[0] + "," + JoinCommas(entries[1..])
  }

  function ServiceArgs(o: RuntimeOptions): seq<string> {
    [o.bind, "--max-connections", Digits(o.maxConnections)]
    + (if o.bypassIps != [] then ["--bypass-ip", JoinCommas(o.bypassIps)] else [])
    + (if o.disableStats then ["--disable-stats"] else [])
  }

  // ----- what the program makes of these arguments

  /** The command line as it is read: one address, and options by name; the allowlist is split at commas. */
  datatype Settings = Settings(bind: Option<string>, maxConnections: Option<nat>, bypassIps: Option<seq<string>>,
                               disableStats: bool)

  function CutAtCommas(s: string): (parts: seq<string>)
    ensures parts != []
  {
    if s == "" then [""]
    else
      var rest := CutAtCommas(s[1..]);
      if s[0] == ',' then [""] + rest else [[s[0]] + rest[0]] + rest[1..]
  }

  /** No option is given twice, and anything that is no option is the one address. */
  function ReadArgs(args: seq<string>): Option<Settings>
    decreases |args|
  {
    if args == [] then Some(Settings(None, None, None, false))
    else if args[0] == "--max-connections" then
      if |args| < 2 || args[1] == "" || !AllDigits(args[1]) then None
      else match ReadArgs(args[2..])
        case Some(rest) =>
          if rest.maxConnections.Some? then None else Some(rest.(maxConnections := Some(NumberOf(args[1]))))
        case None => None
    else if args[0] == "--bypass-ip" then
      if |args| < 2 then None
      else match ReadArgs(args[2..])
        case Some(rest) =>
          if rest.bypassIps.Some? then None else Some(rest.(bypassIps := Some(CutAtCommas(args[1]))))
        case None => None
    else match ReadArgs(args[1..])
      case Some(rest) =>
        if args[0] == "--disable-stats" then
          if rest.disableStats then None else Some(rest.(disableStats := true))
        else if args[0] == "" || args[0][0] == '-' || rest.bind.Some? then None
        else Some(rest.(bind := Some(args[0])))
      case None => None
  }

  lemma {:induction false} CutJoined(entry: string, rest: string)
    requires ',' !in entry
    ensures CutAtCommas(entry + "," + rest) == [entry] + CutAtCommas(rest)
    ensures CutAtCommas(entry) == [entry]
  {
    if entry == "" {
      assert entry + "," + rest == "," + rest && ("," + rest)[1..] == rest;
    } else {
      assert (entry + "," + rest)[1..] == entry[1..] + "," + rest;
      CutJoined(entry[1..], rest);
      assert [entry[0]] + entry[1..] == entry;
    }
  }

  lemma {:induction false} JoinedIsCut(entries: seq<string>)
    requires entries != [] && forall e :: e in entries ==> ',' !in e
    ensures CutAtCommas(JoinCommas(entries)) == entries
  {
    hide CutAtCommas;
    assert entries[0] in entries;
    if |entries| == 1 {
      CutJoined(entries[0], "");
    } else {
      CutJoined(entries[0], JoinCommas(entries[1..]));
      JoinedIsCut(entries[1..]);
      assert entries == [entries[0]] + entries[1..];
    }
  }

  lemma ReadStats(on: bool)
    ensures ReadArgs(if on then ["--disable-stats"] else []) == Some(Settings(None, None, None, on))
  {
    assert ["--disable-stats"][1..] == [];
    assert ReadArgs([]) == Some(Settings(None, None, None, false));
  }

  lemma ReadBypass(list: string, rest: seq<string>)
    ensures ReadArgs(["--bypass-ip", list] + rest) ==
      match ReadArgs(rest)
      case Some(s) => if s.bypassIps.Some? then None else Some(s.(bypassIps := Some(CutAtCommas(list))))
      case None => None
  {
    assert (["--bypass-ip", list] + rest)[2..] == rest;
    assert "--bypass-ip"[2] != "--max-connections"[2];
    hide CutAtCommas;
  }

  lemma ReadBindAndMax(bind: string, n: nat, rest: seq<string>)
    requires bind != "" && bind[0] != '-'
    ensures ReadArgs([bind, "--max-connections", Digits(n)] + rest) ==
      match ReadArgs(rest)
      case Some(s) =>
        if s.maxConnections.Some? || s.bind.Some? then None
        else Some(s.(maxConnections := Some(n), bind := Some(bind)))
      case None => None
  {
    DigitsRoundTrip(n);
    var args := [bind, "--max-connections", Digits(n)] + rest;
    assert args[1..][2..] == rest;
    assert bind != "--max-connections" && bind != "--bypass-ip" && bind != "--disable-stats";
    hide Digits, NumberOf, CutAtCommas;
    assert ReadArgs(args[1..]) == match ReadArgs(rest)
      case Some(s) => if s.maxConnections.Some? then None else Some(s.(maxConnections := Some(n)))
      case None => None;
  }

  /**
   The installed service runs as configured: reading its arguments gives back the address, the
   connection limit, the allowlist and the statistics switch.
   */
  lemma ServiceArgsAreRead(o: RuntimeOptions)
    requires o.bind != "" && o.bind[0] != '-' && forall e :: e in o.bypassIps ==> ',' !in e
    ensures ReadArgs(ServiceArgs(o)) ==
      Some(Settings(Some(o.bind), Some(o.maxConnections), if o.bypassIps == [] then None else Some(o.bypassIps),
                    o.disableStats))
  {
    hide ReadArgs, Digits, CutAtCommas, JoinCommas;
    var head := [o.bind, "--max-connections", Digits(o.maxConnections)];
    var bypass := if o.bypassIps != [] then ["--bypass-ip", JoinCommas(o.bypassIps)] else [];
    var stats := if o.disableStats then ["--disable-stats"] else [];
    ReadStats(o.disableStats);
    if o.bypassIps != [] {
      JoinedIsCut(o.bypassIps);
      ReadBypass(JoinCommas(o.bypassIps), stats);
    } else {
      assert bypass + stats == stats;
    }
    ReadBindAndMax(o.bind, o.maxConnections, bypass + stats);
    Assoc(head, bypass, stats);
  }

  /** The line as the program builds it, one argument after the other. */
  method BuildExecStart(installedBin: string, o: RuntimeOptions) returns (line: string)
    ensures line == CommandLine([installedBin] + ServiceArgs(o))
  {
    hide QuoteArg, Digits, JoinCommas;
    var args := [o.bind, "--max-connections", Digits(o.maxConnections)];
    if o.bypassIps != [] {
      args := args + ["--bypass-ip"];
      args := args + [JoinCommas(o.bypassIps)];
    }
    if o.disableStats {
      args := args + ["--disable-stats"];
    }
    assert args == ServiceArgs(o);
    line := RunQuoteArg(installedBin);
    assert [installedBin] + args[..0] == [installedBin];
    for i := 0 to |args|
      invariant line == CommandLine([installedBin] + args[..i])
    {
      CommandLineLast([installedBin] + args[..i], args[i]);
      Assoc([installedBin], args[..i], [args[i]]);
      assert args[..i + 1] == args[..i] + [args[i]];
      hide CommandLine, ServiceArgs;
      var quoted := RunQuoteArg(args[i]);
      line := line + " ";
      line := line + quoted;
    }
    assert args[..|args|] == args;
  }

  lemma {:induction false} CommandLineLast(args: seq<string>, last: string)
    requires args != []
    ensures CommandLine(args + [last]) == CommandLine(args) + " " + QuoteArg(last)
    decreases |args|
  {
    hide QuoteArg;
    var all := args + [last];
    assert all[1..] == args[1..] + [last];
    if |args| > 1 {
      CommandLineLast(args[1..], last);
    } else {
      assert all[1..] == [last];
    }
  }

  /**
   For every accepted configuration, systemd splits the ExecStart line into the installed binary and
   exactly the intended arguments.
   */
  lemma ExecStartRoundTrip(installedBin: string, o: RuntimeOptions, isNetwork: string -> bool)
    requires installedBin != "" && Validates(o, isNetwork) && !isNetwork("")
    ensures Split(Between, CommandLine([installedBin] + ServiceArgs(o))) == Some([installedBin] + ServiceArgs(o))
  {
    if o.bypassIps != [] {
      assert o.bypassIps[0] in o.bypassIps && o.bypassIps[0] != "";
    }
    RoundTripExact([installedBin] + ServiceArgs(o));
    hide Split, CommandLine, Digits;
  }
}
