/** The command-line parser: command words, flags in all their spellings, and repeated flags. */
module ArgParser {
  import opened Options

  const BOOLEAN_FLAGS: set<string> := {
    "all", "attachments", "children", "comments", "connect", "current", "dry-run", "enter", "focus", "force", "full",
    "help", "inject", "interrupt", "json", "messages", "me", "mobile", "mobile-pairing", "no-pairing", "parent-current",
    "provision", "ready", "recipe-json", "relations", "reinstall", "restore-window", "return-preamble", "run-hooks",
    "show-profile", "staged", "tasks", "text-stdin", "unread", "value-stdin", "wait"
  }

  const SEPARATOR := '\0'
  const REPEATABLE_FLAGS: set<string> := {"label"}

  datatype FlagValue = On | Text(value: string)

  type Flags = map<string, FlagValue>

  datatype ParsedArgs = ParsedArgs(commandPath: seq<string>, flags: Flags)

  // ---------- The parser ----------

  predicate IsBoolean(flag: string) {
    flag in BOOLEAN_FLAGS
  }

  lemma BooleanFlagsAre(flag: string)
    ensures IsBoolean(flag) <==>
      || flag in {"all", "attachments", "children", "comments", "connect", "current", "dry-run", "enter", "focus"}
      || flag in {"force", "full", "help", "inject", "interrupt", "json", "messages", "me", "mobile"}
      || flag in {"mobile-pairing", "no-pairing", "parent-current", "provision", "ready", "recipe-json", "relations"}
      || flag in {"reinstall", "restore-window", "return-preamble", "run-hooks", "show-profile", "staged", "tasks"}
      || flag in {"text-stdin", "unread", "value-stdin", "wait"}
  {
  }

  predicate IsFlag(token: string) {
    "--" <= token
  }

  /** The position of the first equals sign. */
  function EqualsIndex(s: string): (r: Option<nat>)
    ensures r.Some? ==> r.value < |s| && s[r.value] == '=' && '=' !in s[..r.value]
    ensures r.None? ==> '=' !in s
  {
    if s == [] then None
    else if s[0] == '=' then Some(0)
    else
      var rest := EqualsIndex(s[1..]);
      if rest.None? then None
      else
        assert s[..rest.value + 1] == [s[0]] + s[1..][..rest.value];
        Some(rest.value + 1)
  }

  function SetFlagValue(flags: Flags, name: string, value: string): Flags {
    if name in flags && flags[name].Text? && name in REPEATABLE_FLAGS
    then flags[name := Text(flags[name].value + [SEPARATOR] + value)]
    else flags[name := Text(value)]
  }

  /** Past the flags from `cursor` on, each with its value if it takes one. */
  function SkipFlags(argv: seq<string>, cursor: nat): (at: nat)
    ensures cursor <= at && (at < |argv| ==> !IsFlag(argv[at]))
    decreases |argv| - cursor
  {
    if cursor < |argv| && IsFlag(argv[cursor]) then
      var assignment := argv[cursor][2..];
      SkipFlags(argv, cursor + if EqualsIndex(assignment).Some? || IsBoolean(assignment) then 1 else 2)
    else cursor
  }

  predicate PathStartsAt(argv: seq<string>, cursor: nat, path: seq<string>)
    decreases |path|
  {
    path == [] ||
    var at := SkipFlags(argv, cursor);
    at < |argv| && argv[at] == path[0] && PathStartsAt(argv, at + 1, path[1..])
  }

  predicate CommandStartsAt(argv: seq<string>, cursor: nat, registry: seq<seq<string>>) {
    exists path :: path in registry && PathStartsAt(argv, cursor, path)
  }

  /** A flag before any command word gives up its value to a registered command that starts right after it. */
  predicate YieldsToCommand(argv: seq<string>, i: nat, commandPath: seq<string>, registry: seq<seq<string>>) {
    commandPath == [] && CommandStartsAt(argv, i + 1, registry) && !CommandStartsAt(argv, i + 2, registry)
  }

  /** The outcome of parsing from position `i` on, with what has been gathered so far. */
  ghost function ParseFrom(argv: seq<string>, i: nat, p: ParsedArgs, registry: seq<seq<string>>): ParsedArgs
    decreases |argv| - i
  {
    if i >= |argv| then p
    else if !IsFlag(argv[i]) then ParseFrom(argv, i + 1, p.(commandPath := p.commandPath + [argv[i]]), registry)
    else
      var flag := argv[i][2..];
      var equals := EqualsIndex(flag);
      if equals.Some? then
        ParseFrom(argv, i + 1, p.(flags := SetFlagValue(p.flags, flag[..equals.value], flag[equals.value + 1..])),
                  registry)
      else if IsBoolean(flag) || YieldsToCommand(argv, i, p.commandPath, registry)
              || i + 1 >= |argv| || IsFlag(argv[i + 1]) then
        ParseFrom(argv, i + 1, p.(flags := p.flags[flag := On]), registry)
      else
        ParseFrom(argv, i + 2, p.(flags := SetFlagValue(p.flags, flag, argv[i + 1])), registry)
  }

  method CommandPathStartsAt(argv: seq<string>, tokenIndex: nat, path: seq<string>) returns (starts: bool)
    ensures starts == PathStartsAt(argv, tokenIndex, path)
  {
    var cursor: nat := tokenIndex;
    assert path[0..] == path;
    for k := 0 to |path|
      invariant PathStartsAt(argv, cursor, path[k..]) == PathStartsAt(argv, tokenIndex, path)
    {
      ghost var start := cursor;
      while cursor < |argv| && IsFlag(argv[cursor])
        invariant SkipFlags(argv, cursor) == SkipFlags(argv, start)
        decreases |argv| - cursor
      {
        var assignment := argv[cursor][2..];
        var step := if EqualsIndex(assignment).Some? || IsBoolean(assignment) then 1 else 2;
        cursor := cursor + step;
      }
      assert path[k..][0] == path[k] && path[k..][1..] == path[k + 1..];
      if cursor >= |argv| || argv[cursor] != path[k] {
        return false;
      }
      cursor := cursor + 1;
    }
    return true;
  }

  method ParseArgs(argv: seq<string>, registry: seq<seq<string>>) returns (parsed: ParsedArgs)
    ensures parsed == ParseFrom(argv, 0, ParsedArgs([], map[]), registry)
  {
    hide EqualsIndex, SkipFlags, PathStartsAt;
    var commandPath: seq<string> := [];
    var flags: Flags := map[];
    var i: nat := 0;
    while i < |argv|
      invariant ParseFrom(argv, i, ParsedArgs(commandPath, flags), registry)
             == ParseFrom(argv, 0, ParsedArgs([], map[]), registry)
    {
      var token := argv[i];
      if !IsFlag(token) {
        commandPath := commandPath + [token];
        i := i + 1;
        continue;
      }
      var flag := token[2..];
      var equals := EqualsIndex(flag);
      if equals.Some? {
        flags := SetFlagValue(flags, flag[..equals.value], flag[equals.value + 1..]);
        i := i + 1;
        continue;
      }
      if IsBoolean(flag) {
        flags := flags[flag := On];
        i := i + 1;
        continue;
      }
      var givesWay := commandPath == [];
      if givesWay {
        givesWay := AnyStartsAt(argv, i + 1, registry);
      }
      if givesWay {
        var later := AnyStartsAt(argv, i + 2, registry);
        givesWay := !later;
      }
      if givesWay {
        flags := flags[flag := On];
        i := i + 1;
        continue;
      }
      if i + 1 >= |argv| || IsFlag(argv[i + 1]) {
        flags := flags[flag := On];
        i := i + 1;
        continue;
      }
      flags := SetFlagValue(flags, flag, argv[i + 1]);
      i := i + 2;
    }
    return ParsedArgs(commandPath, flags);
  }

  method AnyStartsAt(argv: seq<string>, tokenIndex: nat, registry: seq<seq<string>>) returns (any: bool)
    ensures any == CommandStartsAt(argv, tokenIndex, registry)
  {
    hide PathStartsAt;
    for k := 0 to |registry|
      invariant forall j :: 0 <= j < k ==> !PathStartsAt(argv, tokenIndex, registry[j])
    {
      var starts := CommandPathStartsAt(argv, tokenIndex, registry[k]);
      if starts {
        return true;
      }
    }
    return false;
  }

  // ---------- The printer ----------

  /** What a user means by a stretch of the command line. */
  datatype Item =
    | Word(text: string)                     // a command word or positional
    | Assign(name: string, value: string)    // --name=value
    | Switch(name: string)                   // --name, a known boolean flag
    | Spaced(name: string, value: string)    // --name value
    | Bare(name: string)                     // --name, not known as boolean, without a value

  function Printed(item: Item): (r: seq<string>)
    ensures |r| == if item.Spaced? then 2 else 1
  {
    match item
    case Word(text) => [text]
    case Assign(name, value) => ["--" + name + "=" + value]
    case Switch(name) => ["--" + name]
    case Spaced(name, value) => ["--" + name, value]
    case Bare(name) => ["--" + name]
  }

  function PrintedAll(items: seq<Item>): seq<string> {
    if items == [] then [] else Printed(items[0]) + PrintedAll(items[1..])
  }

  /** The spelling is unambiguous wherever it stands. */
  predicate Plain(item: Item) {
    match item
    case Word(text) => !IsFlag(text)
    case Assign(name, _) => '=' !in name
    case Switch(name) => IsBoolean(name)
    case _ => false
  }

  /** The spelling is unambiguous at position `i` of `argv`, after the given command words: it is plain, or
      it is a flag and a value that does not yield to a command, or a flag that nothing could be a value of. */
  predicate Unambiguous(item: Item, argv: seq<string>, i: nat, commandPath: seq<string>, registry: seq<seq<string>>) {
    match item
    case Spaced(name, value) =>
      '=' !in name && !IsBoolean(name) && !IsFlag(value) && !YieldsToCommand(argv, i, commandPath, registry)
    case Bare(name) =>
      '=' !in name && !IsBoolean(name)
      && (i + 1 >= |argv| || IsFlag(argv[i + 1]) || YieldsToCommand(argv, i, commandPath, registry))
    case _ => Plain(item)
  }

  ghost predicate AllUnambiguous(items: seq<Item>, argv: seq<string>, i: nat, commandPath: seq<string>,
                                 registry: seq<seq<string>>)
    decreases |items|
  {
    items == [] ||
    (Unambiguous(items[0], argv, i, commandPath, registry)
     && AllUnambiguous(items[1..], argv, i + |Printed(items[0])|, commandPath + WordsOf(items[..1]), registry))
  }

  function WordsOf(items: seq<Item>): seq<string> {
    if items == [] then [] else (if items[0].Word? then [items[0].text] else []) + WordsOf(items[1..])
  }

  /** The values that the items give to a flag, in order. */
  function Given(items: seq<Item>, name: string): seq<FlagValue> {
    if items == [] then [] else GivenBy(items[0], name) + Given(items[1..], name)
  }

  function GivenBy(item: Item, name: string): seq<FlagValue> {
    match item
    case Assign(n, value) => if n == name then [Text(value)] else []
    case Spaced(n, value) => if n == name then [Text(value)] else []
    case Switch(n) => if n == name then [On] else []
    case Bare(n) => if n == name then [On] else []
    case Word(_) => []
  }

  /** The last value counts, except that texts for a repeatable flag are strung together. */
  function Combined(name: string, values: seq<FlagValue>): Option<FlagValue> {
    if values == [] then None
    else
      var last, before := values[|values| - 1], Combined(name, values[..|values| - 1]);
      if last.Text? && name in REPEATABLE_FLAGS && before.Some? && before.value.Text?
      then Some(Text(before.value.value + [SEPARATOR] + last.value))
      else Some(last)
  }

  function Lookup(flags: Flags, name: string): Option<FlagValue> {
    if name in flags then Some(flags[name]) else None
  }

  // ---------- Parsing undoes printing ----------

  lemma {:induction false} GivenAppend(a: seq<Item>, b: seq<Item>, name: string)
    ensures Given(a + b, name) == Given(a, name) + Given(b, name)
  {
    if a == [] {
      assert a + b == b;
    } else {
      assert (a + b)[0] == a[0] && (a + b)[1..] == a[1..] + b;
      GivenAppend(a[1..], b, name);
    }
  }

  /** The flag maps that the items read so far account for. */
  ghost predicate Accounts(flags: Flags, items: seq<Item>) {
    forall name :: Lookup(flags, name) == Combined(name, Given(items, name))
  }

  /** One more value for a flag is combined with those before it. */
  lemma CombinedNext(name: string, values: seq<FlagValue>, v: FlagValue)
    ensures Combined(name, values + [v]) ==
      (var before := Combined(name, values);
       if v.Text? && name in REPEATABLE_FLAGS && before.Some? && before.value.Text?
       then Some(Text(before.value.value + [SEPARATOR] + v.value)) else Some(v))
  {
    assert (values + [v])[..|values|] == values;
  }

  function Update(flags: Flags, item: Item): Flags {
    match item
    case Word(_) => flags
    case Assign(name, value) => SetFlagValue(flags, name, value)
    case Spaced(name, value) => SetFlagValue(flags, name, value)
    case Switch(name) => flags[name := On]
    case Bare(name) => flags[name := On]
  }

  lemma UpdateAccounts(flags: Flags, done: seq<Item>, item: Item)
    requires Accounts(flags, done)
    ensures Accounts(Update(flags, item), done + [item])
  {
    hide Combined;
    forall name ensures Lookup(Update(flags, item), name) == Combined(name, Given(done + [item], name)) {
      var values := Given(done, name);
      GivenAppend(done, [item], name);
      assert Given([item], name) == GivenBy(item, name) + [] == GivenBy(item, name);
      assert Lookup(flags, name) == Combined(name, values);
      if GivenBy(item, name) == [] {
        assert values + [] == values;
      } else {
        CombinedNext(name, values, GivenBy(item, name)[0]);
      }
    }
  }

  lemma {:induction false} EqualsIndexIs(name: string, value: string)
    requires '=' !in name
    ensures EqualsIndex(name + "=" + value) == Some(|name|)
    ensures (name + "=" + value)[..|name|] == name && (name + "=" + value)[|name| + 1..] == value
  {
    var s := name + "=" + value;
    if name != "" {
      EqualsIndexIs(name[1..], value);
      assert s[1..] == name[1..] + "=" + value;
    }
  }

  /** Where the first of the items that are left stands. */
  lemma PrintedHere(items: seq<Item>, argv: seq<string>, i: nat)
    requires items != [] && i <= |argv| && argv[i..] == PrintedAll(items)
    ensures i + |Printed(items[0])| <= |argv| && argv[i + |Printed(items[0])|..] == PrintedAll(items[1..])
    ensures argv[i] == Printed(items[0])[0]
    ensures items[0].Spaced? ==> argv[i + 1] == items[0].value
  {
    var n := |Printed(items[0])|;
    assert argv[i..] == Printed(items[0]) + PrintedAll(items[1..]);
    assert argv[i..][n..] == argv[i + n..];
    assert argv[i] == argv[i..][0];
    assert items[0].Spaced? ==> argv[i + 1] == argv[i..][1];
  }

  /** Reading one item. */
  lemma ReadItem(item: Item, argv: seq<string>, i: nat, p: ParsedArgs, registry: seq<seq<string>>)
    requires i + |Printed(item)| <= |argv| && argv[i] == Printed(item)[0]
    requires item.Spaced? ==> argv[i + 1] == item.value
    requires Unambiguous(item, argv, i, p.commandPath, registry)
    ensures ParseFrom(argv, i, p, registry) ==
      ParseFrom(argv, i + |Printed(item)|,
                ParsedArgs(p.commandPath + (if item.Word? then [item.text] else []), Update(p.flags, item)), registry)
  {
    hide EqualsIndex, YieldsToCommand, SetFlagValue;
    assert p.commandPath + [] == p.commandPath;
    match item
    case Word(text) =>
    case Assign(name, value) =>
      EqualsIndexIs(name, value);
      assert argv[i][2..] == name + "=" + value;
    case Switch(name) =>
      BooleanNamesArePlain(name);
      assert argv[i][2..] == name;
    case Spaced(name, value) =>
      assert argv[i][2..] == name;
    case Bare(name) =>
      assert argv[i][2..] == name;
  }

  lemma BooleanNamesArePlain(name: string)
    requires IsBoolean(name)
    ensures '=' !in name
  {
  }

  lemma {:induction false} ReadItems(done: seq<Item>, items: seq<Item>, argv: seq<string>, i: nat, p: ParsedArgs,
                                     registry: seq<seq<string>>)
    requires i <= |argv| && argv[i..] == PrintedAll(items)
    requires AllUnambiguous(items, argv, i, p.commandPath, registry)
    requires Accounts(p.flags, done)
    ensures var q := ParseFrom(argv, i, p, registry);
            q.commandPath == p.commandPath + WordsOf(items) && Accounts(q.flags, done + items)
    decreases |items|
  {
    hide Unambiguous, Accounts, Printed, ParseFrom;
    if items == [] {
      assert i == |argv| && done + items == done;
      ParseEnd(argv, i, p, registry);
    } else {
      PrintedHere(items, argv, i);
      ReadItem(items[0], argv, i, p, registry);
      FirstWord(items);
      UpdateAccounts(p.flags, done, items[0]);
      var words := p.commandPath + WordsOf(items[..1]);
      ReadItems(done + [items[0]], items[1..], argv, i + |Printed(items[0])|,
                ParsedArgs(words, Update(p.flags, items[0])), registry);
      assert done + [items[0]] + items[1..] == done + items;
      WordsSplit(items);
      assert words + WordsOf(items[1..]) == p.commandPath + WordsOf(items);
    }
  }

  lemma ParseEnd(argv: seq<string>, i: nat, p: ParsedArgs, registry: seq<seq<string>>)
    requires i >= |argv|
    ensures ParseFrom(argv, i, p, registry) == p
  {
  }

  lemma FirstWord(items: seq<Item>)
    requires items != []
    ensures WordsOf(items[..1]) == if items[0].Word? then [items[0].text] else []
  {
    assert items[..1] == [items[0]] && items[..1][1..] == [];
  }

  lemma WordsSplit(items: seq<Item>)
    requires items != []
    ensures WordsOf(items) == WordsOf(items[..1]) + WordsOf(items[1..])
  {
    assert items[..1] == [items[0]] && items[..1][1..] == [];
  }

  /** What is printed without ambiguity is parsed as it was meant: the same command words in order, and for
      every flag the last value given, or all texts strung together if it is repeatable. */
  lemma ParsingUndoesPrinting(items: seq<Item>, registry: seq<seq<string>>)
    requires AllUnambiguous(items, PrintedAll(items), 0, [], registry)
    ensures var q := ParseFrom(PrintedAll(items), 0, ParsedArgs([], map[]), registry);
            && q.commandPath == WordsOf(items)
            && forall name :: Lookup(q.flags, name) == Combined(name, Given(items, name))
  {
    var argv := PrintedAll(items);
    assert argv[0..] == argv;
    ReadItems([], items, argv, 0, ParsedArgs([], map[]), registry);
    assert [] + items == items && [] + WordsOf(items) == WordsOf(items);
  }

  /** Words, `--name=value` and known boolean flags can be mixed in any order under any registry. */
  lemma PlainSpellingsRoundTrip(items: seq<Item>, registry: seq<seq<string>>)
    requires forall item :: item in items ==> Plain(item)
    ensures var q := ParseFrom(PrintedAll(items), 0, ParsedArgs([], map[]), registry);
            && q.commandPath == WordsOf(items)
            && forall name :: Lookup(q.flags, name) == Combined(name, Given(items, name))
  {
    PlainIsUnambiguous(items, PrintedAll(items), 0, [], registry);
    ParsingUndoesPrinting(items, registry);
  }

  lemma {:induction false} PlainIsUnambiguous(items: seq<Item>, argv: seq<string>, i: nat, commandPath: seq<string>,
                                              registry: seq<seq<string>>)
    requires forall item :: item in items ==> Plain(item)
    ensures AllUnambiguous(items, argv, i, commandPath, registry)
    decreases |items|
  {
    if items != [] {
      assert Plain(items[0]);
      PlainIsUnambiguous(items[1..], argv, i + |Printed(items[0])|, commandPath + WordsOf(items[..1]), registry);
    }
  }

  // ---------- What the look-ahead recognises ----------

  /** The words that the look-ahead sees from `cursor` on. */
  function LookAheadWords(argv: seq<string>, cursor: nat): seq<string>
    decreases |argv| - cursor
  {
    var at := SkipFlags(argv, cursor);
    if at >= |argv| then [] else [argv[at]] + LookAheadWords(argv, at + 1)
  }

  /** A registered path starts here iff it is a prefix of the words that the look-ahead sees. */
  lemma {:induction false} PathStartsIffPrefix(argv: seq<string>, cursor: nat, path: seq<string>)
    ensures PathStartsAt(argv, cursor, path) <==> path <= LookAheadWords(argv, cursor)
    decreases |path|
  {
    hide SkipFlags;
    if path != [] {
      var at := SkipFlags(argv, cursor);
      if at < |argv| {
        WordIsPrefix(argv[at], LookAheadWords(argv, at + 1), path);
        PathStartsIffPrefix(argv, at + 1, path[1..]);
      }
    }
  }

  lemma WordIsPrefix(text: string, words: seq<string>, path: seq<string>)
    requires path != []
    ensures path <= [text] + words <==> path[0] == text && path[1..] <= words
  {
    var whole := [text] + words;
    assert path == [path[0]] + path[1..];
    if path <= whole {
      forall k | 0 <= k < |path[1..]| ensures path[1..][k] == words[k] {
        assert path[k + 1] == whole[k + 1];
      }
    }
  }

  ghost predicate AnyIsPrefix(registry: seq<seq<string>>, words: seq<string>) {
    exists path :: path in registry && path <= words
  }

  /** When a flag before the command gives up its value: iff the words seen after it begin with a registered
      path, and those seen from one token later do not. */
  lemma YieldsIff(argv: seq<string>, i: nat, registry: seq<seq<string>>)
    ensures YieldsToCommand(argv, i, [], registry) <==>
      AnyIsPrefix(registry, LookAheadWords(argv, i + 1)) && !AnyIsPrefix(registry, LookAheadWords(argv, i + 2))
  {
    hide PathStartsAt, LookAheadWords;
    var first, second := i + 1, i + 2;
    forall path ensures PathStartsAt(argv, first, path) <==> path <= LookAheadWords(argv, first) {
      PathStartsIffPrefix(argv, first, path);
    }
    forall path ensures PathStartsAt(argv, second, path) <==> path <= LookAheadWords(argv, second) {
      PathStartsIffPrefix(argv, second, path);
    }
  }

  // ---------- Where the look-ahead and the parser agree ----------

  /** `--name=value` and known boolean flags: nothing after them can be their value. */
  predicate StandsAlone(token: string)
    requires IsFlag(token)
  {
    EqualsIndex(token[2..]).Some? || IsBoolean(token[2..])
  }

  /** How many tokens the look-ahead passes over at a flag. */
  function LookAheadStep(token: string): nat
    requires IsFlag(token)
  {
    if StandsAlone(token) then 1 else 2
  }

  /** How many tokens the parser reads at position `i`. */
  function ParserStep(argv: seq<string>, i: nat, commandPath: seq<string>, registry: seq<seq<string>>): nat
    requires i < |argv|
  {
    if !IsFlag(argv[i]) || StandsAlone(argv[i]) || YieldsToCommand(argv, i, commandPath, registry)
       || i + 1 >= |argv| || IsFlag(argv[i + 1])
    then 1 else 2
  }

  /** The parser goes on behind the tokens it read, with one more command word if it read one. */
  lemma ParserSteps(argv: seq<string>, i: nat, p: ParsedArgs, registry: seq<seq<string>>) returns (q: ParsedArgs)
    requires i < |argv|
    ensures q.commandPath == p.commandPath + (if IsFlag(argv[i]) then [] else [argv[i]])
    ensures ParseFrom(argv, i, p, registry)
         == ParseFrom(argv, i + ParserStep(argv, i, p.commandPath, registry), q, registry)
  {
    hide EqualsIndex, YieldsToCommand, SetFlagValue;
    assert p.commandPath + [] == p.commandPath;
    if !IsFlag(argv[i]) {
      q := p.(commandPath := p.commandPath + [argv[i]]);
      return;
    }
    var flag := argv[i][2..];
    var equals := EqualsIndex(flag);
    if equals.Some? {
      q := p.(flags := SetFlagValue(p.flags, flag[..equals.value], flag[equals.value + 1..]));
    } else if ParserStep(argv, i, p.commandPath, registry) == 1 {
      q := p.(flags := p.flags[flag := On]);
    } else {
      q := p.(flags := SetFlagValue(p.flags, flag, argv[i + 1]));
    }
  }

  /** At a flag the two step alike iff it stands alone, or a token follows that is no flag and that the flag
      does not give up to a command. */
  lemma StepsAlikeIff(argv: seq<string>, i: nat, commandPath: seq<string>, registry: seq<seq<string>>)
    requires i < |argv| && IsFlag(argv[i])
    ensures LookAheadStep(argv[i]) == ParserStep(argv, i, commandPath, registry) <==>
      StandsAlone(argv[i])
      || (i + 1 < |argv| && !IsFlag(argv[i + 1]) && !YieldsToCommand(argv, i, commandPath, registry))
  {
    hide StandsAlone, YieldsToCommand;
  }

  /** The positions of the words that the look-ahead sees from `cursor` on. */
  function LookPositions(argv: seq<string>, cursor: nat): (r: seq<nat>)
    ensures forall k :: k in r ==> cursor <= k < |argv|
    decreases |argv| - cursor
  {
    var at := SkipFlags(argv, cursor);
    if at >= |argv| then [] else [at] + LookPositions(argv, at + 1)
  }

  /** The positions of the command words that the parser reads from `i` on. */
  ghost function ReadPositions(argv: seq<string>, i: nat, commandPath: seq<string>,
                               registry: seq<seq<string>>): (r: seq<nat>)
    ensures forall k :: k in r ==> i <= k < |argv|
    decreases |argv| - i
  {
    if i >= |argv| then []
    else if IsFlag(argv[i]) then
      ReadPositions(argv, i + ParserStep(argv, i, commandPath, registry), commandPath, registry)
    else [i] + ReadPositions(argv, i + 1, commandPath + [argv[i]], registry)
  }

  function TextsAt(argv: seq<string>, positions: seq<nat>): seq<string>
    requires forall k :: k in positions ==> k < |argv|
  {
    seq(|positions|, n requires 0 <= n < |positions| => assert positions[n] in positions; argv[positions[n]])
  }

  /** A token that is no flag is read as the value of the unknown flag before it. */
  ghost predicate IsTaken(argv: seq<string>, i: nat, unknown: nat, commandPath: seq<string>, registry: seq<seq<string>>)
    requires unknown <= i
  {
    unknown > 0 && !YieldsToCommand(argv, i - 1, commandPath, registry)
  }

  /** Wherever a token is no flag: the number of unknown flags in a row directly before it is odd iff the parser
      takes the token for the value of the last of them. `unknown` counts those directly before `i`. */
  ghost predicate InStep(argv: seq<string>, i: nat, unknown: nat, commandPath: seq<string>, registry: seq<seq<string>>)
    requires unknown <= i
    decreases |argv| - i
  {
    i >= |argv| ||
    if IsFlag(argv[i]) then
      InStep(argv, i + 1, if StandsAlone(argv[i]) then 0 else unknown + 1, commandPath, registry)
    else
      var taken := IsTaken(argv, i, unknown, commandPath, registry);
      && (unknown % 2 == 1 <==> taken)
      && InStep(argv, i + 1, 0, commandPath + (if taken then [] else [argv[i]]), registry)
  }

  /** What the look-ahead sees from `i` on, behind that many unknown flags: it takes every second one for the
      value of the one before. */
  function LooksBehind(argv: seq<string>, i: nat, unknown: nat): seq<nat> {
    LookPositions(argv, if unknown % 2 == 1 then i + 1 else i)
  }

  /** What the parser reads from `i` on, behind that many unknown flags: only the last may take a value. */
  ghost function ReadsBehind(argv: seq<string>, i: nat, unknown: nat, commandPath: seq<string>,
                             registry: seq<seq<string>>): seq<nat>
    requires unknown <= i
  {
    if i < |argv| && !IsFlag(argv[i]) && IsTaken(argv, i, unknown, commandPath, registry)
    then ReadPositions(argv, i + 1, commandPath, registry)
    else ReadPositions(argv, i, commandPath, registry)
  }

  /** Exactly when the look-ahead and the parser take the same tokens for command words. */
  lemma {:induction false} InStepIff(argv: seq<string>, i: nat, unknown: nat, commandPath: seq<string>,
                                     registry: seq<seq<string>>)
    requires unknown <= i
    ensures LooksBehind(argv, i, unknown) == ReadsBehind(argv, i, unknown, commandPath, registry) <==>
      InStep(argv, i, unknown, commandPath, registry)
    decreases |argv| - i
  {
    hide StandsAlone, YieldsToCommand, SkipFlags, IsFlag, LookPositions, ReadPositions;
    hide IsTaken, LooksBehind, ReadsBehind;
    if i >= |argv| {
      NothingBehind(argv, i, unknown, commandPath, registry);
    } else if IsFlag(argv[i]) {
      FlagBehind(argv, i, unknown, commandPath, registry);
      InStepIff(argv, i + 1, if StandsAlone(argv[i]) then 0 else unknown + 1, commandPath, registry);
    } else {
      var taken := IsTaken(argv, i, unknown, commandPath, registry);
      var commandPath' := commandPath + (if taken then [] else [argv[i]]);
      WordBehind(argv, i, unknown, commandPath, registry);
      InStepIff(argv, i + 1, 0, commandPath', registry);
      FirstDecides(i, LooksBehind(argv, i + 1, 0), ReadsBehind(argv, i + 1, 0, commandPath', registry));
    }
  }

  lemma NothingBehind(argv: seq<string>, i: nat, unknown: nat, commandPath: seq<string>, registry: seq<seq<string>>)
    requires unknown <= i && i >= |argv|
    ensures LooksBehind(argv, i, unknown) == ReadsBehind(argv, i, unknown, commandPath, registry) == []
  {
  }

  lemma FlagBehind(argv: seq<string>, i: nat, unknown: nat, commandPath: seq<string>, registry: seq<seq<string>>)
    requires unknown <= i < |argv| && IsFlag(argv[i])
    ensures var next := if StandsAlone(argv[i]) then 0 else unknown + 1;
            && LooksBehind(argv, i, unknown) == LooksBehind(argv, i + 1, next)
            && ReadsBehind(argv, i, unknown, commandPath, registry) ==
                 ReadsBehind(argv, i + 1, next, commandPath, registry)
  {
    hide YieldsToCommand, SkipFlags, EqualsIndex, IsBoolean;
    SkipStep(argv, i);
  }

  lemma WordBehind(argv: seq<string>, i: nat, unknown: nat, commandPath: seq<string>, registry: seq<seq<string>>)
    requires unknown <= i < |argv| && !IsFlag(argv[i])
    ensures var taken := IsTaken(argv, i, unknown, commandPath, registry);
            var seen := LooksBehind(argv, i + 1, 0);
            var parsed := ReadsBehind(argv, i + 1, 0, commandPath + (if taken then [] else [argv[i]]), registry);
            && LooksBehind(argv, i, unknown) == (if unknown % 2 == 1 then seen else [i] + seen)
            && ReadsBehind(argv, i, unknown, commandPath, registry) == (if taken then parsed else [i] + parsed)
            && i !in seen && i !in parsed
  {
    hide YieldsToCommand, SkipFlags, IsFlag;
    SkipStep(argv, i);
    assert commandPath + [] == commandPath;
  }

  /** Lists that go on behind `i` agree iff both begin with `i` or neither does, and the rest agrees. */
  lemma FirstDecides(i: nat, a: seq<nat>, b: seq<nat>)
    requires i !in a && i !in b
    ensures [i] + a == [i] + b <==> a == b
    ensures [i] + a != b && a != [i] + b
  {
    assert ([i] + a)[0] == i && ([i] + b)[0] == i;
    assert ([i] + a)[1..] == a && ([i] + b)[1..] == b;
  }

  /** So the two agree on the positions of the command words iff they are in step from `i` on. */
  lemma SamePositionsIff(argv: seq<string>, i: nat, commandPath: seq<string>, registry: seq<seq<string>>)
    ensures LookPositions(argv, i) == ReadPositions(argv, i, commandPath, registry) <==>
      InStep(argv, i, 0, commandPath, registry)
  {
    hide InStep, LookPositions, ReadPositions;
    InStepIff(argv, i, 0, commandPath, registry);
  }

  lemma {:induction false} LookAheadWordsAre(argv: seq<string>, i: nat)
    ensures LookAheadWords(argv, i) == TextsAt(argv, LookPositions(argv, i))
    decreases |argv| - i
  {
    hide SkipFlags;
    var at := SkipFlags(argv, i);
    if at < |argv| {
      LookAheadWordsAre(argv, at + 1);
    }
  }

  lemma {:induction false} ParsedWordsAre(argv: seq<string>, i: nat, p: ParsedArgs, registry: seq<seq<string>>)
    ensures ParseFrom(argv, i, p, registry).commandPath
         == p.commandPath + TextsAt(argv, ReadPositions(argv, i, p.commandPath, registry))
    decreases |argv| - i
  {
    hide ParserStep, ParseFrom, IsFlag;
    if i >= |argv| {
      ParseEnd(argv, i, p, registry);
    } else {
      var q := ParserSteps(argv, i, p, registry);
      StepIsForward(argv, i, p.commandPath, registry);
      ParsedWordsAre(argv, i + ParserStep(argv, i, p.commandPath, registry), q, registry);
      if IsFlag(argv[i]) {
        assert p.commandPath + [] == p.commandPath;
      } else {
        TextsNext(argv, i, ReadPositions(argv, i + 1, q.commandPath, registry));
      }
    }
  }

  lemma TextsNext(argv: seq<string>, at: nat, rest: seq<nat>)
    requires at < |argv| && forall k :: k in rest ==> k < |argv|
    ensures TextsAt(argv, [at] + rest) == [argv[at]] + TextsAt(argv, rest)
  {
  }

  lemma StepIsForward(argv: seq<string>, i: nat, commandPath: seq<string>, registry: seq<seq<string>>)
    requires i < |argv|
    ensures ParserStep(argv, i, commandPath, registry) == 1
         || (IsFlag(argv[i]) && ParserStep(argv, i, commandPath, registry) == 2)
  {
    hide StandsAlone, YieldsToCommand;
  }

  lemma WordsFromStep(argv: seq<string>, i: nat)
    requires i < |argv|
    ensures LookAheadWords(argv, i) ==
      if IsFlag(argv[i]) then LookAheadWords(argv, i + LookAheadStep(argv[i]))
      else [argv[i]] + LookAheadWords(argv, i + 1)
  {
    hide SkipFlags, LookAheadStep, IsFlag;
    SkipStep(argv, i);
  }

  lemma SkipStep(argv: seq<string>, i: nat)
    requires i < |argv|
    ensures SkipFlags(argv, i) == if IsFlag(argv[i]) then SkipFlags(argv, i + LookAheadStep(argv[i])) else i
  {
    hide EqualsIndex, IsBoolean;
  }

  /** The two agree on every path iff the look-ahead sees the very words that the parser goes on to read. */
  lemma PathsAgreeIff(argv: seq<string>, i: nat, p: ParsedArgs, registry: seq<seq<string>>)
    ensures (forall path :: PathStartsAt(argv, i, path) <==>
               p.commandPath + path <= ParseFrom(argv, i, p, registry).commandPath)
       <==> p.commandPath + LookAheadWords(argv, i) == ParseFrom(argv, i, p, registry).commandPath
  {
    hide PathStartsAt, ParseFrom, LookAheadWords;
    ParsedWordsAre(argv, i, p, registry);
    var seen, words := LookAheadWords(argv, i), TextsAt(argv, ReadPositions(argv, i, p.commandPath, registry));
    forall path
      ensures PathStartsAt(argv, i, path) <==> path <= seen
      ensures p.commandPath + path <= ParseFrom(argv, i, p, registry).commandPath <==> path <= words
    {
      PathStartsIffPrefix(argv, i, path);
      PrefixShifted(p.commandPath, path, words);
    }
    if forall path :: PathStartsAt(argv, i, path) <==>
         p.commandPath + path <= ParseFrom(argv, i, p, registry).commandPath {
      assert PathStartsAt(argv, i, seen) && PathStartsAt(argv, i, words);
      assert seen <= words && words <= seen;
    }
    if p.commandPath + seen == p.commandPath + words {
      PrefixShifted(p.commandPath, seen, words);
      PrefixShifted(p.commandPath, words, seen);
    }
  }

  /** In step, a path starts here iff the parser reads its words next. */
  lemma PathStartsIffParsed(argv: seq<string>, i: nat, p: ParsedArgs, registry: seq<seq<string>>, path: seq<string>)
    requires InStep(argv, i, 0, p.commandPath, registry)
    ensures PathStartsAt(argv, i, path) <==> p.commandPath + path <= ParseFrom(argv, i, p, registry).commandPath
  {
    hide PathStartsAt, ParseFrom, InStep, LookAheadWords, LookPositions, ReadPositions;
    SamePositionsIff(argv, i, p.commandPath, registry);
    LookAheadWordsAre(argv, i);
    ParsedWordsAre(argv, i, p, registry);
    PathsAgreeIff(argv, i, p, registry);
  }

  lemma PrefixShifted(before: seq<string>, path: seq<string>, words: seq<string>)
    ensures before + path <= before + words <==> path <= words
  {
    if before + path <= before + words {
      forall k | 0 <= k < |path| ensures path[k] == words[k] {
        assert (before + path)[|before| + k] == (before + words)[|before| + k];
      }
    }
  }

  /** Before each word and each flag with a separate value, bare flags in a row come in pairs. `bare` counts those
      directly before the items. */
  predicate BareInPairs(items: seq<Item>, bare: nat) {
    items == [] ||
    match items[0]
    case Bare(_) => BareInPairs(items[1..], bare + 1)
    case Word(_) => bare % 2 == 0 && BareInPairs(items[1..], 0)
    case Spaced(_, _) => bare % 2 == 0 && BareInPairs(items[1..], 0)
    case _ => BareInPairs(items[1..], 0)
  }

  /** On an unambiguous command line the look-ahead and the parser are in step iff bare flags come in pairs. */
  lemma {:induction false} UnambiguousInStepIff(items: seq<Item>, bare: nat, argv: seq<string>, i: nat,
                                                commandPath: seq<string>, registry: seq<seq<string>>)
    requires bare <= i <= |argv| && argv[i..] == PrintedAll(items)
    requires AllUnambiguous(items, argv, i, commandPath, registry)
    requires bare > 0 && i < |argv| && !IsFlag(argv[i]) ==> YieldsToCommand(argv, i - 1, commandPath, registry)
    ensures InStep(argv, i, bare, commandPath, registry) <==> BareInPairs(items, bare)
    decreases |items|
  {
    hide Unambiguous, YieldsToCommand, IsFlag, Printed, InStep, StandsAlone;
    if items == [] {
      assert i == |argv|;
      EndInStep(argv, i, bare, commandPath, registry);
    } else {
      PrintedHere(items, argv, i);
      FirstWord(items);
      assert commandPath + [] == commandPath;
      ItemInStep(items[0], bare, argv, i, commandPath, registry);
      var next := i + |Printed(items[0])|;
      var bare' := if items[0].Bare? then bare + 1 else 0;
      UnambiguousInStepIff(items[1..], bare', argv, next, commandPath + WordsOf(items[..1]), registry);
    }
  }

  lemma EndInStep(argv: seq<string>, i: nat, bare: nat, commandPath: seq<string>, registry: seq<seq<string>>)
    requires bare <= i && i >= |argv|
    ensures InStep(argv, i, bare, commandPath, registry)
  {
  }

  /** What one unambiguous item asks for. */
  lemma ItemInStep(item: Item, bare: nat, argv: seq<string>, i: nat, commandPath: seq<string>,
                   registry: seq<seq<string>>)
    requires bare <= i && i + |Printed(item)| <= |argv| && argv[i] == Printed(item)[0]
    requires item.Spaced? ==> argv[i + 1] == item.value
    requires Unambiguous(item, argv, i, commandPath, registry)
    requires bare > 0 && !IsFlag(argv[i]) ==> YieldsToCommand(argv, i - 1, commandPath, registry)
    ensures var next := i + |Printed(item)|;
            var bare' := if item.Bare? then bare + 1 else 0;
            && InStep(argv, i, bare, commandPath, registry) ==
                 (((item.Word? || item.Spaced?) ==> bare % 2 == 0)
                  && InStep(argv, next, bare', commandPath + (if item.Word? then [item.text] else []), registry))
            && (item.Bare? && next < |argv| && !IsFlag(argv[next]) ==> YieldsToCommand(argv, i, commandPath, registry))
  {
    hide EqualsIndex, YieldsToCommand, IsBoolean;
    assert commandPath + [] == commandPath;
    match item
    case Word(text) =>
    case Assign(name, value) =>
      EqualsIndexIs(name, value);
      assert argv[i][2..] == name + "=" + value;
    case Switch(name) =>
      assert argv[i][2..] == name;
    case Spaced(name, value) =>
      assert argv[i][2..] == name;
      UnfoldTwice(argv, i, bare, commandPath, registry);
    case Bare(name) =>
      assert argv[i][2..] == name;
  }

  /** An unknown flag and its value. */
  lemma UnfoldTwice(argv: seq<string>, i: nat, bare: nat, commandPath: seq<string>, registry: seq<seq<string>>)
    requires bare <= i && i + 1 < |argv| && IsFlag(argv[i]) && !StandsAlone(argv[i]) && !IsFlag(argv[i + 1])
    requires !YieldsToCommand(argv, i, commandPath, registry)
    ensures InStep(argv, i, bare, commandPath, registry) ==
      (bare % 2 == 0 && InStep(argv, i + 2, 0, commandPath, registry))
  {
    hide StandsAlone, YieldsToCommand, IsFlag;
    assert commandPath + [] == commandPath;
    assert InStep(argv, i, bare, commandPath, registry) == InStep(argv, i + 1, bare + 1, commandPath, registry);
  }

  /** Two flags and two words: what the look-ahead sees from each of the tokens. */
  lemma WordsAfterTwoFlags(argv: seq<string>)
    requires |argv| == 4 && IsFlag(argv[0]) && IsFlag(argv[1]) && !IsFlag(argv[2]) && !IsFlag(argv[3])
    requires !StandsAlone(argv[0]) && !StandsAlone(argv[1])
    ensures LookAheadWords(argv, 0) == LookAheadWords(argv, 2) == [argv[2], argv[3]]
    ensures LookAheadWords(argv, 1) == LookAheadWords(argv, 3) == [argv[3]]
  {
    hide LookAheadWords, StandsAlone, IsFlag;
    WordsAtEnd(argv, 4);
    WordsFromStep(argv, 3);
    WordsFromStep(argv, 2);
    WordsFromStep(argv, 1);
    WordsFromStep(argv, 0);
  }

  /** A flag before another flag: the parser leaves the first without a value, while the look-ahead takes the
      second for its value. So the look-ahead sees the command x where the parser goes on to read y. */
  lemma FlagBeforeFlag(argv: seq<string>, registry: seq<seq<string>>)
    requires |argv| == 4 && IsFlag(argv[0]) && IsFlag(argv[1]) && !IsFlag(argv[2]) && !IsFlag(argv[3])
    requires !StandsAlone(argv[0]) && !StandsAlone(argv[1]) && argv[2] != argv[3]
    requires registry == [[argv[2]], [argv[3]]]
    ensures PathStartsAt(argv, 0, [argv[2]]) && !PathStartsAt(argv, 0, [argv[3]])
    ensures ParseFrom(argv, 0, ParsedArgs([], map[]), registry).commandPath == [argv[3]]
  {
    hide PathStartsAt, YieldsToCommand, StandsAlone, IsFlag, ParseFrom, LookAheadWords;
    var x, y := argv[2], argv[3];
    WordsAfterTwoFlags(argv);
    PathStartsIffPrefix(argv, 0, [x]);
    PathStartsIffPrefix(argv, 0, [y]);
    assert AnyIsPrefix(registry, [y]) by {
      assert registry[1] == [y];
      assert [y] in registry && [y] <= [y];
    }
    YieldsIff(argv, 0, registry);
    YieldsIff(argv, 1, registry);
    assert [x] <= [x, y] && !([y] <= [x, y]) by {
      assert [y][0] != [x, y][0];
    }
    var q := ParserSteps(argv, 0, ParsedArgs([], map[]), registry);
    assert ParserStep(argv, 0, [], registry) == 1 && q.commandPath == [];
    var r := ParserSteps(argv, 1, q, registry);
    assert ParserStep(argv, 1, [], registry) == 2 && r.commandPath == [];
    var t := ParserSteps(argv, 3, r, registry);
    ParseEnd(argv, 4, t, registry);
  }

  lemma WordsAtEnd(argv: seq<string>, cursor: nat)
    requires cursor >= |argv|
    ensures LookAheadWords(argv, cursor) == []
  {
  }

  lemma UnknownFlag(name: string)
    requires '=' !in name && !IsBoolean(name)
    ensures IsFlag("--" + name) && !StandsAlone("--" + name)
  {
    hide IsBoolean;
    assert ("--" + name)[2..] == name;
  }

  /** For instance `--foo --bar x y` where x and y are commands: the parser runs y. */
  lemma LookAheadMayDiffer()
    ensures var argv, registry := ["--foo", "--bar", "x", "y"], [["x"], ["y"]];
            && PathStartsAt(argv, 0, ["x"]) && !PathStartsAt(argv, 0, ["y"])
            && ParseFrom(argv, 0, ParsedArgs([], map[]), registry).commandPath == ["y"]
  {
    hide PathStartsAt, ParseFrom, StandsAlone;
    UnknownFlag("foo");
    UnknownFlag("bar");
    assert "--foo" == "--" + "foo" && "--bar" == "--" + "bar";
    FlagBeforeFlag(["--foo", "--bar", "x", "y"], [["x"], ["y"]]);
  }

  /** The words may be the same by chance: of `--foo x --bar --baz x` where x x is a command the look-ahead sees
      the second x, and the parser reads the first. */
  lemma SameWordsByChance(argv: seq<string>, x: string, registry: seq<seq<string>>)
    requires argv == ["--foo", x, "--bar", "--baz", x] && !IsFlag(x) && registry == [[x, x]]
    ensures LookAheadWords(argv, 0) == ParseFrom(argv, 0, ParsedArgs([], map[]), registry).commandPath == [x]
    ensures LookPositions(argv, 0) != ReadPositions(argv, 0, [], registry)
  {
    hide StandsAlone, YieldsToCommand, IsFlag, ParseFrom, LookAheadWords, InStep, LookPositions, ReadPositions;
    ThreeUnknownFlags();
    WordsBehindFoo(argv);
    assert AnyIsPrefix(registry, [x, x]) by {
      assert [x, x] in registry && [x, x] <= [x, x];
    }
    YieldsIff(argv, 0, registry);
    var q := ParserSteps(argv, 0, ParsedArgs([], map[]), registry);
    assert ParserStep(argv, 0, [], registry) == 1 && q.commandPath == [];
    var r := ParserSteps(argv, 1, q, registry);
    assert ParserStep(argv, 1, [], registry) == 1 && r.commandPath == [x];
    var t := ParserSteps(argv, 2, r, registry);
    assert ParserStep(argv, 2, [x], registry) == 1 && t.commandPath == [x];
    NoYieldBehindWord(argv, 3, [x], registry);
    assert ParserStep(argv, 3, [x], registry) == 2;
    var u := ParserSteps(argv, 3, t, registry);
    ParseEnd(argv, 5, u, registry);
    OutOfStep(argv, registry);
    SamePositionsIff(argv, 0, [], registry);
  }

  lemma ThreeUnknownFlags()
    ensures forall token :: token in ["--foo", "--bar", "--baz"] ==> IsFlag(token) && !StandsAlone(token)
  {
    UnknownFlag("foo");
    UnknownFlag("bar");
    UnknownFlag("baz");
    assert "--foo" == "--" + "foo" && "--bar" == "--" + "bar" && "--baz" == "--" + "baz";
  }

  lemma WordsBehindFoo(argv: seq<string>)
    requires |argv| == 5 && !IsFlag(argv[1]) && !IsFlag(argv[4])
    requires forall k :: k in {0, 2, 3} ==> IsFlag(argv[k]) && !StandsAlone(argv[k])
    ensures LookAheadWords(argv, 0) == LookAheadWords(argv, 2) == [argv[4]]
    ensures LookAheadWords(argv, 1) == [argv[1], argv[4]]
  {
    hide LookAheadWords, StandsAlone, IsFlag;
    WordsAtEnd(argv, 5);
    WordsFromStep(argv, 4);
    WordsFromStep(argv, 2);
    WordsFromStep(argv, 1);
    WordsFromStep(argv, 0);
  }

  lemma NoYieldBehindWord(argv: seq<string>, i: nat, commandPath: seq<string>, registry: seq<seq<string>>)
    requires commandPath != []
    ensures !YieldsToCommand(argv, i, commandPath, registry)
  {
  }

  lemma OutOfStep(argv: seq<string>, registry: seq<seq<string>>)
    requires |argv| >= 2 && IsFlag(argv[0]) && !StandsAlone(argv[0]) && !IsFlag(argv[1])
    requires YieldsToCommand(argv, 0, [], registry)
    ensures !InStep(argv, 0, 0, [], registry)
  {
    hide StandsAlone, YieldsToCommand, IsFlag;
  }

  // ---------- Repeated flags ----------

  function GetOptionalStringFlag(flags: Flags, name: string): Option<string> {
    if name in flags && flags[name].Text? && flags[name].value != "" then Some(flags[name].value) else None
  }

  /** The stretches between separators. */
  function Split(s: string): (r: seq<string>)
    ensures |r| > 0 && forall part :: part in r ==> SEPARATOR !in part
  {
    if s == "" then [""]
    else if s[0] == SEPARATOR then [""] + Split(s[1..])
    else [[s[0]] + Split(s[1..])[0]] + Split(s[1..])[1..]
  }

  function NonEmpty(parts: seq<string>): (r: seq<string>)
    ensures forall part :: part in r <==> part in parts && part != ""
  {
    if parts == [] then [] else (if parts[0] == "" then [] else [parts[0]]) + NonEmpty(parts[1..])
  }

  function GetRepeatedStringFlag(flags: Flags, name: string): seq<string> {
    var value := GetOptionalStringFlag(flags, name);
    if value.None? then [] else NonEmpty(Split(value.value))
  }

  function TextsOf(values: seq<FlagValue>): seq<string>
    requires forall v :: v in values ==> v.Text?
  {
    seq(|values|, i requires 0 <= i < |values| => values[i].value)
  }

  lemma SplitFirst(c: char, s: string)
    ensures Split([c] + s) == if c == SEPARATOR then [""] + Split(s) else [[c] + Split(s)[0]] + Split(s)[1..]
  {
    assert ([c] + s)[1..] == s;
  }

  lemma {:induction false} SplitJoined(s: string, t: string)
    ensures Split(s + [SEPARATOR] + t) == Split(s) + Split(t)
  {
    if s == "" {
      assert s + [SEPARATOR] + t == [SEPARATOR] + t;
      SplitFirst(SEPARATOR, t);
    } else {
      var rest := s[1..] + [SEPARATOR] + t;
      assert s + [SEPARATOR] + t == [s[0]] + rest && s == [s[0]] + s[1..];
      JoinFirst(s[0], Split(s[1..]), Split(t));
      SplitFirst(s[0], rest);
      SplitFirst(s[0], s[1..]);
      hide Split;
      SplitJoined(s[1..], t);
    }
  }

  lemma JoinFirst(c: char, a: seq<string>, b: seq<string>)
    requires |a| > 0
    ensures [[c] + (a + b)[0]] + (a + b)[1..] == ([[c] + a[0]] + a[1..]) + b
    ensures [""] + (a + b) == ([""] + a) + b
  {
  }

  lemma {:induction false} SplitWhole(s: string)
    requires SEPARATOR !in s
    ensures Split(s) == [s]
  {
    if s != "" {
      SplitWhole(s[1..]);
      assert [s[0]] + s[1..] == s;
    }
  }

  lemma {:induction false} NonEmptyAppend(a: seq<string>, b: seq<string>)
    ensures NonEmpty(a + b) == NonEmpty(a) + NonEmpty(b)
  {
    if a == [] {
      assert a + b == b;
    } else {
      assert (a + b)[0] == a[0] && (a + b)[1..] == a[1..] + b;
      NonEmptyAppend(a[1..], b);
    }
  }

  /** The combined text of a repeatable flag splits into the texts it was made from. */
  lemma {:induction false} CombinedSplits(name: string, values: seq<FlagValue>)
    requires name in REPEATABLE_FLAGS && values != []
    requires forall v :: v in values ==> v.Text? && SEPARATOR !in v.value
    ensures Combined(name, values).Some? && Combined(name, values).value.Text?
    ensures Split(Combined(name, values).value.value) == TextsOf(values)
  {
    hide Split;
    var last, before := values[|values| - 1], values[..|values| - 1];
    SplitWhole(last.value);
    if before == [] {
      assert TextsOf(values) == [last.value];
    } else {
      CombinedSplits(name, before);
      SplitJoined(Combined(name, before).value.value, last.value);
      assert TextsOf(values) == TextsOf(before) + [last.value];
    }
  }

  /** What was given after the last bare occurrence of the flag. */
  function AfterLastBare(values: seq<FlagValue>): (r: seq<FlagValue>)
    ensures forall v :: v in r ==> v.Text? && v in values
    ensures (forall v :: v in values ==> v.Text?) ==> r == values
  {
    if values == [] then []
    else if values[|values| - 1].On? then
      assert values[|values| - 1] in values;
      []
    else
      assert values == values[..|values| - 1] + [values[|values| - 1]];
      assert forall v :: v in values[..|values| - 1] ==> v in values;
      AfterLastBare(values[..|values| - 1]) + [values[|values| - 1]]
  }

  /** A bare occurrence of a flag wipes out what was given before it. */
  lemma {:induction false} BareWipesOut(name: string, values: seq<FlagValue>)
    ensures AfterLastBare(values) != [] ==> Combined(name, values) == Combined(name, AfterLastBare(values))
    ensures AfterLastBare(values) == [] ==> Combined(name, values) == if values == [] then None else Some(On)
    decreases |values|
  {
    if values != [] && values[|values| - 1].Text? {
      var last, before := values[|values| - 1], values[..|values| - 1];
      BareWipesOut(name, before);
      CombinedNext(name, AfterLastBare(before), last);
    }
  }

  /** Of a repeated flag the values after its last bare occurrence come back, in order and without the empty
      ones, unless one of them holds the separator. */
  lemma RepeatedValuesComeBack(items: seq<Item>, flags: Flags, name: string)
    requires name in REPEATABLE_FLAGS && Lookup(flags, name) == Combined(name, Given(items, name))
    ensures var values := AfterLastBare(Given(items, name));
            GetRepeatedStringFlag(flags, name) == NonEmpty(TextsOf(values)) <==>
              forall v :: v in values ==> SEPARATOR !in v.value
  {
    hide Combined, Given, Split, AfterLastBare;
    var values := AfterLastBare(Given(items, name));
    BareWipesOut(name, Given(items, name));
    if values != [] && forall v :: v in values ==> SEPARATOR !in v.value {
      CombinedSplits(name, values);
      if Combined(name, values).value.value == "" {
        SplitWhole("");
        assert NonEmpty(Split("")) == [];
      }
    }
    if GetRepeatedStringFlag(flags, name) == NonEmpty(TextsOf(values)) {
      forall v | v in values ensures SEPARATOR !in v.value {
        var i :| 0 <= i < |values| && values[i] == v;
        assert TextsOf(values)[i] == v.value;
        assert v.value != "" ==> v.value in NonEmpty(TextsOf(values));
      }
    }
  }

  /** From the command line to the values: of an unambiguously spelled one those after the last bare occurrence. */
  lemma RepeatedValuesRoundTrip(items: seq<Item>, registry: seq<seq<string>>, name: string)
    requires name in REPEATABLE_FLAGS && AllUnambiguous(items, PrintedAll(items), 0, [], registry)
    ensures var parsed := ParseFrom(PrintedAll(items), 0, ParsedArgs([], map[]), registry);
            var values := AfterLastBare(Given(items, name));
            GetRepeatedStringFlag(parsed.flags, name) == NonEmpty(TextsOf(values)) <==>
              forall v :: v in values ==> SEPARATOR !in v.value
  {
    hide ParseFrom, GetRepeatedStringFlag, AllUnambiguous, Combined, Given, Lookup;
    ParsingUndoesPrinting(items, registry);
    RepeatedValuesComeBack(items, ParseFrom(PrintedAll(items), 0, ParsedArgs([], map[]), registry).flags, name);
  }

  function Labels(values: seq<string>): seq<Item> {
    if values == [] then [] else [Assign("label", values[0])] + Labels(values[1..])
  }

  /** In particular every `--label=value` comes back, in order and without the empty ones. */
  lemma LabelsRoundTrip(values: seq<string>, registry: seq<seq<string>>)
    requires forall v :: v in values ==> '\0' !in v
    ensures var parsed := ParseFrom(PrintedAll(Labels(values)), 0, ParsedArgs([], map[]), registry);
            GetRepeatedStringFlag(parsed.flags, "label") == NonEmpty(values)
  {
    hide ParseFrom, GetRepeatedStringFlag, AllUnambiguous, AfterLastBare, Given, Labels;
    LabelsGiven(values);
    PlainIsUnambiguous(Labels(values), PrintedAll(Labels(values)), 0, [], registry);
    RepeatedValuesRoundTrip(Labels(values), registry, "label");
    forall v | v in Given(Labels(values), "label") ensures SEPARATOR !in v.value {
      var k :| 0 <= k < |values| && Given(Labels(values), "label")[k] == v;
      assert TextsOf(Given(Labels(values), "label"))[k] == values[k];
    }
  }

  lemma {:induction false} LabelsGiven(values: seq<string>)
    ensures forall item :: item in Labels(values) ==> Plain(item)
    ensures var given := Given(Labels(values), "label");
            && (forall v :: v in given ==> v.Text?) && TextsOf(given) == values && AfterLastBare(given) == given
  {
    if values != [] {
      LabelsGiven(values[1..]);
      assert values == [values[0]] + values[1..];
    }
  }

  /** A name that is not repeatable keeps the last text only, whatever was given before. */
  lemma LastValueCounts(name: string, values: seq<FlagValue>, last: FlagValue)
    requires name != "label"
    ensures Combined(name, values + [last]) == Some(last)
  {
    CombinedNext(name, values, last);
  }
}
