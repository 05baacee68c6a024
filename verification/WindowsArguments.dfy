/**
  The Windows launcher prints an argument vector as one command line. This module holds the printer,
  a reader that follows Microsoft's "Parsing C command-line arguments" rules, and the proof that
  reading undoes printing.
 */
module WindowsArguments {

  // ---------- The reader: Microsoft's rules ----------

  /** The C runtimes differ in what `""` means inside a quoted part: a closing and an opening quote,
      a literal quote after which the quoted part goes on, or a literal quote that ends it. */
  datatype DoubledQuote = Toggles | LiteralStaysQuoted | LiteralEndsQuoted

  predicate IsBlank(c: char) {
    c == ' ' || c == '\t'
  }

  /** The number of backslashes at the start of a text. */
  function LeadingBackslashes(s: string): (n: nat)
    ensures n <= |s|
    ensures forall i :: 0 <= i < n ==> s[i] == '\\'
    ensures n < |s| ==> s[n] != '\\'
  {
    if s == [] || s[0] != '\\' then 0 else 1 + LeadingBackslashes(s[1..])
  }

  function Backslashes(n: nat): (r: string)
    ensures |r| == n && forall i :: 0 <= i < n ==> r[i] == '\\'
  {
    seq(n, _ => '\\')
  }

  /** Reads one argument; returns it with the text left over. */
  function ReadArgument(s: string, quoted: bool, acc: string, rule: DoubledQuote): (r: (string, string))
    ensures |r.1| <= |s|
    decreases |s|
  {
    var n := LeadingBackslashes(s);
    if s == [] then
      (acc, s)
    else if n > 0 then
      if n < |s| && s[n] == '"' then
        if n % 2 == 0 then ReadArgument(s[n..], quoted, acc + Backslashes(n / 2), rule)
        else ReadArgument(s[n + 1..], quoted, acc + Backslashes(n / 2) + "\"", rule)
      else
        ReadArgument(s[n..], quoted, acc + Backslashes(n), rule)
    else if s[0] == '"' then
      if quoted && !rule.Toggles? && |s| > 1 && s[1] == '"' then
        ReadArgument(s[2..], rule.LiteralStaysQuoted?, acc + "\"", rule)
      else
        ReadArgument(s[1..], !quoted, acc, rule)
    else if !quoted && IsBlank(s[0]) then
      (acc, s)
    else
      ReadArgument(s[1..], quoted, acc + [s[0]], rule)
  }

  function SkipBlanks(s: string): (r: string)
    ensures |r| <= |s|
    ensures r == [] || !IsBlank(r[0])
  {
    if s != [] && IsBlank(s[0]) then SkipBlanks(s[1..]) else s
  }

  lemma ReadArgumentProgress(s: string, rule: DoubledQuote)
    requires s != [] && !IsBlank(s[0])
    ensures |ReadArgument(s, false, [], rule).1| < |s|
  {
  }

  /** All the arguments of a command line. */
  function ReadArguments(s: string, rule: DoubledQuote): seq<string>
    decreases |s|
  {
    var t := SkipBlanks(s);
    if t == [] then []
    else
      ReadArgumentProgress(t, rule);
      var (argument, rest) := ReadArgument(t, false, [], rule);
      [argument] + ReadArguments(rest, rule)
  }

  // ---------- The printer ----------

  /** .NET's Char.IsWhiteSpace. */
  predicate IsWhiteSpace(c: char) {
    || '\t' <= c <= '\r' || c == ' ' || c == '\U{0085}' || c == '\U{00A0}' || c == '\U{1680}'
    || '\U{2000}' <= c <= '\U{200A}' || c == '\U{2028}' || c == '\U{2029}' || c == '\U{202F}'
    || c == '\U{205F}' || c == '\U{3000}'
  }

  predicate NeedsQuotes(value: string) {
    value == [] || exists i :: 0 <= i < |value| && (value[i] == '"' || IsWhiteSpace(value[i]))
  }

  /** What follows the opening quote, when `pending` backslashes have been held back. */
  ghost function Escaped(value: string, pending: nat): string {
    if value == [] then Backslashes(2 * pending)
    else if value[0] == '\\' then Escaped(value[1..], pending + 1)
    else if value[0] == '"' then Backslashes(2 * pending + 1) + "\"" + Escaped(value[1..], 0)
    else Backslashes(pending) + [value[0]] + Escaped(value[1..], 0)
  }

  ghost function Quoted(value: string): string {
    if NeedsQuotes(value) then "\"" + Escaped(value, 0) + "\"" else value
  }

  lemma {:induction false} EscapedIsNotShorter(value: string, pending: nat)
    ensures |Escaped(value, pending)| >= |value| + pending
  {
    if value != "" {
      EscapedIsNotShorter(value[1..], if value[0] == '\\' then pending + 1 else 0);
    }
  }

  /** A value stands unquoted iff it is not empty and holds no double quote and none of Unicode's white space. */
  lemma LeftAloneIff(value: string)
    ensures Quoted(value) == value <==> value != "" && forall c :: c in value ==>
      c !in "\"\t\n\U{000B}\U{000C}\r \U{0085}\U{00A0}\U{1680}\U{2000}\U{2001}\U{2002}\U{2003}\U{2004}\U{2005}"
      && c !in "\U{2006}\U{2007}\U{2008}\U{2009}\U{200A}\U{2028}\U{2029}\U{202F}\U{205F}\U{3000}"
  {
    hide Escaped;
    assert forall i :: 0 <= i < |value| ==> value[i] in value;
    if NeedsQuotes(value) {
      EscapedIsNotShorter(value, 0);
      assert |Quoted(value)| > |value|;
    }
  }

  ghost function SpacedQuoted(args: seq<string>): string {
    if args == [] then [] else " " + Quoted(args[0]) + SpacedQuoted(args[1..])
  }

  ghost function CommandLine(cliPath: string, args: seq<string>): string {
    Quoted(cliPath) + SpacedQuoted(args)
  }

  method QuoteArgument(value: string) returns (r: string)
    ensures r == Quoted(value)
  {
    hide Backslashes, IsWhiteSpace;
    var requiresQuotes := |value| == 0;
    var index := 0;
    while index < |value| && !requiresQuotes
      invariant 0 <= index <= |value|
      invariant requiresQuotes <==>
        value == [] || exists i :: 0 <= i < index && (value[i] == '"' || IsWhiteSpace(value[i]))
    {
      requiresQuotes := value[index] == '"' || IsWhiteSpace(value[index]);
      index := index + 1;
    }
    if !requiresQuotes {
      return value;
    }
    var quoted := "\"";
    var backslashCount := 0;
    for k := 0 to |value|
      invariant quoted + Escaped(value[k..], backslashCount) == "\"" + Escaped(value, 0)
    {
      var character := value[k];
      assert value[k..][0] == character && value[k..][1..] == value[k + 1..];
      ghost var before := quoted;
      if character == '\\' {
        backslashCount := backslashCount + 1;
        continue;
      }
      if character == '"' {
        quoted := quoted + Backslashes(backslashCount * 2 + 1);
        quoted := quoted + "\"";
        assert quoted == before + (Backslashes(2 * backslashCount + 1) + "\"");
      } else {
        quoted := quoted + Backslashes(backslashCount);
        quoted := quoted + [character];
        assert quoted == before + (Backslashes(backslashCount) + [character]);
      }
      backslashCount := 0;
    }
    quoted := quoted + Backslashes(backslashCount * 2);
    quoted := quoted + "\"";
    return quoted;
  }

  method BuildArguments(cliPath: string, args: seq<string>) returns (commandLine: string)
    ensures commandLine == CommandLine(cliPath, args)
    ensures forall rule :: ReadArguments(commandLine, rule) == [cliPath] + args
  {
    commandLine := QuoteArgument(cliPath);
    for k := 0 to |args|
      invariant commandLine + SpacedQuoted(args[k..]) == CommandLine(cliPath, args)
    {
      ghost var before := commandLine;
      commandLine := commandLine + " ";
      var quoted := QuoteArgument(args[k]);
      commandLine := commandLine + quoted;
      assert args[k..][0] == args[k] && args[k..][1..] == args[k + 1..];
      assert commandLine + SpacedQuoted(args[k + 1..]) == before + (" " + quoted + SpacedQuoted(args[k + 1..]));
    }
    forall rule {
      ReadingUndoesPrinting(cliPath, args, rule);
    }
  }

  // ---------- Reading undoes printing ----------

  /** A position at which an unquoted argument ends. */
  predicate Ends(rest: string) {
    rest == [] || IsBlank(rest[0])
  }

  lemma LeadingIs(s: string, n: nat)
    requires n <= |s| && forall i :: 0 <= i < n ==> s[i] == '\\'
    requires n < |s| ==> s[n] != '\\'
    ensures LeadingBackslashes(s) == n
  {
  }

  /** What a run of backslashes reads as, by what follows it. */
  lemma RunReads(n: nat, tail: string, quoted: bool, acc: string, rule: DoubledQuote)
    requires tail != [] ==> tail[0] != '\\'
    ensures ReadArgument(Backslashes(n) + tail, quoted, acc, rule) ==
            if tail == [] || tail[0] != '"' then ReadArgument(tail, quoted, acc + Backslashes(n), rule)
            else if n % 2 == 0 then ReadArgument(tail, quoted, acc + Backslashes(n / 2), rule)
            else ReadArgument(tail[1..], quoted, acc + Backslashes(n / 2) + "\"", rule)
  {
    var s := Backslashes(n) + tail;
    LeadingIs(s, n);
    assert s[n..] == tail;
    if n == 0 {
      assert s == tail && acc + Backslashes(0) == acc;
    } else if tail != [] {
      assert s[n] == tail[0] && s[n + 1..] == tail[1..];
    }
  }

  lemma CharacterReads(c: char, tail: string, quoted: bool, acc: string, rule: DoubledQuote)
    requires c != '\\' && c != '"' && (quoted || !IsBlank(c))
    ensures ReadArgument([c] + tail, quoted, acc, rule) == ReadArgument(tail, quoted, acc + [c], rule)
  {
    LeadingIs([c] + tail, 0);
    assert ([c] + tail)[1..] == tail;
  }

  lemma EndReads(rest: string, acc: string, rule: DoubledQuote)
    requires Ends(rest)
    ensures ReadArgument(rest, false, acc, rule) == (acc, rest)
  {
    LeadingIs(rest, 0);
  }

  lemma QuoteReads(quoted: bool, tail: string, acc: string, rule: DoubledQuote)
    requires !quoted || Ends(tail)
    ensures ReadArgument("\"" + tail, quoted, acc, rule) == ReadArgument(tail, !quoted, acc, rule)
  {
    LeadingIs("\"" + tail, 0);
    assert ("\"" + tail)[1..] == tail;
  }

  /** Escaped text, read inside quotes, gives back the held-back backslashes and the value. */
  lemma {:induction false} EscapedReads(value: string, k: nat, acc: string, rest: string, rule: DoubledQuote)
    requires Ends(rest)
    ensures ReadArgument(Escaped(value, k) + "\"" + rest, true, acc, rule) == (acc + Backslashes(k) + value, rest)
    decreases |value|
  {
    hide ReadArgument, LeadingBackslashes, Backslashes;
    var result := acc + Backslashes(k) + value;
    var text := Escaped(value, k) + "\"" + rest;
    if value == [] {
      assert text == Backslashes(2 * k) + ("\"" + rest) && result == acc + Backslashes(k);
      RunReads(2 * k, "\"" + rest, true, acc, rule);
      QuoteReads(true, rest, result, rule);
      EndReads(rest, result, rule);
    } else if value[0] == '\\' {
      assert result == acc + Backslashes(k + 1) + value[1..];
      EscapedReads(value[1..], k + 1, acc, rest, rule);
    } else {
      var tail := Escaped(value[1..], 0) + "\"" + rest;
      var acc' := acc + Backslashes(k) + [value[0]];
      assert result == acc' + Backslashes(0) + value[1..];
      EscapedReads(value[1..], 0, acc', rest, rule);
      assert ([value[0]] + tail)[1..] == tail;
      if value[0] == '"' {
        assert text == Backslashes(2 * k + 1) + ("\"" + tail);
        RunReads(2 * k + 1, "\"" + tail, true, acc, rule);
      } else {
        assert text == Backslashes(k) + ([value[0]] + tail);
        RunReads(k, [value[0]] + tail, true, acc, rule);
        CharacterReads(value[0], tail, true, acc + Backslashes(k), rule);
      }
    }
  }

  /** A value printed without quotes is read back as it stands. */
  lemma {:induction false} BareReads(value: string, acc: string, rest: string, rule: DoubledQuote)
    requires Ends(rest)
    requires forall i :: 0 <= i < |value| ==> value[i] != '"' && !IsBlank(value[i])
    ensures ReadArgument(value + rest, false, acc, rule) == (acc + value, rest)
    decreases |value|
  {
    hide ReadArgument, LeadingBackslashes, Backslashes;
    var n := LeadingBackslashes(value);
    assert value == Backslashes(n) + value[n..];
    assert value + rest == Backslashes(n) + (value[n..] + rest);
    RunReads(n, value[n..] + rest, false, acc, rule);
    if n == |value| {
      assert value[n..] + rest == rest && acc + Backslashes(n) == acc + value;
      EndReads(rest, acc + value, rule);
    } else {
      var c := value[n];
      assert value[n..] + rest == [c] + (value[n + 1..] + rest);
      CharacterReads(c, value[n + 1..] + rest, false, acc + Backslashes(n), rule);
      BareReads(value[n + 1..], acc + Backslashes(n) + [c], rest, rule);
      assert acc + Backslashes(n) + [c] + value[n + 1..] == acc + value;
    }
  }

  lemma QuotedReads(value: string, rest: string, rule: DoubledQuote)
    requires Ends(rest)
    ensures ReadArgument(Quoted(value) + rest, false, [], rule) == (value, rest)
    ensures Quoted(value) != [] && !IsBlank(Quoted(value)[0])
  {
    hide ReadArgument;
    if NeedsQuotes(value) {
      assert Quoted(value) + rest == "\"" + (Escaped(value, 0) + "\"" + rest);
      QuoteReads(false, Escaped(value, 0) + "\"" + rest, [], rule);
      EscapedReads(value, 0, [], rest, rule);
      assert [] + Backslashes(0) + value == value;
    } else {
      BareReads(value, [], rest, rule);
      assert [] + value == value;
    }
  }

  /** Reading a printed argument that ends where `rest` begins. */
  lemma FirstReads(value: string, rest: string, rule: DoubledQuote)
    requires Ends(rest)
    ensures SkipBlanks(Quoted(value) + rest) == Quoted(value) + rest
    ensures ReadArguments(Quoted(value) + rest, rule) == [value] + ReadArguments(rest, rule)
  {
    hide ReadArgument;
    QuotedReads(value, rest, rule);
  }

  lemma {:induction false} SpacedReads(args: seq<string>, rule: DoubledQuote)
    ensures ReadArguments(SpacedQuoted(args), rule) == args
    ensures Ends(SpacedQuoted(args))
  {
    hide ReadArgument;
    if args != [] {
      var rest := SpacedQuoted(args[1..]);
      SpacedReads(args[1..], rule);
      FirstReads(args[0], rest, rule);
      LeadingBlankSkipped(Quoted(args[0]) + rest, rule);
      assert SpacedQuoted(args) == " " + (Quoted(args[0]) + rest);
      assert args == [args[0]] + args[1..];
    }
  }

  lemma LeadingBlankSkipped(s: string, rule: DoubledQuote)
    requires SkipBlanks(s) == s
    ensures ReadArguments(" " + s, rule) == ReadArguments(s, rule)
  {
    hide ReadArgument;
    assert (" " + s)[1..] == s;
    assert SkipBlanks(" " + s) == s;
  }

  /** Whatever the arguments hold, and whichever runtime reads the line, the printed command line is
      read as the path of the CLI followed by exactly the arguments. */
  lemma ReadingUndoesPrinting(cliPath: string, args: seq<string>, rule: DoubledQuote)
    ensures ReadArguments(CommandLine(cliPath, args), rule) == [cliPath] + args
  {
    hide ReadArgument;
    SpacedReads(args, rule);
    FirstReads(cliPath, SpacedQuoted(args), rule);
  }

  /** Different argument vectors never share a command line. */
  lemma CommandLineInjective(cliPath: string, args: seq<string>, cliPath': string, args': seq<string>)
    requires CommandLine(cliPath, args) == CommandLine(cliPath', args')
    ensures cliPath == cliPath' && args == args'
  {
    ReadingUndoesPrinting(cliPath, args, Toggles);
    ReadingUndoesPrinting(cliPath', args', Toggles);
    assert ([cliPath] + args)[0] == ([cliPath'] + args')[0];
    assert ([cliPath] + args)[1..] == args && ([cliPath'] + args')[1..] == args';
  }
}
