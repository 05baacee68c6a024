/**
  Quoting for a POSIX shell, a reader that follows the shell's quoting and word rules, and the
  repository's own tokenizer for leading words, with what each reads back.
 */
module ShellQuoting {
  import opened Options
  import opened JavaScriptText

  // ---------- The shell's reading of words: POSIX.1-2017, XCU sections 2.2, 2.3 and 2.6.7 ----------

  datatype Mode = Unquoted | InSingle

  /** Outside quotes these would end the command, start an operator, a comment or double quotes, ask for an
      expansion, or separate words otherwise than by a space. */
  predicate IsSpecial(c: char) {
    c in "\t\n|&;<>()$`*?[~#\""
  }

  /** Reads words separated by spaces, quotes removed; None if there is an open quote, or anything that may mean
      something else than a character of a word. `word` is the word being read, if one has begun. */
  function ReadFrom(s: string, mode: Mode, word: Option<string>, words: seq<string>): Option<seq<string>>
    decreases |s|
  {
    var text := if word.Some? then word.value else "";
    if s == "" then
      if mode != Unquoted then None
      else Some(if word.Some? then words + [text] else words)
    else
      match mode
      case InSingle =>
        if s[0] == '\'' then ReadFrom(s[1..], Unquoted, Some(text), words)
        else ReadFrom(s[1..], InSingle, Some(text + [s[0]]), words)
      case Unquoted =>
        if s[0] == ' ' then ReadFrom(s[1..], Unquoted, None, if word.Some? then words + [text] else words)
        else if s[0] == '\'' then ReadFrom(s[1..], InSingle, Some(text), words)
        else if s[0] == '\\' then
          if |s| == 1 || s[1] == '\n' then None
          else ReadFrom(s[2..], Unquoted, Some(text + [s[1]]), words)
        else if IsSpecial(s[0]) then None
        else ReadFrom(s[1..], Unquoted, Some(text + [s[0]]), words)
  }

  function ReadWords(s: string): Option<seq<string>> {
    ReadFrom(s, Unquoted, None, [])
  }

  // ---------- The quoting ----------

  predicate IsSafe(c: char) {
    'a' <= c <= 'z' || 'A' <= c <= 'Z' || '0' <= c <= '9' || c in "._:/@-"
  }

  predicate AllSafe(s: string) {
    forall i :: 0 <= i < |s| ==> IsSafe(s[i])
  }

  /** Every single quote closes the quotes, stands escaped, and opens them again. */
  function Escaped(value: string): (r: string)
    ensures '\'' !in value ==> r == value
  {
    if value == "" then ""
    else (if value[0] == '\'' then "'\\''" else [value[0]]) + Escaped(value[1..])
  }

  function QuoteCliCommandArgument(value: string): string {
    if value != "" && AllSafe(value) then value else "'" + Escaped(value) + "'"
  }

  /** The editor launcher's own test, in its own order. */
  function EscapePosixPathForShell(pathValue: string): string {
    if pathValue != "" && forall i :: 0 <= i < |pathValue| ==>
         var c := pathValue[i]; 'a' <= c <= 'z' || 'A' <= c <= 'Z' || '0' <= c <= '9' || c in "_./@:-"
    then pathValue else "'" + Escaped(pathValue) + "'"
  }

  lemma EscapersAgree(value: string)
    ensures EscapePosixPathForShell(value) == QuoteCliCommandArgument(value)
  {
    assert forall c: char :: c in "_./@:-" <==> c in "._:/@-";
  }

  // ---------- The shell reads back what was quoted ----------

  lemma SafeReads(c: char, rest: string, text: string, words: seq<string>, word: Option<string>)
    requires IsSafe(c) && word == (if text == "" then None else Some(text))
    ensures ReadFrom([c] + rest, Unquoted, word, words) == ReadFrom(rest, Unquoted, Some(text + [c]), words)
  {
    assert ([c] + rest)[1..] == rest;
  }

  lemma {:induction false} BareReads(value: string, rest: string, text: string, words: seq<string>,
                                     word: Option<string>)
    requires value != "" && AllSafe(value) && word == (if text == "" then None else Some(text))
    ensures ReadFrom(value + rest, Unquoted, word, words) == ReadFrom(rest, Unquoted, Some(text + value), words)
    decreases |value|
  {
    hide ReadFrom;
    assert value + rest == [value[0]] + (value[1..] + rest);
    SafeReads(value[0], value[1..] + rest, text, words, word);
    if |value| > 1 {
      BareReads(value[1..], rest, text + [value[0]], words, Some(text + [value[0]]));
      assert text + [value[0]] + value[1..] == text + value;
    } else {
      assert value[1..] + rest == rest && [value[0]] == value;
    }
  }

  lemma CloseReads(rest: string, text: string, words: seq<string>)
    ensures ReadFrom("'" + rest, InSingle, Some(text), words) == ReadFrom(rest, Unquoted, Some(text), words)
  {
    assert ("'" + rest)[1..] == rest;
  }

  lemma InsideReads(c: char, rest: string, text: string, words: seq<string>)
    requires c != '\''
    ensures ReadFrom([c] + rest, InSingle, Some(text), words) == ReadFrom(rest, InSingle, Some(text + [c]), words)
  {
    assert ([c] + rest)[1..] == rest;
  }

  lemma OpenReads(rest: string, text: string, words: seq<string>, word: Option<string>)
    requires text == (if word.Some? then word.value else "")
    ensures ReadFrom("'" + rest, Unquoted, word, words) == ReadFrom(rest, InSingle, Some(text), words)
  {
    assert ("'" + rest)[1..] == rest;
  }

  lemma EscapedQuoteReads(rest: string, text: string, words: seq<string>)
    ensures ReadFrom("'\\''" + rest, InSingle, Some(text), words) == ReadFrom(rest, InSingle, Some(text + "'"), words)
  {
    assert "'\\''" + rest == "'" + ("\\'" + ("'" + rest));
    CloseReads("\\'" + ("'" + rest), text, words);
    assert ("\\'" + ("'" + rest))[2..] == "'" + rest;
    OpenReads(rest, text + "'", words, Some(text + "'"));
  }

  lemma {:induction false} EscapedReads(value: string, rest: string, text: string, words: seq<string>)
    ensures ReadFrom(Escaped(value) + ("'" + rest), InSingle, Some(text), words)
         == ReadFrom(rest, Unquoted, Some(text + value), words)
    decreases |value|
  {
    hide ReadFrom;
    var close := "'" + rest;
    if value == "" {
      assert Escaped(value) + close == close && text + value == text;
      CloseReads(rest, text, words);
    } else {
      var tail := Escaped(value[1..]) + close;
      EscapedReads(value[1..], rest, text + [value[0]], words);
      assert text + [value[0]] + value[1..] == text + value;
      if value[0] == '\'' {
        assert Escaped(value) + close == "'\\''" + tail;
        EscapedQuoteReads(tail, text, words);
      } else {
        assert Escaped(value) + close == [value[0]] + tail;
        InsideReads(value[0], tail, text, words);
      }
    }
  }

  lemma QuotedReads(value: string, rest: string, words: seq<string>)
    ensures ReadFrom(QuoteCliCommandArgument(value) + rest, Unquoted, None, words)
         == ReadFrom(rest, Unquoted, Some(value), words)
  {
    hide ReadFrom, Escaped, AllSafe;
    assert "" + value == value;
    if value != "" && AllSafe(value) {
      BareReads(value, rest, "", words, None);
    } else {
      assert QuoteCliCommandArgument(value) + rest == "'" + (Escaped(value) + ("'" + rest));
      OpenReads(Escaped(value) + ("'" + rest), "", words, None);
      EscapedReads(value, rest, "", words);
    }
  }

  function QuotedAll(values: seq<string>): string {
    if values == [] then ""
    else if |values| == 1 then QuoteCliCommandArgument(values[0])
    else QuoteCliCommandArgument(values[0]) + (" " + QuotedAll(values[1..]))
  }

  lemma NextWordReads(rest: string, word: string, words: seq<string>)
    ensures ReadFrom(" " + rest, Unquoted, Some(word), words) == ReadFrom(rest, Unquoted, None, words + [word])
    ensures ReadFrom("", Unquoted, Some(word), words) == Some(words + [word])
  {
    assert (" " + rest)[1..] == rest;
  }

  /** Quoted values with spaces between them are read as exactly these words, whatever the values hold. */
  lemma {:induction false} QuotedListReads(values: seq<string>, words: seq<string>)
    ensures ReadFrom(QuotedAll(values), Unquoted, None, words) == Some(words + values)
  {
    hide ReadFrom, QuoteCliCommandArgument;
    if values == [] {
      assert words + values == words;
      NoWordsRead(words);
    } else if |values| == 1 {
      QuotedReads(values[0], "", words);
      NextWordReads("", values[0], words);
      assert QuotedAll(values) + "" == QuotedAll(values) && [values[0]] == values;
    } else {
      QuotedReads(values[0], " " + QuotedAll(values[1..]), words);
      NextWordReads(QuotedAll(values[1..]), values[0], words);
      QuotedListReads(values[1..], words + [values[0]]);
      assert words + [values[0]] + values[1..] == words + values;
    }
  }

  lemma NoWordsRead(words: seq<string>)
    ensures ReadFrom("", Unquoted, None, words) == Some(words)
  {
  }

  /** A quoted value is read as one word: itself. */
  lemma QuotedIsOneWord(value: string)
    ensures ReadWords(QuoteCliCommandArgument(value)) == Some([value])
  {
    QuotedListReads([value], []);
    assert [] + [value] == [value];
  }

  // ---------- The repository's tokenizer for leading words ----------

  /** The outcome on the rest of a command, with the tokens found, the token being read and the open quote. */
  ghost function Tokens(s: string, limit: nat, tokens: seq<string>, current: string, quote: Option<char>): seq<string>
    decreases |s|
  {
    if s == "" then
      if current != "" && |tokens| < limit then tokens + [current] else tokens
    else if quote.Some? then
      if s[0] == quote.value then Tokens(s[1..], limit, tokens, current, None)
      else Tokens(s[1..], limit, tokens, current + [s[0]], quote)
    else if s[0] == '"' || s[0] == '\'' then
      Tokens(s[1..], limit, tokens, current, Some(s[0]))
    else if IsSpace(s[0]) then
      if current == "" then Tokens(s[1..], limit, tokens, current, None)
      else if |tokens| + 1 >= limit then tokens + [current]
      else Tokens(s[1..], limit, tokens + [current], "", None)
    else Tokens(s[1..], limit, tokens, current + [s[0]], None)
  }

  method TokenizeLeadingShellWords(command: string, limit: nat) returns (tokens: seq<string>)
    ensures tokens == Tokens(command, limit, [], "", None)
  {
    tokens := [];
    var current := "";
    var quote: Option<char> := None;
    for i := 0 to |command|
      invariant Tokens(command[i..], limit, tokens, current, quote) == Tokens(command, limit, [], "", None)
    {
      var ch := command[i];
      assert command[i..][0] == ch && command[i..][1..] == command[i + 1..];
      if quote.Some? {
        if ch == quote.value {
          quote := None;
        } else {
          current := current + [ch];
        }
        continue;
      }
      if ch == '"' || ch == '\'' {
        quote := Some(ch);
        continue;
      }
      if IsSpace(ch) {
        if current != "" {
          tokens := tokens + [current];
          if |tokens| >= limit {
            return tokens;
          }
          current := "";
        }
        continue;
      }
      current := current + [ch];
    }
    if current != "" && |tokens| < limit {
      tokens := tokens + [current];
    }
  }

  /** Tokens found are kept, a token begun goes on, no token is empty, and there are no more than asked for. */
  lemma {:induction false} TokensGrow(s: string, limit: nat, tokens: seq<string>, current: string, quote: Option<char>)
    requires |tokens| < limit
    ensures var r := Tokens(s, limit, tokens, current, quote);
            && tokens <= r && |r| <= limit
            && (current != "" ==> |r| > |tokens| && current <= r[|tokens|])
            && (forall i :: |tokens| <= i < |r| ==> r[i] != "")
    decreases |s|
  {
    if s != "" {
      var grown := current + [s[0]];
      if quote.Some? && s[0] == quote.value {
        TokensGrow(s[1..], limit, tokens, current, None);
      } else if quote.Some? {
        TokensGrow(s[1..], limit, tokens, grown, quote);
      } else if s[0] == '"' || s[0] == '\'' {
        TokensGrow(s[1..], limit, tokens, current, Some(s[0]));
      } else if IsSpace(s[0]) {
        if current == "" {
          TokensGrow(s[1..], limit, tokens, current, None);
        } else if |tokens| + 1 < limit {
          TokensGrow(s[1..], limit, tokens + [current], "", None);
        }
      } else {
        TokensGrow(s[1..], limit, tokens, grown, None);
      }
    }
  }

  lemma {:induction false} TokensInside(text: string, rest: string, limit: nat, tokens: seq<string>, current: string)
    requires '\'' !in text
    ensures Tokens(text + rest, limit, tokens, current, Some('\''))
         == Tokens(rest, limit, tokens, current + text, Some('\''))
    decreases |text|
  {
    if text == "" {
      assert text + rest == rest && current + text == current;
    } else {
      assert (text + rest)[0] == text[0] && (text + rest)[1..] == text[1..] + rest;
      TokensInside(text[1..], rest, limit, tokens, current + [text[0]]);
      assert current + [text[0]] + text[1..] == current + text;
    }
  }

  lemma {:induction false} TokensBare(text: string, rest: string, limit: nat, tokens: seq<string>, current: string)
    requires AllSafe(text)
    ensures Tokens(text + rest, limit, tokens, current, None) == Tokens(rest, limit, tokens, current + text, None)
    decreases |text|
  {
    if text == "" {
      assert text + rest == rest && current + text == current;
    } else {
      assert (text + rest)[0] == text[0] && (text + rest)[1..] == text[1..] + rest;
      TokensBare(text[1..], rest, limit, tokens, current + [text[0]]);
      assert current + [text[0]] + text[1..] == current + text;
    }
  }

  lemma TokensQuote(rest: string, limit: nat, tokens: seq<string>, current: string)
    ensures Tokens("'" + rest, limit, tokens, current, None) == Tokens(rest, limit, tokens, current, Some('\''))
    ensures Tokens("'" + rest, limit, tokens, current, Some('\'')) == Tokens(rest, limit, tokens, current, None)
  {
    assert ("'" + rest)[1..] == rest;
  }

  /** A quoted value without single quotes is gathered as it is. */
  lemma CleanGathers(value: string, rest: string, limit: nat, tokens: seq<string>)
    requires '\'' !in value
    ensures Tokens(QuoteCliCommandArgument(value) + rest, limit, tokens, "", None)
         == Tokens(rest, limit, tokens, value, None)
  {
    hide Tokens, AllSafe;
    assert "" + value == value;
    if value != "" && AllSafe(value) {
      TokensBare(value, rest, limit, tokens, "");
    } else {
      assert QuoteCliCommandArgument(value) + rest == "'" + (value + ("'" + rest));
      TokensQuote(value + ("'" + rest), limit, tokens, "");
      TokensInside(value, "'" + rest, limit, tokens, "");
      TokensQuote(rest, limit, tokens, value);
    }
  }

  /** What follows the first single quote of a quoted value, once that quote has closed the quotes. */
  function AfterFirstQuote(value: string, at: nat, rest: string): string
    requires at < |value|
  {
    "''" + (Escaped(value[at + 1..]) + ("'" + rest))
  }

  lemma QuotedAroundQuote(value: string, at: nat, rest: string)
    requires at < |value| && value[at] == '\'' && '\'' !in value[..at]
    ensures QuoteCliCommandArgument(value) + rest ==
      "'" + (value[..at] + ("'" + ("\\" + AfterFirstQuote(value, at, rest))))
  {
    hide Escaped, AllSafe;
    EscapedSplit(value, at);
    UnsafeAt(value, at);
    Regrouped(value[..at], Escaped(value[at + 1..]), rest);
  }

  lemma UnsafeAt(value: string, at: nat)
    requires at < |value| && value[at] == '\''
    ensures !AllSafe(value)
  {
    assert !IsSafe(value[at]);
  }

  lemma Regrouped(before: string, after: string, rest: string)
    ensures "'" + (before + ("'\\''" + after)) + "'" + rest
         == "'" + (before + ("'" + ("\\" + ("''" + (after + ("'" + rest))))))
  {
    var middle := "'\\''" + after;
    assert "'" + (before + middle) + "'" + rest == "'" + (before + (middle + ("'" + rest)));
    assert middle + ("'" + rest) == "'" + ("\\" + ("''" + (after + ("'" + rest))));
  }

  lemma UpToFirstQuote(before: string, tail: string, limit: nat, tokens: seq<string>)
    requires '\'' !in before
    ensures Tokens("'" + (before + ("'" + ("\\" + tail))), limit, tokens, "", None)
         == Tokens(tail, limit, tokens, before + "\\", None)
  {
    hide Tokens;
    TokensQuote(before + ("'" + ("\\" + tail)), limit, tokens, "");
    TokensInside(before, "'" + ("\\" + tail), limit, tokens, "");
    assert "" + before == before;
    TokensQuote("\\" + tail, limit, tokens, before);
    TokensBackslash(tail, limit, tokens, before);
  }

  /** A quoted value with a single quote is not: a backslash takes the place of the first one. */
  lemma QuoteIsLost(value: string, at: nat, rest: string, limit: nat, tokens: seq<string>)
    requires at < |value| && value[at] == '\'' && '\'' !in value[..at] && |tokens| < limit
    ensures var r := Tokens(QuoteCliCommandArgument(value) + rest, limit, tokens, "", None);
            tokens <= r && |r| > |tokens| && r[|tokens|] != value
  {
    hide Tokens, AfterFirstQuote, QuoteCliCommandArgument;
    var before, tail := value[..at], AfterFirstQuote(value, at, rest);
    QuotedAroundQuote(value, at, rest);
    UpToFirstQuote(before, tail, limit, tokens);
    TokensGrow(tail, limit, tokens, before + "\\", None);
    assert (before + "\\")[at] == '\\';
  }

  lemma TokensBackslash(rest: string, limit: nat, tokens: seq<string>, current: string)
    ensures Tokens("\\" + rest, limit, tokens, current, None) == Tokens(rest, limit, tokens, current + "\\", None)
  {
    assert ("\\" + rest)[1..] == rest;
  }

  lemma EscapedFirst(value: string)
    requires value != ""
    ensures Escaped(value) == (if value[0] == '\'' then "'\\''" else [value[0]]) + Escaped(value[1..])
  {
  }

  lemma {:induction false} EscapedSplit(value: string, at: nat)
    requires at < |value| && value[at] == '\'' && '\'' !in value[..at]
    ensures Escaped(value) == value[..at] + ("'\\''" + Escaped(value[at + 1..]))
    decreases at
  {
    hide Escaped;
    EscapedFirst(value);
    if at > 0 {
      var rest := value[1..];
      assert value[0] in value[..at];
      assert rest[at - 1] == value[at] && rest[at..] == value[at + 1..] && rest[..at - 1] == value[1..at];
      assert forall c :: c in value[1..at] ==> c in value[..at];
      EscapedSplit(rest, at - 1);
      assert value[..at] == [value[0]] + value[1..at];
    } else {
      assert value[..0] == "";
    }
  }

  lemma {:induction false} FirstQuote(value: string) returns (at: nat)
    requires '\'' in value
    ensures at < |value| && value[at] == '\'' && '\'' !in value[..at]
  {
    if value[0] == '\'' {
      at := 0;
    } else {
      var k := FirstQuote(value[1..]);
      at := k + 1;
      assert value[..at] == [value[0]] + value[1..][..k];
    }
  }

  ghost predicate Clean(value: string) {
    value != "" && '\'' !in value
  }

  /** The first `n` of the values, or all if there are fewer. */
  function FirstOf(values: seq<string>, n: nat): seq<string> {
    if n <= |values| then values[..n] else values
  }

  /** A value that is empty or holds a single quote does not come back in its place. */
  lemma UncleanIsLost(value: string, rest: string, limit: nat, tokens: seq<string>)
    requires !Clean(value) && |tokens| < limit
    ensures var r := Tokens(QuoteCliCommandArgument(value) + rest, limit, tokens, "", None);
            |r| > |tokens| ==> r[|tokens|] != value
  {
    hide Tokens, QuoteCliCommandArgument;
    if value == "" {
      TokensGrow(QuoteCliCommandArgument(value) + rest, limit, tokens, "", None);
    } else {
      var at := FirstQuote(value);
      QuoteIsLost(value, at, rest, limit, tokens);
    }
  }

  lemma CleanComesBack(value: string, rest: string, limit: nat, tokens: seq<string>)
    requires Clean(value) && |tokens| < limit
    ensures Tokens(QuoteCliCommandArgument(value), limit, tokens, "", None) == tokens + [value]
    ensures Tokens(QuoteCliCommandArgument(value) + (" " + rest), limit, tokens, "", None) ==
      if |tokens| + 1 >= limit then tokens + [value] else Tokens(rest, limit, tokens + [value], "", None)
  {
    hide QuoteCliCommandArgument;
    CleanGathers(value, "", limit, tokens);
    assert QuoteCliCommandArgument(value) + "" == QuoteCliCommandArgument(value);
    CleanGathers(value, " " + rest, limit, tokens);
    assert (" " + rest)[1..] == rest;
  }

  lemma {:induction false} TokenizerAfter(values: seq<string>, limit: nat, tokens: seq<string>)
    requires |tokens| < limit
    ensures Tokens(QuotedAll(values), limit, tokens, "", None) == tokens + FirstOf(values, limit - |tokens|)
       <==> forall v :: v in FirstOf(values, limit - |tokens|) ==> Clean(v)
    decreases |values|
  {
    hide Tokens, QuoteCliCommandArgument, Clean;
    var n := limit - |tokens|;
    var wanted := FirstOf(values, n);
    var r := Tokens(QuotedAll(values), limit, tokens, "", None);
    if values == [] {
      TokensOfNothing(limit, tokens);
      assert tokens + wanted == tokens;
    } else {
      var value, rest := values[0], values[1..];
      assert wanted == [value] + FirstOf(rest, n - 1);
      assert (tokens + wanted)[|tokens|] == value && value in wanted;
      if !Clean(value) {
        UncleanIsLost(value, if |values| == 1 then "" else " " + QuotedAll(rest), limit, tokens);
        assert QuoteCliCommandArgument(value) + "" == QuoteCliCommandArgument(value);
        assert |r| > |tokens| ==> r[|tokens|] != value;
      } else {
        CleanComesBack(value, QuotedAll(rest), limit, tokens);
        assert tokens + wanted == tokens + [value] + FirstOf(rest, n - 1);
        assert forall v :: v in wanted <==> v == value || v in FirstOf(rest, n - 1);
        if |values| == 1 || n == 1 {
          assert FirstOf(rest, n - 1) == [];
        } else {
          TokenizerAfter(rest, limit, tokens + [value]);
        }
      }
    }
  }

  lemma TokensOfNothing(limit: nat, tokens: seq<string>)
    ensures Tokens("", limit, tokens, "", None) == tokens
  {
  }

  /** The tokenizer, run with a limit of at least one on quoted values with spaces between them, returns the
      first values, as many as the limit allows, if and only if none of these is empty or holds a single quote. */
  lemma TokenizerAgreesIff(values: seq<string>, limit: nat)
    requires limit >= 1
    ensures Tokens(QuotedAll(values), limit, [], "", None) == FirstOf(values, limit)
       <==> forall v :: v in FirstOf(values, limit) ==> Clean(v)
  {
    hide Tokens, Clean, QuoteCliCommandArgument;
    TokenizerAfter(values, limit, []);
    assert [] + FirstOf(values, limit) == FirstOf(values, limit);
  }

  // ---------- Words in either kind of quotes ----------

  /** A word and the quotes that it stands in. */
  datatype QuotedWord = QuotedWord(text: string, quote: char)

  predicate IsQuotable(w: QuotedWord) {
    w.text != "" && (w.quote == '"' || w.quote == '\'') && w.quote !in w.text
  }

  function Spaced(words: seq<QuotedWord>): string {
    if words == [] then ""
    else
      [words[0].quote]
      + (words[0].text + ([words[0].quote] + (if |words| == 1 then "" else " " + Spaced(words[1..]))))
  }

  function TextsOf(words: seq<QuotedWord>): (r: seq<string>)
    ensures |r| == |words| && forall i :: 0 <= i < |r| ==> r[i] == words[i].text
  {
    seq(|words|, i requires 0 <= i < |words| => words[i].text)
  }

  lemma {:induction false} InQuotesGathers(text: string, quote: char, rest: string, limit: nat, tokens: seq<string>,
                                           current: string)
    requires quote !in text
    ensures Tokens(text + ([quote] + rest), limit, tokens, current, Some(quote))
         == Tokens(rest, limit, tokens, current + text, None)
    decreases |text|
  {
    var s := text + ([quote] + rest);
    if text == "" {
      assert s == [quote] + rest && s[1..] == rest && current + text == current;
    } else {
      assert s[0] == text[0] && s[1..] == text[1..] + ([quote] + rest);
      InQuotesGathers(text[1..], quote, rest, limit, tokens, current + [text[0]]);
      assert current + [text[0]] + text[1..] == current + text;
    }
  }

  lemma WordGathers(w: QuotedWord, rest: string, limit: nat, tokens: seq<string>)
    requires IsQuotable(w)
    ensures Tokens([w.quote] + (w.text + ([w.quote] + rest)), limit, tokens, "", None)
         == Tokens(rest, limit, tokens, w.text, None)
  {
    var s := [w.quote] + (w.text + ([w.quote] + rest));
    assert s[0] == w.quote && s[1..] == w.text + ([w.quote] + rest);
    InQuotesGathers(w.text, w.quote, rest, limit, tokens, "");
    assert "" + w.text == w.text;
  }

  lemma WordEnds(rest: string, limit: nat, tokens: seq<string>, word: string)
    requires word != "" && |tokens| < limit
    ensures Tokens("", limit, tokens, word, None) == tokens + [word]
    ensures Tokens(" " + rest, limit, tokens, word, None) ==
      if |tokens| + 1 >= limit then tokens + [word] else Tokens(rest, limit, tokens + [word], "", None)
  {
    assert (" " + rest)[1..] == rest;
  }

  /** Words in single or double quotes, whatever else they hold, come back as they are: the first `limit` of them. */
  lemma {:induction false} QuotedWordsComeBack(words: seq<QuotedWord>, limit: nat, tokens: seq<string>)
    requires forall w :: w in words ==> IsQuotable(w)
    requires |tokens| < limit
    ensures var all := tokens + TextsOf(words);
            Tokens(Spaced(words), limit, tokens, "", None) == if |all| <= limit then all else all[..limit]
    decreases |words|
  {
    hide Tokens;
    if words == [] {
      NothingTokenized(limit, tokens);
      assert tokens + TextsOf(words) == tokens;
    } else {
      assert words[0] in words;
      var word, rest := words[0].text, if |words| == 1 then "" else " " + Spaced(words[1..]);
      WordGathers(words[0], rest, limit, tokens);
      WordEnds(Spaced(words[1..]), limit, tokens, word);
      assert tokens + TextsOf(words) == tokens + [word] + TextsOf(words[1..]);
      if |words| > 1 && |tokens| + 1 < limit {
        QuotedWordsComeBack(words[1..], limit, tokens + [word]);
      }
    }
  }

  lemma NothingTokenized(limit: nat, tokens: seq<string>)
    ensures Tokens("", limit, tokens, "", None) == tokens
  {
  }

  /** A value is left as it is iff it is not empty and holds only letters, digits and . _ : / @ - */
  lemma LeftAloneIff(value: string)
    ensures QuoteCliCommandArgument(value) == value <==>
      value != "" && forall c :: c in value ==>
        'a' <= c <= 'z' || 'A' <= c <= 'Z' || '0' <= c <= '9' || c in {'.', '_', ':', '/', '@', '-'}
  {
    hide Escaped;
    assert forall i :: 0 <= i < |value| ==> value[i] in value;
    if !(value != "" && AllSafe(value)) {
      EscapedIsNotShorter(value);
      assert |QuoteCliCommandArgument(value)| > |value|;
    }
  }

  lemma {:induction false} EscapedIsNotShorter(value: string)
    ensures |Escaped(value)| >= |value|
  {
    if value != "" {
      EscapedIsNotShorter(value[1..]);
    }
  }
}
