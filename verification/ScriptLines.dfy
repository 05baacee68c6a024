/**
  Hook scripts: how a script with LF or CRLF line ends is cut into lines for the Windows runner and
  normalised for the POSIX one, and that both runners see the same lines.
 */
module ScriptLines {
  import opened Options
  import opened JavaScriptText

  const CRLF := "\r\n"

  // ---------- What the two scanners should compute ----------

  predicate CrlfAt(s: string, i: nat) {
    i + 1 < |s| && s[i] == '\r' && s[i + 1] == '\n'
  }

  /** Every CRLF replaced by LF. */
  function ReplaceCrlf(s: string): string {
    if s == "" then ""
    else if CrlfAt(s, 0) then "\n" + ReplaceCrlf(s[2..])
    else [s[0]] + ReplaceCrlf(s[1..])
  }

  /** The stretches between line feeds. */
  function SplitLf(s: string): (r: seq<string>)
    ensures |r| > 0 && forall line :: line in r ==> '\n' !in line
  {
    if s == "" then [""]
    else if s[0] == '\n' then [""] + SplitLf(s[1..])
    else [[s[0]] + SplitLf(s[1..])[0]] + SplitLf(s[1..])[1..]
  }

  lemma {:induction false} NothingReplaced(s: string)
    requires forall i :: 0 <= i ==> !CrlfAt(s, i)
    ensures ReplaceCrlf(s) == s
  {
    if s != "" {
      forall i | 0 <= i ensures !CrlfAt(s[1..], i) {
        assert !CrlfAt(s, i + 1);
      }
      NothingReplaced(s[1..]);
      assert s == [s[0]] + s[1..];
    }
  }

  /** Replacing up to the first CRLF. */
  lemma {:induction false} ReplaceFirst(chunk: string, rest: string)
    requires forall i :: 0 <= i < |chunk| ==> !CrlfAt(chunk + CRLF, i)
    ensures ReplaceCrlf(chunk + (CRLF + rest)) == chunk + ("\n" + ReplaceCrlf(rest))
    decreases |chunk|
  {
    var s := chunk + (CRLF + rest);
    if chunk == "" {
      assert s == CRLF + rest && s[2..] == rest;
    } else {
      var tail := chunk[1..];
      assert s[0] == chunk[0] && s[1..] == tail + (CRLF + rest);
      assert !CrlfAt(chunk + CRLF, 0) && s[1] == (chunk + CRLF)[1];
      forall i | 0 <= i < |tail| ensures !CrlfAt(tail + CRLF, i) {
        assert !CrlfAt(chunk + CRLF, i + 1) && (tail + CRLF)[i] == (chunk + CRLF)[i + 1];
      }
      ReplaceFirst(tail, rest);
    }
  }

  lemma {:induction false} SplitFirst(line: string, rest: string)
    requires '\n' !in line
    ensures SplitLf(line + ("\n" + rest)) == [line] + SplitLf(rest)
    decreases |line|
  {
    var s := line + ("\n" + rest);
    if line == "" {
      assert s == "\n" + rest && s[1..] == rest;
    } else {
      assert s[0] == line[0] && s[1..] == line[1..] + ("\n" + rest);
      SplitFirst(line[1..], rest);
      assert line == [line[0]] + line[1..];
    }
  }

  lemma {:induction false} SplitLast(line: string)
    requires '\n' !in line
    ensures SplitLf(line) == [line]
  {
    if line != "" {
      SplitLast(line[1..]);
      assert line == [line[0]] + line[1..];
    }
  }

  // ---------- The normaliser ----------

  /** script.indexOf('\r\n', from) */
  function IndexOfCrlf(s: string, from: nat): (r: Option<nat>)
    ensures r.Some? ==> from <= r.value && CrlfAt(s, r.value) && forall i :: from <= i < r.value ==> !CrlfAt(s, i)
    ensures r.None? ==> forall i :: from <= i ==> !CrlfAt(s, i)
    decreases |s| - from
  {
    if from + 1 >= |s| then None else if CrlfAt(s, from) then Some(from) else IndexOfCrlf(s, from + 1)
  }

  lemma NextChunk(s: string, from: nat, at: nat)
    requires from <= at && CrlfAt(s, at) && forall i :: from <= i < at ==> !CrlfAt(s, i)
    ensures ReplaceCrlf(s[from..]) == s[from..at] + ("\n" + ReplaceCrlf(s[at + 2..]))
  {
    var chunk := s[from..at];
    assert s[from..] == chunk + (CRLF + s[at + 2..]);
    forall i | 0 <= i < |chunk| ensures !CrlfAt(chunk + CRLF, i) {
      assert (chunk + CRLF)[i] == s[from + i] && (chunk + CRLF)[i + 1] == s[from + i + 1];
      assert !CrlfAt(s, from + i);
    }
    ReplaceFirst(chunk, s[at + 2..]);
  }

  lemma LastChunk(s: string, from: nat)
    requires from <= |s| && forall i :: from <= i ==> !CrlfAt(s, i)
    ensures ReplaceCrlf(s[from..]) == s[from..]
  {
    var chunk := s[from..];
    forall i | 0 <= i ensures !CrlfAt(chunk, i) {
      assert !CrlfAt(s, from + i);
    }
    NothingReplaced(chunk);
  }

  method NormalizeCrlfScriptLineEndings(script: string) returns (result: string)
    ensures result == ReplaceCrlf(script)
  {
    hide ReplaceCrlf;
    assert script[0..] == script;
    var crlfStart := IndexOfCrlf(script, 0);
    if crlfStart.None? {
      LastChunk(script, 0);
      return script;
    }
    NextChunk(script, 0, crlfStart.value);
    var normalized := script[..crlfStart.value];
    var chunkStart := crlfStart.value + 2;
    normalized := normalized + "\n";
    crlfStart := IndexOfCrlf(script, chunkStart);
    while crlfStart.Some?
      invariant chunkStart <= |script| && crlfStart == IndexOfCrlf(script, chunkStart)
      invariant normalized + ReplaceCrlf(script[chunkStart..]) == ReplaceCrlf(script)
      decreases |script| - chunkStart
    {
      NextChunk(script, chunkStart, crlfStart.value);
      ghost var before, rest := normalized, ReplaceCrlf(script[crlfStart.value + 2..]);
      normalized := normalized + script[chunkStart..crlfStart.value];
      normalized := normalized + "\n";
      assert normalized + rest == before + (script[chunkStart..crlfStart.value] + ("\n" + rest));
      chunkStart := crlfStart.value + 2;
      crlfStart := IndexOfCrlf(script, chunkStart);
    }
    LastChunk(script, chunkStart);
    return normalized + script[chunkStart..];
  }

  // ---------- The line iterator ----------

  function WithoutCr(line: string): string {
    if line != "" && line[|line| - 1] == '\r' then line[..|line| - 1] else line
  }

  /** A line that ends with a line feed: its own carriage return, if any, goes with it. */
  lemma NextLine(line: string, rest: string)
    requires '\n' !in line
    ensures SplitLf(ReplaceCrlf(line + ("\n" + rest))) == [WithoutCr(line)] + SplitLf(ReplaceCrlf(rest))
  {
    hide ReplaceCrlf, SplitLf;
    var s := line + ("\n" + rest);
    if line != "" && line[|line| - 1] == '\r' {
      var text := line[..|line| - 1];
      assert s == text + (CRLF + rest);
      NoLineFeedNoCrlf(text);
      ReplaceFirst(text, rest);
      SplitFirst(text, ReplaceCrlf(rest));
    } else {
      ReplaceUpToLf(line, rest);
      SplitFirst(line, ReplaceCrlf(rest));
    }
  }

  lemma NoLineFeedNoCrlf(text: string)
    requires '\n' !in text
    ensures forall i :: 0 <= i < |text| ==> !CrlfAt(text + CRLF, i)
  {
  }

  lemma {:induction false} ReplaceUpToLf(line: string, rest: string)
    requires '\n' !in line && (line != "" ==> line[|line| - 1] != '\r')
    ensures ReplaceCrlf(line + ("\n" + rest)) == line + ("\n" + ReplaceCrlf(rest))
    decreases |line|
  {
    var s := line + ("\n" + rest);
    if line == "" {
      assert s == "\n" + rest && s[1..] == rest;
    } else {
      assert s[0] == line[0] && s[1..] == line[1..] + ("\n" + rest);
      assert s[1] == if |line| > 1 then line[1] else '\n';
      ReplaceUpToLf(line[1..], rest);
    }
  }

  lemma FinalLine(line: string)
    requires '\n' !in line
    ensures SplitLf(ReplaceCrlf(line)) == [line]
  {
    NothingReplaced(line);
    SplitLast(line);
  }

  method IterateLfScriptLines(script: string) returns (lines: seq<string>)
    ensures lines == SplitLf(ReplaceCrlf(script))
  {
    hide ReplaceCrlf, SplitLf;
    lines := [];
    var lineStart := 0;
    ghost var all := SplitLf(ReplaceCrlf(script));
    assert script[0..] == script;
    for index := 0 to |script|
      invariant 0 <= lineStart <= index
      invariant '\n' !in script[lineStart..index]
      invariant lines + SplitLf(ReplaceCrlf(script[lineStart..])) == all
    {
      if script[index] != '\n' {
        assert script[lineStart..index + 1] == script[lineStart..index] + [script[index]];
        continue;
      }
      var lineEnd := if index > lineStart && script[index - 1] == '\r' then index - 1 else index;
      ghost var line := script[lineStart..index];
      assert script[lineStart..] == line + ("\n" + script[index + 1..]);
      NextLine(line, script[index + 1..]);
      assert script[lineStart..lineEnd] == WithoutCr(line);
      ghost var before := lines;
      lines := lines + [script[lineStart..lineEnd]];
      ghost var rest := SplitLf(ReplaceCrlf(script[index + 1..]));
      assert before + ([WithoutCr(line)] + rest) == lines + rest;
      lineStart := index + 1;
    }
    if lineStart <= |script| {
      assert script[lineStart..|script|] == script[lineStart..];
      FinalLine(script[lineStart..]);
      lines := lines + [script[lineStart..]];
    }
  }

  // ---------- The runners ----------

  const WINDOWS_HEADER := "@echo off\r\nsetlocal EnableExtensions\r\n"
  const POSIX_HEADER := "#!/usr/bin/env bash\nset -e\n"
  const GUARD := "if errorlevel 1 exit /b %errorlevel%"

  /** The rows that a line of the hook becomes: its command is called and guarded once, a blank line stays blank. */
  function RowsFor(line: string): seq<string> {
    var command := Trim(line);
    if command == "" then [""] else ["call " + command, GUARD]
  }

  function RowsForAll(lines: seq<string>): seq<string> {
    if lines == [] then [] else RowsFor(lines[0]) + RowsForAll(lines[1..])
  }

  /** Rows written with a CRLF after each. */
  function Written(rows: seq<string>): string {
    if rows == [] then "" else rows[0] + (CRLF + Written(rows[1..]))
  }

  lemma {:induction false} WrittenAppend(a: seq<string>, b: seq<string>)
    ensures Written(a + b) == Written(a) + Written(b)
  {
    if a == [] {
      assert a + b == b;
    } else {
      assert (a + b)[0] == a[0] && (a + b)[1..] == a[1..] + b;
      WrittenAppend(a[1..], b);
    }
  }

  lemma {:induction false} RowsForAllAppend(lines: seq<string>, line: string)
    ensures RowsForAll(lines + [line]) == RowsForAll(lines) + RowsFor(line)
  {
    if lines == [] {
      assert [line][1..] == [] && lines + [line] == [line];
    } else {
      assert (lines + [line])[1..] == lines[1..] + [line];
      RowsForAllAppend(lines[1..], line);
    }
  }

  method BuildWindowsRunnerScript(script: string) returns (runnerScript: string)
    ensures runnerScript == WINDOWS_HEADER + Written(RowsForAll(SplitLf(ReplaceCrlf(script))))
  {
    hide ReplaceCrlf, SplitLf, Trim, Written, RowsFor, RowsForAll;
    HeaderOnly();
    runnerScript := WINDOWS_HEADER;
    var lines := IterateLfScriptLines(script);
    for k := 0 to |lines|
      invariant runnerScript == WINDOWS_HEADER + Written(RowsForAll(lines[..k]))
    {
      var command := Trim(lines[k]);
      assert lines[..k + 1] == lines[..k] + [lines[k]];
      OneMoreLine(lines[..k], lines[k]);
      if command == "" {
        runnerScript := runnerScript + CRLF;
        continue;
      }
      runnerScript := runnerScript + ("call " + command + CRLF + GUARD + CRLF);
    }
    assert lines[..|lines|] == lines;
  }

  lemma HeaderOnly()
    ensures WINDOWS_HEADER == WINDOWS_HEADER + Written(RowsForAll([]))
  {
  }

  lemma OneMoreLine(lines: seq<string>, line: string)
    ensures WINDOWS_HEADER + Written(RowsForAll(lines + [line])) ==
      WINDOWS_HEADER + Written(RowsForAll(lines))
      + (if Trim(line) == "" then CRLF else "call " + Trim(line) + CRLF + GUARD + CRLF)
  {
    hide Trim, Written, RowsFor, RowsForAll;
    RowsForAllAppend(lines, line);
    WrittenAppend(RowsForAll(lines), RowsFor(line));
    WrittenRows(line);
  }

  lemma WrittenOne(row: string)
    ensures Written([row]) == row + CRLF
  {
    assert [row][1..] == [];
  }

  lemma WrittenRows(line: string)
    ensures Written(RowsFor(line)) == if Trim(line) == "" then CRLF else "call " + Trim(line) + CRLF + GUARD + CRLF
  {
    hide Trim;
    var command := Trim(line);
    if command == "" {
      WrittenOne("");
      assert "" + CRLF == CRLF;
    } else {
      assert RowsFor(line) == ["call " + command] + [GUARD];
      WrittenAppend(["call " + command], [GUARD]);
      WrittenOne("call " + command);
      WrittenOne(GUARD);
      assert "call " + command + CRLF + (GUARD + CRLF) == "call " + command + CRLF + GUARD + CRLF;
    }
  }

  method BuildPosixRunnerScript(script: string) returns (runnerScript: string)
    ensures runnerScript == POSIX_HEADER + ReplaceCrlf(script) + "\n"
  {
    var normalized := NormalizeCrlfScriptLineEndings(script);
    return POSIX_HEADER + normalized + "\n";
  }

  // ---------- Both runners see the same lines ----------

  /** The rows of a text whose rows end with CRLF. */
  function SplitCrlf(s: string): (r: seq<string>)
    ensures |r| > 0
  {
    if s == "" then [""]
    else if CrlfAt(s, 0) then [""] + SplitCrlf(s[2..])
    else [[s[0]] + SplitCrlf(s[1..])[0]] + SplitCrlf(s[1..])[1..]
  }

  lemma {:induction false} SplitCrlfFirst(row: string, rest: string)
    requires '\n' !in row
    ensures SplitCrlf(row + (CRLF + rest)) == [row] + SplitCrlf(rest)
    decreases |row|
  {
    var s := row + (CRLF + rest);
    if row == "" {
      assert s == CRLF + rest && s[2..] == rest;
    } else {
      assert s[0] == row[0] && s[1..] == row[1..] + (CRLF + rest);
      assert s[1] == if |row| > 1 then row[1] else '\r';
      SplitCrlfFirst(row[1..], rest);
      assert row == [row[0]] + row[1..];
    }
  }

  lemma {:induction false} WrittenRowsComeBack(rows: seq<string>)
    requires forall row :: row in rows ==> '\n' !in row
    ensures SplitCrlf(Written(rows)) == rows + [""]
  {
    hide SplitCrlf;
    if rows == [] {
      SplitCrlfOfNothing();
    } else {
      SplitCrlfFirst(rows[0], Written(rows[1..]));
      WrittenRowsComeBack(rows[1..]);
    }
  }

  lemma SplitCrlfOfNothing()
    ensures SplitCrlf("") == [""]
  {
  }

  lemma {:induction false} RowsAreLines(lines: seq<string>)
    requires forall line :: line in lines ==> '\n' !in line
    ensures forall row :: row in RowsForAll(lines) ==> '\n' !in row
  {
    hide Trim;
    if lines != [] {
      RowsAreLines(lines[1..]);
      assert lines[0] in lines;
      assert '\n' !in "call " && '\n' !in GUARD;
    }
  }

  /** Read row by row, the Windows runner is its two header rows and then, for each line of the normalised
      script in order, one call and one guard, or one blank row. */
  lemma WindowsRunnerRows(script: string)
    ensures SplitCrlf(WINDOWS_HEADER + Written(RowsForAll(SplitLf(ReplaceCrlf(script)))))
         == ["@echo off", "setlocal EnableExtensions"] + RowsForAll(SplitLf(ReplaceCrlf(script))) + [""]
    ensures forall line :: RowsFor(line) == if Trim(line) == "" then [""]
                                            else ["call " + Trim(line), "if errorlevel 1 exit /b %errorlevel%"]
  {
    hide SplitCrlf, SplitLf, ReplaceCrlf, RowsForAll, Written;
    var rows := RowsForAll(SplitLf(ReplaceCrlf(script)));
    RowsAreLines(SplitLf(ReplaceCrlf(script)));
    WrittenRowsComeBack(rows);
    var rest := Written(rows);
    var second := "setlocal EnableExtensions" + (CRLF + rest);
    assert WINDOWS_HEADER + rest == "@echo off" + (CRLF + second);
    assert '\n' !in "@echo off" && '\n' !in "setlocal EnableExtensions";
    SplitCrlfFirst("@echo off", second);
    SplitCrlfFirst("setlocal EnableExtensions", rest);
  }

  /** Read line by line, the POSIX runner is its two header lines and then the same lines of the script. */
  lemma PosixRunnerLines(script: string)
    ensures SplitLf(POSIX_HEADER + ReplaceCrlf(script) + "\n")
         == ["#!/usr/bin/env bash", "set -e"] + SplitLf(ReplaceCrlf(script)) + [""]
  {
    hide SplitLf, ReplaceCrlf;
    var body := ReplaceCrlf(script) + "\n";
    var second := "set -e" + ("\n" + body);
    assert POSIX_HEADER + ReplaceCrlf(script) + "\n" == "#!/usr/bin/env bash" + ("\n" + second);
    assert '\n' !in "#!/usr/bin/env bash" && '\n' !in "set -e";
    SplitFirst("#!/usr/bin/env bash", second);
    SplitFirst("set -e", body);
    SplitWithFinalLf(ReplaceCrlf(script));
  }

  lemma {:induction false} SplitWithFinalLf(s: string)
    ensures SplitLf(s + "\n") == SplitLf(s) + [""]
  {
    if s != "" {
      assert (s + "\n")[0] == s[0] && (s + "\n")[1..] == s[1..] + "\n";
      SplitWithFinalLf(s[1..]);
    } else {
      assert s + "\n" == "\n" && "\n"[1..] == "";
    }
  }
}
