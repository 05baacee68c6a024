/** Browser tabs in a rendered tree: when a window shows many, the inactive ones are replaced by a count. */
module TabCompaction {
  import opened Digits
  import opened Options
  import opened PythonText

  /** What the walk keeps of an accessible element. `runtimeId` is the path of child indexes to it. */
  datatype Record = Record(index: nat, runtimeId: seq<nat>, automationId: string, name: string, controlType: string,
                           value: string, isSelected: bool, actions: seq<string>)

  const MIN_TABS := 10

  // ---------- Reading a rendered line ----------

  function Tabs(depth: nat): (r: string)
    ensures |r| == depth && forall i :: 0 <= i < depth ==> r[i] == '\t'
  {
    seq(depth, _ => '\t')
  }

  /** `pattern` is in small letters; the two dotted and dotless I count as an i for `re.IGNORECASE`. */
  predicate SameLetter(c: char, p: char) {
    c == p || ('a' <= p <= 'z' && c as int == p as int - 32) || (p == 'i' && (c == '\U{0130}' || c == '\U{0131}'))
  }

  predicate StartsIgnoringCase(s: string, pattern: string) {
    |pattern| <= |s| && forall i :: 0 <= i < |pattern| ==> SameLetter(s[i], pattern[i])
  }

  /** The role is followed by the end of the line, a space, a parenthesis or a comma. */
  predicate RoleThenBreak(s: string, role: string) {
    StartsIgnoringCase(s, role) &&
    var rest := s[|role|..];
    rest == [] || rest == "\n" || rest[0] in {' ', '(', ','}
  }

  predicate IsTabLine(line: string, depth: nat) {
    Tabs(depth) <= line &&
    var text := line[depth..];
    var n := DigitRun(text);
    && n > 0 && n < |text| && text[n] == ' '
    && var role := text[n + 1..];
       RoleThenBreak(role, "page tab") || RoleThenBreak(role, "tab item") || RoleThenBreak(role, "tab")
  }

  function RenderedIndex(line: string, depth: nat): Option<nat> {
    var text := if depth <= |line| then line[depth..] else "";
    var n := DigitRun(text);
    if n > 0 then Some(ParseDecimal(text[..n])) else None
  }

  /** The last record with an index: later entries of a dictionary replace earlier ones. */
  function RecordWithIndex(records: seq<Record>, index: nat): (r: Option<Record>)
    ensures r.Some? ==> r.value in records && r.value.index == index
    ensures r.None? ==> forall x :: x in records ==> x.index != index
  {
    if records == [] then None
    else if records[|records| - 1].index == index then Some(records[|records| - 1])
    else RecordWithIndex(records[..|records| - 1], index)
  }

  predicate IsActiveTabLine(line: string, depth: nat, records: seq<Record>) {
    Contains(line, "(selected") ||
    var index := RenderedIndex(line, depth);
    index.Some? &&
    var record := RecordWithIndex(records, index.value);
    record.Some? && (record.value.isSelected || Collapse(record.value.value) == "1")
  }

  // ---------- What compaction does ----------

  /** The elements whose positions, from `i` on, are not in `drop`. */
  function Kept<T>(s: seq<T>, i: nat, drop: set<nat>): (r: seq<T>)
    requires i <= |s|
    decreases |s| - i
  {
    if i == |s| then [] else (if i in drop then [] else [s[i]]) + Kept(s, i + 1, drop)
  }

  ghost function TabLines(lines: seq<string>, start: nat, depth: nat): set<nat> {
    set k | start <= k < |lines| && IsTabLine(lines[k], depth)
  }

  ghost function InactiveLines(lines: seq<string>, start: nat, depth: nat, records: seq<Record>): set<nat> {
    set k | start <= k < |lines| && IsTabLine(lines[k], depth) && !IsActiveTabLine(lines[k], depth, records)
  }

  ghost predicate MustCompact(lines: seq<string>, start: nat, depth: nat, records: seq<Record>) {
    var tabs, inactive := TabLines(lines, start, depth), InactiveLines(lines, start, depth, records);
    |tabs| >= MIN_TABS && inactive != {} && inactive != tabs
  }

  function RecordsWithout(records: seq<Record>, omitted: set<nat>): (r: seq<Record>)
    ensures forall x :: x in r <==> x in records && x.index !in omitted
    ensures |r| <= |records|
  {
    if records == [] then []
    else (if records[0].index in omitted then [] else [records[0]]) + RecordsWithout(records[1..], omitted)
  }

  ghost function OmittedIndexes(lines: seq<string>, drop: set<nat>, depth: nat): set<nat> {
    set k | k in drop && k < |lines| && RenderedIndex(lines[k], depth).Some? :: RenderedIndex(lines[k], depth).value
  }

  function Marker(depth: nat, count: nat): string {
    Tabs(depth) + ("... " + Decimal(count) + " inactive browser tabs omitted")
  }

  /** The first tab line from `k` on, or the end. */
  ghost function FirstTab(lines: seq<string>, k: nat, depth: nat): (r: nat)
    requires k <= |lines|
    ensures k <= r <= |lines| && (r < |lines| ==> IsTabLine(lines[r], depth))
    ensures forall t :: k <= t < r ==> !IsTabLine(lines[t], depth)
    decreases |lines| - k
  {
    if k == |lines| || IsTabLine(lines[k], depth) then k else FirstTab(lines, k + 1, depth)
  }

  /** Everything outside `drop` stays, in order, and a marker comes in at `first`. */
  ghost function WithMarker<T>(s: seq<T>, first: nat, drop: set<nat>, marker: T): seq<T>
    requires first <= |s|
  {
    s[..first] + [marker] + Kept(s, first, drop)
  }

  /** What the walk has rendered so far. `rows` says for each line which record it was made for - a marker has
      none - `gone` are the records of the lines that were compacted away, `compactions` counts the compactions
      and `clashed` says whether one of them had a clash; the code keeps none of these. */
  datatype Progress = Progress(records: seq<Record>, lines: seq<string>, truncated: bool, maxDepthReached: bool,
                               rows: seq<Option<Record>>, gone: set<Record>, compactions: nat, clashed: bool)

  const NOTHING := Progress([], [], false, false, [], {}, 0, false)

  /** A line that goes shows the index of the record of a line that stays. */
  ghost predicate Clash(p: Progress, start: nat, depth: nat) {
    var drop := InactiveLines(p.lines, start, depth, p.records);
    exists l :: 0 <= l < |p.rows| && l !in drop && p.rows[l].Some?
      && p.rows[l].value.index in OmittedIndexes(p.lines, drop, depth)
  }

  ghost function RowsAt(rows: seq<Option<Record>>, at: set<nat>): set<Record> {
    set k | k in at && k < |rows| && rows[k].Some? :: rows[k].value
  }

  /** The inactive tab lines and the records with their indexes go, and a marker stands where the first tab
      stood; nothing changes unless there are ten tab lines, some active and some not. */
  ghost function Compaction(p: Progress, start: nat, depth: nat): (r: Progress)
    requires start <= |p.lines| == |p.rows|
    ensures |r.lines| == |r.rows| && p.lines[..start] <= r.lines
    ensures |r.records| <= |p.records| && forall x :: x in r.records ==> x in p.records
    ensures r.truncated == p.truncated && r.maxDepthReached == p.maxDepthReached && p.gone <= r.gone
  {
    hide IsTabLine, IsActiveTabLine, RenderedIndex, Marker, RecordsWithout, OmittedIndexes, Clash, RowsAt;
    if !MustCompact(p.lines, start, depth, p.records) then p
    else
      var drop, first := InactiveLines(p.lines, start, depth, p.records), FirstTab(p.lines, start, depth);
      KeptLength(p.lines, p.rows, first, drop);
      p.(records := RecordsWithout(p.records, OmittedIndexes(p.lines, drop, depth)),
         lines := WithMarker(p.lines, first, drop, Marker(depth, |drop|)),
         rows := WithMarker(p.rows, first, drop, None),
         gone := p.gone + RowsAt(p.rows, drop),
         compactions := p.compactions + 1,
         clashed := p.clashed || Clash(p, start, depth))
  }

  /** The marker says the count, and no later compaction takes it for a tab or for the line of a record. */
  lemma MarkerIsNoTab(depth: nat, count: nat, d: nat)
    ensures !IsTabLine(Marker(depth, count), d) && (d <= depth ==> RenderedIndex(Marker(depth, count), d).None?)
    ensures var text := Marker(depth, count)[depth + 4..];
            ParseDecimal(text[..DigitRun(text)]) == count
  {
    hide Decimal, ParseDecimal, RoleThenBreak;
    var marker := Marker(depth, count);
    var tail := " inactive browser tabs omitted";
    var text := marker[depth + 4..];
    assert text == Decimal(count) + tail;
    DigitRunIs(Decimal(count), tail);
    assert text[..DigitRun(text)] == Decimal(count);
    ParsePrinted(count);
    if d <= depth {
      assert marker[d..][0] == if d == depth then '.' else '\t';
    } else {
      assert marker[depth] == '.' && Tabs(d)[depth] == '\t';
    }
  }

  // ---------- Which lines are tab lines, and which of them are active ----------

  /** The role as it stands in a line, in small or capital letters. */
  ghost predicate Spells(s: string, role: string) {
    |s| == |role| && forall i :: 0 <= i < |s| ==> SameLetter(s[i], role[i])
  }

  /** Tabs, a number, a space, one of three roles, and then nothing more, a last line feed, or a space, a
      parenthesis or a comma. */
  ghost predicate ReadsAsTab(line: string, depth: nat, number: string, role: string, rest: string) {
    && line == Tabs(depth) + (number + (" " + (role + rest)))
    && number != "" && (forall i :: 0 <= i < |number| ==> '0' <= number[i] <= '9')
    && (Spells(role, "page tab") || Spells(role, "tab item") || Spells(role, "tab"))
    && (rest == "" || rest == "\n" || rest[0] == ' ' || rest[0] == '(' || rest[0] == ',')
  }

  /** Such lines are the tab lines of this depth, and no others. */
  lemma TabLineReads(line: string, depth: nat) returns (number: string, role: string, rest: string)
    requires IsTabLine(line, depth)
    ensures ReadsAsTab(line, depth, number, role, rest)
  {
    hide DigitRun, Tabs, RoleThenBreak, Spells;
    var text := line[depth..];
    var n := DigitRun(text);
    number := text[..n];
    role, rest := RoleSplits(text[n + 1..]);
    assert text == number + (" " + (role + rest));
  }

  lemma RoleSplits(s: string) returns (role: string, rest: string)
    requires RoleThenBreak(s, "page tab") || RoleThenBreak(s, "tab item") || RoleThenBreak(s, "tab")
    ensures s == role + rest
    ensures Spells(role, "page tab") || Spells(role, "tab item") || Spells(role, "tab")
    ensures rest == "" || rest == "\n" || rest[0] == ' ' || rest[0] == '(' || rest[0] == ','
  {
    hide SameLetter;
    var length := if RoleThenBreak(s, "page tab") || RoleThenBreak(s, "tab item") then 8 else 3;
    role, rest := s[..length], s[length..];
  }

  lemma TabLineOf(line: string, depth: nat, number: string, role: string, rest: string)
    requires ReadsAsTab(line, depth, number, role, rest)
    ensures IsTabLine(line, depth)
  {
    hide DigitRun, Tabs, RoleThenBreak;
    var text := number + (" " + (role + rest));
    assert line[depth..] == text;
    DigitRunIs(number, " " + (role + rest));
    assert text[|number|] == ' ' && text[|number| + 1..] == role + rest;
    RoleReads(role, rest);
  }

  lemma RoleReads(role: string, rest: string)
    requires Spells(role, "page tab") || Spells(role, "tab item") || Spells(role, "tab")
    requires rest == "" || rest == "\n" || rest[0] == ' ' || rest[0] == '(' || rest[0] == ','
    ensures var s := role + rest;
            RoleThenBreak(s, "page tab") || RoleThenBreak(s, "tab item") || RoleThenBreak(s, "tab")
  {
    hide SameLetter;
    var s := role + rest;
    assert s[..|role|] == role && s[|role|..] == rest;
    assert forall i :: 0 <= i < |role| ==> s[i] == role[i];
  }

  /** Small and capital letters are not told apart, and for an i neither are the two Turkish ones. */
  lemma SameLetterIff(c: char, p: char)
    requires p in "page tab item"
    ensures SameLetter(c, p) <==>
      c == p || (p != ' ' && c as int + 32 == p as int) || (p == 'i' && (c == '\U{0130}' || c == '\U{0131}'))
  {
  }

  /** The line of the last record with its index is active iff it is marked as selected, the record is, or the
      record's value is a 1. */
  lemma ActiveLineIff(line: string, depth: nat, records: seq<Record>, k: nat)
    requires k < |records| && RenderedIndex(line, depth) == Some(records[k].index)
    requires forall l :: k < l < |records| ==> records[l].index != records[k].index
    ensures IsActiveTabLine(line, depth, records) <==>
      Contains(line, "(selected") || records[k].isSelected || Words(records[k].value) == ["1"]
  {
    hide RenderedIndex, Contains, Words, Join;
    LastIsFound(records, k);
    CollapsedOne(records[k].value);
  }

  /** A tab line without a record is active iff it is marked as selected. */
  lemma LonelyLineActiveIff(line: string, depth: nat, records: seq<Record>)
    requires forall x :: x in records ==> RenderedIndex(line, depth) != Some(x.index)
    ensures IsActiveTabLine(line, depth, records) <==> Contains(line, "(selected")
  {
    hide RenderedIndex, Contains;
  }

  lemma {:induction false} LastIsFound(records: seq<Record>, k: nat)
    requires k < |records| && forall l :: k < l < |records| ==> records[l].index != records[k].index
    ensures RecordWithIndex(records, records[k].index) == Some(records[k])
    decreases |records|
  {
    if k < |records| - 1 {
      LastIsFound(records[..|records| - 1], k);
    }
  }

  lemma CollapsedOne(s: string)
    ensures Collapse(s) == "1" <==> Words(s) == ["1"]
  {
    hide Words;
    var words := Words(s);
    BlankWordsIff(s);
    if |words| > 1 {
      assert words[0] in words && words[1] in words;
      assert |Join(words, " ")| > 1;
    }
  }

  /** Something is compacted iff there are ten direct tab lines or more, one of them active and one not. */
  lemma CompactsIff(p: Progress, start: nat, depth: nat)
    requires start <= |p.lines| == |p.rows|
    ensures Compaction(p, start, depth).compactions == p.compactions + 1 <==>
      && |TabLines(p.lines, start, depth)| >= 10
      && (exists k :: k in TabLines(p.lines, start, depth) && IsActiveTabLine(p.lines[k], depth, p.records))
      && (exists k :: k in TabLines(p.lines, start, depth) && !IsActiveTabLine(p.lines[k], depth, p.records))
    ensures Compaction(p, start, depth).compactions == p.compactions ==> Compaction(p, start, depth) == p
  {
    hide IsTabLine, IsActiveTabLine, Kept, RecordsWithout, Marker, OmittedIndexes, Clash, WithMarker, RowsAt;
    var tabs, inactive := TabLines(p.lines, start, depth), InactiveLines(p.lines, start, depth, p.records);
    assert forall k :: k in inactive <==> k in tabs && !IsActiveTabLine(p.lines[k], depth, p.records);
    if k :| k in tabs && IsActiveTabLine(p.lines[k], depth, p.records) {
      assert k !in inactive;
    } else {
      assert inactive == tabs;
    }
    if k :| k in tabs && !IsActiveTabLine(p.lines[k], depth, p.records) {
      assert k in inactive;
    } else {
      assert inactive == {};
    }
  }

  // ---------- Facts about keeping ----------

  lemma KeptFrom<T>(s: seq<T>, k: nat, drop: set<nat>)
    requires k < |s|
    ensures Kept(s, k, drop) == (if k in drop then [] else [s[k]]) + Kept(s, k + 1, drop)
  {
  }

  lemma {:induction false} KeptAll<T>(s: seq<T>, i: nat, drop: set<nat>)
    requires i <= |s| && forall k :: k in drop ==> k < i || k >= |s|
    ensures Kept(s, i, drop) == s[i..]
    decreases |s| - i
  {
    if i < |s| {
      KeptAll(s, i + 1, drop);
    }
  }

  lemma {:induction false} KeptSplit<T>(s: seq<T>, i: nat, j: nat, drop: set<nat>)
    requires i <= j <= |s| && forall k :: i <= k < j ==> k !in drop
    ensures Kept(s, i, drop) == s[i..j] + Kept(s, j, drop)
    decreases j - i
  {
    hide Kept;
    if i < j {
      var rest := Kept(s, j, drop);
      KeptFrom(s, i, drop);
      KeptSplit(s, i + 1, j, drop);
      assert s[i..j] + rest == [s[i]] + (s[i + 1..j] + rest);
    } else {
      assert s[i..j] == [];
    }
  }

  lemma {:induction false} KeptSame<T>(s: seq<T>, i: nat, drop: set<nat>, drop': set<nat>)
    requires i <= |s| && forall k :: i <= k < |s| ==> (k in drop <==> k in drop')
    ensures Kept(s, i, drop) == Kept(s, i, drop')
    decreases |s| - i
  {
    if i < |s| {
      hide Kept;
      KeptFrom(s, i, drop);
      KeptFrom(s, i, drop');
      KeptSame(s, i + 1, drop, drop');
    }
  }

  /** Deleting position `k` when only later positions are gone already. */
  lemma DeleteOne<T>(s: seq<T>, drop: set<nat>, k: nat)
    requires k < |s| && forall d :: d in drop ==> k < d
    ensures var now := Kept(s, 0, drop);
            k < |now| && now[k] == s[k] && now[..k] + now[k + 1..] == Kept(s, 0, drop + {k})
  {
    hide Kept;
    var rest := Kept(s, k + 1, drop);
    KeptSplit(s, 0, k, drop);
    KeptFrom(s, k, drop);
    KeptSplit(s, 0, k, drop + {k});
    KeptFrom(s, k, drop + {k});
    KeptSame(s, k + 1, drop, drop + {k});
    var now := Kept(s, 0, drop);
    assert now == s[..k] + ([s[k]] + rest);
    assert now[..k] == s[..k] && now[k + 1..] == rest;
  }

  // ---------- The in-place procedure ----------

  /** The lists and flags that the walk fills. */
  class Rendering {
    var records: seq<Record>
    var lines: seq<string>
    var truncated: bool
    var maxDepthReached: bool
    ghost var rows: seq<Option<Record>>
    ghost var gone: set<Record>
    ghost var compactions: nat
    ghost var clashed: bool

    constructor ()
      ensures State() == NOTHING
    {
      records, lines, truncated, maxDepthReached := [], [], false, false;
      rows, gone, compactions, clashed := [], {}, 0, false;
    }

    ghost function State(): Progress
      reads this
    {
      Progress(records, lines, truncated, maxDepthReached, rows, gone, compactions, clashed)
    }
  }

  ghost predicate Ascending(s: seq<nat>) {
    forall i, j :: 0 <= i < j < |s| ==> s[i] < s[j]
  }

  method FindTabLines(lines: seq<string>, start: nat, depth: nat) returns (tabs: seq<nat>)
    requires start <= |lines|
    ensures Ascending(tabs)
    ensures forall k :: k in tabs <==> k in TabLines(lines, start, depth)
    ensures |tabs| == |TabLines(lines, start, depth)|
  {
    hide IsTabLine;
    tabs := [];
    ghost var found: set<nat> := {};
    for k := start to |lines|
      invariant Ascending(tabs) && |found| == |tabs|
      invariant forall i :: 0 <= i < |tabs| ==> start <= tabs[i] < k && tabs[i] in found
      invariant forall t :: t in found <==> start <= t < k && IsTabLine(lines[t], depth)
      invariant forall t :: t in found ==> t in tabs
    {
      if IsTabLine(lines[k], depth) {
        tabs := tabs + [k];
        found := found + {k};
      }
    }
    assert found == TabLines(lines, start, depth);
  }

  /** The tab lines from the n-th on that are not active. */
  ghost function Dropped(tabs: seq<nat>, n: nat, activeLines: set<nat>): set<nat>
    requires n <= |tabs|
    decreases |tabs| - n
  {
    if n == |tabs| then {}
    else Dropped(tabs, n + 1, activeLines) + (if tabs[n] in activeLines then {} else {tabs[n]})
  }

  lemma {:induction false} DroppedAre(tabs: seq<nat>, n: nat, activeLines: set<nat>)
    requires n <= |tabs|
    ensures forall d :: d in Dropped(tabs, n, activeLines) <==> d in tabs[n..] && d !in activeLines
    decreases |tabs| - n
  {
    if n < |tabs| {
      DroppedAre(tabs, n + 1, activeLines);
      assert tabs[n..] == [tabs[n]] + tabs[n + 1..];
    }
  }

  lemma {:induction false} DroppedLater(tabs: seq<nat>, n: nat, m: nat, activeLines: set<nat>)
    requires n < m <= |tabs| && Ascending(tabs)
    ensures forall d :: d in Dropped(tabs, m, activeLines) ==> tabs[n] < d
    decreases |tabs| - m
  {
    if m < |tabs| {
      DroppedLater(tabs, n, m + 1, activeLines);
    }
  }

  /** Deletes the lines of the inactive tabs, last one first. */
  method DeleteInactiveTabs(out: Rendering, tabs: seq<nat>, activeLines: set<nat>, depth: nat)
    returns (omittedCount: nat, omittedIndexes: set<nat>)
    requires Ascending(tabs) && forall i :: 0 <= i < |tabs| ==> tabs[i] < |out.lines|
    modifies out`lines
    ensures out.lines == Kept(old(out.lines), 0, Dropped(tabs, 0, activeLines))
    ensures omittedCount == |Dropped(tabs, 0, activeLines)|
    ensures omittedIndexes == OmittedIndexes(old(out.lines), Dropped(tabs, 0, activeLines), depth)
  {
    hide RenderedIndex, Kept, OmittedIndexes, Ascending;
    ghost var lines := out.lines;
    omittedIndexes, omittedCount := {}, 0;
    KeptAll(lines, 0, {});
    OmitNone(lines, depth);
    assert lines[0..] == lines;
    var n := |tabs|;
    while n > 0
      invariant 0 <= n <= |tabs|
      invariant out.lines == Kept(lines, 0, Dropped(tabs, n, activeLines))
      invariant omittedCount == |Dropped(tabs, n, activeLines)|
      invariant omittedIndexes == OmittedIndexes(lines, Dropped(tabs, n, activeLines), depth)
    {
      n := n - 1;
      var lineIndex := tabs[n];
      if lineIndex in activeLines {
        continue;
      }
      ghost var drop := Dropped(tabs, n + 1, activeLines);
      DroppedLater(tabs, n, n + 1, activeLines);
      DeleteOne(lines, drop, lineIndex);
      OmitOne(lines, drop, depth, lineIndex);
      var recordIndex := RenderedIndex(out.lines[lineIndex], depth);
      if recordIndex.Some? {
        omittedIndexes := omittedIndexes + {recordIndex.value};
      }
      out.lines := out.lines[..lineIndex] + out.lines[lineIndex + 1..];
      omittedCount := omittedCount + 1;
    }
  }

  lemma DroppedAreInactive(lines: seq<string>, start: nat, depth: nat, records: seq<Record>,
                           tabs: seq<nat>, activeLines: set<nat>)
    requires Ascending(tabs) && forall k :: k in tabs <==> k in TabLines(lines, start, depth)
    requires activeLines == set k | k in tabs && k < |lines| && IsActiveTabLine(lines[k], depth, records)
    ensures Dropped(tabs, 0, activeLines) == InactiveLines(lines, start, depth, records)
    ensures activeLines == {} <==> InactiveLines(lines, start, depth, records) == TabLines(lines, start, depth)
    ensures InactiveLines(lines, start, depth, records) <= TabLines(lines, start, depth)
    ensures forall i :: 0 <= i < |tabs| ==> tabs[i] < |lines|
    ensures tabs != [] ==>
      tabs[0] in TabLines(lines, start, depth) && forall k :: k in TabLines(lines, start, depth) ==> tabs[0] <= k
  {
    hide IsTabLine, IsActiveTabLine, Dropped;
    DroppedAre(tabs, 0, activeLines);
    assert tabs[0..] == tabs;
    forall i | 0 <= i < |tabs| ensures tabs[i] < |lines| {
      assert tabs[i] in TabLines(lines, start, depth);
    }
    assert activeLines == TabLines(lines, start, depth) - InactiveLines(lines, start, depth, records);
  }

  method CompactRenderedBrowserTabs(out: Rendering, start: nat, depth: nat)
    requires start <= |out.lines| == |out.rows|
    modifies out`lines, out`records, out`rows, out`gone, out`compactions, out`clashed
    ensures out.State() == Compaction(old(out.State()), start, depth)
  {
    hide IsTabLine, IsActiveTabLine, RenderedIndex, Kept, Marker, OmittedIndexes, TabLines, InactiveLines, Dropped;
    hide FirstTab, Clash, RowsAt, WithMarker, RecordsWithout;
    ghost var before, lines, records := out.State(), out.lines, out.records;
    ghost var inactive, first := InactiveLines(lines, start, depth, records), FirstTab(lines, start, depth);
    var tabs := FindTabLines(out.lines, start, depth);
    if |tabs| < MIN_TABS {
      return;
    }
    var activeLines := set k | k in tabs && k < |out.lines| && IsActiveTabLine(out.lines[k], depth, out.records);
    DroppedAreInactive(lines, start, depth, records, tabs, activeLines);
    if activeLines == {} {
      return;
    }
    var insertionIndex := tabs[0];
    FirstIs(lines, start, depth, insertionIndex);
    var omittedCount, omittedIndexes := DeleteInactiveTabs(out, tabs, activeLines, depth);
    if omittedCount <= 0 {
      assert inactive == {};
      KeptAll(lines, 0, {});
      assert lines[0..] == lines;
      return;
    }
    out.records := RecordsWithout(out.records, omittedIndexes);
    InsertMarker(lines, insertionIndex, inactive, Marker(depth, omittedCount));
    out.lines := out.lines[..insertionIndex] + [Marker(depth, omittedCount)] + out.lines[insertionIndex..];
    out.gone := out.gone + RowsAt(out.rows, inactive);
    out.rows := WithMarker(out.rows, first, inactive, None);
    out.compactions := out.compactions + 1;
    out.clashed := out.clashed || Clash(before, start, depth);
  }

  lemma FirstIs(lines: seq<string>, start: nat, depth: nat, first: nat)
    requires start <= |lines| && first in TabLines(lines, start, depth)
    requires forall k :: k in TabLines(lines, start, depth) ==> first <= k
    ensures FirstTab(lines, start, depth) == first
  {
    hide IsTabLine;
    var r := FirstTab(lines, start, depth);
    assert r in TabLines(lines, start, depth);
  }

  lemma InsertMarker(lines: seq<string>, first: nat, drop: set<nat>, marker: string)
    requires first <= |lines| && forall d :: d in drop ==> first <= d
    ensures var now := Kept(lines, 0, drop);
            first <= |now| && now[..first] + [marker] + now[first..] == WithMarker(lines, first, drop, marker)
  {
    hide Kept;
    KeptSplit(lines, 0, first, drop);
    var now, rest := Kept(lines, 0, drop), Kept(lines, first, drop);
    assert now[..first] == lines[..first] && now[first..] == rest;
  }

  lemma OmitNone(lines: seq<string>, depth: nat)
    ensures OmittedIndexes(lines, {}, depth) == {}
  {
  }

  lemma OmitOne(lines: seq<string>, drop: set<nat>, depth: nat, k: nat)
    requires k < |lines|
    ensures OmittedIndexes(lines, drop + {k}, depth) ==
      OmittedIndexes(lines, drop, depth)
      + (if RenderedIndex(lines[k], depth).Some? then {RenderedIndex(lines[k], depth).value} else {})
  {
    hide RenderedIndex;
  }

  lemma {:induction false} KeptLength<S, T>(s: seq<S>, t: seq<T>, i: nat, drop: set<nat>)
    requires i <= |s| == |t|
    ensures |Kept(s, i, drop)| == |Kept(t, i, drop)|
    decreases |s| - i
  {
    hide Kept;
    if i < |s| {
      KeptFrom(s, i, drop);
      KeptFrom(t, i, drop);
      KeptLength(s, t, i + 1, drop);
    } else {
      KeptAll(s, i, {});
      KeptAll(t, i, {});
      KeptSame(s, i, drop, {});
      KeptSame(t, i, drop, {});
    }
  }

  // ---------- Which records go ----------

  /** A record goes iff some line that goes shows its index. */
  lemma RecordGoesIff(p: Progress, start: nat, depth: nat, x: Record)
    requires start <= |p.lines| == |p.rows| && MustCompact(p.lines, start, depth, p.records) && x in p.records
    ensures x !in Compaction(p, start, depth).records <==>
      exists k :: k in InactiveLines(p.lines, start, depth, p.records)
        && RenderedIndex(p.lines[k], depth) == Some(x.index)
  {
    hide IsTabLine, IsActiveTabLine, RenderedIndex, Kept, Marker;
  }

  /** The records that the lines were made for. */
  function Shown(rows: seq<Option<Record>>): (r: seq<Record>)
    ensures forall x :: x in r <==> Some(x) in rows
  {
    if rows == [] then []
    else
      assert rows == [rows[0]] + rows[1..];
      (if rows[0].Some? then [rows[0].value] else []) + Shown(rows[1..])
  }

  /** Each line has its record and each record its line. */
  ghost predicate Intact(p: Progress) {
    p.records == Shown(p.rows)
  }

  /** Wherever the line is taken for a tab line, its number is the index. */
  ghost predicate ShowsIndex(line: string, index: nat) {
    forall depth :: IsTabLine(line, depth) ==> RenderedIndex(line, depth) == Some(index)
  }

  ghost predicate RowsShow(p: Progress) {
    && |p.rows| == |p.lines|
    && forall k :: 0 <= k < |p.rows| && p.rows[k].Some? ==> ShowsIndex(p.lines[k], p.rows[k].value.index)
  }

  /** Exactly when compaction loses no record of a line that stays. */
  lemma CompactionIntactIff(p: Progress, start: nat, depth: nat)
    requires start <= |p.lines| && RowsShow(p) && Intact(p) && MustCompact(p.lines, start, depth, p.records)
    ensures Intact(Compaction(p, start, depth)) <==> !Clash(p, start, depth)
  {
    hide IsTabLine, IsActiveTabLine, RenderedIndex, Kept, RecordsWithout, Marker, OmittedIndexes, Shown;
    var drop, first := InactiveLines(p.lines, start, depth, p.records), FirstTab(p.lines, start, depth);
    var omitted := OmittedIndexes(p.lines, drop, depth);
    var q := Compaction(p, start, depth);
    DropsAfterFirst(p, start, depth);
    ShownWithMarker(p.rows, first, drop);
    if Clash(p, start, depth) {
      var l :| 0 <= l < |p.rows| && l !in drop && p.rows[l].Some? && p.rows[l].value.index in omitted;
      KeptHas(p.rows, 0, drop, l);
      assert p.rows[l].value in Shown(q.rows) && p.rows[l].value !in q.records;
    } else {
      forall k | 0 <= k < |p.rows| && p.rows[k].Some?
        ensures k in drop <==> p.rows[k].value.index in omitted
      {
        if k in drop {
          DroppedShowsIndex(p, start, depth, k);
        }
      }
      ShownFiltered(p.rows, 0, drop, omitted);
      assert p.rows[0..] == p.rows;
    }
  }

  lemma DropsAfterFirst(p: Progress, start: nat, depth: nat)
    requires start <= |p.lines|
    ensures forall k :: k in InactiveLines(p.lines, start, depth, p.records) ==>
              FirstTab(p.lines, start, depth) <= k < |p.lines| && IsTabLine(p.lines[k], depth)
  {
    hide IsTabLine, IsActiveTabLine, FirstTab;
    assert InactiveLines(p.lines, start, depth, p.records) <= TabLines(p.lines, start, depth);
  }

  lemma DroppedShowsIndex(p: Progress, start: nat, depth: nat, k: nat)
    requires start <= |p.lines| && RowsShow(p)
    requires k in InactiveLines(p.lines, start, depth, p.records) && p.rows[k].Some?
    ensures p.rows[k].value.index in OmittedIndexes(p.lines, InactiveLines(p.lines, start, depth, p.records), depth)
  {
    hide IsTabLine, IsActiveTabLine, RenderedIndex;
    assert ShowsIndex(p.lines[k], p.rows[k].value.index);
  }

  lemma {:induction false} ShownJoined(a: seq<Option<Record>>, b: seq<Option<Record>>)
    ensures Shown(a + b) == Shown(a) + Shown(b)
  {
    if a == [] {
      assert a + b == b;
    } else {
      assert (a + b)[0] == a[0] && (a + b)[1..] == a[1..] + b;
      ShownJoined(a[1..], b);
    }
  }

  lemma ShownWithMarker(rows: seq<Option<Record>>, first: nat, drop: set<nat>)
    requires first <= |rows| && forall k :: k in drop ==> first <= k
    ensures Shown(WithMarker(rows, first, drop, None)) == Shown(Kept(rows, 0, drop))
  {
    hide Kept;
    KeptSplit(rows, 0, first, drop);
    var rest := Kept(rows, first, drop);
    ShownJoined(rows[..first], rest);
    ShownJoined(rows[..first] + [None], rest);
    ShownJoined(rows[..first], [None]);
    assert Shown([None]) == [];
  }

  lemma {:induction false} KeptHas<T>(s: seq<T>, i: nat, drop: set<nat>, l: nat)
    requires i <= l < |s| && l !in drop
    ensures s[l] in Kept(s, i, drop)
    decreases l - i
  {
    if i < l {
      KeptHas(s, i + 1, drop, l);
    }
  }

  lemma {:induction false} ShownFiltered(rows: seq<Option<Record>>, i: nat, drop: set<nat>, omitted: set<nat>)
    requires i <= |rows|
    requires forall k :: i <= k < |rows| && rows[k].Some? ==>
      (k in drop <==> rows[k].value.index in omitted)
    ensures RecordsWithout(Shown(rows[i..]), omitted) == Shown(Kept(rows, i, drop))
    decreases |rows| - i
  {
    hide Kept, Shown, RecordsWithout;
    if i < |rows| {
      KeptFrom(rows, i, drop);
      ShownFiltered(rows, i + 1, drop, omitted);
      assert rows[i..] == [rows[i]] + rows[i + 1..];
      var head, rest := Shown([rows[i]]), Shown(rows[i + 1..]);
      ShownJoined([rows[i]], rows[i + 1..]);
      ShownJoined(if i in drop then [] else [rows[i]], Kept(rows, i + 1, drop));
      WithoutJoined(head, rest, omitted);
      ShownOne(rows[i]);
    } else {
      KeptAll(rows, i, {});
      KeptSame(rows, i, drop, {});
      assert rows[i..] == [];
      ShownOne(None);
    }
  }

  lemma ShownOne(row: Option<Record>)
    ensures Shown([row]) == (if row.Some? then [row.value] else []) && Shown([]) == []
    ensures forall omitted: set<nat> :: RecordsWithout(Shown([]), omitted) == []
    ensures forall omitted: set<nat> :: RecordsWithout(Shown([row]), omitted) == (
              if row.Some? && row.value.index !in omitted then [row.value] else [])
  {
    assert [row][1..] == [];
  }

  lemma {:induction false} WithoutJoined(a: seq<Record>, b: seq<Record>, omitted: set<nat>)
    ensures RecordsWithout(a + b, omitted) == RecordsWithout(a, omitted) + RecordsWithout(b, omitted)
  {
    if a == [] {
      assert a + b == b;
    } else {
      assert (a + b)[0] == a[0] && (a + b)[1..] == a[1..] + b;
      WithoutJoined(a[1..], b, omitted);
    }
  }

  /** What is kept of two lists at the same positions still belongs together. */
  lemma {:induction false} KeptPairs<S, T>(s: seq<S>, t: seq<T>, i: nat, drop: set<nat>)
    requires i <= |s| == |t|
    ensures |Kept(s, i, drop)| == |Kept(t, i, drop)|
    ensures forall k :: 0 <= k < |Kept(s, i, drop)| ==>
              exists l :: i <= l < |s| && Kept(s, i, drop)[k] == s[l] && Kept(t, i, drop)[k] == t[l]
    decreases |s| - i
  {
    hide Kept;
    KeptLength(s, t, i, drop);
    if i < |s| {
      KeptFrom(s, i, drop);
      KeptFrom(t, i, drop);
      KeptPairs(s, t, i + 1, drop);
      KeptLength(s, t, i + 1, drop);
    } else {
      KeptAll(s, i, {});
      KeptSame(s, i, drop, {});
    }
  }

  /** A record that compaction keeps has its line kept. */
  lemma RecordKeepsLine(p: Progress, start: nat, depth: nat, r: Record)
    requires start <= |p.lines| && RowsShow(p) && MustCompact(p.lines, start, depth, p.records)
    requires r in Compaction(p, start, depth).records && Some(r) in p.rows
    ensures Some(r) in Compaction(p, start, depth).rows
  {
    hide IsTabLine, IsActiveTabLine, RenderedIndex, Kept, RecordsWithout, Marker, OmittedIndexes;
    var drop, first := InactiveLines(p.lines, start, depth, p.records), FirstTab(p.lines, start, depth);
    var k :| 0 <= k < |p.rows| && p.rows[k] == Some(r);
    if k in drop {
      DroppedShowsIndex(p, start, depth, k);
    }
    if k < first {
      assert p.rows[..first][k] == Some(r);
    } else {
      KeptHas(p.rows, first, drop, k);
    }
  }

  /** No row is lost: it is kept, or it goes with its line. */
  lemma RowKeptOrGone(p: Progress, start: nat, depth: nat, r: Record)
    requires start <= |p.lines| == |p.rows| && Some(r) in p.rows
    ensures var q := Compaction(p, start, depth); Some(r) in q.rows || r in q.gone
  {
    hide IsTabLine, IsActiveTabLine, RenderedIndex, Kept, RecordsWithout, Marker, OmittedIndexes, Clash, MustCompact;
    hide InactiveLines;
    var drop, first := InactiveLines(p.lines, start, depth, p.records), FirstTab(p.lines, start, depth);
    var k :| 0 <= k < |p.rows| && p.rows[k] == Some(r);
    if k in drop {
      assert r in RowsAt(p.rows, drop);
    } else if k < first {
      assert p.rows[..first][k] == Some(r);
    } else {
      KeptHas(p.rows, first, drop, k);
    }
  }

  /** The records that go with their lines are those of direct tab lines that are not marked as selected. */
  lemma GoneWasTab(p: Progress, start: nat, depth: nat, r: Record) returns (k: nat)
    requires start <= |p.lines| == |p.rows| && r in Compaction(p, start, depth).gone - p.gone
    ensures k < |p.rows| && p.rows[k] == Some(r) && IsTabLine(p.lines[k], depth) && !Contains(p.lines[k], "(selected")
  {
    hide IsTabLine, Contains, RenderedIndex, Kept, RecordsWithout, Marker, OmittedIndexes;
    hide Clash, MustCompact, WithMarker;
    k :| k in InactiveLines(p.lines, start, depth, p.records) && p.rows[k] == Some(r);
  }

  // ---------- Up to the first compaction ----------

  /** Record k has index k and belongs to line k. */
  ghost predicate Aligned(p: Progress) {
    && |p.records| == |p.rows|
    && forall k :: 0 <= k < |p.rows| ==> p.rows[k] == Some(p.records[k]) && p.records[k].index == k
  }

  lemma AlignedIsIntact(p: Progress)
    requires Aligned(p)
    ensures Intact(p)
  {
    AllShown(p.records, p.rows);
  }

  lemma {:induction false} AllShown(records: seq<Record>, rows: seq<Option<Record>>)
    requires |records| == |rows| && forall k :: 0 <= k < |rows| ==> rows[k] == Some(records[k])
    ensures Shown(rows) == records
  {
    if rows != [] {
      AllShown(records[1..], rows[1..]);
      assert records == [records[0]] + records[1..];
    }
  }

  /** So the first compaction takes exactly the records of the lines that go. */
  lemma FirstCompaction(p: Progress, start: nat, depth: nat)
    requires start <= |p.lines| && RowsShow(p) && Aligned(p) && MustCompact(p.lines, start, depth, p.records)
    ensures Intact(Compaction(p, start, depth)) && !Clash(p, start, depth)
    ensures Compaction(p, start, depth).records == Kept(p.records, 0, InactiveLines(p.lines, start, depth, p.records))
  {
    hide IsTabLine, IsActiveTabLine, RenderedIndex, Kept, RecordsWithout, Marker;
    var drop := InactiveLines(p.lines, start, depth, p.records);
    AlignedIsIntact(p);
    DropsAfterFirst(p, start, depth);
    forall k | k in drop ensures RenderedIndex(p.lines[k], depth) == Some(k) {
      assert ShowsIndex(p.lines[k], p.rows[k].value.index);
    }
    assert OmittedIndexes(p.lines, drop, depth) == drop;
    CompactionIntactIff(p, start, depth);
    AlignedRecordsGo(p.records, 0, drop);
    assert p.records[0..] == p.records;
  }

  lemma {:induction false} AlignedRecordsGo(records: seq<Record>, i: nat, drop: set<nat>)
    requires i <= |records| && forall k :: i <= k < |records| ==> records[k].index == k
    ensures RecordsWithout(records[i..], drop) == Kept(records, i, drop)
    decreases |records| - i
  {
    if i < |records| {
      AlignedRecordsGo(records, i + 1, drop);
      assert records[i..][0] == records[i] && records[i..][1..] == records[i + 1..];
    }
  }
}
