/**
  A window on which compacting two lists of tabs loses a record whose line stays: elements are numbered by
  the number of records, so after the first compaction a number comes up again, and the second compaction
  takes both records that have it.
 */
module LostTabRecord {
  import opened AccessibilityTree
  import opened Digits
  import opened ElementText
  import opened Options
  import opened PythonText
  import opened TabCompaction

  /** The roles used here are in small letters already. */
  const SAME: Lower := s => s

  function Tab(isSelected: bool): Node {
    Node(0, "page tab", "", "", "", isSelected, [], [])
  }

  /** A list of n tabs of which one is selected. */
  function TabList(n: nat, selected: nat): Node {
    Node(0, "tool bar", "", "", "", false, [], seq(n, i => Some(Tab(i == selected))))
  }

  const WINDOW := Node(0, "frame", "", "", "", false, [], [Some(TabList(12, 11)), Some(TabList(10, 0))])

  // ---------- The line of a tab ----------

  const TAB_ROLE := " page tab"

  lemma TabLine(index: nat, depth: nat, isSelected: bool)
    ensures LineOf(Tab(isSelected), index, depth, SAME) == Tabs(depth) + (Decimal(index) + TAB_ROLE)
  {
    hide Decimal, RStrip, Tabs;
    var node := Tab(isSelected);
    assert Collapse("") == "" && Title(node) == "";
    assert FormattedValue(node, SAME) == "" && ActionText(node, SAME) == "";
    assert ExtraText(node, SAME) == "" by {
      assert Summary(node, SAME).None?;
    }
    var s := Decimal(index) + TAB_ROLE;
    TrailingSpace(s);
    assert Decimal(index) + (" " + node.role + " " + Collapse(Title(node))) == s + " ";
  }

  lemma TrailingSpace(s: string)
    requires s != "" && !IsSpace(s[|s| - 1])
    ensures RStrip(s + " ") == s
  {
    assert (s + " ")[..|s + " "| - 1] == s;
  }

  lemma TabLineIsTab(line: string, index: nat, depth: nat)
    requires line == Tabs(depth) + (Decimal(index) + TAB_ROLE)
    ensures IsTabLine(line, depth) && RenderedIndex(line, depth) == Some(index)
    ensures !Contains(line, "(selected")
  {
    hide Decimal, DigitRun, ParseDecimal, Contains, RoleThenBreak, Tabs;
    var text := Decimal(index) + TAB_ROLE;
    assert line[depth..] == text;
    DigitRunIs(Decimal(index), TAB_ROLE);
    assert text[..|Decimal(index)|] == Decimal(index);
    assert text[|Decimal(index)| + 1..] == "page tab";
    assert text[|Decimal(index)|] == TAB_ROLE[0] == ' ';
    RoleAlone();
    ParsePrinted(index);
    NoParenthesis(index, depth);
    PartBegins(line, "(selected");
  }

  lemma RoleAlone()
    ensures RoleThenBreak("page tab", "page tab")
  {
  }

  lemma NoParenthesis(index: nat, depth: nat)
    ensures '(' !in Tabs(depth) + (Decimal(index) + TAB_ROLE)
  {
    hide Decimal, Tabs;
    assert '(' !in TAB_ROLE;
    assert '(' !in Decimal(index);
    assert '(' !in Tabs(depth);
  }

  lemma {:induction false} PartBegins(s: string, part: string)
    requires part != "" && part[0] !in s
    ensures !Contains(s, part)
  {
    if s != [] {
      PartBegins(s[1..], part);
    }
  }

  // ---------- Rendering a list of tabs ----------

  lemma TabIsRecorded(isSelected: bool)
    ensures !ShouldElide(Tab(isSelected), SAME) && !EndsAt(Tab(isSelected), SAME)
  {
    assert Collapse("") == "";
  }

  lemma ListIsRecorded(n: nat, selected: nat)
    ensures !ShouldElide(TabList(n, selected), SAME) && !EndsAt(TabList(n, selected), SAME)
  {
    hide CollectSnippets;
    assert Collapse("") == "";
  }

  lemma NoLinesNoCompaction(p: Progress, depth: nat)
    requires |p.rows| == |p.lines|
    ensures Compaction(p, |p.lines|, depth) == p
  {
    hide IsTabLine, IsActiveTabLine;
    assert TabLines(p.lines, |p.lines|, depth) == {};
  }

  lemma TabRendered(p: Progress, isSelected: bool, depth: nat, path: seq<nat>)
    requires |p.rows| == |p.lines| && |p.records| < MAX_NODES && depth <= MAX_DEPTH
    ensures Rendered(p, Tab(isSelected), depth, path, true, SAME) ==
      Step(p, Recorded(Tab(isSelected), depth, path), SAME)
  {
    hide ShouldElide, EndsAt, Compaction, LineOf;
    TabIsRecorded(isSelected);
    NoLinesNoCompaction(Step(p, Recorded(Tab(isSelected), depth, path), SAME), depth + 1);
  }

  /** The tabs from the i-th on, one row each. */
  ghost predicate TabsAdded(p: Progress, q: Progress, n: nat, selected: nat, i: nat, depth: nat, path: seq<nat>) {
    && i <= n && |p.rows| == |p.lines|
    && |q.records| == |p.records| + n - i && p.records <= q.records
    && |q.rows| == |q.lines| == |p.lines| + n - i && p.rows <= q.rows
    && q.compactions == p.compactions
    && forall j :: i <= j < n ==> TabAdded(p, q, selected, i, j, depth, path)
  }

  ghost predicate TabAdded(p: Progress, q: Progress, selected: nat, i: nat, j: nat, depth: nat, path: seq<nat>)
    requires i <= j && |p.records| + j - i < |q.records| && |p.rows| == |p.lines|
    requires |p.lines| + j - i < |q.lines| == |q.rows|
  {
    var index := |p.records| + j - i;
    && q.records[index] == RecordOf(Tab(j == selected), index, path + [j])
    && q.rows[|p.lines| + j - i] == Some(q.records[index])
    && q.lines[|p.lines| + j - i] == Tabs(depth) + (Decimal(index) + TAB_ROLE)
  }

  lemma {:induction false} TabsRendered(p: Progress, n: nat, selected: nat, i: nat, depth: nat, path: seq<nat>)
    requires i <= n && |p.rows| == |p.lines| && |p.records| + n - i <= MAX_NODES && depth <= MAX_DEPTH
    ensures TabsAdded(p, RenderedChildren(p, TabList(n, selected), i, depth, path, true, SAME),
                      n, selected, i, depth, path)
    decreases n - i
  {
    hide Rendered, LineOf, RecordOf, Decimal, Tabs;
    if i < n {
      var isSelected := i == selected;
      var p' := Step(p, Recorded(Tab(isSelected), depth, path + [i]), SAME);
      TabRendered(p, isSelected, depth, path + [i]);
      TabLine(|p.records|, depth, isSelected);
      TabsRendered(p', n, selected, i + 1, depth, path);
      var q := RenderedChildren(p', TabList(n, selected), i + 1, depth, path, true, SAME);
      forall j | i <= j < n ensures TabAdded(p, q, selected, i, j, depth, path) {
        if i < j {
          assert TabAdded(p', q, selected, i + 1, j, depth, path);
        }
      }
    }
  }

  // ---------- Compacting the list ----------

  function Interval(a: nat, n: nat): (r: set<nat>)
    ensures |r| == n && forall k :: k in r <==> a <= k < a + n
  {
    if n == 0 then {} else Interval(a, n - 1) + {a + n - 1}
  }

  /** The row of the j-th tab. */
  lemma TabRow(p: Progress, q: Progress, n: nat, selected: nat, j: nat, depth: nat, path: seq<nat>)
    requires TabsAdded(p, q, n, selected, 0, depth, path) && j < n
    ensures q.records[|p.records| + j] == RecordOf(Tab(j == selected), |p.records| + j, path + [j])
    ensures q.rows[|p.lines| + j] == Some(q.records[|p.records| + j])
    ensures q.lines[|p.lines| + j] == Tabs(depth) + (Decimal(|p.records| + j) + TAB_ROLE)
  {
    hide RecordOf, Tabs, Decimal;
    assert TabAdded(p, q, selected, 0, j, depth, path);
  }

  lemma TabIsActiveIff(p: Progress, q: Progress, n: nat, selected: nat, j: nat, depth: nat, path: seq<nat>)
    requires TabsAdded(p, q, n, selected, 0, depth, path) && j < n
    ensures var line := q.lines[|p.lines| + j];
            && IsTabLine(line, depth) && RenderedIndex(line, depth) == Some(|p.records| + j)
            && (IsActiveTabLine(line, depth, q.records) <==> j == selected)
  {
    hide IsTabLine, RenderedIndex, Contains, Tabs, Decimal, TabAdded;
    var index := |p.records| + j;
    TabRow(p, q, n, selected, j, depth, path);
    TabLineIsTab(q.lines[|p.lines| + j], index, depth);
    forall l | index < l < |q.records| ensures q.records[l].index != index {
      TabRow(p, q, n, selected, l - |p.records|, depth, path);
    }
    LastIsFound(q.records, index);
    assert Collapse("") == "";
  }

  lemma {:induction false} KeptOnly<T>(s: seq<T>, i: nat, drop: set<nat>, l: nat)
    requires i <= |s| && l < |s| && forall k :: i <= k < |s| ==> (k in drop <==> k != l)
    ensures Kept(s, i, drop) == if i <= l then [s[l]] else []
    decreases |s| - i
  {
    if i < |s| {
      KeptOnly(s, i + 1, drop, l);
    }
  }

  lemma TabsCompacted(p: Progress, q: Progress, n: nat, selected: nat, depth: nat, path: seq<nat>)
    requires TabsAdded(p, q, n, selected, 0, depth, path) && selected < n && n >= MIN_TABS
    ensures var drop := Interval(|p.lines|, n) - {|p.lines| + selected};
            && MustCompact(q.lines, |p.lines|, depth, q.records) && FirstTab(q.lines, |p.lines|, depth) == |p.lines|
            && InactiveLines(q.lines, |p.lines|, depth, q.records) == drop
            && OmittedIndexes(q.lines, drop, depth) == Interval(|p.records|, n) - {|p.records| + selected}
  {
    hide IsTabLine, IsActiveTabLine, RenderedIndex, TabAdded, OmittedIndexes, MustCompact;
    hide InactiveLines, FirstTab, Interval;
    var start := |p.lines|;
    forall k | start <= k < |q.lines|
      ensures IsTabLine(q.lines[k], depth) && RenderedIndex(q.lines[k], depth) == Some(|p.records| + k - start)
      ensures IsActiveTabLine(q.lines[k], depth, q.records) <==> k == start + selected
    {
      TabIsActiveIff(p, q, n, selected, k - start, depth, path);
    }
    AllButOneInactive(q.lines, q.records, start, n, selected, depth);
    OmittedAre(q.lines, start, n, |p.records|, selected, depth);
  }

  lemma AllButOneInactive(lines: seq<string>, records: seq<Record>, start: nat, n: nat, selected: nat, depth: nat)
    requires start + n == |lines| && selected < n && n >= MIN_TABS
    requires forall k :: start <= k < |lines| ==>
               IsTabLine(lines[k], depth) && (IsActiveTabLine(lines[k], depth, records) <==> k == start + selected)
    ensures MustCompact(lines, start, depth, records) && FirstTab(lines, start, depth) == start
    ensures InactiveLines(lines, start, depth, records) == Interval(start, n) - {start + selected}
  {
    hide IsTabLine, IsActiveTabLine, Interval;
    var all := Interval(start, n);
    assert TabLines(lines, start, depth) == all;
    assert InactiveLines(lines, start, depth, records) == all - {start + selected};
    assert start + (if selected == 0 then 1 else 0) in all - {start + selected};
    assert start + selected in all;
  }

  lemma OmittedAre(lines: seq<string>, start: nat, n: nat, index: nat, selected: nat, depth: nat)
    requires start + n <= |lines|
    requires forall k :: start <= k < start + n ==> RenderedIndex(lines[k], depth) == Some(index + k - start)
    ensures OmittedIndexes(lines, Interval(start, n) - {start + selected}, depth) ==
      Interval(index, n) - {index + selected}
  {
    hide RenderedIndex, Interval;
    var drop, omitted := Interval(start, n) - {start + selected}, Interval(index, n) - {index + selected};
    forall i ensures i in OmittedIndexes(lines, drop, depth) <==> i in omitted {
      if i in omitted {
        var k := start + i - index;
        assert k in drop && RenderedIndex(lines[k], depth) == Some(i);
      }
    }
  }

  /** Of a list of ten or more tabs only the selected one is left, below a marker; and of all records those
      go that have the index of another tab. */
  ghost predicate ListCompacted(p: Progress, q: Progress, n: nat, selected: nat, depth: nat, path: seq<nat>) {
    var index := |p.records| + 1 + selected;
    && selected < n && |q.lines| == |q.rows|
    && q.rows == p.rows + [Some(RecordOf(TabList(n, selected), |p.records|, path)), None,
                           Some(RecordOf(Tab(true), index, path + [selected]))]
    && q.compactions == p.compactions + 1
    && (forall x :: x in q.records ==> !(|p.records| < x.index <= |p.records| + n && x.index != index))
  }

  lemma ListRendered(p: Progress, n: nat, selected: nat, depth: nat, path: seq<nat>)
    requires |p.rows| == |p.lines| && |p.records| + 1 + n <= MAX_NODES && depth < MAX_DEPTH
    requires selected < n && n >= MIN_TABS
    ensures ListCompacted(p, Rendered(p, TabList(n, selected), depth, path, true, SAME), n, selected, depth, path)
  {
    hide ShouldElide, EndsAt, LineOf, RecordOf, Compaction, TabAdded, ListCompacted;
    hide TabsAdded, TabList, RenderedChildren;
    ListIsRecorded(n, selected);
    var p' := Step(p, Recorded(TabList(n, selected), depth, path), SAME);
    var q := RenderedChildren(p', TabList(n, selected), 0, depth + 1, path, true, SAME);
    TabsRendered(p', n, selected, 0, depth + 1, path);
    ListIsCompacted(p, p', q, n, selected, depth, path);
  }

  lemma ListIsCompacted(p: Progress, p': Progress, q: Progress, n: nat, selected: nat, depth: nat, path: seq<nat>)
    requires |p.rows| == |p.lines| && |p.records| < MAX_NODES && selected < n && n >= MIN_TABS
    requires p' == Step(p, Recorded(TabList(n, selected), depth, path), SAME)
    requires TabsAdded(p', q, n, selected, 0, depth + 1, path)
    ensures |p'.lines| <= |q.lines| == |q.rows|
    ensures ListCompacted(p, Compaction(q, |p'.lines|, depth + 1), n, selected, depth, path)
  {
    hide LineOf, RecordOf, MustCompact, TabAdded, WithMarker, Marker, OmittedIndexes, InactiveLines, TabList, FirstTab;
    hide Interval, RecordsWithout, Clash;
    TabsCompacted(p', q, n, selected, depth + 1, path);
    RowsLeft(p', q, n, selected, depth + 1, path);
    var left := Compaction(q, |p'.lines|, depth + 1);
    assert left.rows == p'.rows + [None, Some(RecordOf(Tab(true), |p'.records| + selected, path + [selected]))];
  }

  lemma RowsLeft(p: Progress, q: Progress, n: nat, selected: nat, depth: nat, path: seq<nat>)
    requires TabsAdded(p, q, n, selected, 0, depth, path) && selected < n
    ensures WithMarker(q.rows, |p.lines|, Interval(|p.lines|, n) - {|p.lines| + selected}, None)
         == p.rows + [None, Some(RecordOf(Tab(true), |p.records| + selected, path + [selected]))]
  {
    hide RecordOf, TabAdded, Kept, Interval;
    var start := |p.lines|;
    KeptOnly(q.rows, start, Interval(start, n) - {start + selected}, start + selected);
    TabRow(p, q, n, selected, selected, depth, path);
    assert q.rows[..start] == p.rows;
  }

  // ---------- The window ----------

  /** The record of the first list's selected tab. */
  const LOST := RecordOf(Tab(true), 13, [0, 11])

  lemma WindowRendered(p0: Progress, p1: Progress, p2: Progress)
    requires p0 == Step(NOTHING, Recorded(WINDOW, 0, []), SAME)
    requires p1 == Rendered(p0, TabList(12, 11), 1, [0], true, SAME)
    requires p2 == Rendered(p1, TabList(10, 0), 1, [1], true, SAME)
    ensures Rendered(NOTHING, WINDOW, 0, [], true, SAME) == Compaction(p2, 1, 1)
  {
    hide LineOf, RecordOf, TabList, Compaction, ShouldElide, EndsAt;
    WindowIsRecorded();
    assert [] + [0] == [0] && [] + [1] == [1];
    assert RenderedChildren(p2, WINDOW, 2, 1, [], true, SAME) == p2;
    assert RenderedChildren(p1, WINDOW, 1, 1, [], true, SAME) == p2;
    assert RenderedChildren(p0, WINDOW, 0, 1, [], true, SAME) == p2;
  }

  lemma WindowIsRecorded()
    ensures !ShouldElide(WINDOW, SAME) && !EndsAt(WINDOW, SAME)
  {
    hide CollectSnippets;
  }

  lemma AfterFirstList(p0: Progress, p1: Progress)
    requires p0 == Step(NOTHING, Recorded(WINDOW, 0, []), SAME) && ListCompacted(p0, p1, 12, 11, 1, [0])
    ensures p1.compactions == 1 && |p1.rows| == |p1.lines| == 4 && p1.rows[3] == Some(LOST)
    ensures Intact(p1) ==> |p1.records| == 3
  {
    hide Shown, LineOf, RecordOf, TabList;
    assert [0] + [11] == [0, 11];
    var rows := p1.rows;
    assert rows == [rows[0]] + ([rows[1]] + ([rows[2]] + [rows[3]]));
    ShownJoined([rows[0]], [rows[1]] + ([rows[2]] + [rows[3]]));
    ShownJoined([rows[1]], [rows[2]] + [rows[3]]);
    ShownJoined([rows[2]], [rows[3]]);
    ShownOne(rows[0]);
    ShownOne(rows[1]);
    ShownOne(rows[2]);
    ShownOne(rows[3]);
  }

  lemma FirstListIsIntact(p0: Progress, p1: Progress)
    requires p0 == Step(NOTHING, Recorded(WINDOW, 0, []), SAME)
    requires p1 == Rendered(p0, TabList(12, 11), 1, [0], true, SAME) && p1.compactions == 1
    ensures Intact(p1)
  {
    hide LineOf, RecordOf, TabList, Rendered, Visits, RowsMadeBy, Aligned, Shown;
    var visits := [Recorded(WINDOW, 0, [])] + Visits(TabList(12, 11), 1, [0], SAME);
    NothingIsSound(visits, SAME);
    StepKeeps(NOTHING, visits[0], visits, SAME);
    RenderedKeeps(p0, TabList(12, 11), 1, [0], true, SAME, visits);
  }

  lemma AfterSecondList(p1: Progress, p2: Progress)
    requires p1.compactions == 1 && |p1.rows| == |p1.lines| == 4 && p1.rows[3] == Some(LOST) && |p1.records| == 3
    requires ListCompacted(p1, p2, 10, 0, 1, [1])
    ensures p2.compactions == 2 && |p2.lines| == |p2.rows| == 7
    ensures Some(LOST) in p2.rows && LOST !in p2.records
  {
  }

  /** Fewer than ten lines are never compacted. */
  lemma FewLinesNoCompaction(p: Progress)
    requires 1 <= |p.lines| == |p.rows| < MIN_TABS
    ensures Compaction(p, 1, 1) == p
  {
    hide IsTabLine, IsActiveTabLine, Interval;
    SubsetIsSmaller(TabLines(p.lines, 1, 1), Interval(1, |p.lines| - 1));
  }

  lemma {:induction false} SubsetIsSmaller(a: set<nat>, b: set<nat>)
    requires a <= b
    ensures |a| <= |b|
  {
    if x :| x in a {
      SubsetIsSmaller(a - {x}, b - {x});
    }
  }

  /** Its line stays, but it is gone. */
  lemma SecondCompactionLosesRecord()
    ensures var p := Rendered(NOTHING, WINDOW, 0, [], true, SAME);
            p.compactions == 2 && Some(LOST) in p.rows && LOST !in p.records && !Intact(p)
  {
    hide Rendered, ListCompacted, TabList, Shown, Compaction, LineOf, RecordOf;
    var p0 := Step(NOTHING, Recorded(WINDOW, 0, []), SAME);
    var p1 := Rendered(p0, TabList(12, 11), 1, [0], true, SAME);
    var p2 := Rendered(p1, TabList(10, 0), 1, [1], true, SAME);
    WindowRendered(p0, p1, p2);
    ListRendered(p0, 12, 11, 1, [0]);
    AfterFirstList(p0, p1);
    FirstListIsIntact(p0, p1);
    ListRendered(p1, 10, 0, 1, [1]);
    AfterSecondList(p1, p2);
    FewLinesNoCompaction(p2);
  }
}
