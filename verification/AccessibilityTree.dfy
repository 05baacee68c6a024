/**
  Rendering an accessibility tree as numbered records and lines, with a cap on nodes and depth, and the
  lookup that follows a record back to its element.
 */
module AccessibilityTree {
  import opened Digits
  import opened ElementMeaning
  import opened ElementText
  import opened Options
  import opened PythonText
  import opened TabCompaction

  const MAX_NODES := 1200
  const MAX_DEPTH := 64

  // ---------- The lookup ----------

  predicate SameElementSignature(node: Node, saved: Record) {
    && node.role == saved.controlType
    && node.name == saved.name
    && node.accessibleId == saved.automationId
    && node.actions == saved.actions
  }

  method FindElement(app: Node, saved: Option<Record>) returns (found: Option<Node>)
    ensures found == FoundElement(app, saved)
    // that is, the element at the path, provided that none of these has changed
    ensures forall node :: found == Some(node) <==>
              && saved.Some? && FindByPath(app, saved.value.runtimeId) == Some(node)
              && node.role == saved.value.controlType && node.name == saved.value.name
              && node.accessibleId == saved.value.automationId && node.actions == saved.value.actions
  {
    if saved.None? {
      return None;
    }
    var byPath := Some(app);
    var path := saved.value.runtimeId;
    assert path[0..] == path;
    for i := 0 to |path|
      invariant byPath.Some? && FindByPath(byPath.value, path[i..]) == FindByPath(app, path)
    {
      assert path[i..][0] == path[i] && path[i..][1..] == path[i + 1..];
      var children := byPath.value.children;
      byPath := if path[i] < |children| then children[path[i]] else None;
      if byPath.None? {
        return None;
      }
    }
    if SameElementSignature(byPath.value, saved.value) {
      return byPath;
    }
    return None;
  }

  ghost function FoundElement(app: Node, saved: Option<Record>): Option<Node> {
    if saved.None? then None
    else
      var byPath := FindByPath(app, saved.value.runtimeId);
      if byPath.Some? && SameElementSignature(byPath.value, saved.value) then byPath else None
  }

  lemma {:induction false} FindByPathJoined(app: Node, p: seq<nat>, q: seq<nat>)
    ensures FindByPath(app, p + q) ==
      if FindByPath(app, p).Some? then FindByPath(FindByPath(app, p).value, q) else None
    decreases |p|
  {
    if p == [] {
      assert p + q == q;
    } else {
      assert (p + q)[0] == p[0] && (p + q)[1..] == p[1..] + q;
      if p[0] < |app.children| && app.children[p[0]].Some? {
        FindByPathJoined(app.children[p[0]].value, p[1..], q);
      }
    }
  }

  // ---------- The visits of a walk without a cap on nodes ----------

  datatype Visit =
    | Recorded(node: Node, depth: nat, path: seq<nat>)
    | Elided(node: Node, path: seq<nat>)
    | TooDeep(node: Node, path: seq<nat>)

  function Visits(node: Node, depth: nat, path: seq<nat>, lower: Lower): (r: seq<Visit>)
    ensures |r| > 0
    decreases node, |node.children| + 1
  {
    if depth > MAX_DEPTH then [TooDeep(node, path)]
    else if ShouldElide(node, lower) then [Elided(node, path)] + ChildVisits(node, 0, depth, path, lower)
    else [Recorded(node, depth, path)]
         + (if EndsAt(node, lower) then [] else ChildVisits(node, 0, depth + 1, path, lower))
  }

  function ChildVisits(node: Node, i: nat, depth: nat, path: seq<nat>, lower: Lower): seq<Visit>
    requires i <= |node.children|
    decreases node, |node.children| - i
  {
    if i == |node.children| then []
    else
      (if node.children[i].Some? then Visits(node.children[i].value, depth, path + [i], lower) else [])
      + ChildVisits(node, i + 1, depth, path, lower)
  }

  lemma ChildVisitsFrom(node: Node, i: nat, depth: nat, path: seq<nat>, lower: Lower)
    requires i < |node.children|
    ensures ChildVisits(node, i, depth, path, lower) ==
      (if node.children[i].Some? then Visits(node.children[i].value, depth, path + [i], lower) else [])
      + ChildVisits(node, i + 1, depth, path, lower)
  {
  }

  // ---------- The cap on nodes ----------

  function Step(p: Progress, v: Visit, lower: Lower): Progress {
    if |p.records| >= MAX_NODES || v.TooDeep? then p.(truncated := true)
    else if v.Elided? then p
    else
      var record := RecordOf(v.node, |p.records|, v.path);
      p.(records := p.records + [record], lines := p.lines + [LineOf(v.node, |p.records|, v.depth, lower)],
         rows := p.rows + [Some(record)])
  }

  function Process(p: Progress, visits: seq<Visit>, lower: Lower): Progress
    decreases |visits|
  {
    if visits == [] then p else Process(Step(p, visits[0], lower), visits[1..], lower)
  }

  lemma {:induction false} ProcessJoined(p: Progress, a: seq<Visit>, b: seq<Visit>, lower: Lower)
    ensures Process(p, a + b, lower) == Process(Process(p, a, lower), b, lower)
    decreases |a|
  {
    hide Step;
    if a == [] {
      assert a + b == b;
    } else {
      assert (a + b)[0] == a[0] && (a + b)[1..] == a[1..] + b;
      ProcessJoined(Step(p, a[0], lower), a[1..], b, lower);
    }
  }

  /** At the cap a visit only marks the result as truncated. */
  lemma {:induction false} ProcessAtCap(p: Progress, visits: seq<Visit>, lower: Lower)
    requires |p.records| >= MAX_NODES
    ensures Process(p, visits, lower) == if visits == [] then p else p.(truncated := true)
    decreases |visits|
  {
    if visits != [] {
      ProcessAtCap(p.(truncated := true), visits[1..], lower);
    }
  }

  lemma StoppedVisits(p: Progress, node: Node, depth: nat, path: seq<nat>, lower: Lower)
    requires |p.records| >= MAX_NODES || depth > MAX_DEPTH
    ensures Process(p, Visits(node, depth, path, lower), lower) == p.(truncated := true)
  {
    if |p.records| >= MAX_NODES {
      ProcessAtCap(p, Visits(node, depth, path, lower), lower);
    }
  }

  lemma OpenVisits(p: Progress, node: Node, depth: nat, path: seq<nat>, lower: Lower)
    requires |p.records| < MAX_NODES && depth <= MAX_DEPTH
    ensures Process(p, Visits(node, depth, path, lower), lower) ==
      if ShouldElide(node, lower) then Process(p, ChildVisits(node, 0, depth, path, lower), lower)
      else
        var p' := Step(p, Recorded(node, depth, path), lower);
        if EndsAt(node, lower) then p' else Process(p', ChildVisits(node, 0, depth + 1, path, lower), lower)
  {
    hide ShouldElide, EndsAt, ChildVisits, Step;
    var visits := Visits(node, depth, path, lower);
    var rest := if !ShouldElide(node, lower) && EndsAt(node, lower) then []
                else ChildVisits(node, 0, if ShouldElide(node, lower) then depth else depth + 1, path, lower);
    assert visits[1..] == rest;
    assert visits[0] == if ShouldElide(node, lower) then Elided(node, path) else Recorded(node, depth, path);
    ElidedStep(p, node, path, lower);
  }

  lemma ElidedStep(p: Progress, node: Node, path: seq<nat>, lower: Lower)
    requires |p.records| < MAX_NODES
    ensures Step(p, Elided(node, path), lower) == p
  {
  }

  lemma OwnVisits(node: Node, depth: nat, path: seq<nat>, lower: Lower)
    ensures var visits := Visits(node, depth, path, lower);
            if depth > MAX_DEPTH then TooDeep(node, path) in visits
            else if ShouldElide(node, lower) then
              Elided(node, path) in visits
              && forall v :: v in ChildVisits(node, 0, depth, path, lower) ==> v in visits
            else
              Recorded(node, depth, path) in visits
              && (!EndsAt(node, lower) ==>
                  forall v :: v in ChildVisits(node, 0, depth + 1, path, lower) ==> v in visits)
  {
    hide ShouldElide, EndsAt, ChildVisits;
  }

  lemma {:induction false} ChildVisitsHold(node: Node, i: nat, k: nat, depth: nat, path: seq<nat>, lower: Lower)
    requires i <= k < |node.children| && node.children[k].Some?
    ensures forall v :: v in Visits(node.children[k].value, depth, path + [k], lower) ==>
              v in ChildVisits(node, i, depth, path, lower)
    decreases k - i
  {
    hide Visits;
    ChildVisitsFrom(node, i, depth, path, lower);
    hide ChildVisits;
    if i < k {
      ChildVisitsHold(node, i + 1, k, depth, path, lower);
    }
  }

  // ---------- The walk ----------

  ghost predicate MadeBy(r: Record, visits: seq<Visit>) {
    exists v :: v in visits && v.Recorded? && r == RecordOf(v.node, r.index, v.path)
  }

  ghost predicate SawTooDeep(visits: seq<Visit>) {
    exists v :: v in visits && v.TooDeep?
  }

  /** What the walk makes of a tree, compactions included. */
  ghost function Rendered(p: Progress, node: Node, depth: nat, path: seq<nat>, compact: bool,
                          lower: Lower): (q: Progress)
    requires |p.rows| == |p.lines|
    ensures |q.rows| == |q.lines| && p.lines <= q.lines
    decreases node, |node.children| + 1
  {
    hide ShouldElide, EndsAt, LineOf, RecordOf, MustCompact, WithMarker, Marker, RecordsWithout, OmittedIndexes, Clash;
    if |p.records| >= MAX_NODES || depth > MAX_DEPTH then
      p.(truncated := true, maxDepthReached := p.maxDepthReached || depth > MAX_DEPTH)
    else if ShouldElide(node, lower) then RenderedChildren(p, node, 0, depth, path, compact, lower)
    else
      var p' := Step(p, Recorded(node, depth, path), lower);
      if EndsAt(node, lower) then p'
      else
        var q := RenderedChildren(p', node, 0, depth + 1, path, compact, lower);
        if compact then Compaction(q, |p'.lines|, depth + 1) else q
  }

  ghost function RenderedChildren(p: Progress, node: Node, i: nat, depth: nat, path: seq<nat>, compact: bool,
                                  lower: Lower): (q: Progress)
    requires i <= |node.children| && |p.rows| == |p.lines|
    ensures |q.rows| == |q.lines| && p.lines <= q.lines
    decreases node, |node.children| - i
  {
    if i == |node.children| then p
    else
      var p' := if node.children[i].None? then p
                else Rendered(p, node.children[i].value, depth, path + [i], compact, lower);
      RenderedChildren(p', node, i + 1, depth, path, compact, lower)
  }

  method Walk(out: Rendering, node: Node, depth: nat, path: seq<nat>, compact: bool, lower: Lower)
    requires |out.rows| == |out.lines|
    modifies out
    ensures out.State() == Rendered(old(out.State()), node, depth, path, compact, lower)
    decreases node, |node.children| + 1
  {
    hide LineOf, ShouldElide, EndsAt, Compaction;
    if |out.records| >= MAX_NODES || depth > MAX_DEPTH {
      out.truncated := true;
      if depth > MAX_DEPTH {
        out.maxDepthReached := true;
      }
      return;
    }
    if ShouldElide(node, lower) {
      WalkChildren(out, node, depth, path, compact, lower);
      return;
    }
    var index := |out.records|;
    out.records := out.records + [RecordOf(node, index, path)];
    out.lines := out.lines + [LineOf(node, index, depth, lower)];
    out.rows := out.rows + [Some(RecordOf(node, index, path))];
    if EndsAt(node, lower) {
      return;
    }
    var childLineStart := |out.lines|;
    WalkChildren(out, node, depth + 1, path, compact, lower);
    if compact {
      CompactRenderedBrowserTabs(out, childLineStart, depth + 1);
    }
  }

  method WalkChildren(out: Rendering, node: Node, depth: nat, path: seq<nat>, compact: bool, lower: Lower)
    requires |out.rows| == |out.lines|
    modifies out
    ensures out.State() == RenderedChildren(old(out.State()), node, 0, depth, path, compact, lower)
    decreases node, |node.children|
  {
    hide Rendered, LineOf, ShouldElide, EndsAt, Compaction;
    ghost var all := RenderedChildren(out.State(), node, 0, depth, path, compact, lower);
    for i := 0 to |node.children|
      invariant |out.rows| == |out.lines|
      invariant RenderedChildren(out.State(), node, i, depth, path, compact, lower) == all
    {
      if node.children[i].Some? {
        Walk(out, node.children[i].value, depth, path + [i], compact, lower);
      }
    }
  }

  // ---------- Without compaction ----------

  /** As long as nothing is compacted, the walk renders exactly what its visits in preorder give under the caps. */
  lemma {:induction false} RenderedIsProcess(p: Progress, node: Node, depth: nat, path: seq<nat>, compact: bool,
                                             lower: Lower)
    requires |p.rows| == |p.lines|
    ensures var q := Rendered(p, node, depth, path, compact, lower);
            && q.compactions >= p.compactions && (!compact ==> q.compactions == p.compactions)
            && (q.compactions == p.compactions ==>
                  q == Process(p, Visits(node, depth, path, lower), lower).(maxDepthReached := q.maxDepthReached))
    decreases node, |node.children| + 1
  {
    hide Visits, ChildVisits, LineOf, ShouldElide, EndsAt, Process, MustCompact;
    if |p.records| >= MAX_NODES || depth > MAX_DEPTH {
      StoppedVisits(p, node, depth, path, lower);
    } else {
      OpenVisits(p, node, depth, path, lower);
      if ShouldElide(node, lower) {
        ChildrenAreProcess(p, node, 0, depth, path, compact, lower);
      } else if !EndsAt(node, lower) {
        ChildrenAreProcess(Step(p, Recorded(node, depth, path), lower), node, 0, depth + 1, path, compact, lower);
      }
    }
  }

  lemma {:induction false} ChildrenAreProcess(p: Progress, node: Node, i: nat, depth: nat,
                                              path: seq<nat>, compact: bool,
                                              lower: Lower)
    requires i <= |node.children| && |p.rows| == |p.lines|
    ensures var q := RenderedChildren(p, node, i, depth, path, compact, lower);
            && q.compactions >= p.compactions && (!compact ==> q.compactions == p.compactions)
            && (q.compactions == p.compactions ==>
                  q == Process(p, ChildVisits(node, i, depth, path, lower), lower)
                    .(maxDepthReached := q.maxDepthReached))
    decreases node, |node.children| - i
  {
    hide Visits, ChildVisits, Rendered, Process;
    if i == |node.children| {
      NoChildVisits(node, depth, path, lower);
      ProcessEmpty(p, lower);
    } else {
      ChildVisitsFrom(node, i, depth, path, lower);
      var rest := ChildVisits(node, i + 1, depth, path, lower);
      if node.children[i].Some? {
        var child := node.children[i].value;
        RenderedIsProcess(p, child, depth, path + [i], compact, lower);
        ProcessJoined(p, Visits(child, depth, path + [i], lower), rest, lower);
        var p' := Rendered(p, child, depth, path + [i], compact, lower);
        ProcessIgnoresDepth(Process(p, Visits(child, depth, path + [i], lower), lower),
                            p'.maxDepthReached, rest, lower);
        ChildrenAreProcess(p', node, i + 1, depth, path, compact, lower);
      } else {
        ChildrenAreProcess(p, node, i + 1, depth, path, compact, lower);
        assert [] + rest == rest;
      }
    }
  }

  lemma {:induction false} ProcessIgnoresDepth(p: Progress, flag: bool, visits: seq<Visit>, lower: Lower)
    ensures Process(p.(maxDepthReached := flag), visits, lower) == Process(p, visits, lower).(maxDepthReached := flag)
    decreases |visits|
  {
    hide LineOf, RecordOf;
    if visits != [] {
      ProcessIgnoresDepth(Step(p, visits[0], lower), flag, visits[1..], lower);
    }
  }

  lemma ProcessEmpty(p: Progress, lower: Lower)
    ensures Process(p, [], lower) == p
  {
  }

  // ---------- What the visits are ----------

  /** Every visit is of the element that its path leads to. */
  lemma {:induction false} VisitsFollowPaths(node: Node, depth: nat, path: seq<nat>, lower: Lower, v: Visit)
    requires v in Visits(node, depth, path, lower)
    ensures path <= v.path && FindByPath(node, v.path[|path|..]) == Some(v.node)
    decreases node, |node.children| + 1
  {
    hide ShouldElide, EndsAt;
    if v.path != path || v.node != node {
      var childDepth := if ShouldElide(node, lower) then depth else depth + 1;
      assert v in ChildVisits(node, 0, childDepth, path, lower);
      ChildVisitsFollowPaths(node, 0, childDepth, path, lower, v);
    } else {
      assert v.path[|path|..] == [];
    }
  }

  lemma {:induction false} ChildVisitsFollowPaths(node: Node, i: nat, depth: nat, path: seq<nat>,
                                                  lower: Lower, v: Visit)
    requires i <= |node.children| && v in ChildVisits(node, i, depth, path, lower)
    ensures path < v.path && v.path[|path|] >= i && FindByPath(node, v.path[|path|..]) == Some(v.node)
    decreases node, |node.children| - i
  {
    hide Visits;
    ChildVisitsFrom(node, i, depth, path, lower);
    if node.children[i].Some? && v in Visits(node.children[i].value, depth, path + [i], lower) {
      VisitsFollowPaths(node.children[i].value, depth, path + [i], lower, v);
      assert v.path[|path|..] == [i] + v.path[|path + [i]|..];
    } else {
      ChildVisitsFollowPaths(node, i + 1, depth, path, lower, v);
    }
  }

  // ---------- Which elements are visited ----------

  /** The walk comes to the element at `q`: those above it are at depth 64 at most, and either bare containers or not
      such as stand for their subtrees. */
  ghost predicate IsReached(node: Node, depth: nat, q: seq<nat>, lower: Lower)
    decreases |q|
  {
    q == []
    || (&& depth <= 64
        && (IsBareContainer(node, lower) || !StandsForSubtree(node, lower))
        && q[0] < |node.children| && node.children[q[0]].Some?
        && IsReached(node.children[q[0]].value, DepthBelow(node, depth, lower), q[1..], lower))
  }

  ghost function DepthBelow(node: Node, depth: nat, lower: Lower): nat {
    if IsBareContainer(node, lower) then depth else depth + 1
  }

  /** How many elements on the way from `node` along `q`, the last one not counted, are not bare containers. */
  ghost function ShownAbove(node: Node, q: seq<nat>, lower: Lower): nat
    decreases |q|
  {
    if q == [] || q[0] >= |node.children| || node.children[q[0]].None? then 0
    else DepthBelow(node, 0, lower) + ShownAbove(node.children[q[0]].value, q[1..], lower)
  }

  /** More than 64 levels of shown elements down it is too deep; else it is left out or shown, indented by the number
      of elements shown above it. */
  ghost predicate IsVisitAt(v: Visit, node: Node, depth: nat, q: seq<nat>, lower: Lower) {
    var found, d := FindByPath(node, q), depth + ShownAbove(node, q, lower);
    && found == Some(v.node)
    && (v.TooDeep? <==> d > 64)
    && (v.Elided? <==> d <= 64 && IsBareContainer(v.node, lower))
    && (v.Recorded? ==> v.depth == d)
  }

  lemma BelowIsReached(node: Node, depth: nat, i: nat, q: seq<nat>, v: Visit, lower: Lower)
    requires i < |node.children| && node.children[i].Some?
    ensures var child, d := node.children[i].value, DepthBelow(node, depth, lower);
            && (IsVisitAt(v, node, depth, [i] + q, lower) <==> IsVisitAt(v, child, d, q, lower))
            && (IsReached(node, depth, [i] + q, lower) <==>
                  && depth <= 64 && (IsBareContainer(node, lower) || !StandsForSubtree(node, lower))
                  && IsReached(child, d, q, lower))
  {
    hide IsBareContainer, StandsForSubtree;
    assert ([i] + q)[1..] == q;
  }

  lemma OwnVisitIs(node: Node, depth: nat, path: seq<nat>, lower: Lower)
    ensures IsVisitAt(OwnVisit(node, depth, path, lower), node, depth, [], lower)
  {
    hide ShouldElide, IsBareContainer;
    ShouldElideIff(node, lower);
  }

  /** Every visit is of an element that is reached, and of the kind and depth that its place gives it. */
  lemma {:induction false} VisitsAreReached(node: Node, depth: nat, path: seq<nat>, lower: Lower, v: Visit)
    requires v in Visits(node, depth, path, lower)
    ensures path <= v.path
    ensures IsReached(node, depth, v.path[|path|..], lower) && IsVisitAt(v, node, depth, v.path[|path|..], lower)
    decreases node, |node.children| + 1
  {
    hide ShouldElide, EndsAt, ChildVisits, IsBareContainer, StandsForSubtree, IsVisitAt;
    VisitsFirst(node, depth, path, lower);
    OwnVisitIs(node, depth, path, lower);
    if v == OwnVisit(node, depth, path, lower) {
      assert v.path[|path|..] == [];
    } else {
      ShouldElideIff(node, lower);
      EndsAtIff(node, lower);
      ChildVisitsAreReached(node, 0, depth, path, lower, v);
    }
  }

  lemma {:induction false} ChildVisitsAreReached(node: Node, i: nat, depth: nat, path: seq<nat>, lower: Lower, v: Visit)
    requires i <= |node.children| && depth <= 64 && (IsBareContainer(node, lower) || !StandsForSubtree(node, lower))
    requires v in ChildVisits(node, i, DepthBelow(node, depth, lower), path, lower)
    ensures path <= v.path
    ensures IsReached(node, depth, v.path[|path|..], lower) && IsVisitAt(v, node, depth, v.path[|path|..], lower)
    decreases node, |node.children| - i
  {
    hide Visits, IsBareContainer, StandsForSubtree, IsVisitAt, IsReached, DepthBelow;
    var d := DepthBelow(node, depth, lower);
    ChildVisitsFrom(node, i, d, path, lower);
    if node.children[i].Some? && v in Visits(node.children[i].value, d, path + [i], lower) {
      VisitsAreReached(node.children[i].value, d, path + [i], lower, v);
      var q := v.path[|path + [i]|..];
      BelowIsReached(node, depth, i, q, v, lower);
      assert v.path[|path|] == (path + [i])[|path|] == i;
      assert v.path[|path|..] == [i] + q;
    } else {
      ChildVisitsAreReached(node, i + 1, depth, path, lower, v);
    }
  }

  /** And every element that is reached is visited. */
  lemma {:induction false} ReachedAreVisited(node: Node, depth: nat, path: seq<nat>, lower: Lower, q: seq<nat>)
    returns (v: Visit)
    requires IsReached(node, depth, q, lower)
    ensures v in Visits(node, depth, path, lower) && v.path == path + q && IsVisitAt(v, node, depth, q, lower)
    decreases |q|
  {
    hide ShouldElide, EndsAt, Visits, ChildVisits, IsBareContainer, StandsForSubtree, IsVisitAt;
    OwnVisits(node, depth, path, lower);
    if q == [] {
      v := OwnVisit(node, depth, path, lower);
      OwnVisitIs(node, depth, path, lower);
      assert path + q == path;
    } else {
      ShouldElideIff(node, lower);
      EndsAtIff(node, lower);
      var d := DepthBelow(node, depth, lower);
      v := ReachedAreVisited(node.children[q[0]].value, d, path + [q[0]], lower, q[1..]);
      ChildVisitsHold(node, 0, q[0], d, path, lower);
      BelowIsReached(node, depth, q[0], q[1..], v, lower);
      assert [q[0]] + q[1..] == q && path + [q[0]] + q[1..] == path + q;
    }
  }

  ghost predicate DistinctPaths(visits: seq<Visit>) {
    forall i, j :: 0 <= i < j < |visits| ==> visits[i].path != visits[j].path
  }

  lemma DistinctPathsJoined(a: seq<Visit>, b: seq<Visit>)
    requires DistinctPaths(a) && DistinctPaths(b)
    requires forall v, w :: v in a && w in b ==> v.path != w.path
    ensures DistinctPaths(a + b)
  {
  }

  /** No element is visited twice. */
  lemma {:induction false} VisitsOnce(node: Node, depth: nat, path: seq<nat>, lower: Lower)
    ensures DistinctPaths(Visits(node, depth, path, lower))
    decreases node, |node.children| + 1
  {
    hide ShouldElide, EndsAt, ChildVisits;
    var visits := Visits(node, depth, path, lower);
    if |visits| > 1 {
      var childDepth := if ShouldElide(node, lower) then depth else depth + 1;
      var rest := ChildVisits(node, 0, childDepth, path, lower);
      assert visits == [visits[0]] + rest && visits[0].path == path;
      ChildVisitsOnce(node, 0, childDepth, path, lower);
      forall w | w in rest ensures w.path != path {
        ChildVisitsFollowPaths(node, 0, childDepth, path, lower, w);
      }
      DistinctPathsJoined([visits[0]], rest);
    }
  }

  lemma NoChildVisits(node: Node, depth: nat, path: seq<nat>, lower: Lower)
    ensures ChildVisits(node, |node.children|, depth, path, lower) == []
    ensures DistinctPaths(ChildVisits(node, |node.children|, depth, path, lower))
  {
  }

  lemma {:induction false} ChildVisitsOnce(node: Node, i: nat, depth: nat, path: seq<nat>, lower: Lower)
    requires i <= |node.children|
    ensures DistinctPaths(ChildVisits(node, i, depth, path, lower))
    decreases node, |node.children| - i
  {
    hide Visits, ChildVisits, FindByPath, DistinctPaths;
    if i == |node.children| {
      NoChildVisits(node, depth, path, lower);
    } else {
      ChildVisitsFrom(node, i, depth, path, lower);
      var rest := ChildVisits(node, i + 1, depth, path, lower);
      ChildVisitsOnce(node, i + 1, depth, path, lower);
      if node.children[i].Some? {
        var first := Visits(node.children[i].value, depth, path + [i], lower);
        VisitsOnce(node.children[i].value, depth, path + [i], lower);
        forall v, w | v in first && w in rest ensures v.path != w.path {
          VisitsFollowPaths(node.children[i].value, depth, path + [i], lower, v);
          ChildVisitsFollowPaths(node, i + 1, depth, path, lower, w);
          assert v.path[|path|] == (path + [i])[|path|] == i;
        }
        DistinctPathsJoined(first, rest);
      } else {
        assert [] + rest == rest;
      }
    }
  }

  /** Every element of the tree is visited, or lies below a visit that is too deep or whose children are not shown. */
  lemma {:induction false} Covered(node: Node, depth: nat, path: seq<nat>, lower: Lower, q: seq<nat>)
    returns (v: Visit, k: nat)
    requires FindByPath(node, q).Some?
    ensures v in Visits(node, depth, path, lower)
    ensures k <= |q| && v.path == path + q[..k] && FindByPath(node, q[..k]) == Some(v.node)
    ensures k < |q| ==> v.TooDeep? || (v.Recorded? && StandsForSubtree(v.node, lower))
    ensures v.Elided? ==> IsBareContainer(v.node, lower)
    decreases |q|
  {
    hide ShouldElide, EndsAt, Visits, ChildVisits, StandsForSubtree, IsBareContainer;
    ShouldElideIff(node, lower);
    EndsAtIff(node, lower);
    OwnVisits(node, depth, path, lower);
    if depth > MAX_DEPTH || q == [] || (!ShouldElide(node, lower) && EndsAt(node, lower)) {
      v, k := OwnVisit(node, depth, path, lower), 0;
      assert q[..0] == [] && path + q[..0] == path;
      assert FindByPath(node, q[..k]) == Some(v.node);
    } else {
      var childDepth := if ShouldElide(node, lower) then depth else depth + 1;
      var child := node.children[q[0]].value;
      v, k := Covered(child, childDepth, path + [q[0]], lower, q[1..]);
      ChildVisitsHold(node, 0, q[0], childDepth, path, lower);
      assert q[..k + 1][0] == q[0] && q[..k + 1][1..] == q[1..][..k];
      assert path + q[..k + 1] == path + [q[0]] + q[1..][..k];
      assert FindByPath(node, q[..k + 1]) == FindByPath(child, q[1..][..k]);
      k := k + 1;
    }
  }

  function OwnVisit(node: Node, depth: nat, path: seq<nat>, lower: Lower): Visit {
    if depth > MAX_DEPTH then TooDeep(node, path)
    else if ShouldElide(node, lower) then Elided(node, path)
    else Recorded(node, depth, path)
  }

  // ---------- What the cap leaves ----------

  function RecordedOnly(visits: seq<Visit>): (r: seq<Visit>)
    ensures |r| <= |visits| && forall v :: v in r <==> v in visits && v.Recorded?
  {
    if visits == [] then [] else (if visits[0].Recorded? then [visits[0]] else []) + RecordedOnly(visits[1..])
  }

  /** Record and line i are those of the visit that is i - start places into `recorded`. */
  ghost predicate NumberedAt(p: Progress, start: nat, recorded: seq<Visit>, i: nat, lower: Lower)
    requires start <= i < |p.records| == |p.lines| && i - start < |recorded|
  {
    var v := recorded[i - start];
    v.Recorded? && p.records[i] == RecordOf(v.node, i, v.path) && p.lines[i] == LineOf(v.node, i, v.depth, lower)
  }

  /** Records and lines come in pairs, numbered from `start` on, one for each of the visits. */
  ghost predicate Numbered(p: Progress, start: nat, recorded: seq<Visit>, lower: Lower) {
    && |p.records| == |p.lines| <= start + |recorded|
    && forall i :: start <= i < |p.records| ==> NumberedAt(p, start, recorded, i, lower)
  }

  /** The walk is cut off: a visit is too deep, or comes after the last record that fits. */
  ghost predicate CutsOff(start: nat, visits: seq<Visit>) {
    exists k :: 0 <= k < |visits| && (visits[k].TooDeep? || start + |RecordedOnly(visits[..k])| >= MAX_NODES)
  }

  lemma {:induction false} ProcessMeans(p: Progress, visits: seq<Visit>, lower: Lower)
    requires |p.records| == |p.lines| <= MAX_NODES
    ensures var q, recorded, start := Process(p, visits, lower), RecordedOnly(visits), |p.records|;
            && Numbered(q, start, recorded, lower)
            && p.records <= q.records && p.lines <= q.lines
            && |q.records| == (if start + |recorded| <= MAX_NODES then start + |recorded| else MAX_NODES)
            && (q.truncated <==> p.truncated || CutsOff(start, visits))
            && (!q.truncated ==> start + |recorded| <= MAX_NODES && !SawTooDeep(visits))
    decreases |visits|
  {
    hide LineOf, RecordOf, Numbered, CutsOff;
    if visits == [] {
      ProcessNothing(p, lower);
    } else {
      var p' := Step(p, visits[0], lower);
      ProcessMeans(p', visits[1..], lower);
      CutsOffFirst(|p.records|, visits);
      NumberedFirst(p, visits[0], Process(p, visits, lower), RecordedOnly(visits[1..]), lower);
      assert visits == [visits[0]] + visits[1..];
    }
  }

  lemma ProcessNothing(p: Progress, lower: Lower)
    requires |p.records| == |p.lines|
    ensures Numbered(p, |p.records|, [], lower) && !CutsOff(|p.records|, [])
  {
  }

  lemma NumberedFirst(p: Progress, v: Visit, q: Progress, rest: seq<Visit>, lower: Lower)
    requires |p.records| == |p.lines| <= MAX_NODES && |q.records| <= MAX_NODES
    requires var p' := Step(p, v, lower);
             Numbered(q, |p'.records|, rest, lower) && p'.records <= q.records && p'.lines <= q.lines
    ensures Numbered(q, |p.records|, (if v.Recorded? then [v] else []) + rest, lower)
  {
    hide LineOf, RecordOf;
    var p', start := Step(p, v, lower), |p.records|;
    var recorded := (if v.Recorded? then [v] else []) + rest;
    if start < MAX_NODES && v.Recorded? {
      forall i | start <= i < |q.records| ensures NumberedAt(q, start, recorded, i, lower) {
        if i == start {
          assert q.records[start] == p'.records[start] && q.lines[start] == p'.lines[start];
        } else {
          assert NumberedAt(q, start + 1, rest, i, lower) && recorded[i - start] == rest[i - (start + 1)];
        }
      }
    } else if start < MAX_NODES {
      assert recorded == rest;
    }
  }

  lemma CutsOffFirst(start: nat, visits: seq<Visit>)
    requires visits != [] && start <= MAX_NODES
    ensures CutsOff(start, visits) <==>
      visits[0].TooDeep? || start >= MAX_NODES || CutsOff(start + (if visits[0].Recorded? then 1 else 0), visits[1..])
  {
    var next := start + (if visits[0].Recorded? then 1 else 0);
    forall k | 0 < k < |visits|
      ensures visits[k] == visits[1..][k - 1]
      ensures start + |RecordedOnly(visits[..k])| == next + |RecordedOnly(visits[1..][..k - 1])|
    {
      assert visits[..k][1..] == visits[1..][..k - 1];
    }
    assert visits[..0] == [];
    if visits[0].TooDeep? || start >= MAX_NODES {
      assert CutsOff(start, visits);
    } else if CutsOff(next, visits[1..]) {
      var k :| 0 <= k < |visits[1..]|
               && (visits[1..][k].TooDeep? || next + |RecordedOnly(visits[1..][..k])| >= MAX_NODES);
      assert visits[k + 1] == visits[1..][k];
      assert start + |RecordedOnly(visits[..k + 1])| == next + |RecordedOnly(visits[1..][..k])|;
    }
  }

  // ---------- The rendered tree ----------

  /** A record of the walk leads back to the very element it was made from. */
  lemma RecordsAreFound(app: Node, root: Node, rootPath: seq<nat>, lower: Lower, r: Record) returns (v: Visit)
    requires FindByPath(app, rootPath) == Some(root)
    requires MadeBy(r, Visits(root, 0, rootPath, lower))
    ensures v in Visits(root, 0, rootPath, lower) && v.Recorded? && r == RecordOf(v.node, r.index, v.path)
    ensures FoundElement(app, Some(r)) == Some(v.node)
  {
    hide Visits;
    v :| v in Visits(root, 0, rootPath, lower) && v.Recorded? && r == RecordOf(v.node, r.index, v.path);
    VisitsFollowPaths(root, 0, rootPath, lower, v);
    FindByPathJoined(app, rootPath, v.path[|rootPath|..]);
    assert rootPath + v.path[|rootPath|..] == v.path;
  }

  /** The element at `q` is a bare container, or it is recorded, or one above it is that stands for its subtree. */
  ghost predicate Accounted(root: Node, rootPath: seq<nat>, q: seq<nat>, records: seq<Record>, lower: Lower)
    requires FindByPath(root, q).Some?
  {
    || IsBareContainer(FindByPath(root, q).value, lower)
    || exists k :: 0 <= k <= |q| && RecordedAbove(root, rootPath, q, k, records, lower)
  }

  ghost predicate RecordedAbove(root: Node, rootPath: seq<nat>, q: seq<nat>, k: nat, records: seq<Record>, lower: Lower)
    requires k <= |q|
  {
    var node := FindByPath(root, q[..k]);
    && node.Some? && (k < |q| ==> StandsForSubtree(node.value, lower))
    && exists r :: r in records && r == RecordOf(node.value, r.index, rootPath + q[..k])
  }

  /** If nothing is truncated, every element is recorded, elided, or below a record that stands for its subtree. */
  lemma NothingMissing(root: Node, rootPath: seq<nat>, lower: Lower, q: seq<nat>)
    requires FindByPath(root, q).Some?
    requires var p := Process(NOTHING, Visits(root, 0, rootPath, lower), lower); !p.truncated
    ensures Accounted(root, rootPath, q, Process(NOTHING, Visits(root, 0, rootPath, lower), lower).records, lower)
  {
    hide Visits, StandsForSubtree, IsBareContainer, FindByPath, Process, LineOf, RecordOf;
    var visits := Visits(root, 0, rootPath, lower);
    var p := Process(NOTHING, visits, lower);
    ProcessMeans(NOTHING, visits, lower);
    var v, k := Covered(root, 0, rootPath, lower, q);
    assert q[..|q|] == q;
    if v.Recorded? {
      var recorded := RecordedOnly(visits);
      assert v in recorded;
      var i :| 0 <= i < |recorded| && recorded[i] == v;
      assert NumberedAt(p, 0, recorded, i, lower);
      RecordOfIs(v.node, i, v.path);
      assert p.records[i] in p.records;
      assert RecordedAbove(root, rootPath, q, k, p.records, lower);
    }
  }

  /** The element at `q` is to be shown. */
  ghost predicate IsShown(root: Node, q: seq<nat>, lower: Lower) {
    var found := FindByPath(root, q);
    && found.Some? && !IsBareContainer(found.value, lower)
    && IsReached(root, 0, q, lower) && ShownAbove(root, q, lower) <= 64
  }

  ghost predicate HasRecord(records: seq<Record>, path: seq<nat>) {
    exists r :: r in records && r.runtimeId == path
  }

  /** If nothing is truncated, exactly the elements to be shown have a record. */
  lemma ShownIff(root: Node, rootPath: seq<nat>, lower: Lower, q: seq<nat>)
    requires var p := Process(NOTHING, Visits(root, 0, rootPath, lower), lower); !p.truncated
    ensures IsShown(root, q, lower) <==>
              HasRecord(Process(NOTHING, Visits(root, 0, rootPath, lower), lower).records, rootPath + q)
  {
    hide Visits, IsReached, IsBareContainer, Process, LineOf, RecordOf, FindByPath;
    var visits := Visits(root, 0, rootPath, lower);
    var p, recorded := Process(NOTHING, visits, lower), RecordedOnly(visits);
    ProcessMeans(NOTHING, visits, lower);
    if IsShown(root, q, lower) {
      var v := ReachedAreVisited(root, 0, rootPath, lower, q);
      var i :| 0 <= i < |recorded| && recorded[i] == v;
      assert NumberedAt(p, 0, recorded, i, lower);
      RecordOfIs(v.node, i, v.path);
      assert p.records[i] in p.records;
    }
    if HasRecord(p.records, rootPath + q) {
      var i :| 0 <= i < |p.records| && p.records[i].runtimeId == rootPath + q;
      assert NumberedAt(p, 0, recorded, i, lower);
      var v := recorded[i];
      RecordOfIs(v.node, i, v.path);
      VisitsAreReached(root, 0, rootPath, lower, v);
      assert v.path[|rootPath|..] == q;
    }
  }

  lemma RecordOfIs(node: Node, index: nat, path: seq<nat>)
    ensures RecordOf(node, index, path).index == index && RecordOf(node, index, path).runtimeId == path
  {
  }

  // ---------- With compaction ----------

  /** The line and its record are those of one of the visits. */
  ghost predicate RowMadeBy(line: string, r: Record, visits: seq<Visit>, lower: Lower) {
    exists v :: v in visits && v.Recorded? && r == RecordOf(v.node, r.index, v.path)
             && line == LineOf(v.node, r.index, v.depth, lower)
  }

  ghost predicate RowsMadeBy(p: Progress, visits: seq<Visit>, lower: Lower) {
    && |p.rows| == |p.lines|
    && (forall k :: 0 <= k < |p.rows| && p.rows[k].Some? ==> RowMadeBy(p.lines[k], p.rows[k].value, visits, lower))
    && forall r :: r in p.gone ==> WentAsTab(r, visits, lower)
  }

  /** The record went with its line, a tab line that is not marked as selected. */
  ghost predicate WentAsTab(r: Record, visits: seq<Visit>, lower: Lower) {
    exists line, depth :: IsTabLine(line, depth) && !Contains(line, "(selected") && RowMadeBy(line, r, visits, lower)
  }

  /** Every record has its line; before the first compaction record k is that of line k; the first one does not
      clash; and without a clash every line but the markers has its record. */
  ghost predicate Sound(p: Progress) {
    && (forall r :: r in p.records ==> Some(r) in p.rows)
    && (p.compactions == 0 ==> Aligned(p))
    && (p.compactions <= 1 ==> !p.clashed)
    && (!p.clashed ==> Intact(p))
  }

  /** A record's line is taken for a tab line only at its own depth. */
  lemma LineShowsOnly(node: Node, index: nat, depth: nat, lower: Lower)
    ensures ShowsIndex(LineOf(node, index, depth, lower), index)
  {
    hide IsTabLine, RenderedIndex, LineOf;
    var line := LineOf(node, index, depth, lower);
    LineShowsIndex(node, index, depth, lower);
    LineIsIndented(node, index, depth, lower);
    IndexIsNoTab(line, depth);
    forall d | IsTabLine(line, d) ensures RenderedIndex(line, d) == Some(index) {
      TabLineIsIndented(line, d);
    }
  }

  lemma LineIsIndented(node: Node, index: nat, depth: nat, lower: Lower)
    ensures var line := LineOf(node, index, depth, lower);
            depth <= |line| && forall i :: 0 <= i < depth ==> line[i] == '\t'
  {
    hide FormattedValue, ExtraText, ActionText, Decimal, RStrip, Collapse;
  }

  lemma IndexIsNoTab(line: string, depth: nat)
    requires RenderedIndex(line, depth).Some?
    ensures depth < |line| && line[depth] != '\t'
  {
    assert depth <= |line| ==> forall i :: 0 <= i < |line[depth..]| ==> line[depth..][i] == line[depth + i];
  }

  lemma TabLineIsIndented(line: string, d: nat)
    requires IsTabLine(line, d)
    ensures d < |line| && line[d] != '\t' && forall i :: 0 <= i < d ==> line[i] == '\t'
  {
    hide RoleThenBreak;
    assert line[d] == line[d..][0];
    assert forall i :: 0 <= i < d ==> line[i] == Tabs(d)[i];
  }

  lemma RowsShowIndexes(p: Progress, visits: seq<Visit>, lower: Lower)
    requires RowsMadeBy(p, visits, lower)
    ensures RowsShow(p)
  {
    hide ShowsIndex, LineOf, RecordOf;
    forall k | 0 <= k < |p.rows| && p.rows[k].Some? ensures ShowsIndex(p.lines[k], p.rows[k].value.index) {
      var r := p.rows[k].value;
      var v :| v in visits && v.Recorded? && r == RecordOf(v.node, r.index, v.path)
             && p.lines[k] == LineOf(v.node, r.index, v.depth, lower);
      LineShowsOnly(v.node, r.index, v.depth, lower);
    }
  }

  lemma StepKeeps(p: Progress, v: Visit, visits: seq<Visit>, lower: Lower)
    requires RowsMadeBy(p, visits, lower) && Sound(p) && v in visits && v.Recorded? && |p.records| < MAX_NODES
    ensures RowsMadeBy(Step(p, v, lower), visits, lower) && Sound(Step(p, v, lower))
  {
    hide LineOf, RowMadeBy, Shown;
    var q, r := Step(p, v, lower), RecordOf(v.node, |p.records|, v.path);
    MadeByItself(v, |p.records|, visits, lower);
    ShownJoined(p.rows, [Some(r)]);
    ShownOne(Some(r));
    assert q.rows[|p.rows|] == Some(r);
  }

  lemma MadeByItself(v: Visit, index: nat, visits: seq<Visit>, lower: Lower)
    requires v in visits && v.Recorded?
    ensures RowMadeBy(LineOf(v.node, index, v.depth, lower), RecordOf(v.node, index, v.path), visits, lower)
  {
    hide LineOf;
  }

  lemma RowsAreKept(p: Progress, first: nat, drop: set<nat>, q: Progress, visits: seq<Visit>, lower: Lower)
    requires RowsMadeBy(p, visits, lower) && first <= |p.lines| && first <= |p.rows|
    requires q.rows == WithMarker(p.rows, first, drop, None)
    requires exists marker :: q.lines == WithMarker(p.lines, first, drop, marker)
    requires forall r :: r in q.gone ==> r in p.gone || WentAsTab(r, visits, lower)
    ensures RowsMadeBy(q, visits, lower)
  {
    hide RowMadeBy, Kept, WentAsTab;
    KeptPairs(p.lines, p.rows, first, drop);
    forall k | 0 <= k < |q.rows| && q.rows[k].Some? ensures RowMadeBy(q.lines[k], q.rows[k].value, visits, lower) {
      if k > first {
        var l :| first <= l < |p.lines| && Kept(p.lines, first, drop)[k - first - 1] == p.lines[l]
                 && Kept(p.rows, first, drop)[k - first - 1] == p.rows[l];
      }
    }
  }

  lemma TabsGo(p: Progress, start: nat, depth: nat, visits: seq<Visit>, lower: Lower, r: Record)
    requires RowsMadeBy(p, visits, lower) && start <= |p.lines| == |p.rows|
    requires r in Compaction(p, start, depth).gone - p.gone
    ensures WentAsTab(r, visits, lower)
  {
    hide RowMadeBy, Compaction, IsTabLine, Contains;
    var k := GoneWasTab(p, start, depth, r);
    assert RowMadeBy(p.lines[k], r, visits, lower);
  }

  lemma CompactionKeeps(p: Progress, start: nat, depth: nat, visits: seq<Visit>, lower: Lower)
    requires RowsMadeBy(p, visits, lower) && Sound(p) && start <= |p.lines| == |p.rows|
    ensures RowsMadeBy(Compaction(p, start, depth), visits, lower) && Sound(Compaction(p, start, depth))
  {
    hide RowMadeBy, Shown, Kept, RecordsWithout, Marker, OmittedIndexes, InactiveLines, FirstTab, RowsShow, Aligned;
    hide RowsMadeBy, WithMarker, Clash, WentAsTab, RowsAt;
    if MustCompact(p.lines, start, depth, p.records) {
      var drop, first := InactiveLines(p.lines, start, depth, p.records), FirstTab(p.lines, start, depth);
      var q := Compaction(p, start, depth);
      forall r | r in q.gone - p.gone ensures WentAsTab(r, visits, lower) {
        TabsGo(p, start, depth, visits, lower, r);
      }
      RowsAreKept(p, first, drop, q, visits, lower);
      RowsShowIndexes(p, visits, lower);
      forall r | r in q.records ensures Some(r) in q.rows {
        RecordKeepsLine(p, start, depth, r);
      }
      if p.compactions == 0 {
        FirstCompaction(p, start, depth);
      }
      if !p.clashed {
        CompactionIntactIff(p, start, depth);
      }
    }
  }

  /** Whatever is compacted on the way: every line is that of a visit or a marker, every record has its line,
      and only a compaction with a clash, not the first, can take a record whose line stays. */
  lemma {:induction false} RenderedKeeps(p: Progress, node: Node, depth: nat, path: seq<nat>,
                                         compact: bool, lower: Lower,
                                         visits: seq<Visit>)
    requires RowsMadeBy(p, visits, lower) && Sound(p)
    requires forall v :: v in Visits(node, depth, path, lower) ==> v in visits
    ensures var q := Rendered(p, node, depth, path, compact, lower);
            RowsMadeBy(q, visits, lower) && Sound(q)
    decreases node, |node.children| + 1
  {
    hide Visits, ChildVisits, LineOf, RecordOf, ShouldElide, EndsAt, Compaction, Sound, RowMadeBy;
    OwnVisits(node, depth, path, lower);
    if |p.records| >= MAX_NODES || depth > MAX_DEPTH {
      FlagKeeps(p, Rendered(p, node, depth, path, compact, lower), visits, lower);
    } else if ShouldElide(node, lower) {
      RenderedChildrenKeep(p, node, 0, depth, path, compact, lower, visits);
    } else {
      var p' := Step(p, Recorded(node, depth, path), lower);
      StepKeeps(p, Recorded(node, depth, path), visits, lower);
      if !EndsAt(node, lower) {
        var q := RenderedChildren(p', node, 0, depth + 1, path, compact, lower);
        RenderedChildrenKeep(p', node, 0, depth + 1, path, compact, lower, visits);
        CompactionKeeps(q, |p'.lines|, depth + 1, visits, lower);
      }
    }
  }

  lemma FlagKeeps(p: Progress, q: Progress, visits: seq<Visit>, lower: Lower)
    requires RowsMadeBy(p, visits, lower) && Sound(p)
    requires q == p.(truncated := q.truncated, maxDepthReached := q.maxDepthReached)
    ensures RowsMadeBy(q, visits, lower) && Sound(q)
  {
    hide RowMadeBy;
  }

  lemma {:induction false} RenderedChildrenKeep(p: Progress, node: Node, i: nat, depth: nat,
                                                path: seq<nat>, compact: bool,
                                                lower: Lower, visits: seq<Visit>)
    requires i <= |node.children| && RowsMadeBy(p, visits, lower) && Sound(p)
    requires forall v :: v in ChildVisits(node, i, depth, path, lower) ==> v in visits
    ensures var q := RenderedChildren(p, node, i, depth, path, compact, lower);
            RowsMadeBy(q, visits, lower) && Sound(q)
    decreases node, |node.children| - i
  {
    hide Visits, ChildVisits, Rendered, Sound, RowMadeBy;
    if i < |node.children| {
      ChildVisitsFrom(node, i, depth, path, lower);
      if node.children[i].Some? {
        var child := node.children[i].value;
        RenderedKeeps(p, child, depth, path + [i], compact, lower, visits);
        RenderedChildrenKeep(Rendered(p, child, depth, path + [i], compact, lower), node, i + 1, depth, path, compact,
                             lower, visits);
      } else {
        RenderedChildrenKeep(p, node, i + 1, depth, path, compact, lower, visits);
      }
    }
  }

  lemma SoundRecordsAreMade(p: Progress, visits: seq<Visit>, lower: Lower, r: Record)
    requires RowsMadeBy(p, visits, lower) && Sound(p) && r in p.records
    ensures MadeBy(r, visits)
  {
    hide LineOf;
    var k :| 0 <= k < |p.rows| && p.rows[k] == Some(r);
    assert RowMadeBy(p.lines[k], r, visits, lower);
  }

  // ---------- What becomes of the visits ----------

  lemma {:induction false} RecordedJoined(a: seq<Visit>, b: seq<Visit>)
    ensures RecordedOnly(a + b) == RecordedOnly(a) + RecordedOnly(b)
  {
    if a == [] {
      assert a + b == b;
    } else {
      assert (a + b)[0] == a[0] && (a + b)[1..] == a[1..] + b;
      RecordedJoined(a[1..], b);
    }
  }

  lemma TooDeepJoined(a: seq<Visit>, b: seq<Visit>)
    ensures SawTooDeep(a + b) <==> SawTooDeep(a) || SawTooDeep(b)
  {
    assert forall v :: v in a + b <==> v in a || v in b;
  }

  lemma TooDeepFirst(a: seq<Visit>)
    requires a != []
    ensures SawTooDeep(a) <==> a[0].TooDeep? || SawTooDeep(a[1..])
  {
    assert a == [a[0]] + a[1..];
  }

  lemma VisitsFirst(node: Node, depth: nat, path: seq<nat>, lower: Lower)
    ensures var visits := Visits(node, depth, path, lower);
            var rest := if depth > MAX_DEPTH then []
                        else if ShouldElide(node, lower) then ChildVisits(node, 0, depth, path, lower)
                        else if EndsAt(node, lower) then [] else ChildVisits(node, 0, depth + 1, path, lower);
            && visits == [OwnVisit(node, depth, path, lower)] + rest
            && RecordedOnly(visits) ==
                 (if OwnVisit(node, depth, path, lower).Recorded? then [OwnVisit(node, depth, path, lower)] else [])
                 + RecordedOnly(rest)
            && (SawTooDeep(visits) <==> depth > MAX_DEPTH || SawTooDeep(rest))
  {
    hide ShouldElide, EndsAt, ChildVisits;
    TooDeepFirst(Visits(node, depth, path, lower));
  }

  /** The depth flag and the cap: the flag is only set for a visit too deep, and the records are no more than
      the visits that are to be recorded nor than the cap. If all of these fit, nothing but a visit too deep
      sets the flags. */
  ghost predicate Flagged(p: Progress, q: Progress, visits: seq<Visit>) {
    && |q.records| <= |p.records| + |RecordedOnly(visits)| && (|p.records| <= MAX_NODES ==> |q.records| <= MAX_NODES)
    && (q.maxDepthReached ==> p.maxDepthReached || SawTooDeep(visits))
    && (|p.records| + |RecordedOnly(visits)| < MAX_NODES ==>
          && (q.maxDepthReached <==> p.maxDepthReached || SawTooDeep(visits))
          && (q.truncated <==> p.truncated || SawTooDeep(visits)))
  }

  lemma {:induction false} RenderedFlags(p: Progress, node: Node, depth: nat, path: seq<nat>,
                                         compact: bool, lower: Lower)
    requires |p.rows| == |p.lines|
    ensures Flagged(p, Rendered(p, node, depth, path, compact, lower), Visits(node, depth, path, lower))
    decreases node, |node.children| + 1
  {
    hide Visits, ChildVisits, LineOf, RecordOf, ShouldElide, EndsAt, Compaction, RecordedOnly, SawTooDeep;
    VisitsFirst(node, depth, path, lower);
    NoneTooDeep();
    if |p.records| < MAX_NODES && depth <= MAX_DEPTH {
      if ShouldElide(node, lower) {
        ChildFlags(p, node, 0, depth, path, compact, lower);
      } else if !EndsAt(node, lower) {
        ChildFlags(Step(p, Recorded(node, depth, path), lower), node, 0, depth + 1, path, compact, lower);
      }
    }
  }

  lemma NoneTooDeep()
    ensures !SawTooDeep([]) && RecordedOnly([]) == []
  {
  }

  lemma {:induction false} ChildFlags(p: Progress, node: Node, i: nat, depth: nat, path: seq<nat>, compact: bool,
                                      lower: Lower)
    requires i <= |node.children| && |p.rows| == |p.lines|
    ensures Flagged(p, RenderedChildren(p, node, i, depth, path, compact, lower),
                    ChildVisits(node, i, depth, path, lower))
    decreases node, |node.children| - i
  {
    hide Visits, ChildVisits, Rendered, RecordedOnly, SawTooDeep;
    NoneTooDeep();
    if i == |node.children| {
      NoChildVisits(node, depth, path, lower);
    } else {
      ChildVisitsFrom(node, i, depth, path, lower);
      var rest := ChildVisits(node, i + 1, depth, path, lower);
      if node.children[i].Some? {
        var child := node.children[i].value;
        RecordedJoined(Visits(child, depth, path + [i], lower), rest);
        TooDeepJoined(Visits(child, depth, path + [i], lower), rest);
        RenderedFlags(p, child, depth, path + [i], compact, lower);
        ChildFlags(Rendered(p, child, depth, path + [i], compact, lower), node, i + 1, depth, path, compact, lower);
      } else {
        assert [] + rest == rest;
        ChildFlags(p, node, i + 1, depth, path, compact, lower);
      }
    }
  }

  /** The record has its line, or it went with it. */
  ghost predicate IsKeptOrGone(p: Progress, r: Record) {
    Some(r) in p.rows || r in p.gone
  }

  ghost predicate HasRow(p: Progress, v: Visit) {
    exists r :: IsKeptOrGone(p, r) && r == RecordOf(v.node, r.index, v.path)
  }

  /** Nothing that had its line is lost without it, and unless truncated every visit to be recorded was. */
  ghost predicate Complete(p: Progress, q: Progress, visits: seq<Visit>) {
    && (forall r :: IsKeptOrGone(p, r) ==> IsKeptOrGone(q, r))
    && (p.truncated ==> q.truncated)
    && (!q.truncated ==> forall v :: v in visits ==> !v.TooDeep? && (v.Recorded? ==> HasRow(q, v)))
  }

  lemma CompleteJoined(p: Progress, q: Progress, r: Progress, a: seq<Visit>, b: seq<Visit>)
    requires Complete(p, q, a) && Complete(q, r, b)
    ensures Complete(p, r, a + b)
  {
    hide IsKeptOrGone;
  }

  lemma {:induction false} RenderedComplete(p: Progress, node: Node, depth: nat, path: seq<nat>,
                                            compact: bool, lower: Lower)
    requires |p.rows| == |p.lines|
    ensures Complete(p, Rendered(p, node, depth, path, compact, lower), Visits(node, depth, path, lower))
    decreases node, |node.children| + 1
  {
    hide Visits, ChildVisits, LineOf, RecordOf, ShouldElide, EndsAt, Compaction, Complete, IsKeptOrGone, RecordedOnly;
    VisitsFirst(node, depth, path, lower);
    var visits := Visits(node, depth, path, lower);
    if |p.records| >= MAX_NODES || depth > MAX_DEPTH {
      FlagCompletes(p, Rendered(p, node, depth, path, compact, lower), visits);
    } else if ShouldElide(node, lower) {
      FlagCompletes(p, p, [Elided(node, path)]);
      ChildrenComplete(p, node, 0, depth, path, compact, lower);
      CompleteJoined(p, p, RenderedChildren(p, node, 0, depth, path, compact, lower), [Elided(node, path)],
                     ChildVisits(node, 0, depth, path, lower));
    } else {
      var own := Recorded(node, depth, path);
      var p' := Step(p, own, lower);
      StepCompletes(p, own, lower);
      if EndsAt(node, lower) {
        assert [own] + [] == [own];
      } else {
        var q := RenderedChildren(p', node, 0, depth + 1, path, compact, lower);
        ChildrenComplete(p', node, 0, depth + 1, path, compact, lower);
        CompleteJoined(p, p', q, [own], ChildVisits(node, 0, depth + 1, path, lower));
        CompactionCompletes(q, |p'.lines|, depth + 1);
        CompleteJoined(p, q, Compaction(q, |p'.lines|, depth + 1), visits, []);
        assert visits + [] == visits;
      }
    }
  }

  lemma FlagCompletes(p: Progress, q: Progress, visits: seq<Visit>)
    requires q.rows == p.rows && q.gone == p.gone && (p.truncated ==> q.truncated)
    requires !q.truncated ==> forall v :: v in visits ==> v.Elided?
    ensures Complete(p, q, visits)
  {
  }

  lemma StepCompletes(p: Progress, v: Visit, lower: Lower)
    requires v.Recorded? && |p.records| < MAX_NODES
    ensures Complete(p, Step(p, v, lower), [v])
  {
    hide LineOf;
    var q, r := Step(p, v, lower), RecordOf(v.node, |p.records|, v.path);
    assert q.rows[|p.rows|] == Some(r);
    assert IsKeptOrGone(q, r);
    RecordOfIs(v.node, |p.records|, v.path);
  }

  lemma CompactionCompletes(p: Progress, start: nat, depth: nat)
    requires start <= |p.lines| == |p.rows|
    ensures Complete(p, Compaction(p, start, depth), [])
  {
    hide Compaction;
    forall r | IsKeptOrGone(p, r) ensures IsKeptOrGone(Compaction(p, start, depth), r) {
      if Some(r) in p.rows {
        RowKeptOrGone(p, start, depth, r);
      }
    }
  }

  lemma {:induction false} ChildrenComplete(p: Progress, node: Node, i: nat, depth: nat, path: seq<nat>, compact: bool,
                                            lower: Lower)
    requires i <= |node.children| && |p.rows| == |p.lines|
    ensures Complete(p, RenderedChildren(p, node, i, depth, path, compact, lower),
                     ChildVisits(node, i, depth, path, lower))
    decreases node, |node.children| - i
  {
    hide Visits, ChildVisits, Rendered, Complete;
    if i == |node.children| {
      NoChildVisits(node, depth, path, lower);
      FlagCompletes(p, p, []);
    } else {
      ChildVisitsFrom(node, i, depth, path, lower);
      var rest := ChildVisits(node, i + 1, depth, path, lower);
      if node.children[i].Some? {
        var child := node.children[i].value;
        var p' := Rendered(p, child, depth, path + [i], compact, lower);
        RenderedComplete(p, child, depth, path + [i], compact, lower);
        ChildrenComplete(p', node, i + 1, depth, path, compact, lower);
        CompleteJoined(p, p', RenderedChildren(p', node, i + 1, depth, path, compact, lower),
                       Visits(child, depth, path + [i], lower), rest);
      } else {
        assert [] + rest == rest;
        ChildrenComplete(p, node, i + 1, depth, path, compact, lower);
      }
    }
  }

  // ---------- Document order ----------

  /** In preorder: a path comes before those below it and those further right. */
  predicate Precedes(a: seq<nat>, b: seq<nat>) {
    b != [] && (a == [] || a[0] < b[0] || (a[0] == b[0] && Precedes(a[1..], b[1..])))
  }

  /** Of two paths exactly one comes before the other, unless they are the same. */
  lemma {:induction false} PrecedesOneWay(a: seq<nat>, b: seq<nat>)
    ensures a != b <==> Precedes(a, b) || Precedes(b, a)
    ensures !(Precedes(a, b) && Precedes(b, a))
    decreases |a|
  {
    if a != [] && b != [] {
      PrecedesOneWay(a[1..], b[1..]);
      assert a == [a[0]] + a[1..] && b == [b[0]] + b[1..];
    }
  }

  lemma {:induction false} PrecedesBelow(a: seq<nat>, b: seq<nat>, c: seq<nat>)
    requires b <= c
    ensures Precedes(a, b) ==> Precedes(a, c)
    ensures b < c ==> Precedes(b, c)
    decreases |b|
  {
    if b != [] {
      assert b[1..] <= c[1..];
      PrecedesBelow(if a == [] then [] else a[1..], b[1..], c[1..]);
    }
  }

  /** What comes before a child or lies below it comes before the next one. */
  lemma {:induction false} PrecedesNext(a: seq<nat>, path: seq<nat>, i: nat)
    ensures Precedes(a, path + [i]) || path + [i] <= a ==> Precedes(a, path + [i + 1])
    decreases |path|
  {
    if path == [] {
      assert path + [i] == [i] && path + [i + 1] == [i + 1];
    } else if a != [] {
      assert (path + [i])[1..] == path[1..] + [i] && (path + [i + 1])[1..] == path[1..] + [i + 1];
      PrecedesNext(a[1..], path[1..], i);
    }
  }

  ghost predicate Ordered(rows: seq<Option<Record>>) {
    forall k, l :: 0 <= k < l < |rows| && rows[k].Some? && rows[l].Some? ==>
      Precedes(rows[k].value.runtimeId, rows[l].value.runtimeId)
  }

  ghost predicate AllPrecede(rows: seq<Option<Record>>, path: seq<nat>) {
    forall k :: 0 <= k < |rows| && rows[k].Some? ==> Precedes(rows[k].value.runtimeId, path)
  }

  ghost predicate AllUpTo(rows: seq<Option<Record>>, path: seq<nat>) {
    forall k :: 0 <= k < |rows| && rows[k].Some? ==>
      Precedes(rows[k].value.runtimeId, path) || path <= rows[k].value.runtimeId
  }

  lemma {:induction false} KeptOrdered(rows: seq<Option<Record>>, i: nat, drop: set<nat>)
    requires i <= |rows| && Ordered(rows)
    ensures Ordered(Kept(rows, i, drop))
    ensures forall row :: row in Kept(rows, i, drop) ==> exists l :: i <= l < |rows| && rows[l] == row
    decreases |rows| - i
  {
    hide Kept, Precedes;
    if i < |rows| {
      KeptFrom(rows, i, drop);
      KeptOrdered(rows, i + 1, drop);
      var rest := Kept(rows, i + 1, drop);
      forall k | 0 <= k < |rest| ensures exists l :: i < l < |rows| && rows[l] == rest[k] {
        assert rest[k] in rest;
      }
    } else {
      KeptAll(rows, i, {});
      KeptSame(rows, i, drop, {});
    }
  }

  lemma CompactionOrdered(p: Progress, start: nat, depth: nat, path: seq<nat>)
    requires start <= |p.lines| == |p.rows| && Ordered(p.rows) && AllUpTo(p.rows, path)
    ensures Ordered(Compaction(p, start, depth).rows) && AllUpTo(Compaction(p, start, depth).rows, path)
  {
    hide MustCompact, InactiveLines, FirstTab, Kept, RecordsWithout, Marker, OmittedIndexes, Clash, RowsAt, Precedes;
    if MustCompact(p.lines, start, depth, p.records) {
      var drop, first := InactiveLines(p.lines, start, depth, p.records), FirstTab(p.lines, start, depth);
      KeptOrdered(p.rows, first, drop);
      var rest := Kept(p.rows, first, drop);
      forall k | 0 <= k < |rest| ensures exists l :: first <= l < |p.rows| && p.rows[l] == rest[k] {
        assert rest[k] in rest;
      }
      assert Compaction(p, start, depth).rows == p.rows[..first] + [None] + rest;
    }
  }

  /** The lines that are left stand in the order of the tree. */
  lemma {:induction false} RenderedOrdered(p: Progress, node: Node, depth: nat, path: seq<nat>,
                                           compact: bool, lower: Lower)
    requires |p.rows| == |p.lines| && Ordered(p.rows) && AllPrecede(p.rows, path)
    ensures var q := Rendered(p, node, depth, path, compact, lower); Ordered(q.rows) && AllUpTo(q.rows, path)
    decreases node, |node.children| + 1
  {
    hide LineOf, ShouldElide, EndsAt, Compaction, Precedes;
    if |p.records| < MAX_NODES && depth <= MAX_DEPTH {
      if ShouldElide(node, lower) {
        PrecedesFirst(p.rows, path);
        ChildrenOrdered(p, node, 0, depth, path, compact, lower);
      } else {
        var p' := Step(p, Recorded(node, depth, path), lower);
        assert p'.rows == p.rows + [Some(RecordOf(node, |p.records|, path))];
        if !EndsAt(node, lower) {
          PrecedesFirst(p'.rows, path);
          ChildrenOrdered(p', node, 0, depth + 1, path, compact, lower);
          var q := RenderedChildren(p', node, 0, depth + 1, path, compact, lower);
          CompactionOrdered(q, |p'.lines|, depth + 1, path);
        }
      }
    }
  }

  lemma PrecedesFirst(rows: seq<Option<Record>>, path: seq<nat>)
    requires forall k :: 0 <= k < |rows| && rows[k].Some? ==>
               Precedes(rows[k].value.runtimeId, path) || rows[k].value.runtimeId == path
    ensures AllPrecede(rows, path + [0]) && AllUpTo(rows, path)
  {
    hide Precedes;
    forall k | 0 <= k < |rows| && rows[k].Some? ensures Precedes(rows[k].value.runtimeId, path + [0]) {
      PrecedesBelow(rows[k].value.runtimeId, path, path + [0]);
    }
  }

  lemma {:induction false} ChildrenOrdered(p: Progress, node: Node, i: nat, depth: nat, path: seq<nat>, compact: bool,
                                           lower: Lower)
    requires i <= |node.children| && |p.rows| == |p.lines|
    requires Ordered(p.rows) && AllPrecede(p.rows, path + [i]) && AllUpTo(p.rows, path)
    ensures var q := RenderedChildren(p, node, i, depth, path, compact, lower); Ordered(q.rows) && AllUpTo(q.rows, path)
    decreases node, |node.children| - i
  {
    hide Rendered, Precedes, Ordered;
    if i < |node.children| {
      var p' := p;
      if node.children[i].Some? {
        p' := Rendered(p, node.children[i].value, depth, path + [i], compact, lower);
        RenderedOrdered(p, node.children[i].value, depth, path + [i], compact, lower);
      }
      NextChild(p'.rows, path, i);
      ChildrenOrdered(p', node, i + 1, depth, path, compact, lower);
    }
  }

  lemma NextChild(rows: seq<Option<Record>>, path: seq<nat>, i: nat)
    requires AllUpTo(rows, path + [i])
    ensures AllPrecede(rows, path + [i + 1]) && AllUpTo(rows, path)
  {
    hide Precedes;
    forall k | 0 <= k < |rows| && rows[k].Some?
      ensures var id := rows[k].value.runtimeId; Precedes(id, path + [i + 1]) && (Precedes(id, path) || path <= id)
    {
      PrecedesNext(rows[k].value.runtimeId, path, i);
      BeforeChild(rows[k].value.runtimeId, path, i);
    }
  }

  lemma {:induction false} BeforeChild(a: seq<nat>, path: seq<nat>, i: nat)
    ensures Precedes(a, path + [i]) || path + [i] <= a ==> Precedes(a, path) || path <= a
    decreases |path|
  {
    if path != [] && a != [] {
      assert (path + [i])[1..] == path[1..] + [i];
      BeforeChild(a[1..], path[1..], i);
      assert path[0] == a[0] && path[1..] <= a[1..] ==> path <= a;
    }
  }

  method RenderAccessibilityTree(root: Node, rootPath: seq<nat>, compact: bool, lower: Lower) returns (out: Rendering)
    ensures fresh(out) && out.State() == Rendered(NOTHING, root, 0, rootPath, compact, lower)
    ensures |out.records| <= 1200 && Ordered(out.rows)
    // every record leads back to the element it was made from, whatever was compacted
    ensures forall app, r :: FindByPath(app, rootPath) == Some(root) && r in out.records ==>
              exists v :: v in Visits(root, 0, rootPath, lower) && v.Recorded? && r == RecordOf(v.node, r.index, v.path)
                          && FoundElement(app, Some(r)) == Some(v.node)
                          && r.runtimeId == v.path && r.value == v.node.value && r.isSelected == v.node.isSelected
    // every line is that of a visit or a marker, and what went with its line was a tab that was not selected; every
    // record has its line, and unless some compaction but the first clashed, each line but a marker has its record
    ensures RowsMadeBy(out.State(), Visits(root, 0, rootPath, lower), lower) && Sound(out.State())
    // unless truncated, each element to be shown has its line or went as such a tab
    ensures !out.truncated ==> forall v :: v in Visits(root, 0, rootPath, lower) ==>
              !v.TooDeep? && (v.Recorded? ==> HasRow(out.State(), v))
    // where nothing was compacted: the first 1200 elements that are shown, numbered in order, each with its line
    ensures !compact ==> out.compactions == 0
    ensures out.compactions == 0 ==>
              var recorded := RecordedOnly(Visits(root, 0, rootPath, lower));
              && Numbered(out.State(), 0, recorded, lower)
              && |out.records| == (if |recorded| <= 1200 then |recorded| else 1200)
              && (out.truncated <==> CutsOff(0, Visits(root, 0, rootPath, lower)))
    // and if nothing was truncated, exactly the elements to be shown have a record
    ensures out.compactions == 0 && !out.truncated ==>
              forall q :: IsShown(root, q, lower) <==> HasRecord(out.records, rootPath + q)
    // so every element has one, is a bare container or lies below a record that stands for it
    ensures out.compactions == 0 && !out.truncated ==>
              forall q :: FindByPath(root, q).Some? ==> Accounted(root, rootPath, q, out.records, lower)
    // the depth flag tells of an element too deep; if less than 1200 are to be shown, both flags mean just that
    ensures out.maxDepthReached ==> SawTooDeep(Visits(root, 0, rootPath, lower))
    ensures |RecordedOnly(Visits(root, 0, rootPath, lower))| < 1200 ==>
              (out.maxDepthReached <==> SawTooDeep(Visits(root, 0, rootPath, lower)))
              && (out.truncated <==> out.maxDepthReached)
  {
    hide Visits, Process, Rendered, FoundElement, FindByPath, LineOf, RowsMadeBy, Sound, Accounted, MadeBy, Numbered;
    hide CutsOff, Ordered, HasRow, RecordedOnly, SawTooDeep, IsShown, HasRecord;
    out := new Rendering();
    ghost var visits := Visits(root, 0, rootPath, lower);
    Walk(out, root, 0, rootPath, compact, lower);
    NothingIsSound(visits, lower);
    RenderedKeeps(NOTHING, root, 0, rootPath, compact, lower, visits);
    RenderedIsProcess(NOTHING, root, 0, rootPath, compact, lower);
    RenderedFlags(NOTHING, root, 0, rootPath, compact, lower);
    RenderedComplete(NOTHING, root, 0, rootPath, compact, lower);
    NothingIsOrdered(rootPath);
    RenderedOrdered(NOTHING, root, 0, rootPath, compact, lower);
    ProcessMeans(NOTHING, visits, lower);
    if out.compactions == 0 {
      NumberedIgnoresDepth(Process(NOTHING, visits, lower), out.State(), RecordedOnly(visits), lower);
    }
    forall app, r | FindByPath(app, rootPath) == Some(root) && r in out.records
      ensures exists v :: v in visits && v.Recorded? && r == RecordOf(v.node, r.index, v.path)
                          && FoundElement(app, Some(r)) == Some(v.node)
    {
      SoundRecordsAreMade(out.State(), visits, lower, r);
      var v := RecordsAreFound(app, root, rootPath, lower, r);
    }
    if out.compactions == 0 && !out.truncated {
      forall q ensures IsShown(root, q, lower) <==> HasRecord(out.records, rootPath + q) {
        ShownIff(root, rootPath, lower, q);
      }
      forall q | FindByPath(root, q).Some? ensures Accounted(root, rootPath, q, out.records, lower) {
        NothingMissing(root, rootPath, lower, q);
      }
    }
  }

  lemma NumberedIgnoresDepth(p: Progress, q: Progress, recorded: seq<Visit>, lower: Lower)
    requires Numbered(p, 0, recorded, lower) && p.records == q.records && p.lines == q.lines
    ensures Numbered(q, 0, recorded, lower)
  {
    hide LineOf, RecordOf;
    forall i | 0 <= i < |q.records| ensures NumberedAt(q, 0, recorded, i, lower) {
      assert NumberedAt(p, 0, recorded, i, lower);
    }
  }

  lemma NothingIsSound(visits: seq<Visit>, lower: Lower)
    ensures RowsMadeBy(NOTHING, visits, lower) && Sound(NOTHING)
  {
  }

  lemma NothingIsOrdered(path: seq<nat>)
    ensures Ordered(NOTHING.rows) && AllPrecede(NOTHING.rows, path)
  {
  }
}
