/**
  The edit distance behind typo recovery: edit scripts say what it should be, a recursion says what it
  is, and the two-row loop computes it.
 */
module EditDistance {

  // ---------- What the distance should be: the least length of an edit script ----------

  datatype Edit<T> = Insert(at: nat, x: T) | Delete(at: nat) | Substitute(at: nat, x: T)

  predicate Fits<T>(s: seq<T>, e: Edit<T>) {
    if e.Insert? then e.at <= |s| else e.at < |s|
  }

  function Apply<T>(s: seq<T>, e: Edit<T>): seq<T>
    requires Fits(s, e)
  {
    match e
    case Insert(at, x) => s[..at] + [x] + s[at..]
    case Delete(at) => s[..at] + s[at + 1..]
    case Substitute(at, x) => s[at := x]
  }

  /** The script turns `a` into `b`. */
  predicate Leads<T(==)>(a: seq<T>, script: seq<Edit<T>>, b: seq<T>)
    decreases |script|
  {
    if script == [] then a == b
    else Fits(a, script[0]) && Leads(Apply(a, script[0]), script[1..], b)
  }

  // ---------- What it is ----------

  function Min(x: nat, y: nat): nat {
    if x <= y then x else y
  }

  function Cost<T(==)>(x: T, y: T): nat {
    if x == y then 0 else 1
  }

  function Distance<T(==)>(a: seq<T>, b: seq<T>): nat
    decreases |a| + |b|
  {
    if a == [] then |b|
    else if b == [] then |a|
    else
      var a', b' := a[..|a| - 1], b[..|b| - 1];
      Min(Min(Distance(a', b) + 1, Distance(a, b') + 1), Distance(a', b') + Cost(a[|a| - 1], b[|b| - 1]))
  }

  lemma DistanceUnfold<T>(a: seq<T>, b: seq<T>)
    requires a != [] && b != []
    ensures var a', b' := a[..|a| - 1], b[..|b| - 1];
            Distance(a, b) ==
              Min(Min(Distance(a', b) + 1, Distance(a, b') + 1), Distance(a', b') + Cost(a[|a| - 1], b[|b| - 1]))
  {
    hide Min, Cost;
  }

  /** Dropping the last element of either side changes the distance by at most one. */
  lemma {:induction false} DropLast<T>(a: seq<T>, b: seq<T>)
    requires a != []
    ensures Distance(a, b) <= Distance(a[..|a| - 1], b) + 1
    ensures Distance(a[..|a| - 1], b) <= Distance(a, b) + 1
    decreases |a| + |b|
  {
    hide Distance;
    var a' := a[..|a| - 1];
    if b == [] {
      DistanceToEmpty(a);
      DistanceToEmpty(a');
    } else {
      var b' := b[..|b| - 1];
      DistanceUnfold(a, b);
      DropLast(a, b');
      if a' == [] {
        DistanceFromEmpty(b);
        DistanceFromEmpty(b');
      } else {
        DistanceUnfold(a', b);
      }
    }
  }

  lemma DistanceToEmpty<T>(a: seq<T>)
    ensures Distance(a, []) == |a|
  {
  }

  lemma DistanceFromEmpty<T>(b: seq<T>)
    ensures Distance([], b) == |b|
  {
  }

  // ---------- No script is shorter ----------

  /** An edit away from the last element leaves it in place. */
  lemma EditBeforeLast<T>(a: seq<T>, e: Edit<T>)
    requires a != [] && Fits(a[..|a| - 1], e)
    ensures Fits(a, e) && Apply(a, e) == Apply(a[..|a| - 1], e) + [a[|a| - 1]]
  {
    var a' := a[..|a| - 1];
    assert a == a' + [a[|a| - 1]];
  }

  /** One edit changes the distance by at most one. */
  lemma {:induction false} EditChangesByOne<T>(a: seq<T>, e: Edit<T>, b: seq<T>)
    requires Fits(a, e)
    ensures Distance(a, b) <= Distance(Apply(a, e), b) + 1
    decreases |a| + |b|
  {
    hide Distance;
    var c := Apply(a, e);
    if a != [] && Fits(a[..|a| - 1], e) {
      KeptLastChangesByOne(a, e, b);
    } else if e.Delete? {
      assert c == a[..|a| - 1];
      DropLast(a, b);
    } else if e.Insert? {
      assert c[..|c| - 1] == a;
      DropLast(c, b);
    } else {
      assert c[..|c| - 1] == a[..|a| - 1];
      SubstituteLastChangesByOne(a, c, b);
    }
  }

  lemma {:induction false} KeptLastChangesByOne<T>(a: seq<T>, e: Edit<T>, b: seq<T>)
    requires a != [] && Fits(a[..|a| - 1], e)
    ensures Fits(a, e) && Distance(a, b) <= Distance(Apply(a, e), b) + 1
    decreases |a| + |b|, 0
  {
    hide Distance;
    var a', last := a[..|a| - 1], a[|a| - 1];
    EditBeforeLast(a, e);
    var c := Apply(a, e);
    assert c[..|c| - 1] == Apply(a', e);
    if b == [] {
      DistanceToEmpty(a);
      DistanceToEmpty(c);
    } else {
      var b' := b[..|b| - 1];
      DistanceUnfold(a, b);
      DistanceUnfold(c, b);
      EditChangesByOne(a', e, b);
      KeptLastChangesByOne(a, e, b');
      EditChangesByOne(a', e, b');
    }
  }

  lemma {:induction false} SubstituteLastChangesByOne<T>(a: seq<T>, c: seq<T>, b: seq<T>)
    requires |a| == |c| > 0 && a[..|a| - 1] == c[..|c| - 1]
    ensures Distance(a, b) <= Distance(c, b) + 1
    decreases |b|
  {
    hide Distance;
    if b == [] {
      DistanceToEmpty(a);
      DistanceToEmpty(c);
    } else {
      DistanceUnfold(a, b);
      DistanceUnfold(c, b);
      SubstituteLastChangesByOne(a, c, b[..|b| - 1]);
    }
  }

  lemma {:induction false} DistanceZero<T>(a: seq<T>)
    ensures Distance(a, a) == 0
  {
    if a != [] {
      DistanceZero(a[..|a| - 1]);
    }
  }

  lemma {:induction false} NoScriptIsShorter<T>(a: seq<T>, script: seq<Edit<T>>, b: seq<T>)
    requires Leads(a, script, b)
    ensures Distance(a, b) <= |script|
    decreases |script|
  {
    if script == [] {
      DistanceZero(a);
    } else {
      NoScriptIsShorter(Apply(a, script[0]), script[1..], b);
      EditChangesByOne(a, script[0], b);
    }
  }

  // ---------- Some script is as short ----------

  lemma {:induction false} LeadsAppend<T>(a: seq<T>, s: seq<Edit<T>>, b: seq<T>, t: seq<Edit<T>>, c: seq<T>)
    requires Leads(a, s, b) && Leads(b, t, c)
    ensures Leads(a, s + t, c)
    decreases |s|
  {
    if s == [] {
      assert s + t == t;
    } else {
      assert (s + t)[0] == s[0] && (s + t)[1..] == s[1..] + t;
      LeadsAppend(Apply(a, s[0]), s[1..], b, t, c);
    }
  }

  /** A script works the same in front of one more element. */
  lemma {:induction false} LeadsBeforeLast<T>(a: seq<T>, s: seq<Edit<T>>, b: seq<T>, x: T)
    requires Leads(a, s, b)
    ensures Leads(a + [x], s, b + [x])
    decreases |s|
  {
    if s != [] {
      var ax := a + [x];
      assert ax[..|ax| - 1] == a;
      EditBeforeLast(ax, s[0]);
      LeadsBeforeLast(Apply(a, s[0]), s[1..], b, x);
    }
  }

  lemma LeadsByOne<T>(a: seq<T>, e: Edit<T>, b: seq<T>)
    requires Fits(a, e) && Apply(a, e) == b
    ensures Leads(a, [e], b)
  {
    assert [e][1..] == [];
  }

  lemma {:induction false} ShortestScript<T>(a: seq<T>, b: seq<T>) returns (script: seq<Edit<T>>)
    ensures Leads(a, script, b) && |script| == Distance(a, b)
    decreases |a| + |b|
  {
    if a == [] && b == [] {
      script := [];
    } else if a == [] {
      script := ScriptEndingInInsert(a, b);
    } else if b == [] {
      script := ScriptStartingWithDelete(a, b);
    } else {
      var a', b' := a[..|a| - 1], b[..|b| - 1];
      DistanceUnfold(a, b);
      if Distance(a, b) == Distance(a', b) + 1 {
        script := ScriptStartingWithDelete(a, b);
      } else if Distance(a, b) == Distance(a, b') + 1 {
        script := ScriptEndingInInsert(a, b);
      } else {
        script := ScriptKeepingLast(a, b);
      }
    }
  }

  lemma {:induction false} ScriptStartingWithDelete<T>(a: seq<T>, b: seq<T>) returns (script: seq<Edit<T>>)
    requires a != []
    ensures Leads(a, script, b) && |script| == Distance(a[..|a| - 1], b) + 1
    decreases |a| + |b|, 0
  {
    var rest := ShortestScript(a[..|a| - 1], b);
    LeadsByOne(a, Delete(|a| - 1), a[..|a| - 1]);
    LeadsAppend(a, [Delete(|a| - 1)], a[..|a| - 1], rest, b);
    script := [Delete(|a| - 1)] + rest;
  }

  lemma {:induction false} ScriptEndingInInsert<T>(a: seq<T>, b: seq<T>) returns (script: seq<Edit<T>>)
    requires b != []
    ensures Leads(a, script, b) && |script| == Distance(a, b[..|b| - 1]) + 1
    decreases |a| + |b|, 0
  {
    var b' := b[..|b| - 1];
    var start := ShortestScript(a, b');
    LeadsByOne(b', Insert(|b'|, b[|b| - 1]), b);
    LeadsAppend(a, start, b', [Insert(|b'|, b[|b| - 1])], b);
    script := start + [Insert(|b'|, b[|b| - 1])];
  }

  lemma SubstitutesLast<T>(b: seq<T>, x: T, y: T)
    ensures Fits(b + [x], Substitute(|b|, y)) && Apply(b + [x], Substitute(|b|, y)) == b + [y]
  {
  }

  lemma {:induction false} ScriptKeepingLast<T>(a: seq<T>, b: seq<T>) returns (script: seq<Edit<T>>)
    requires a != [] && b != []
    ensures Leads(a, script, b)
    ensures |script| == Distance(a[..|a| - 1], b[..|b| - 1]) + Cost(a[|a| - 1], b[|b| - 1])
    decreases |a| + |b|, 0
  {
    hide Distance, Leads, Apply;
    var a', b', x, y := a[..|a| - 1], b[..|b| - 1], a[|a| - 1], b[|b| - 1];
    script := ShortestScript(a', b');
    LeadsBeforeLast(a', script, b', x);
    assert a' + [x] == a && b' + [y] == b;
    if x != y {
      SubstitutesLast(b', x, y);
      LeadsByOne(b' + [x], Substitute(|b'|, y), b);
      LeadsAppend(a, script, b' + [x], [Substitute(|b'|, y)], b);
      script := script + [Substitute(|b'|, y)];
    }
  }

  /** The distance is the least length of a script. */
  ghost predicate IsLeastLength<T(!new)>(a: seq<T>, b: seq<T>, d: nat) {
    && (exists script: seq<Edit<T>> :: Leads(a, script, b) && |script| == d)
    && (forall script: seq<Edit<T>> :: Leads(a, script, b) ==> d <= |script|)
  }

  lemma DistanceIsLeastLength<T(!new)>(a: seq<T>, b: seq<T>)
    ensures IsLeastLength(a, b, Distance(a, b))
  {
    var shortest := ShortestScript(a, b);
    forall script: seq<Edit<T>> | Leads(a, script, b) ensures Distance(a, b) <= |script| {
      NoScriptIsShorter(a, script, b);
    }
  }

  // ---------- A metric, with bounds ----------

  lemma {:induction false} Symmetric<T>(a: seq<T>, b: seq<T>)
    ensures Distance(a, b) == Distance(b, a)
    decreases |a| + |b|
  {
    if a != [] && b != [] {
      var a', b' := a[..|a| - 1], b[..|b| - 1];
      Symmetric(a', b);
      Symmetric(a, b');
      Symmetric(a', b');
    }
  }

  lemma {:induction false} Triangle<T>(a: seq<T>, b: seq<T>, c: seq<T>)
    ensures Distance(a, c) <= Distance(a, b) + Distance(b, c)
  {
    var s := ShortestScript(a, b);
    var t := ShortestScript(b, c);
    LeadsAppend(a, s, b, t, c);
    NoScriptIsShorter(a, s + t, c);
  }

  lemma {:induction false} ZeroIffEqual<T>(a: seq<T>, b: seq<T>)
    ensures Distance(a, b) == 0 <==> a == b
  {
    var s := ShortestScript(a, b);
    DistanceZero(a);
  }

  lemma {:induction false} Bounds<T>(a: seq<T>, b: seq<T>)
    ensures |a| - |b| <= Distance(a, b) && |b| - |a| <= Distance(a, b)
    ensures Distance(a, b) <= if |a| < |b| then |b| else |a|
    decreases |a| + |b|
  {
    if a != [] && b != [] {
      var a', b' := a[..|a| - 1], b[..|b| - 1];
      Bounds(a', b);
      Bounds(a, b');
      Bounds(a', b');
    }
  }

  // ---------- The loop ----------

  /** The distance between two prefixes: one cell of the table whose rows the loop fills. */
  ghost function Cell<T>(a: seq<T>, b: seq<T>, i: nat, j: nat): nat
    requires i <= |a| && j <= |b|
  {
    Distance(a[..i], b[..j])
  }

  lemma CellAtEdge<T>(a: seq<T>, b: seq<T>, i: nat, j: nat)
    requires i <= |a| && j <= |b|
    ensures i == 0 ==> Cell(a, b, i, j) == j
    ensures j == 0 ==> Cell(a, b, i, j) == i
  {
    DistanceToEmpty(a[..i]);
    DistanceFromEmpty(b[..j]);
  }

  lemma CellFromNeighbours<T>(a: seq<T>, b: seq<T>, i: nat, j: nat)
    requires 0 < i <= |a| && 0 < j <= |b|
    ensures Cell(a, b, i, j) ==
      Min(Min(Cell(a, b, i - 1, j) + 1, Cell(a, b, i, j - 1) + 1), Cell(a, b, i - 1, j - 1) + Cost(a[i - 1], b[j - 1]))
  {
    hide Distance;
    var a1, b1 := a[..i], b[..j];
    assert a1[..|a1| - 1] == a[..i - 1] && b1[..|b1| - 1] == b[..j - 1];
    DistanceUnfold(a1, b1);
  }

  lemma LastCell<T>(a: seq<T>, b: seq<T>)
    ensures Cell(a, b, |a|, |b|) == Distance(a, b)
  {
    assert a[..|a|] == a && b[..|b|] == b;
  }

  method Levenshtein<T(==, !new)>(a: seq<T>, b: seq<T>) returns (d: nat)
    ensures d == Distance(a, b)
    ensures IsLeastLength(a, b, d)
  {
    hide Distance, IsLeastLength, Cell;
    DistanceIsLeastLength(a, b);
    LastCell(a, b);
    var m, n := |a|, |b|;
    if m == 0 {
      CellAtEdge(a, b, m, n);
      return n;
    }
    if n == 0 {
      CellAtEdge(a, b, m, n);
      return m;
    }
    var prev := new nat[n + 1](index => index);
    var curr := new nat[n + 1](_ => 0);
    forall j | 0 <= j <= n ensures prev[j] == Cell(a, b, 0, j) {
      CellAtEdge(a, b, 0, j);
    }
    for i := 1 to m + 1
      invariant prev != curr && fresh(prev) && fresh(curr) && prev.Length == curr.Length == n + 1
      invariant forall j :: 0 <= j <= n ==> prev[j] == Cell(a, b, i - 1, j)
    {
      curr[0] := i;
      CellAtEdge(a, b, i, 0);
      for j := 1 to n + 1
        invariant forall k :: 0 <= k <= n ==> prev[k] == Cell(a, b, i - 1, k)
        invariant forall k :: 0 <= k < j ==> curr[k] == Cell(a, b, i, k)
      {
        var cost := if a[i - 1] == b[j - 1] then 0 else 1;
        CellFromNeighbours(a, b, i, j);
        curr[j] := Min(Min(prev[j] + 1, curr[j - 1] + 1), prev[j - 1] + cost);
      }
      var swap := prev;
      prev := curr;
      curr := swap;
    }
    return prev[n];
  }
}
