/** Typo recovery: which registered commands are offered for an unknown one, and which are withheld. */
module CommandSuggestion {
  import opened Options
  import opened EditDistance

  const SUGGESTION_THRESHOLD := 3
  const MAX_SUGGESTIONS := 3
  const DESTRUCTIVE_INTENT_THRESHOLD := 1

  /** JavaScript's strings are sequences of UTF-16 code units, and edits count these. */
  newtype CodeUnit = i: int | 0 <= i < 0x1_0000

  type Text = seq<CodeUnit>

  const SPACE: CodeUnit := 0x20

  /** The part of a command's specification that suggestions depend on. */
  datatype CommandSpec = CommandSpec(path: seq<Text>, aliases: Option<seq<seq<Text>>>, destructive: bool)

  /** A command can be called by its own path and by its aliases, which come up in this order. */
  function SpecPaths(spec: CommandSpec): (r: seq<seq<Text>>)
    ensures |r| > 0 && r[0] == spec.path
    ensures r[1..] == if spec.aliases.Some? then spec.aliases.value else []
    ensures forall path :: path in r <==> IsNameOf(spec, path)
  {
    if spec.aliases.Some? then [spec.path] + spec.aliases.value else [spec.path]
  }

  /** The command can be called by this path. */
  ghost predicate IsNameOf(spec: CommandSpec, path: seq<Text>) {
    path == spec.path || (spec.aliases.Some? && path in spec.aliases.value)
  }

  function FinalToken(path: seq<Text>): (r: Text)
    ensures path != [] ==> r == path[|path| - 1]
    ensures path == [] ==> r == []
  {
    if path == [] then [] else path[|path| - 1]
  }

  function Joined(path: seq<Text>): Text {
    if path == [] then [] else if |path| == 1 then path[0] else path[0] + [SPACE] + Joined(path[1..])
  }

  /** The tokens with one space between any two. */
  ghost function Spelled(path: seq<Text>): Text {
    if path == [] then [] else if |path| == 1 then path[0]
    else Spelled(path[..|path| - 1]) + [0x20] + path[|path| - 1]
  }

  lemma {:induction false} JoinedIsSpelled(path: seq<Text>)
    ensures Joined(path) == Spelled(path)
    decreases |path|
  {
    if |path| > 2 {
      var first, last := path[..|path| - 1], path[|path| - 1];
      JoinedIsSpelled(first);
      JoinedIsSpelled(path[1..]);
      JoinedIsSpelled(first[1..]);
      assert path[1..][..|path| - 2] == first[1..] && path[1..][|path| - 2] == last;
      assert Joined(path) == path[0] + [SPACE] + (Spelled(first[1..]) + [0x20] + last);
    } else if |path| == 2 {
      assert path[1..] == [path[1]] && path[..1] == [path[0]];
    }
  }

  // ---------- Ranking ----------

  datatype Scored = Scored(text: Text, distance: nat)

  /** How labels at equal distance are ordered; stands for the locale's collation, which may take different
      labels for equal. */
  type Collation = (Text, Text) -> bool

  ghost predicate IsCollation(le: Collation) {
    && (forall x, y :: le(x, y) || le(y, x))
    && (forall x, y, z :: le(x, y) && le(y, z) ==> le(x, z))
  }

  /** The first position of a text, or the length. */
  function At(order: seq<Text>, x: Text): (r: nat)
    ensures if x in order then r < |order| && order[r] == x else r == |order|
  {
    if order == [] || order[0] == x then 0
    else
      assert order == [order[0]] + order[1..];
      1 + At(order[1..], x)
  }

  /** The collation, with labels that it takes for equal in the order in which they come up. */
  function Stable(le: Collation, order: seq<Text>): Collation {
    (x, y) => le(x, y) && (le(y, x) ==> At(order, x) <= At(order, y))
  }

  lemma StableIsCollation(le: Collation, order: seq<Text>)
    requires IsCollation(le)
    ensures IsCollation(Stable(le, order))
  {
    hide At;
  }

  /** Of different texts that qualify, one comes before the other. */
  ghost predicate Decides(le: Collation, qualifies: Text -> bool) {
    forall x, y :: qualifies(x) && qualifies(y) && le(x, y) && le(y, x) ==> x == y
  }

  predicate Before(x: Scored, y: Scored, le: Collation) {
    x.distance < y.distance || (x.distance == y.distance && le(x.text, y.text))
  }

  function NearMisses(scored: seq<Scored>): (r: seq<Scored>)
    ensures forall e :: e in r <==> e in scored && 0 < e.distance <= SUGGESTION_THRESHOLD
  {
    if scored == [] then []
    else
      (if 0 < scored[0].distance <= SUGGESTION_THRESHOLD then [scored[0]] else []) + NearMisses(scored[1..])
  }

  function Insert(e: Scored, s: seq<Scored>, le: Collation): seq<Scored> {
    if s == [] || Before(e, s[0], le) then [e] + s else [s[0]] + Insert(e, s[1..], le)
  }

  function Sorted(s: seq<Scored>, le: Collation): seq<Scored> {
    if s == [] then [] else Insert(s[0], Sorted(s[1..], le), le)
  }

  function Labels(s: seq<Scored>): (r: seq<Text>)
    ensures |r| == |s| && forall i :: 0 <= i < |s| ==> r[i] == s[i].text
  {
    seq(|s|, i requires 0 <= i < |s| => s[i].text)
  }

  function RankByDistance(scored: seq<Scored>, le: Collation): seq<Text> {
    var ranked := Sorted(NearMisses(scored), le);
    Labels(if |ranked| <= MAX_SUGGESTIONS then ranked else ranked[..MAX_SUGGESTIONS])
  }

  ghost predicate Ascending(s: seq<Scored>, le: Collation) {
    forall i, j :: 0 <= i < j < |s| ==> Before(s[i], s[j], le)
  }

  ghost predicate DistinctLabels(s: seq<Scored>) {
    forall i, j :: 0 <= i < j < |s| ==> s[i].text != s[j].text
  }

  lemma {:induction false} InsertAdds(e: Scored, s: seq<Scored>, le: Collation)
    ensures multiset(Insert(e, s, le)) == multiset{e} + multiset(s)
    ensures forall x :: x in Insert(e, s, le) <==> x == e || x in s
  {
    hide Before;
    if s != [] {
      assert s == [s[0]] + s[1..];
      InsertAdds(e, s[1..], le);
    }
  }

  lemma {:induction false} InsertKeepsOrder(e: Scored, s: seq<Scored>, le: Collation)
    requires IsCollation(le) && Ascending(s, le)
    ensures Ascending(Insert(e, s, le), le)
    ensures multiset(Insert(e, s, le)) == multiset{e} + multiset(s)
  {
    InsertAdds(e, s, le);
    if s != [] {
      if Before(e, s[0], le) {
        BeforeAll(e, s, le);
      } else {
        InsertKeepsOrder(e, s[1..], le);
        InsertAdds(e, s[1..], le);
        forall x | x in Insert(e, s[1..], le) ensures Before(s[0], x, le) {
        }
      }
    }
  }

  lemma BeforeAll(e: Scored, s: seq<Scored>, le: Collation)
    requires IsCollation(le) && Ascending(s, le) && s != [] && Before(e, s[0], le)
    ensures forall i :: 0 <= i < |s| ==> Before(e, s[i], le)
  {
  }

  lemma {:induction false} SortedIsSorted(s: seq<Scored>, le: Collation)
    requires IsCollation(le)
    ensures Ascending(Sorted(s, le), le) && multiset(Sorted(s, le)) == multiset(s)
  {
    if s != [] {
      assert s == [s[0]] + s[1..];
      SortedIsSorted(s[1..], le);
      InsertKeepsOrder(s[0], Sorted(s[1..], le), le);
    }
  }

  lemma {:induction false} NearMissesOnce(s: seq<Scored>)
    requires DistinctLabels(s)
    ensures DistinctLabels(NearMisses(s))
  {
    if s != [] {
      NearMissesOnce(s[1..]);
      assert forall e :: e in NearMisses(s[1..]) ==> e in s[1..];
    }
  }

  /** The labels are exactly the best three or fewer of the qualifying ones, in order. */
  ghost predicate IsBest(labels: seq<Text>, qualifies: Text -> bool, distance: Text -> nat, le: Collation) {
    && |labels| <= 3
    && (forall i :: 0 <= i < |labels| ==> qualifies(labels[i]))
    && (forall i, j :: 0 <= i < j < |labels| ==>
          labels[i] != labels[j]
          && Before(Scored(labels[i], distance(labels[i])), Scored(labels[j], distance(labels[j])), le))
    && (forall other :: qualifies(other) && other !in labels ==>
          |labels| == 3
          && forall i :: 0 <= i < |labels| ==>
               Before(Scored(labels[i], distance(labels[i])), Scored(other, distance(other)), le))
  }

  /** The k-th choice of one best list does not come after the k-th choice of another, if they agree so far. */
  lemma BestNotLater(r: seq<Text>, s: seq<Text>, k: nat,
                     qualifies: Text -> bool, distance: Text -> nat, le: Collation)
    requires IsCollation(le)
    requires IsBest(r, qualifies, distance, le) && IsBest(s, qualifies, distance, le)
    requires k < |r| && k < |s| && r[..k] == s[..k]
    ensures Before(Scored(s[k], distance(s[k])), Scored(r[k], distance(r[k])), le)
  {
    assert forall m :: 0 <= m < k ==> r[m] == r[..k][m] && s[m] == s[..k][m];
    assert forall m :: 0 <= m < k ==> s[m] != r[k];
    if r[k] in s {
      var m :| 0 <= m < |s| && s[m] == r[k];
    }
  }

  /** `IsBest` leaves no choice if the order decides. */
  lemma BestIsUnique(r: seq<Text>, s: seq<Text>, qualifies: Text -> bool, distance: Text -> nat, le: Collation)
    requires IsCollation(le) && Decides(le, qualifies)
    requires IsBest(r, qualifies, distance, le) && IsBest(s, qualifies, distance, le)
    ensures r == s
  {
    if |r| <= |s| {
      BestAgree(r, s, |r|, qualifies, distance, le);
    } else {
      BestAgree(s, r, |s|, qualifies, distance, le);
    }
  }

  lemma {:induction false} BestAgree(r: seq<Text>, s: seq<Text>, k: nat,
                                     qualifies: Text -> bool, distance: Text -> nat, le: Collation)
    requires IsCollation(le) && Decides(le, qualifies)
    requires IsBest(r, qualifies, distance, le) && IsBest(s, qualifies, distance, le)
    requires k <= |r| <= |s|
    ensures r[..k] == s[..k]
    ensures k == |r| ==> r == s
  {
    if k > 0 {
      BestAgree(r, s, k - 1, qualifies, distance, le);
      BestNotLater(r, s, k - 1, qualifies, distance, le);
      BestNotLater(s, r, k - 1, qualifies, distance, le);
      assert r[..k] == r[..k - 1] + [r[k - 1]] && s[..k] == s[..k - 1] + [s[k - 1]];
    }
    if k == |r| {
      assert forall i :: 0 <= i < k ==> r[i] == r[..k][i] == s[..k][i] == s[i];
      NoneLeftOut(r, s, qualifies, distance, le);
    }
  }

  lemma NoneLeftOut(r: seq<Text>, s: seq<Text>, qualifies: Text -> bool, distance: Text -> nat, le: Collation)
    requires IsBest(r, qualifies, distance, le) && IsBest(s, qualifies, distance, le)
    requires |r| <= |s| && forall i :: 0 <= i < |r| ==> r[i] == s[i]
    ensures r == s
  {
    if |r| < MAX_SUGGESTIONS && |s| > 0 {
      var last := s[|s| - 1];
      assert last in r;
      var m :| 0 <= m < |r| && r[m] == last;
      assert s[m] == s[|s| - 1];
    }
  }

  /** The labels come up in the given order. */
  ghost predicate ComeUpIn(scored: seq<Scored>, order: seq<Text>) {
    forall i, j :: 0 <= i < j < |scored| ==> At(order, scored[i].text) <= At(order, scored[j].text)
  }

  lemma {:induction false} NearMissesComeUp(s: seq<Scored>, order: seq<Text>)
    requires ComeUpIn(s, order)
    ensures ComeUpIn(NearMisses(s), order)
  {
    hide At;
    if s != [] {
      NearMissesComeUp(s[1..], order);
      forall x | x in s[1..] ensures At(order, s[0].text) <= At(order, x.text) {
      }
      var rest := NearMisses(s[1..]);
      assert forall j :: 0 <= j < |rest| ==> rest[j] in s[1..];
    }
  }

  /** Putting an entry that comes up first before those that it ties with is what the stable order does. */
  lemma {:induction false} InsertIsStable(e: Scored, s: seq<Scored>, le: Collation, order: seq<Text>)
    requires forall x :: x in s ==> At(order, e.text) <= At(order, x.text)
    ensures Insert(e, s, le) == Insert(e, s, Stable(le, order))
  {
    hide At;
    if s != [] {
      assert s[0] in s;
      InsertIsStable(e, s[1..], le, order);
    }
  }

  lemma {:induction false} SortIsStable(s: seq<Scored>, le: Collation, order: seq<Text>)
    requires IsCollation(le) && ComeUpIn(s, order)
    ensures Sorted(s, le) == Sorted(s, Stable(le, order))
  {
    hide At, Insert, Stable;
    if s != [] {
      SortIsStable(s[1..], le, order);
      var rest := Sorted(s[1..], le);
      SortedIsSorted(s[1..], le);
      forall x | x in rest ensures At(order, s[0].text) <= At(order, x.text) {
        assert x in multiset(rest) && x in s[1..];
      }
      InsertIsStable(s[0], rest, le, order);
    }
  }

  /** Ranking a list of distinct labels with their distances picks the best of those within the threshold,
      ties in the order in which they come up. */
  lemma RankIsBest(scored: seq<Scored>, distance: Text -> nat, le: Collation, order: seq<Text>)
    requires IsCollation(le) && DistinctLabels(scored) && ComeUpIn(scored, order)
    requires forall e :: e in scored ==> e.distance == distance(e.text)
    ensures IsBest(RankByDistance(scored, le), NearMissOf(scored, distance), distance, Stable(le, order))
  {
    hide IsCollation, Before, NearMisses, Sorted, Stable, At;
    var near := NearMisses(scored);
    NearMissesComeUp(scored, order);
    SortIsStable(near, le, order);
    StableIsCollation(le, order);
    var ranked := Sorted(near, Stable(le, order));
    NearMissesOnce(scored);
    SortedIsSorted(near, Stable(le, order));
    SameLabelsOnce(near, ranked);
    forall e ensures e in ranked <==> e in near {
      assert e in multiset(ranked) <==> e in multiset(near);
    }
    FirstAreBest(ranked, NearMissOf(scored, distance), distance, Stable(le, order));
  }

  /** In an ascending list of all qualifying entries, the first three are the best. */
  lemma FirstAreBest(ranked: seq<Scored>, qualifies: Text -> bool, distance: Text -> nat, le: Collation)
    requires Ascending(ranked, le) && DistinctLabels(ranked)
    requires forall e :: e in ranked <==> qualifies(e.text) && e.distance == distance(e.text)
    ensures IsBest(Labels(if |ranked| <= MAX_SUGGESTIONS then ranked else ranked[..MAX_SUGGESTIONS]),
                   qualifies, distance, le)
  {
    hide Before;
    var labels := Labels(if |ranked| <= MAX_SUGGESTIONS then ranked else ranked[..MAX_SUGGESTIONS]);
    forall i | 0 <= i < |ranked|
      ensures ranked[i] == Scored(ranked[i].text, distance(ranked[i].text)) && qualifies(ranked[i].text)
      ensures i < |labels| ==> labels[i] == ranked[i].text
    {
      assert ranked[i] in ranked;
    }
    forall other | qualifies(other) && other !in labels
      ensures |labels| == MAX_SUGGESTIONS
      ensures forall i :: 0 <= i < |labels| ==>
                Before(Scored(labels[i], distance(labels[i])), Scored(other, distance(other)), le)
    {
      assert Scored(other, distance(other)) in ranked;
      var m :| 0 <= m < |ranked| && ranked[m] == Scored(other, distance(other));
    }
  }

  ghost function NearMissOf(scored: seq<Scored>, distance: Text -> nat): Text -> bool {
    text => Scored(text, distance(text)) in scored && 0 < distance(text) <= SUGGESTION_THRESHOLD
  }

  /** A reordering of a list with distinct labels has distinct labels. */
  lemma SameLabelsOnce(s: seq<Scored>, t: seq<Scored>)
    requires DistinctLabels(s) && multiset(s) == multiset(t)
    ensures DistinctLabels(t)
  {
    forall i, j | 0 <= i < j < |t| ensures t[i].text != t[j].text {
      assert t[i] in multiset(s) && t[j] in multiset(s);
      OnceInMultiset(s, t[i]);
      if t[i] == t[j] {
        TwiceInMultiset(t, i, j);
        assert false;
      }
    }
  }

  lemma TwiceInMultiset(t: seq<Scored>, i: nat, j: nat)
    requires i < j < |t| && t[i] == t[j]
    ensures multiset(t)[t[i]] >= 2
  {
    assert t == t[..i] + [t[i]] + t[i + 1..j] + [t[j]] + t[j + 1..];
  }

  lemma {:induction false} OnceInMultiset(s: seq<Scored>, e: Scored)
    requires DistinctLabels(s)
    ensures multiset(s)[e] <= 1
  {
    if s != [] {
      assert s == [s[0]] + s[1..];
      OnceInMultiset(s[1..], e);
      forall j | 0 <= j < |s[1..]| ensures s[1..][j] != s[0] {
        assert s[1..][j] == s[j + 1];
      }
    }
  }

  // ---------- The destructive guard ----------

  ghost predicate IsDestructiveVerb(specs: seq<CommandSpec>, verb: Text) {
    exists spec :: spec in specs && spec.destructive
      && exists path :: IsNameOf(spec, path) && verb == if path == [] then [] else path[|path| - 1]
  }

  method DestructiveVerbs(specs: seq<CommandSpec>) returns (verbs: set<Text>)
    ensures forall verb :: verb in verbs <==> IsDestructiveVerb(specs, verb)
  {
    verbs := {};
    for i := 0 to |specs|
      invariant forall verb :: verb in verbs <==> IsDestructiveVerb(specs[..i], verb)
    {
      ghost var before := verbs;
      if specs[i].destructive {
        var paths := SpecPaths(specs[i]);
        for j := 0 to |paths|
          invariant forall verb :: verb in verbs <==>
            verb in before || exists path :: path in paths[..j] && FinalToken(path) == verb
        {
          verbs := verbs + {FinalToken(paths[j])};
          assert paths[..j + 1] == paths[..j] + [paths[j]];
        }
        assert paths[..|paths|] == paths;
      }
      assert specs[..i + 1] == specs[..i] + [specs[i]];
    }
    assert specs[..|specs|] == specs;
  }

  method IntendsDestruction(inputToken: Text, verbs: set<Text>) returns (intends: bool)
    ensures intends <==> exists verb :: verb in verbs && Distance(inputToken, verb) <= DESTRUCTIVE_INTENT_THRESHOLD
  {
    var left := verbs;
    while left != {}
      invariant left <= verbs
      invariant forall verb :: verb in verbs - left ==> Distance(inputToken, verb) > DESTRUCTIVE_INTENT_THRESHOLD
    {
      var verb :| verb in left;
      var d := Levenshtein(inputToken, verb);
      if d <= DESTRUCTIVE_INTENT_THRESHOLD {
        return true;
      }
      left := left - {verb};
    }
    return false;
  }

  // ---------- Suggestions ----------

  function CandidateText(path: seq<Text>, commandPath: seq<Text>): (r: Option<Text>)
    ensures forall text :: r == Some(text) <==> CompetesAs(path, commandPath, text)
  {
    JoinedIsSpelled(path);
    var candidate := if |commandPath| == 1 && |path| > 0 then path[..1] else path;
    if |candidate| != |commandPath| then None else Some(Joined(candidate))
  }

  /** The text under which a path competes: its first token for a one-token input; for any other input, only
      if it has as many tokens, these with single spaces between them. */
  ghost predicate CompetesAs(path: seq<Text>, commandPath: seq<Text>, text: Text) {
    if |commandPath| == 1 then path != [] && text == path[0]
    else |path| == |commandPath| && text == Spelled(path)
  }

  ghost predicate IsCandidateOf(spec: CommandSpec, commandPath: seq<Text>, text: Text) {
    exists path :: IsNameOf(spec, path) && CompetesAs(path, commandPath, text)
  }

  /** Destructive commands compete only if the last token is close to a destructive verb. */
  ghost predicate Competes(specs: seq<CommandSpec>, allowDestructive: bool, commandPath: seq<Text>, text: Text) {
    exists spec :: spec in specs && (spec.destructive ==> allowDestructive) && IsCandidateOf(spec, commandPath, text)
  }

  ghost predicate ReachesForDestruction(specs: seq<CommandSpec>, commandPath: seq<Text>) {
    var token := if commandPath == [] then [] else commandPath[|commandPath| - 1];
    exists verb :: IsDestructiveVerb(specs, verb) && Distance(token, verb) <= 1
  }

  /** The texts under which the paths compete, in the order in which they come up. */
  ghost function TextsOf(paths: seq<seq<Text>>, commandPath: seq<Text>): seq<Text> {
    if paths == [] then []
    else
      var text := CandidateText(paths[|paths| - 1], commandPath);
      TextsOf(paths[..|paths| - 1], commandPath) + (if text.Some? then [text.value] else [])
  }

  ghost function Candidates(specs: seq<CommandSpec>, allowDestructive: bool, commandPath: seq<Text>): seq<Text> {
    if specs == [] then []
    else
      var spec := specs[|specs| - 1];
      Candidates(specs[..|specs| - 1], allowDestructive, commandPath)
      + (if spec.destructive && !allowDestructive then [] else TextsOf(SpecPaths(spec), commandPath))
  }

  ghost predicate IsTally(scored: seq<Scored>, seen: set<Text>, input: Text, order: seq<Text>) {
    && DistinctLabels(scored) && ComeUpIn(scored, order)
    && (forall text :: text in seen <==> text in order)
    && (forall e :: e in scored ==> e.text in seen && e.distance == Distance(input, e.text))
    && (forall text :: text in seen ==> Scored(text, Distance(input, text)) in scored)
  }

  ghost function DistanceFrom(input: Text): Text -> nat {
    text => Distance(input, text)
  }

  ghost function Qualifying(specs: seq<CommandSpec>, commandPath: seq<Text>): Text -> bool {
    text => Competes(specs, ReachesForDestruction(specs, commandPath), commandPath, text)
            && 0 < Distance(Spelled(commandPath), text) <= 3
  }

  lemma SameBest(labels: seq<Text>, qualifies: Text -> bool, qualifies': Text -> bool,
                 distance: Text -> nat, le: Collation)
    requires IsBest(labels, qualifies, distance, le)
    requires forall text :: qualifies(text) <==> qualifies'(text)
    ensures IsBest(labels, qualifies', distance, le)
    ensures forall text :: text in labels ==> qualifies'(text)
  {
    hide Before;
  }

  lemma TallyQualifies(specs: seq<CommandSpec>, commandPath: seq<Text>, scored: seq<Scored>, seen: set<Text>,
                       order: seq<Text>)
    requires IsTally(scored, seen, Joined(commandPath), order)
    requires order == Candidates(specs, ReachesForDestruction(specs, commandPath), commandPath)
    ensures forall text ::
              NearMissOf(scored, DistanceFrom(Joined(commandPath)))(text) <==> Qualifying(specs, commandPath)(text)
    ensures forall text :: Qualifying(specs, commandPath)(text) ==> text in order
  {
    hide Distance, Competes, ReachesForDestruction, Candidates, ComeUpIn, DistinctLabels;
    JoinedIsSpelled(commandPath);
    forall text
      ensures text in order <==> Competes(specs, ReachesForDestruction(specs, commandPath), commandPath, text)
    {
      CandidatesCompete(specs, ReachesForDestruction(specs, commandPath), commandPath, text);
    }
  }

  lemma TallyOnce(scored: seq<Scored>, seen: set<Text>, input: Text, order: seq<Text>, text: Text)
    requires IsTally(scored, seen, input, order)
    ensures text in seen ==> IsTally(scored, seen, input, order + [text])
    ensures text !in seen ==>
      IsTally(scored + [Scored(text, Distance(input, text))], seen + {text}, input, order + [text])
  {
    hide Distance, ComeUpIn;
    var e := Scored(text, Distance(input, text));
    assert forall x :: x in scored + [e] <==> x in scored || x == e;
    ComesUpNext(scored, order, e);
  }

  lemma ComesUpNext(scored: seq<Scored>, order: seq<Text>, e: Scored)
    requires ComeUpIn(scored, order) && forall x :: x in scored ==> x.text in order
    ensures ComeUpIn(scored, order + [e.text])
    ensures e.text !in order ==> ComeUpIn(scored + [e], order + [e.text])
  {
    hide At;
    AtAppend(order, e.text, e.text);
    forall i | 0 <= i < |scored|
      ensures At(order + [e.text], scored[i].text) == At(order, scored[i].text) < |order|
    {
      assert scored[i] in scored;
      AtAppend(order, e.text, scored[i].text);
    }
  }

  lemma {:induction false} AtAppend(order: seq<Text>, text: Text, x: Text)
    ensures At(order + [text], x) == if x in order then At(order, x) else if x == text then |order| else |order| + 1
  {
    if order == [] {
      assert [] + [text] == [text] && [text][1..] == [];
    } else {
      assert (order + [text])[1..] == order[1..] + [text] && order == [order[0]] + order[1..];
      AtAppend(order[1..], text, x);
    }
  }

  /** Any order decides between texts that come up in it, ties by their place. */
  lemma StableDecides(le: Collation, order: seq<Text>, qualifies: Text -> bool)
    requires forall x :: qualifies(x) ==> x in order
    ensures Decides(Stable(le, order), qualifies)
  {
    hide At;
    var stable := Stable(le, order);
    forall x, y | qualifies(x) && qualifies(y) && stable(x, y) && stable(y, x) ensures x == y {
      assert At(order, x) == At(order, y);
      assert x in order && y in order;
    }
  }

  lemma {:induction false} TextsAreCandidates(paths: seq<seq<Text>>, commandPath: seq<Text>, text: Text)
    ensures text in TextsOf(paths, commandPath) <==>
      exists path :: path in paths && CandidateText(path, commandPath) == Some(text)
  {
    hide CandidateText;
    if paths != [] {
      TextsAreCandidates(paths[..|paths| - 1], commandPath, text);
      assert paths == paths[..|paths| - 1] + [paths[|paths| - 1]];
    }
  }

  /** The texts that come up are those that compete. */
  lemma {:induction false} CandidatesCompete(specs: seq<CommandSpec>, allowDestructive: bool, commandPath: seq<Text>,
                                             text: Text)
    ensures text in Candidates(specs, allowDestructive, commandPath) <==>
      Competes(specs, allowDestructive, commandPath, text)
  {
    hide CandidateText, TextsOf, SpecPaths;
    if specs != [] {
      var last := specs[|specs| - 1];
      CandidatesCompete(specs[..|specs| - 1], allowDestructive, commandPath, text);
      TextsAreCandidates(SpecPaths(last), commandPath, text);
      assert specs == specs[..|specs| - 1] + [last];
    }
  }

  method SuggestCommands(specs: seq<CommandSpec>, commandPath: seq<Text>, le: Collation)
    returns (suggestions: seq<Text>)
    requires IsCollation(le)
    // the best three or fewer of the competing texts at distance one to three; ties in order of appearance
    ensures var order := Stable(le, Candidates(specs, ReachesForDestruction(specs, commandPath), commandPath));
            && IsBest(suggestions, Qualifying(specs, commandPath), DistanceFrom(Spelled(commandPath)), order)
            && IsCollation(order) && Decides(order, Qualifying(specs, commandPath))
    // the guard: unless the user reached for destruction, no suggestion comes from a destructive command alone
    ensures !ReachesForDestruction(specs, commandPath) ==>
      forall text :: text in suggestions ==>
        exists spec :: spec in specs && !spec.destructive && IsCandidateOf(spec, commandPath, text)
  {
    hide Distance, IsCollation, IsBest, RankByDistance, IsTally, Stable, Decides, At, CandidateText, Competes;
    hide Candidates, TextsOf, SpecPaths, Qualifying, IsCandidateOf, IsDestructiveVerb, Joined;
    var input := Joined(commandPath);
    var verbs := DestructiveVerbs(specs);
    var allowDestructive := IntendsDestruction(FinalToken(commandPath), verbs);
    var seen: set<Text> := {};
    var scored: seq<Scored> := [];
    ghost var order: seq<Text> := [];
    NothingTallied(specs, input, allowDestructive, commandPath);
    for i := 0 to |specs|
      invariant IsTally(scored, seen, input, order) && order == Candidates(specs[..i], allowDestructive, commandPath)
    {
      CandidatesNext(specs, i, allowDestructive, commandPath);
      ghost var before := order;
      if specs[i].destructive && !allowDestructive {
        continue;
      }
      var paths := SpecPaths(specs[i]);
      NoTexts(paths, commandPath);
      assert before + [] == before;
      for j := 0 to |paths|
        invariant IsTally(scored, seen, input, order) && order == before + TextsOf(paths[..j], commandPath)
      {
        TextsNext(paths, j, commandPath);
        var joined := CandidateText(paths[j], commandPath);
        if joined.None? {
          continue;
        }
        TallyOnce(scored, seen, input, order, joined.value);
        TallySeen(scored, seen, input, order);
        order := order + [joined.value];
        if joined.value in seen {
          continue;
        }
        var distance := Levenshtein(input, joined.value);
        seen := seen + {joined.value};
        scored := scored + [Scored(joined.value, distance)];
      }
      assert paths[..|paths|] == paths;
    }
    assert specs[..|specs|] == specs;
    suggestions := RankByDistance(scored, le);
    TallyGivesBest(specs, commandPath, scored, seen, order, le);
  }

  lemma NoTexts(paths: seq<seq<Text>>, commandPath: seq<Text>)
    ensures TextsOf(paths[..0], commandPath) == []
  {
  }

  lemma TallyGivesBest(specs: seq<CommandSpec>, commandPath: seq<Text>, scored: seq<Scored>, seen: set<Text>,
                       order: seq<Text>, le: Collation)
    requires IsTally(scored, seen, Joined(commandPath), order) && IsCollation(le)
    requires order == Candidates(specs, ReachesForDestruction(specs, commandPath), commandPath)
    ensures IsBest(RankByDistance(scored, le), Qualifying(specs, commandPath), DistanceFrom(Spelled(commandPath)),
                   Stable(le, order))
    ensures IsCollation(Stable(le, order)) && Decides(Stable(le, order), Qualifying(specs, commandPath))
    ensures !ReachesForDestruction(specs, commandPath) ==>
      forall text :: text in RankByDistance(scored, le) ==>
        exists spec :: spec in specs && !spec.destructive && IsCandidateOf(spec, commandPath, text)
  {
    hide Distance, IsCollation, IsBest, RankByDistance, IsTally, Stable, Decides, Candidates, Qualifying, IsCandidateOf;
    hide ReachesForDestruction, Joined;
    var input, best := Joined(commandPath), RankByDistance(scored, le);
    JoinedIsSpelled(commandPath);
    TallyRanks(scored, seen, input, order, le);
    TallyQualifies(specs, commandPath, scored, seen, order);
    SameBest(best, NearMissOf(scored, DistanceFrom(input)), Qualifying(specs, commandPath), DistanceFrom(input),
             Stable(le, order));
    StableIsCollation(le, order);
    StableDecides(le, order, Qualifying(specs, commandPath));
    Guarded(specs, commandPath, best);
  }

  lemma CandidatesNext(specs: seq<CommandSpec>, i: nat, allowDestructive: bool, commandPath: seq<Text>)
    requires i < |specs|
    ensures Candidates(specs[..i + 1], allowDestructive, commandPath) ==
      Candidates(specs[..i], allowDestructive, commandPath)
      + (if specs[i].destructive && !allowDestructive then [] else TextsOf(SpecPaths(specs[i]), commandPath))
    ensures specs[i].destructive && !allowDestructive ==>
      Candidates(specs[..i + 1], allowDestructive, commandPath) == Candidates(specs[..i], allowDestructive, commandPath)
  {
    hide TextsOf, SpecPaths;
    assert specs[..i + 1][..i] == specs[..i];
  }

  lemma TextsNext(paths: seq<seq<Text>>, j: nat, commandPath: seq<Text>)
    requires j < |paths|
    ensures var text := CandidateText(paths[j], commandPath);
            TextsOf(paths[..j + 1], commandPath) ==
              if text.Some? then TextsOf(paths[..j], commandPath) + [text.value] else TextsOf(paths[..j], commandPath)
  {
    hide CandidateText;
    assert paths[..j + 1][..j] == paths[..j];
  }

  lemma TallySeen(scored: seq<Scored>, seen: set<Text>, input: Text, order: seq<Text>)
    requires IsTally(scored, seen, input, order)
    ensures forall text :: text in seen <==> text in order
  {
  }

  /** Without destructive intent only harmless commands compete. */
  lemma Guarded(specs: seq<CommandSpec>, commandPath: seq<Text>, suggestions: seq<Text>)
    requires forall text :: text in suggestions ==> Qualifying(specs, commandPath)(text)
    ensures !ReachesForDestruction(specs, commandPath) ==>
      forall text :: text in suggestions ==>
        exists spec :: spec in specs && !spec.destructive && IsCandidateOf(spec, commandPath, text)
  {
    hide Distance, IsCandidateOf, ReachesForDestruction;
  }

  lemma NothingTallied(specs: seq<CommandSpec>, input: Text, allowDestructive: bool, commandPath: seq<Text>)
    ensures IsTally([], {}, input, []) && Candidates(specs[..0], allowDestructive, commandPath) == []
  {
  }

  lemma TallyRanks(scored: seq<Scored>, seen: set<Text>, input: Text, order: seq<Text>, le: Collation)
    requires IsTally(scored, seen, input, order) && IsCollation(le)
    ensures IsBest(RankByDistance(scored, le), NearMissOf(scored, DistanceFrom(input)), DistanceFrom(input),
                   Stable(le, order))
  {
    hide Distance, IsBest, RankByDistance, Stable, At;
    RankIsBest(scored, DistanceFrom(input), le, order);
  }
}
