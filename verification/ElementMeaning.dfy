/**
  What the decisions about an element mean, in terms of the element's own fields and of the elements below
  it: when a subtree is summarised, when an element stands for its subtree, when it is a bare container, and
  what its line says.
 */
module ElementMeaning {
  import opened Digits
  import opened ElementText
  import opened Options
  import opened PythonText
  import opened TabCompaction

  // ---------- Actions ----------

  /** The action is none of those that every element offers. */
  ghost predicate SaysSomething(action: string, lower: Lower) {
    lower(Strip(action)) !in
      {"click", "press", "show default ui", "show alternate ui", "show menu", "scroll to visible", "raise"}
  }

  lemma {:induction false} MeaningfulAre(actions: seq<string>, lower: Lower)
    ensures forall a :: a in MeaningfulActions(actions, lower) <==> a in actions && SaysSomething(a, lower)
    ensures MeaningfulActions(actions, lower) == [] <==> forall a :: a in actions ==> !SaysSomething(a, lower)
  {
    hide Strip;
    if actions != [] {
      MeaningfulAre(actions[1..], lower);
      assert actions == [actions[0]] + actions[1..];
      assert actions[0] in actions;
    }
  }

  /** They keep their order. */
  lemma {:induction false} MeaningfulInOrder(a: seq<string>, b: seq<string>, lower: Lower)
    ensures MeaningfulActions(a + b, lower) == MeaningfulActions(a, lower) + MeaningfulActions(b, lower)
  {
    hide Strip;
    if a == [] {
      assert a + b == b;
    } else {
      assert (a + b)[0] == a[0] && (a + b)[1..] == a[1..] + b;
      MeaningfulInOrder(a[1..], b, lower);
    }
  }

  // ---------- Plain subtrees ----------

  ghost predicate IsTextRole(role: string) {
    role in {"label", "static", "static text", "text", "link"}
  }

  ghost predicate IsContainerRole(role: string) {
    role in {"panel", "filler", "unknown", "section"}
  }

  ghost predicate IsPlainRole(role: string) {
    IsTextRole(role) || IsContainerRole(role) || role == "image"
  }

  /** A label, a bare container or an image that offers nothing. */
  ghost predicate IsPlainElement(node: Node, lower: Lower) {
    && IsPlainRole(lower(node.role))
    && forall a :: a in node.actions ==> !SaysSomething(a, lower)
  }

  ghost predicate PlainAt(node: Node, depth: nat, q: seq<nat>, lower: Lower) {
    var found := FindByPath(node, q);
    found.Some? ==> depth + |q| <= 4 && IsPlainElement(found.value, lower)
  }

  /** All elements of the subtree, at most four levels down, are plain. */
  ghost predicate IsPlainSubtree(node: Node, depth: nat, lower: Lower) {
    forall q :: PlainAt(node, depth, q, lower)
  }

  lemma PathBelow(node: Node, i: nat, q: seq<nat>)
    requires i < |node.children| && node.children[i].Some?
    ensures FindByPath(node, [i] + q) == FindByPath(node.children[i].value, q)
  {
    assert ([i] + q)[1..] == q;
  }

  lemma {:induction false} PlainIff(node: Node, depth: nat, lower: Lower)
    ensures IsPlain(node, depth, lower) <==> IsPlainSubtree(node, depth, lower)
    decreases node
  {
    hide IsPlainElement, IsPlainSubtree, PlainAt, FindByPath;
    OwnPlainIff(node, lower);
    PlainHereIff(node, depth, lower);
    forall i | 0 <= i < |node.children| && node.children[i].Some?
      ensures IsPlain(node.children[i].value, depth + 1, lower)
        <==> IsPlainSubtree(node.children[i].value, depth + 1, lower)
    {
      PlainIff(node.children[i].value, depth + 1, lower);
    }
  }

  lemma PlainHereIff(node: Node, depth: nat, lower: Lower)
    ensures IsPlainSubtree(node, depth, lower) <==>
      && depth <= 4 && IsPlainElement(node, lower)
      && forall i :: 0 <= i < |node.children| && node.children[i].Some? ==>
           IsPlainSubtree(node.children[i].value, depth + 1, lower)
  {
    hide IsPlainElement;
    var below := depth + 1;
    if IsPlainSubtree(node, depth, lower) {
      assert PlainAt(node, depth, [], lower);
      forall i | 0 <= i < |node.children| && node.children[i].Some?
        ensures IsPlainSubtree(node.children[i].value, below, lower)
      {
        var child := node.children[i].value;
        forall q ensures PlainAt(child, below, q, lower) {
          PathBelow(node, i, q);
          assert PlainAt(node, depth, [i] + q, lower);
        }
      }
    } else {
      var q: seq<nat> :| !PlainAt(node, depth, q, lower);
      assert q != [] ==> !PlainAt(node.children[q[0]].value, below, q[1..], lower);
    }
  }

  lemma OwnPlainIff(node: Node, lower: Lower)
    ensures IsPlainElement(node, lower) <==>
      lower(node.role) in CONTAINER_ROLES + TEXT_ROLES + {"image"} && MeaningfulActions(node.actions, lower) == []
  {
    hide MeaningfulActions, SaysSomething, IsPlainRole;
    MeaningfulAre(node.actions, lower);
    PlainRoleIff(lower(node.role));
  }

  lemma PlainRoleIff(role: string)
    ensures IsPlainRole(role) <==> role in CONTAINER_ROLES + TEXT_ROLES + {"image"}
  {
  }

  // ---------- Texts ----------

  /** The element at q, at most so deep, is a label that carries this text. */
  ghost predicate Carries(node: Node, depth: nat, q: seq<nat>, maxDepth: nat, text: string, lower: Lower) {
    var found := FindByPath(node, q);
    && found.Some? && depth + |q| <= maxDepth && IsTextRole(lower(found.value.role))
    && text != "" && (text == Collapse(found.value.name) || text == Collapse(found.value.value))
  }

  ghost predicate IsCarried(node: Node, depth: nat, maxDepth: nat, text: string, lower: Lower) {
    exists q :: Carries(node, depth, q, maxDepth, text, lower)
  }

  ghost predicate ChildCarries(node: Node, k: nat, depth: nat, q: seq<nat>, maxDepth: nat, text: string,
                               lower: Lower)
  {
    && k < |node.children| && node.children[k].Some?
    && Carries(node.children[k].value, depth, q, maxDepth, text, lower)
  }

  ghost predicate IsCarriedFrom(node: Node, i: nat, depth: nat, maxDepth: nat, text: string, lower: Lower) {
    exists k, q :: i <= k && ChildCarries(node, k, depth, q, maxDepth, text, lower)
  }

  lemma CarriedIff(node: Node, depth: nat, maxDepth: nat, text: string, lower: Lower)
    ensures IsCarried(node, depth, maxDepth, text, lower) <==>
      || Carries(node, depth, [], maxDepth, text, lower)
      || IsCarriedFrom(node, 0, depth + 1, maxDepth, text, lower)
  {
    if q :| Carries(node, depth, q, maxDepth, text, lower) && q != [] {
      assert ChildCarries(node, q[0], depth + 1, q[1..], maxDepth, text, lower);
    }
    var below := depth + 1;
    if k: nat, q :| ChildCarries(node, k, below, q, maxDepth, text, lower) {
      PathBelow(node, k, q);
      assert Carries(node, depth, [k] + q, maxDepth, text, lower);
    }
  }

  lemma CarriedNext(node: Node, i: nat, depth: nat, maxDepth: nat, text: string, lower: Lower)
    requires i < |node.children|
    ensures IsCarriedFrom(node, i, depth, maxDepth, text, lower) <==>
      || (node.children[i].Some? && IsCarried(node.children[i].value, depth, maxDepth, text, lower))
      || IsCarriedFrom(node, i + 1, depth, maxDepth, text, lower)
  {
    hide Carries;
    if node.children[i].Some? {
      var child := node.children[i].value;
      if q :| Carries(child, depth, q, maxDepth, text, lower) {
        assert ChildCarries(node, i, depth, q, maxDepth, text, lower);
      }
    }
  }

  /** The names and values of the labels, in the order of the tree. */
  ghost function Texts(node: Node, depth: nat, maxDepth: nat, lower: Lower): seq<string>
    decreases node, |node.children| + 1
  {
    if depth > maxDepth then []
    else (if IsTextRole(lower(node.role)) then [node.name, node.value] else [])
         + TextsFrom(node, 0, depth + 1, maxDepth, lower)
  }

  ghost function TextsFrom(node: Node, i: nat, depth: nat, maxDepth: nat, lower: Lower): seq<string>
    requires i <= |node.children|
    decreases node, |node.children| - i
  {
    if i == |node.children| then []
    else (if node.children[i].Some? then Texts(node.children[i].value, depth, maxDepth, lower) else [])
         + TextsFrom(node, i + 1, depth, maxDepth, lower)
  }

  /** The texts with single spaces in them, each where it first occurs, without the blank ones. */
  ghost function Distinct(texts: seq<string>): seq<string> {
    if texts == [] then []
    else
      var before, last := Distinct(texts[..|texts| - 1]), Collapse(texts[|texts| - 1]);
      if last == "" || last in before then before else before + [last]
  }

  ghost function Clipped(texts: seq<string>): seq<string> {
    seq(|texts|, i requires 0 <= i < |texts| => if |texts[i]| <= 80 then texts[i] else texts[i][..80])
  }

  ghost function First(texts: seq<string>, limit: nat): seq<string> {
    if |texts| <= limit then texts else texts[..limit]
  }

  /** The snippets are the first so many of the different texts, none longer than 80 characters. */
  lemma SnippetsAre(node: Node, limit: nat, maxDepth: nat, lower: Lower)
    ensures TextSnippets(node, limit, maxDepth, lower)
         == Clipped(First(Distinct(Texts(node, 0, maxDepth, lower)), limit))
  {
    hide CollectSnippets, Texts, Distinct;
    AllCollected(node, 0, limit, maxDepth, Snippets([], {}), lower);
    AllAdded(Texts(node, 0, maxDepth, lower), limit);
  }

  ghost function AddAll(st: Snippets, texts: seq<string>, limit: nat): Snippets {
    if texts == [] then st else AddSnippet(AddAll(st, texts[..|texts| - 1], limit), texts[|texts| - 1], limit)
  }

  lemma {:induction false} AddAllJoined(st: Snippets, a: seq<string>, b: seq<string>, limit: nat)
    ensures AddAll(st, a + b, limit) == AddAll(AddAll(st, a, limit), b, limit)
    decreases |b|
  {
    hide AddSnippet;
    if b == [] {
      assert a + b == a;
    } else {
      assert (a + b)[|a + b| - 1] == b[|b| - 1] && (a + b)[..|a + b| - 1] == a + b[..|b| - 1];
      AddAllJoined(st, a, b[..|b| - 1], limit);
    }
  }

  lemma {:induction false} AddAllFull(st: Snippets, texts: seq<string>, limit: nat)
    requires |st.values| >= limit
    ensures AddAll(st, texts, limit) == st
  {
    if texts != [] {
      AddAllFull(st, texts[..|texts| - 1], limit);
    }
  }

  lemma {:induction false} AllAdded(texts: seq<string>, limit: nat)
    ensures var st, first := AddAll(Snippets([], {}), texts, limit), First(Distinct(texts), limit);
            st.values == Clipped(first) && forall t :: t in st.seen <==> t in first
  {
    hide Collapse;
    if texts != [] {
      AllAdded(texts[..|texts| - 1], limit);
    }
  }

  lemma {:induction false} AllCollected(node: Node, depth: nat, limit: nat, maxDepth: nat, st: Snippets, lower: Lower)
    ensures CollectSnippets(node, depth, limit, maxDepth, st, lower)
         == AddAll(st, Texts(node, depth, maxDepth, lower), limit)
    decreases node, |node.children| + 1
  {
    hide AddSnippet, CollectFromChildren, TextsFrom;
    if |st.values| >= limit {
      AddAllFull(st, Texts(node, depth, maxDepth, lower), limit);
    } else if depth <= maxDepth {
      var own := if IsTextRole(lower(node.role)) then [node.name, node.value] else [];
      OwnAdded(st, node, limit);
      AddAllJoined(st, own, TextsFrom(node, 0, depth + 1, maxDepth, lower), limit);
      AllCollectedFrom(node, 0, depth + 1, limit, maxDepth, AddAll(st, own, limit), lower);
    }
  }

  lemma OwnAdded(st: Snippets, node: Node, limit: nat)
    ensures AddAll(st, [node.name, node.value], limit)
         == AddSnippet(AddSnippet(st, node.name, limit), node.value, limit)
    ensures AddAll(st, [], limit) == st
  {
    hide AddSnippet;
    assert AddAll(st, [node.name], limit) == AddSnippet(st, node.name, limit) by {
      assert [node.name][..0] == [];
    }
    assert [node.name, node.value][..1] == [node.name];
  }

  lemma {:induction false} AllCollectedFrom(node: Node, i: nat, depth: nat, limit: nat, maxDepth: nat, st: Snippets,
                                            lower: Lower)
    requires i <= |node.children|
    ensures CollectFromChildren(node, i, depth, limit, maxDepth, st, lower)
         == AddAll(st, TextsFrom(node, i, depth, maxDepth, lower), limit)
    decreases node, |node.children| - i
  {
    hide AddSnippet, CollectSnippets, Texts;
    if |st.values| >= limit {
      AddAllFull(st, TextsFrom(node, i, depth, maxDepth, lower), limit);
    } else if i < |node.children| {
      var rest := TextsFrom(node, i + 1, depth, maxDepth, lower);
      if node.children[i].None? {
        assert [] + rest == rest;
        AllCollectedFrom(node, i + 1, depth, limit, maxDepth, st, lower);
      } else {
        var child := node.children[i].value;
        AllCollected(child, depth, limit, maxDepth, st, lower);
        AddAllJoined(st, Texts(child, depth, maxDepth, lower), rest, limit);
        AllCollectedFrom(node, i + 1, depth, limit, maxDepth,
                         AddAll(st, Texts(child, depth, maxDepth, lower), limit), lower);
      }
    }
  }

  /** One of the texts reads so. */
  ghost predicate IsAmong(texts: seq<string>, text: string) {
    text != "" && exists raw :: raw in texts && Collapse(raw) == text
  }

  lemma {:induction false} DistinctAre(texts: seq<string>)
    ensures forall i, j :: 0 <= i < j < |Distinct(texts)| ==> Distinct(texts)[i] != Distinct(texts)[j]
    ensures forall t :: t in Distinct(texts) <==> IsAmong(texts, t)
  {
    hide Collapse;
    if texts != [] {
      var before := texts[..|texts| - 1];
      DistinctAre(before);
      assert texts == before + [texts[|texts| - 1]];
    }
  }

  lemma AmongJoined(a: seq<string>, b: seq<string>, text: string)
    ensures IsAmong(a + b, text) <==> IsAmong(a, text) || IsAmong(b, text)
  {
    hide Collapse;
  }

  lemma {:induction false} CarriedAmong(node: Node, depth: nat, maxDepth: nat, text: string, lower: Lower)
    ensures IsAmong(Texts(node, depth, maxDepth, lower), text) <==> IsCarried(node, depth, maxDepth, text, lower)
    decreases node, |node.children| + 1
  {
    hide TextsFrom, IsAmong, IsCarried, IsCarriedFrom, Carries;
    if depth > maxDepth {
      NothingTooDeep(node, depth, maxDepth, text, lower);
    } else {
      var own := if IsTextRole(lower(node.role)) then [node.name, node.value] else [];
      AmongJoined(own, TextsFrom(node, 0, depth + 1, maxDepth, lower), text);
      OwnAmong(node, depth, maxDepth, text, lower);
      CarriedAmongFrom(node, 0, depth + 1, maxDepth, text, lower);
      CarriedIff(node, depth, maxDepth, text, lower);
    }
  }

  lemma NothingTooDeep(node: Node, depth: nat, maxDepth: nat, text: string, lower: Lower)
    requires depth > maxDepth
    ensures !IsAmong([], text) && !IsCarried(node, depth, maxDepth, text, lower)
  {
  }

  lemma OwnAmong(node: Node, depth: nat, maxDepth: nat, text: string, lower: Lower)
    requires depth <= maxDepth
    ensures IsAmong(if IsTextRole(lower(node.role)) then [node.name, node.value] else [], text) <==>
            Carries(node, depth, [], maxDepth, text, lower)
  {
    hide Collapse, IsTextRole;
    if IsTextRole(lower(node.role)) && (text == Collapse(node.name) || text == Collapse(node.value)) {
      assert node.name in [node.name, node.value] && node.value in [node.name, node.value];
    }
  }

  lemma {:induction false} CarriedAmongFrom(node: Node, i: nat, depth: nat, maxDepth: nat, text: string, lower: Lower)
    requires i <= |node.children|
    ensures IsAmong(TextsFrom(node, i, depth, maxDepth, lower), text) <==>
            IsCarriedFrom(node, i, depth, maxDepth, text, lower)
    decreases node, |node.children| - i
  {
    hide Texts, IsAmong, IsCarried, Carries;
    if i == |node.children| {
      NoneAmong(text);
    } else {
      hide IsCarriedFrom;
      var rest := TextsFrom(node, i + 1, depth, maxDepth, lower);
      CarriedAmongFrom(node, i + 1, depth, maxDepth, text, lower);
      CarriedNext(node, i, depth, maxDepth, text, lower);
      if node.children[i].Some? {
        var child := node.children[i].value;
        CarriedAmong(child, depth, maxDepth, text, lower);
        AmongJoined(Texts(child, depth, maxDepth, lower), rest, text);
      } else {
        assert [] + rest == rest;
      }
    }
  }

  lemma NoneAmong(text: string)
    ensures !IsAmong([], text)
  {
  }

  // ---------- Summaries ----------

  /** A nameless container of nothing but plain elements that carry at least two different texts. */
  ghost predicate IsSummarised(node: Node, lower: Lower) {
    && IsContainerRole(lower(node.role)) && node.name == "" && node.value == ""
    && IsPlainSubtree(node, 0, lower)
    && exists s, t :: s != t && IsCarried(node, 0, 4, s, lower) && IsCarried(node, 0, 4, t, lower)
  }

  lemma TwoTextsIff(node: Node, lower: Lower)
    ensures |TextSnippets(node, 8, 4, lower)| >= 2 <==>
      exists s, t :: s != t && IsCarried(node, 0, 4, s, lower) && IsCarried(node, 0, 4, t, lower)
    ensures forall v :: v in TextSnippets(node, 8, 4, lower) ==> v != ""
  {
    hide IsCarried, Texts, Distinct, TextSnippets;
    var texts := Texts(node, 0, 4, lower);
    var all := Distinct(texts);
    SnippetsAre(node, 8, 4, lower);
    DistinctAre(texts);
    forall t ensures t in all <==> IsCarried(node, 0, 4, t, lower) {
      CarriedAmong(node, 0, 4, t, lower);
    }
    if |all| >= 2 {
      assert all[0] in all && all[1] in all;
    }
    assert forall v :: v in TextSnippets(node, 8, 4, lower) ==> v != "" by {
      assert forall i :: 0 <= i < |all| ==> all[i] in all;
    }
  }

  /** A subtree is summarised exactly then, and the summary says something. */
  lemma SummarisedIff(node: Node, lower: Lower)
    ensures Summary(node, lower).Some? <==> IsSummarised(node, lower)
    ensures Summary(node, lower).Some? ==> Summary(node, lower).value != ""
  {
    hide IsPlain, IsPlainSubtree, TextSnippets, HasText, IsCarried;
    PlainIff(node, 0, lower);
    TwoTextsIff(node, lower);
    if s :| IsCarried(node, 0, 4, s, lower) {
      CarriedHasText(node, s, lower);
    }
    JoinedBlankIff(TextSnippets(node, 8, 4, lower));
  }

  lemma CarriedHasText(node: Node, text: string, lower: Lower)
    requires IsCarried(node, 0, 4, text, lower)
    ensures HasText(node, lower)
  {
    var q :| Carries(node, 0, q, 4, text, lower);
    TextRoleAt(node, q, lower);
  }

  lemma {:induction false} TextRoleAt(node: Node, q: seq<nat>, lower: Lower)
    requires FindByPath(node, q).Some? && IsTextRole(lower(FindByPath(node, q).value.role))
    ensures HasText(node, lower)
    decreases |q|
  {
    if q != [] {
      TextRoleAt(node.children[q[0]].value, q[1..], lower);
    }
  }

  // ---------- Elements that stand for their subtrees, and bare containers ----------

  ghost predicate HasLabel(node: Node) {
    node.name != "" || node.accessibleId != "" || exists c :: c in node.value && !IsSpace(c)
  }

  /** Its children are not shown: their texts sum it up, or it is a control whose label says enough. */
  ghost predicate StandsForSubtree(node: Node, lower: Lower) {
    || IsSummarised(node, lower)
    || (HasLabel(node)
        && lower(node.role) in {"button", "check box", "checkbox", "combo box", "heading", "link", "menu item",
                                "page tab", "push button", "radio button"})
  }

  lemma EndsAtIff(node: Node, lower: Lower)
    ensures EndsAt(node, lower) <==> StandsForSubtree(node, lower)
  {
    hide Summary, IsSummarised, Collapse;
    SummarisedIff(node, lower);
    BlankIff(node.value);
  }

  /** It is left out: a container without name, identifier, value, summary and actions, and with at most one
      readable child. */
  ghost predicate IsBareContainer(node: Node, lower: Lower) {
    && IsContainerRole(lower(node.role)) && node.name == "" && node.accessibleId == "" && node.value == ""
    && (forall a :: a in node.actions ==> !SaysSomething(a, lower))
    && !IsSummarised(node, lower)
    && forall i, j :: 0 <= i < j < |node.children| ==> node.children[i].None? || node.children[j].None?
  }

  lemma ShouldElideIff(node: Node, lower: Lower)
    ensures ShouldElide(node, lower) <==> IsBareContainer(node, lower)
  {
    hide Summary, IsSummarised, MeaningfulActions, SaysSomething;
    SummarisedIff(node, lower);
    MeaningfulAre(node.actions, lower);
    AtMostOneIff(node.children);
  }

  lemma {:induction false} AtMostOneIff(children: seq<Option<Node>>)
    ensures ChildCount(children) == 0 <==> forall i :: 0 <= i < |children| ==> children[i].None?
    ensures ChildCount(children) <= 1 <==>
      forall i, j :: 0 <= i < j < |children| ==> children[i].None? || children[j].None?
  {
    if children != [] {
      var rest := children[1..];
      AtMostOneIff(rest);
      assert forall i :: 0 < i < |children| ==> children[i] == rest[i - 1];
      if forall i, j :: 0 <= i < j < |children| ==> children[i].None? || children[j].None? {
        assert forall i, j :: 0 <= i < j < |rest| ==> rest[i] == children[i + 1] && rest[j] == children[j + 1];
        assert children[0].Some? ==> forall i :: 0 <= i < |rest| ==> rest[i] == children[i + 1];
      }
    }
  }

  // ---------- The line ----------

  /** A line says, after the tabs: the index, the role and the name or else the identifier; then the value, unless
      it is blank or just that; then the texts of a summarised container or of a row; then the actions. */
  lemma LineReads(node: Node, index: nat, depth: nat, lower: Lower)
    ensures var title := if node.name != "" then node.name else node.accessibleId;
            var value := if (forall c :: c in node.value ==> IsSpace(c)) || Collapse(node.value) == title then ""
                         else if lower(node.role) in {"label", "static", "static text", "text", "entry", "text entry"}
                           then " " + Collapse(node.value)
                         else ", Value: " + Collapse(node.value);
            var summary, row := Join(TextSnippets(node, 8, 4, lower), " "), Join(TextSnippets(node, 6, 3, lower), " ");
            var text := if IsSummarised(node, lower) && summary != title then ", Text: " + Collapse(summary)
                        else if lower(node.role) in {"row", "table row", "list item"} && row != "" && row != title
                          then ", Text: " + Collapse(row)
                        else "";
            var actions := if (forall a :: a in node.actions ==> !SaysSomething(a, lower)) then ""
                           else ", Secondary Actions: "
                                + Join(DisplayActions(MeaningfulActions(node.actions, lower)), ", ");
            LineOf(node, index, depth, lower) ==
              Tabs(depth) + (RStrip(Decimal(index) + (" " + node.role + " " + Collapse(title)))
                             + (value + text + actions))
  {
    hide IsSummarised, Summary, TextSnippets, MeaningfulActions, SaysSomething, Collapse, Join, DisplayActions, RStrip;
    hide Decimal, Tabs;
    SummarisedIff(node, lower);
    SummaryIs(node, lower);
    MeaningfulAre(node.actions, lower);
    BlankIff(node.value);
  }

  lemma SummaryIs(node: Node, lower: Lower)
    ensures Summary(node, lower).Some? ==>
      Summary(node, lower).value == Join(TextSnippets(node, 8, 4, lower), " ") && IsContainerRole(lower(node.role))
  {
    hide IsPlain, TextSnippets, HasText, Join;
  }

  // ---------- Which lines are tab lines ----------

  /** One of the three roles, or one of them and then a space, a parenthesis or a comma. */
  ghost predicate IsTabRole(role: string) {
    exists k :: 0 <= k <= |role|
      && (Spells(role[..k], "page tab") || Spells(role[..k], "tab item") || Spells(role[..k], "tab"))
      && (k == |role| || role[k] == ' ' || role[k] == '(' || role[k] == ',')
  }

  /** A role that does not end in space is told from the line, except for "page", where the title is read on. */
  lemma TabLineIff(node: Node, index: nat, depth: nat, lower: Lower)
    requires node.role != "" && !IsSpace(node.role[|node.role| - 1]) && !Spells(node.role, "page")
    ensures IsTabLine(LineOf(node, index, depth, lower), depth) <==> IsTabRole(node.role)
  {
    hide LineOf, Decimal, DigitRun, Tabs, RoleThenBreak, IsTabRole, Spells;
    var line := LineOf(node, index, depth, lower);
    var more := LineSplits(node, index, depth, lower);
    var rest := " " + (node.role + more);
    assert line[depth..] == Decimal(index) + rest;
    DigitRunIs(Decimal(index), rest);
    assert rest[1..] == node.role + more;
    assert (Decimal(index) + rest)[|Decimal(index)| + 1..] == node.role + more;
    TabRoleIff(node.role, more);
  }

  /** After the number a line goes on with the role and then a space or a comma. */
  lemma LineSplits(node: Node, index: nat, depth: nat, lower: Lower) returns (more: string)
    requires node.role != "" && !IsSpace(node.role[|node.role| - 1])
    ensures LineOf(node, index, depth, lower) == Tabs(depth) + (Decimal(index) + (" " + (node.role + more)))
    ensures more == "" || more[0] == ' ' || more[0] == ','
  {
    hide Decimal, RStrip, FormattedValue, ExtraText, ActionText, Collapse, Title, Tabs;
    var head := Decimal(index) + (" " + node.role);
    var title := " " + Collapse(Title(node));
    var full := Decimal(index) + (" " + node.role + title);
    var suffix := FormattedValue(node, lower) + ExtraText(node, lower) + ActionText(node, lower);
    SuffixStart(node, lower);
    assert full == head + title && full[|head| - 1] == node.role[|node.role| - 1];
    assert full == Decimal(index) + (" " + node.role + " " + Collapse(Title(node)));
    var stripped := RStrip(full);
    assert head <= stripped <= full;
    var rest := stripped[|head|..];
    assert rest <= title by {
      assert full[|head|..] == title;
    }
    more := rest + suffix;
    assert stripped + suffix == head + more;
  }

  lemma TabRoleIff(role: string, more: string)
    requires role != "" && !IsSpace(role[|role| - 1]) && !Spells(role, "page")
    requires more == "" || more[0] == ' ' || more[0] == ','
    ensures var s := role + more;
            RoleThenBreak(s, "page tab") || RoleThenBreak(s, "tab item") || RoleThenBreak(s, "tab")
            <==> IsTabRole(role)
  {
    hide RoleThenBreak, IsTabRole;
    var s := role + more;
    if RoleThenBreak(s, "page tab") {
      RoleEnds(role, more, "page tab");
    } else if RoleThenBreak(s, "tab item") {
      RoleEnds(role, more, "tab item");
    } else if RoleThenBreak(s, "tab") {
      RoleEnds(role, more, "tab");
    } else if IsTabRole(role) {
      RoleGoesOn(role, more);
    }
  }

  lemma RoleGoesOn(role: string, more: string)
    requires IsTabRole(role) && (more == "" || more[0] == ' ' || more[0] == ',')
    ensures var s := role + more;
            RoleThenBreak(s, "page tab") || RoleThenBreak(s, "tab item") || RoleThenBreak(s, "tab")
  {
    hide RoleThenBreak, Spells;
    var k :| 0 <= k <= |role|
      && (Spells(role[..k], "page tab") || Spells(role[..k], "tab item") || Spells(role[..k], "tab"))
      && (k == |role| || role[k] == ' ' || role[k] == '(' || role[k] == ',');
    var rest := role[k..] + more;
    assert role + more == role[..k] + rest;
    RoleReads(role[..k], rest);
  }

  lemma RoleEnds(role: string, more: string, r: string)
    requires role != "" && !IsSpace(role[|role| - 1]) && !Spells(role, "page")
    requires more == "" || more[0] == ' ' || more[0] == ','
    requires r in {"page tab", "tab item", "tab"} && RoleThenBreak(role + more, r)
    ensures IsTabRole(role)
  {
    var s := role + more;
    assert forall i :: 0 <= i < |role| ==> s[i] == role[i];
    if |r| <= |role| {
      assert Spells(role[..|r|], r);
      assert s[|r|..] == role[|r|..] + more;
    } else {
      assert s[|role|] == more[0] && SameLetter(more[0], r[|role|]);
      assert r[|role|] == ' ';
      assert r == "tab item" && |role| == 3;
      assert role[..3] == role && Spells(role, "tab");
    }
  }
}
