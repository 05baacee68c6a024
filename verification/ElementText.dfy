/**
  What the rendering says of one accessible element: its record, its line, whether it is left out as a bare
  container, and whether it stands for its whole subtree.
 */
module ElementText {
  import opened Digits
  import opened Options
  import opened PythonText
  import opened TabCompaction

  /** An accessible element as the bridge reads it. `id` is its identity; a child that cannot be read is None. */
  datatype Node = Node(id: nat, role: string, name: string, accessibleId: string, value: string,
                       isSelected: bool, actions: seq<string>, children: seq<Option<Node>>)

  /** Python's str.lower, left open. */
  type Lower = string -> string

  /** The element that a path of child indexes leads to. */
  function FindByPath(app: Node, path: seq<nat>): Option<Node>
    decreases |path|
  {
    if path == [] then Some(app)
    else if path[0] < |app.children| && app.children[path[0]].Some?
      then FindByPath(app.children[path[0]].value, path[1..])
    else None
  }

  // ---------- What a record and a line say ----------

  function RecordOf(node: Node, index: nat, path: seq<nat>): Record {
    Record(index, path, node.accessibleId, node.name, node.role, node.value, node.isSelected, node.actions)
  }

  const TEXT_ROLES := {"label", "static", "static text", "text", "link"}
  const CONTAINER_ROLES := {"panel", "filler", "unknown", "section"}
  const NOISY_ACTIONS := {"click", "press", "show default ui", "show alternate ui", "show menu",
                          "scroll to visible", "raise"}
  const COMPACT_ROLES := {"button", "check box", "checkbox", "combo box", "heading", "link", "menu item", "page tab",
                          "push button", "radio button"}

  function MeaningfulActions(actions: seq<string>, lower: Lower): seq<string> {
    if actions == [] then []
    else
      (if lower(Strip(actions[0])) in NOISY_ACTIONS then [] else [actions[0]]) + MeaningfulActions(actions[1..], lower)
  }

  function DisplayAction(action: string): string {
    Collapse(seq(|action|, i requires 0 <= i < |action| => if action[i] == '_' then ' ' else action[i]))
  }

  function DisplayActions(actions: seq<string>): seq<string> {
    seq(|actions|, i requires 0 <= i < |actions| => DisplayAction(actions[i]))
  }

  // text_snippets: up to `limit` distinct texts of the subtree, in order
  datatype Snippets = Snippets(values: seq<string>, seen: set<string>)

  function AddSnippet(st: Snippets, raw: string, limit: nat): Snippets {
    var value := Collapse(raw);
    if |st.values| >= limit || value == "" || value in st.seen then st
    else Snippets(st.values + [if |value| <= 80 then value else value[..80]], st.seen + {value})
  }

  function CollectSnippets(node: Node, depth: nat, limit: nat, maxDepth: nat, st: Snippets, lower: Lower): Snippets
    decreases node, |node.children| + 1
  {
    if |st.values| >= limit || depth > maxDepth then st
    else
      var st' := if lower(node.role) in TEXT_ROLES then AddSnippet(AddSnippet(st, node.name, limit), node.value, limit)
                 else st;
      CollectFromChildren(node, 0, depth + 1, limit, maxDepth, st', lower)
  }

  function CollectFromChildren(node: Node, i: nat, depth: nat, limit: nat, maxDepth: nat,
                               st: Snippets, lower: Lower): Snippets
    requires i <= |node.children|
    decreases node, |node.children| - i
  {
    if i == |node.children| || |st.values| >= limit then st
    else
      var st' := if node.children[i].None? then st
                 else CollectSnippets(node.children[i].value, depth, limit, maxDepth, st, lower);
      CollectFromChildren(node, i + 1, depth, limit, maxDepth, st', lower)
  }

  function TextSnippets(node: Node, limit: nat, maxDepth: nat, lower: Lower): seq<string> {
    CollectSnippets(node, 0, limit, maxDepth, Snippets([], {}), lower).values
  }

  predicate IsPlain(node: Node, depth: nat, lower: Lower) {
    && depth <= 4
    && lower(node.role) in CONTAINER_ROLES + TEXT_ROLES + {"image"}
    && MeaningfulActions(node.actions, lower) == []
    && forall i :: 0 <= i < |node.children| && node.children[i].Some? ==>
         IsPlain(node.children[i].value, depth + 1, lower)
  }

  predicate HasText(node: Node, lower: Lower) {
    || lower(node.role) in TEXT_ROLES
    || exists i :: 0 <= i < |node.children| && node.children[i].Some? && HasText(node.children[i].value, lower)
  }

  /** The text that stands for a whole subtree of labels, if it is one. */
  function Summary(node: Node, lower: Lower): Option<string> {
    var values := TextSnippets(node, 8, 4, lower);
    if lower(node.role) in CONTAINER_ROLES && node.name == "" && node.value == "" && |values| >= 2
       && IsPlain(node, 0, lower) && HasText(node, lower)
    then Some(Join(values, " ")) else None
  }

  function ChildCount(children: seq<Option<Node>>): nat {
    if children == [] then 0 else (if children[0].Some? then 1 else 0) + ChildCount(children[1..])
  }

  predicate ShouldElide(node: Node, lower: Lower) {
    && lower(node.role) in CONTAINER_ROLES
    && node.name == "" && node.accessibleId == "" && node.value == ""
    && MeaningfulActions(node.actions, lower) == []
    && Summary(node, lower).None?
    && ChildCount(node.children) <= 1
  }

  function Title(node: Node): string {
    if node.name != "" then node.name else node.accessibleId
  }

  /** The children of a recorded element are not walked: they are summarised, or its label says enough. */
  predicate EndsAt(node: Node, lower: Lower) {
    var summary := Summary(node, lower);
    || (summary.Some? && summary.value != "")
    || (lower(node.role) in COMPACT_ROLES && (Title(node) != "" || Collapse(node.value) != ""))
  }

  function FormattedValue(node: Node, lower: Lower): string {
    var clean := Collapse(node.value);
    if clean == "" || clean == Title(node) then ""
    else if lower(node.role) in {"label", "static", "static text", "text", "entry", "text entry"} then " " + clean
    else ", Value: " + clean
  }

  function ExtraText(node: Node, lower: Lower): string {
    var summary := Summary(node, lower);
    if summary.Some? && summary.value != "" && summary.value != Title(node) then ", Text: " + Collapse(summary.value)
    else if lower(node.role) in {"row", "table row", "list item"} then
      var row := Join(TextSnippets(node, 6, 3, lower), " ");
      if row != "" && row != Title(node) then ", Text: " + Collapse(row) else ""
    else ""
  }

  function ActionText(node: Node, lower: Lower): string {
    var actions := MeaningfulActions(node.actions, lower);
    if actions == [] then "" else ", Secondary Actions: " + Join(DisplayActions(actions), ", ")
  }

  function LineOf(node: Node, index: nat, depth: nat, lower: Lower): string {
    Tabs(depth)
    + (RStrip(Decimal(index) + (" " + node.role + " " + Collapse(Title(node))))
       + (FormattedValue(node, lower) + ExtraText(node, lower) + ActionText(node, lower)))
  }

  lemma SuffixStart(node: Node, lower: Lower)
    ensures var suffix := FormattedValue(node, lower) + ExtraText(node, lower) + ActionText(node, lower);
            suffix == "" || suffix[0] == ' ' || suffix[0] == ','
  {
    hide Summary, TextSnippets, Collapse, Join, DisplayActions, MeaningfulActions;
  }

  /** The number that starts a record's line is the record's index. */
  lemma LineShowsIndex(node: Node, index: nat, depth: nat, lower: Lower)
    ensures RenderedIndex(LineOf(node, index, depth, lower), depth) == Some(index)
  {
    hide Decimal, RStrip, FormattedValue, ExtraText, ActionText, Collapse, Title, Tabs, DigitRun, ParseDecimal;
    var head := Decimal(index);
    var title := " " + node.role + " " + Collapse(Title(node));
    var stripped := RStrip(head + title);
    var suffix := FormattedValue(node, lower) + ExtraText(node, lower) + ActionText(node, lower);
    SuffixStart(node, lower);
    assert !IsSpace((head + title)[|head| - 1]);
    var rest := stripped[|head|..];
    assert stripped == head + rest && rest <= title by {
      assert stripped <= head + title;
      assert (head + title)[..|head|] == head && (head + title)[|head|..] == title;
    }
    assert stripped + suffix == head + (rest + suffix);
    DigitRunIs(head, rest + suffix);
    assert (head + (rest + suffix))[..|head|] == head;
    assert LineOf(node, index, depth, lower)[depth..] == head + (rest + suffix);
    ParsePrinted(index);
  }
}
