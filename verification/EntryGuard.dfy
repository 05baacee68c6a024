/** The build guard: which chunks a plain-Node entry reaches, and whether one of them requires electron. */
module EntryGuard {
  import opened JavaScriptText
  import opened Options

  datatype Chunk = Chunk(fileName: string, imports: seq<string>, dynamicImports: seq<string>, code: string)

  type Bundle = map<string, Chunk>

  // ---------- Reachability ----------

  predicate HasImport(chunk: Chunk, name: string) {
    name in chunk.imports || name in chunk.dynamicImports
  }

  /** A path through chunks of the bundle along their imports. */
  ghost predicate IsPath(path: seq<string>, bundle: Bundle) {
    && path != []
    && (forall i :: 0 <= i < |path| ==> path[i] in bundle)
    && (forall i :: 0 <= i < |path| - 1 ==> HasImport(bundle[path[i]], path[i + 1]))
  }

  ghost predicate Reachable(entry: string, name: string, bundle: Bundle) {
    exists path :: IsPath(path, bundle) && path[0] == entry && path[|path| - 1] == name
  }

  lemma EntryReachable(entry: string, bundle: Bundle)
    requires entry in bundle
    ensures Reachable(entry, entry, bundle)
  {
    assert IsPath([entry], bundle);
  }

  lemma ImportReachable(entry: string, name: string, imported: string, bundle: Bundle)
    requires Reachable(entry, name, bundle) && imported in bundle
    requires name in bundle && HasImport(bundle[name], imported)
    ensures Reachable(entry, imported, bundle)
  {
    var path :| IsPath(path, bundle) && path[0] == entry && path[|path| - 1] == name;
    assert IsPath(path + [imported], bundle);
  }

  /** A set that holds the entry and is closed under imports holds everything reachable. */
  lemma {:induction false} ClosedHoldsPath(path: seq<string>, names: set<string>, bundle: Bundle)
    requires IsPath(path, bundle) && path[0] in names
    requires forall n, e :: n in names && n in bundle && e in bundle && HasImport(bundle[n], e) ==> e in names
    ensures path[|path| - 1] in names
    decreases |path|
  {
    if |path| > 1 {
      assert HasImport(bundle[path[0]], path[1]);
      ClosedHoldsPath(path[1..], names, bundle);
    }
  }

  ghost predicate NoRepeats(names: seq<string>) {
    forall i, j :: 0 <= i < j < |names| ==> names[i] != names[j]
  }

  /** The names still to be looked at lead nowhere but to reachable chunks, and nothing is forgotten. */
  ghost predicate Explored(entry: string, bundle: Bundle, seen: set<string>, stack: seq<string>, names: seq<string>) {
    && NoRepeats(names)
    && (forall n :: n in names <==> n in seen && n in bundle)
    && (forall n :: n in bundle && (n in seen || n in stack) ==> Reachable(entry, n, bundle))
    && (entry in seen || entry in stack)
    && (forall n, e :: n in names && HasImport(bundle[n], e) ==> e in seen || e in stack)
  }

  ghost predicate AreChunks(chunks: seq<Chunk>, names: seq<string>, bundle: Bundle) {
    |chunks| == |names| && forall i :: 0 <= i < |names| ==> names[i] in bundle && chunks[i] == bundle[names[i]]
  }

  lemma PopSeen(entry: string, bundle: Bundle, seen: set<string>, stack: seq<string>, names: seq<string>, n: string)
    requires Explored(entry, bundle, seen, stack + [n], names) && (n in seen || n !in bundle)
    ensures Explored(entry, bundle, seen + {n}, stack, names)
  {
    hide Reachable;
    assert forall m :: m in stack + [n] <==> m in stack || m == n;
  }

  lemma PopKnown(entry: string, bundle: Bundle, seen: set<string>, stack: seq<string>, names: seq<string>, n: string)
    requires Explored(entry, bundle, seen, stack + [n], names) && n !in seen && n in bundle
    ensures Explored(entry, bundle, seen + {n}, stack + (bundle[n].imports + bundle[n].dynamicImports), names + [n])
  {
    hide Reachable;
    var imported := bundle[n].imports + bundle[n].dynamicImports;
    assert forall m :: m in stack + [n] <==> m in stack || m == n;
    assert forall m :: m in names + [n] <==> m in names || m == n;
    assert forall m :: m in stack + imported <==> m in stack || HasImport(bundle[n], m);
    forall e | e in bundle && HasImport(bundle[n], e) ensures Reachable(entry, e, bundle) {
      ImportReachable(entry, n, e, bundle);
    }
  }

  /** Any import graph will do: cycles, several edges to one chunk, imports of unknown files, an unknown entry. */
  method CollectReachableChunks(entry: string, bundle: Bundle) returns (reachable: seq<Chunk>)
    ensures exists names :: AreChunks(reachable, names, bundle) && NoRepeats(names)
                            && forall n :: n in names <==> Reachable(entry, n, bundle)
  {
    var seen: set<string> := {};
    reachable := [];
    ghost var names: seq<string> := [];
    var stack := [entry];
    if entry in bundle {
      EntryReachable(entry, bundle);
    }
    assert Explored(entry, bundle, seen, stack, names);
    hide Reachable, Explored, NoRepeats;
    while |stack| > 0
      invariant AreChunks(reachable, names, bundle)
      invariant Explored(entry, bundle, seen, stack, names)
      decreases bundle.Keys - seen, |stack|
    {
      var fileName := stack[|stack| - 1];
      assert stack == stack[..|stack| - 1] + [fileName];
      stack := stack[..|stack| - 1];
      if fileName in seen {
        PopSeen(entry, bundle, seen, stack, names, fileName);
        assert seen + {fileName} == seen;
        continue;
      }
      if fileName in bundle {
        PopKnown(entry, bundle, seen, stack, names, fileName);
      } else {
        PopSeen(entry, bundle, seen, stack, names, fileName);
      }
      seen := seen + {fileName};
      if fileName !in bundle {
        continue;
      }
      var chunk := bundle[fileName];
      reachable := reachable + [chunk];
      names := names + [fileName];
      stack := PushAll(stack, chunk.imports + chunk.dynamicImports);
    }
    assert NoRepeats(names) by {
      NamesOnce(entry, bundle, seen, stack, names);
    }
    NothingForgotten(entry, bundle, seen, names);
  }

  method PushAll(stack: seq<string>, imported: seq<string>) returns (pushed: seq<string>)
    ensures pushed == stack + imported
  {
    pushed := stack;
    for i := 0 to |imported|
      invariant pushed == stack + imported[..i]
    {
      pushed := pushed + [imported[i]];
      assert imported[..i + 1] == imported[..i] + [imported[i]];
    }
    assert imported[..|imported|] == imported;
  }

  lemma NamesOnce(entry: string, bundle: Bundle, seen: set<string>, stack: seq<string>, names: seq<string>)
    requires Explored(entry, bundle, seen, stack, names)
    ensures NoRepeats(names)
  {
  }

  lemma NothingForgotten(entry: string, bundle: Bundle, seen: set<string>, names: seq<string>)
    requires Explored(entry, bundle, seen, [], names)
    ensures forall n :: n in names <==> Reachable(entry, n, bundle)
  {
    forall n | Reachable(entry, n, bundle) ensures n in names {
      var path :| IsPath(path, bundle) && path[0] == entry && path[|path| - 1] == n;
      ClosedHoldsPath(path, seen, bundle);
    }
  }

  // ---------- The electron test ----------

  predicate IsQuote(c: char) {
    c == '"' || c == '\''
  }

  /** The text starts with a call that requires electron. */
  predicate RequiresElectronHere(s: string) {
    |s| >= 8 && s[..8] == "require(" &&
    var i := SpacesEnd(s, 8);
    i + 10 <= |s| && IsQuote(s[i]) && s[i + 1..i + 9] == "electron" && IsQuote(s[i + 9]) &&
    var j := SpacesEnd(s, i + 10);
    j < |s| && s[j] == ')'
  }

  predicate RequiresElectron(code: string) {
    RequiresElectronHere(code) || (code != [] && RequiresElectron(code[1..]))
  }

  predicate AllSpace(s: string, i: nat, j: nat)
    requires i <= j <= |s|
  {
    forall k :: i <= k < j ==> IsSpace(s[k])
  }

  /** The pattern as it is written: `require(`, spaces up to i, the quoted word electron, spaces up to j, and `)`. */
  ghost predicate IsElectronCall(s: string, i: nat, j: nat) {
    && 8 <= i && i + 10 <= j < |s|
    && s[..8] == "require(" && AllSpace(s, 8, i)
    && s[i] in {'"', '\''} && s[i + 1..i + 9] == "electron" && s[i + 9] in {'"', '\''}
    && AllSpace(s, i + 10, j) && s[j] == ')'
  }

  lemma CallHereIff(s: string)
    ensures RequiresElectronHere(s) <==> exists i, j :: 0 <= i && 0 <= j && IsElectronCall(s, i, j)
  {
    forall i, j | 0 <= i && 0 <= j && IsElectronCall(s, i, j) ensures RequiresElectronHere(s) {
      SpacesEndIs(s, 8, i);
      SpacesEndIs(s, i + 10, j);
    }
    if RequiresElectronHere(s) {
      var i := SpacesEnd(s, 8);
      var j := SpacesEnd(s, i + 10);
      assert IsElectronCall(s, i, j);
    }
  }

  lemma SpacesEndIs(s: string, i: nat, j: nat)
    requires i <= j < |s| && AllSpace(s, i, j) && !IsSpace(s[j])
    ensures SpacesEnd(s, i) == j
  {
    var r := SpacesEnd(s, i);
  }

  /** The test finds a call iff there is one, anywhere in the code. */
  lemma {:induction false} RequiresElectronIff(code: string)
    ensures RequiresElectron(code) <==>
      exists k, i, j :: 0 <= k <= |code| && 0 <= i && 0 <= j && IsElectronCall(code[k..], i, j)
  {
    forall k, i, j | 0 <= k <= |code| && 0 <= i && 0 <= j && IsElectronCall(code[k..], i, j)
      ensures RequiresElectron(code) {
      CallHereIff(code[k..]);
      FoundLater(code, k);
    }
    if RequiresElectron(code) {
      var k := FoundWhere(code);
      CallHereIff(code[k..]);
    }
  }

  lemma {:induction false} FoundLater(code: string, k: nat)
    requires k <= |code| && RequiresElectronHere(code[k..])
    ensures RequiresElectron(code)
    decreases k
  {
    if k == 0 {
      assert code[0..] == code;
    } else {
      assert code[1..][k - 1..] == code[k..];
      FoundLater(code[1..], k - 1);
    }
  }

  lemma {:induction false} FoundWhere(code: string) returns (k: nat)
    requires RequiresElectron(code)
    ensures k <= |code| && RequiresElectronHere(code[k..])
  {
    if RequiresElectronHere(code) {
      k := 0;
      assert code[0..] == code;
    } else {
      var j := FoundWhere(code[1..]);
      k := j + 1;
      assert code[1..][j..] == code[k..];
    }
  }

  // ---------- The guard ----------

  /** Passes iff no chunk reachable from the entry requires electron; otherwise names one that does. */
  method AssertNoElectronRequire(entry: string, bundle: Bundle) returns (offender: Option<Chunk>)
    ensures offender.None? <==>
      forall n :: Reachable(entry, n, bundle) && n in bundle ==> !RequiresElectron(bundle[n].code)
    ensures offender.Some? ==> RequiresElectron(offender.value.code)
    ensures offender.Some? ==> exists n :: Reachable(entry, n, bundle) && n in bundle && bundle[n] == offender.value
  {
    hide Reachable, RequiresElectron;
    var reachable := CollectReachableChunks(entry, bundle);
    ghost var names :| AreChunks(reachable, names, bundle) && NoRepeats(names)
                       && forall n :: n in names <==> Reachable(entry, n, bundle);
    for i := 0 to |reachable|
      invariant forall k :: 0 <= k < i ==> !RequiresElectron(reachable[k].code)
    {
      if RequiresElectron(reachable[i].code) {
        assert names[i] in names;
        return Some(reachable[i]);
      }
    }
    return None;
  }
}
