/** Symbol and reference tables of a set of files, and what differs between two symbol tables. */
module SymbolTables {
  import opened Common
  import opened SemanticTree

  datatype File = File(filename: string, language: string, tree: Node)

  datatype Definition = Definition(file: string, kind: string, nodeId: string, language: string)

  datatype Usage = Usage(label_: string, kind: string, file: string, nodeId: string, scope: Option<string>)

  /** Which nodes define a symbol, and which refer to one and how: the language vocabularies. */
  datatype Vocabulary = Vocabulary(defines: (Node, string) -> bool, refers: (Node, string) -> Option<string>)

  type Table<T> = map<string, seq<T>>

  function Lookup<T>(table: Table<T>, name: string): seq<T> {
    if name in table then table[name] else []
  }

  function Pushed<T>(table: Table<T>, name: string, value: T): Table<T> {
    table[name := Lookup(table, name) + [value]]
  }

  // ---- What the walks push, in order ----

  function Joined(scope: Option<string>, name: string): string {
    if scope.Some? then scope.value + "." + name else name
  }

  function ChildScope(v: Vocabulary, f: File, n: Node, scope: Option<string>): Option<string> {
    if v.defines(n, f.language) then Some(Joined(scope, n.text)) else scope
  }

  function DefinitionOf(f: File, n: Node): Definition {
    Definition(f.filename, n.kind, n.id, f.language)
  }

  function UsageOf(f: File, n: Node, kind: string, scope: Option<string>): Usage {
    Usage(n.text, kind, f.filename, n.id, scope)
  }

  function Symbols(v: Vocabulary, f: File, n: Node, scope: Option<string>): seq<(string, Definition)>
    decreases n, 0
  {
    (if v.defines(n, f.language) then [(Joined(scope, n.text), DefinitionOf(f, n))] else []) +
    SymbolsOf(v, f, n.children, ChildScope(v, f, n, scope))
  }

  function SymbolsOf(v: Vocabulary, f: File, ns: seq<Node>, scope: Option<string>): seq<(string, Definition)>
    decreases ns, 1
  {
    if ns == [] then [] else Symbols(v, f, ns[0], scope) + SymbolsOf(v, f, ns[1..], scope)
  }

  function References(v: Vocabulary, f: File, n: Node, scope: Option<string>): seq<(string, Usage)>
    decreases n, 0
  {
    (match v.refers(n, f.language)
     case Some(kind) => [(n.text, UsageOf(f, n, kind, scope))]
     case None => []) +
    ReferencesOf(v, f, n.children, ChildScope(v, f, n, scope))
  }

  function ReferencesOf(v: Vocabulary, f: File, ns: seq<Node>, scope: Option<string>): seq<(string, Usage)>
    decreases ns, 1
  {
    if ns == [] then [] else References(v, f, ns[0], scope) + ReferencesOf(v, f, ns[1..], scope)
  }

  function AllSymbols(v: Vocabulary, files: seq<File>): seq<(string, Definition)> {
    if files == [] then []
    else AllSymbols(v, files[..|files| - 1]) + Symbols(v, files[|files| - 1], files[|files| - 1].tree, None)
  }

  function AllReferences(v: Vocabulary, files: seq<File>): seq<(string, Usage)> {
    if files == [] then []
    else AllReferences(v, files[..|files| - 1]) + References(v, files[|files| - 1], files[|files| - 1].tree, None)
  }

  /** A table after pushing a list of entries. */
  function Filled<T>(table: Table<T>, entries: seq<(string, T)>): Table<T>
    decreases |entries|
  {
    if entries == [] then table else Filled(Pushed(table, entries[0].0, entries[0].1), entries[1..])
  }

  lemma {:induction false} FilledAppend<T>(table: Table<T>, a: seq<(string, T)>, b: seq<(string, T)>)
    ensures Filled(table, a + b) == Filled(Filled(table, a), b)
    decreases |a|
  {
    if a == [] {
      assert a + b == b;
    } else {
      assert (a + b)[1..] == a[1..] + b;
      hide Pushed;
      FilledAppend(Pushed(table, a[0].0, a[0].1), a[1..], b);
    }
  }

  // ---- The walks ----

  class Extractor {
    var symbols: Table<Definition>
    var references: Table<Usage>

    constructor ()
      ensures symbols == map[] && references == map[]
    {
      symbols, references := map[], map[];
    }

    method ExtractSymbols(v: Vocabulary, f: File, n: Node, scope: Option<string>)
      modifies this
      ensures symbols == Filled(old(symbols), Symbols(v, f, n, scope)) && references == old(references)
      decreases n
    {
      hide Filled, Pushed;
      var childScope := scope;
      ghost var mine: seq<(string, Definition)> := [];
      if v.defines(n, f.language) {
        var qualified := Joined(scope, n.text);
        mine := [(qualified, DefinitionOf(f, n))];
        FilledOne(symbols, qualified, DefinitionOf(f, n));
        symbols := Pushed(symbols, qualified, DefinitionOf(f, n));
        childScope := Some(qualified);
      } else {
        FilledNone(symbols);
      }
      assert symbols == Filled(old(symbols), mine) && n.children[0..] == n.children;
      FilledAppend(old(symbols), mine, SymbolsOf(v, f, n.children, childScope));
      for i := 0 to |n.children|
        invariant references == old(references)
        invariant Filled(symbols, SymbolsOf(v, f, n.children[i..], childScope)) ==
                  Filled(old(symbols), Symbols(v, f, n, scope))
      {
        ghost var before, rest := symbols, SymbolsOf(v, f, n.children[i + 1..], childScope);
        assert n.children[i..][1..] == n.children[i + 1..];
        FilledAppend(before, Symbols(v, f, n.children[i], childScope), rest);
        ExtractSymbols(v, f, n.children[i], childScope);
      }
      FilledNone(symbols);
    }

    method ExtractReferences(v: Vocabulary, f: File, n: Node, scope: Option<string>)
      modifies this
      ensures references == Filled(old(references), References(v, f, n, scope)) && symbols == old(symbols)
      decreases n
    {
      hide Filled, Pushed;
      ghost var mine: seq<(string, Usage)> := [];
      var kind := v.refers(n, f.language);
      if kind.Some? {
        mine := [(n.text, UsageOf(f, n, kind.value, scope))];
        FilledOne(references, n.text, UsageOf(f, n, kind.value, scope));
        references := Pushed(references, n.text, UsageOf(f, n, kind.value, scope));
      } else {
        FilledNone(references);
      }
      var childScope := ChildScope(v, f, n, scope);
      assert references == Filled(old(references), mine) && n.children[0..] == n.children;
      FilledAppend(old(references), mine, ReferencesOf(v, f, n.children, childScope));
      for i := 0 to |n.children|
        invariant symbols == old(symbols)
        invariant Filled(references, ReferencesOf(v, f, n.children[i..], childScope)) ==
                  Filled(old(references), References(v, f, n, scope))
      {
        ghost var before, rest := references, ReferencesOf(v, f, n.children[i + 1..], childScope);
        assert n.children[i..][1..] == n.children[i + 1..];
        FilledAppend(before, References(v, f, n.children[i], childScope), rest);
        ExtractReferences(v, f, n.children[i], childScope);
      }
      FilledNone(references);
    }

    method BuildTables(v: Vocabulary, files: seq<File>)
      requires symbols == map[] && references == map[]
      modifies this
      ensures symbols == Filled(map[], AllSymbols(v, files))
      ensures references == Filled(map[], AllReferences(v, files))
    {
      FilledNone<Definition>(map[]);
      FilledNone<Usage>(map[]);
      hide Filled;
      for i := 0 to |files|
        invariant symbols == Filled(map[], AllSymbols(v, files[..i]))
        invariant references == Filled(map[], AllReferences(v, files[..i]))
      {
        assert files[..i + 1][..i] == files[..i];
        FilledAppend(map[], AllSymbols(v, files[..i]), Symbols(v, files[i], files[i].tree, None));
        FilledAppend(map[], AllReferences(v, files[..i]), References(v, files[i], files[i].tree, None));
        ExtractSymbols(v, files[i], files[i].tree, None);
        ExtractReferences(v, files[i], files[i].tree, None);
      }
      assert files[..|files|] == files;
    }
  }

  lemma {:induction false} FilledNone<T>(table: Table<T>)
    ensures Filled(table, []) == table
  {}

  lemma {:induction false} FilledOne<T>(table: Table<T>, name: string, value: T)
    ensures Filled(table, [(name, value)]) == Pushed(table, name, value)
  {
    hide Pushed;
    assert [(name, value)][1..] == [];
  }

  // ---- One entry per definition, under the labels of its ancestors ----

  /** The values pushed under a name, in order. */
  function Values<T>(entries: seq<(string, T)>, name: string): seq<T> {
    if entries == [] then []
    else (if entries[0].0 == name then [entries[0].1] else []) + Values(entries[1..], name)
  }

  lemma {:induction false} FilledLookup<T>(table: Table<T>, entries: seq<(string, T)>, name: string)
    ensures Lookup(Filled(table, entries), name) == Lookup(table, name) + Values(entries, name)
    decreases |entries|
  {
    if entries != [] {
      var pushed := Pushed(table, entries[0].0, entries[0].1);
      assert Lookup(pushed, name) == Lookup(table, name) + (if entries[0].0 == name then [entries[0].1] else []);
      hide Pushed, Lookup;
      FilledLookup(pushed, entries[1..], name);
      Assoc(Lookup(table, name), if entries[0].0 == name then [entries[0].1] else [], Values(entries[1..], name));
    }
  }

  /** A node by the child positions that lead to it. */
  ghost predicate IsAddress(n: Node, path: seq<nat>)
    decreases path
  {
    path == [] || (path[0] < |n.children| && IsAddress(n.children[path[0]], path[1..]))
  }

  ghost function At(n: Node, path: seq<nat>): Node
    requires IsAddress(n, path)
    decreases path
  {
    if path == [] then n else At(n.children[path[0]], path[1..])
  }

  /** The labels of the defining nodes from the root down to the node, joined by dots. */
  ghost function QualifiedName(v: Vocabulary, f: File, n: Node, path: seq<nat>, scope: Option<string>): Option<string>
    requires IsAddress(n, path)
    decreases path
  {
    var here := ChildScope(v, f, n, scope);
    if path == [] then here else QualifiedName(v, f, n.children[path[0]], path[1..], here)
  }

  ghost predicate IsEntry(v: Vocabulary, f: File, n: Node, scope: Option<string>, path: seq<nat>, e: (string, Definition)) {
    && IsAddress(n, path) && v.defines(At(n, path), f.language)
    && QualifiedName(v, f, n, path, scope) == Some(e.0) && e.1 == DefinitionOf(f, At(n, path))
  }

  /** Addresses of the defining nodes, in pre-order. */
  ghost function DefinitionPaths(v: Vocabulary, f: File, n: Node): seq<seq<nat>>
    decreases n, 0
  {
    (if v.defines(n, f.language) then [[]] else []) + PathsFrom(v, f, n.children, 0)
  }

  ghost function PathsFrom(v: Vocabulary, f: File, ns: seq<Node>, first: nat): seq<seq<nat>>
    decreases ns, 1
  {
    if ns == [] then [] else Under(first, DefinitionPaths(v, f, ns[0])) + PathsFrom(v, f, ns[1..], first + 1)
  }

  ghost function Under(i: nat, paths: seq<seq<nat>>): (r: seq<seq<nat>>)
    ensures |r| == |paths| && forall k :: 0 <= k < |paths| ==> r[k] == [i] + paths[k]
  {
    seq(|paths|, k requires 0 <= k < |paths| => [i] + paths[k])
  }

  /** The walk makes one entry per defining node: the k-th entry is that of the k-th address. */
  lemma {:induction false} EntriesAreDefinitions(v: Vocabulary, f: File, n: Node, scope: Option<string>)
    ensures |Symbols(v, f, n, scope)| == |DefinitionPaths(v, f, n)|
    ensures forall k :: 0 <= k < |Symbols(v, f, n, scope)| ==>
              IsEntry(v, f, n, scope, DefinitionPaths(v, f, n)[k], Symbols(v, f, n, scope)[k])
    decreases n, 0
  {
    var here := ChildScope(v, f, n, scope);
    EntriesBelow(v, f, n, n.children, 0, here);
    var below, paths := SymbolsOf(v, f, n.children, here), PathsFrom(v, f, n.children, 0);
    var own := if v.defines(n, f.language) then 1 else 0;
    forall k | 0 <= k < |Symbols(v, f, n, scope)|
      ensures IsEntry(v, f, n, scope, DefinitionPaths(v, f, n)[k], Symbols(v, f, n, scope)[k])
    {
      if k < own {
        assert DefinitionPaths(v, f, n)[k] == [];
      } else {
        assert DefinitionPaths(v, f, n)[k] == paths[k - own] && Symbols(v, f, n, scope)[k] == below[k - own];
        hide DefinitionPaths, PathsFrom, Symbols, SymbolsOf;
        assert BelowEntry(v, f, n, here, paths[k - own], below[k - own]);
      }
    }
  }

  ghost predicate BelowEntry(v: Vocabulary, f: File, n: Node, here: Option<string>, path: seq<nat>,
                             e: (string, Definition)) {
    path != [] && path[0] < |n.children| && IsEntry(v, f, n.children[path[0]], here, path[1..], e)
  }

  lemma {:induction false} EntriesBelow(v: Vocabulary, f: File, n: Node, ns: seq<Node>, first: nat, here: Option<string>)
    requires first + |ns| == |n.children| && ns == n.children[first..]
    ensures |SymbolsOf(v, f, ns, here)| == |PathsFrom(v, f, ns, first)|
    ensures forall k :: 0 <= k < |SymbolsOf(v, f, ns, here)| ==>
              BelowEntry(v, f, n, here, PathsFrom(v, f, ns, first)[k], SymbolsOf(v, f, ns, here)[k])
    decreases ns, 1
  {
    if ns != [] {
      EntriesAreDefinitions(v, f, ns[0], here);
      EntriesBelow(v, f, n, ns[1..], first + 1, here);
      var one, paths := Symbols(v, f, ns[0], here), DefinitionPaths(v, f, ns[0]);
      hide IsEntry;
      forall k | 0 <= k < |one| ensures BelowEntry(v, f, n, here, Under(first, paths)[k], one[k]) {
        assert ([first] + paths[k])[1..] == paths[k];
      }
      hide BelowEntry;
    }
  }

  /** Every defining node has an address in the enumeration, and no address occurs twice. */
  lemma {:induction false} EveryDefinitionListed(v: Vocabulary, f: File, n: Node, path: seq<nat>)
    requires IsAddress(n, path) && v.defines(At(n, path), f.language)
    ensures path in DefinitionPaths(v, f, n)
    decreases path
  {
    if path != [] {
      var i := path[0];
      EveryDefinitionListed(v, f, n.children[i], path[1..]);
      ListedBelow(v, f, n.children, 0, i, path[1..]);
      assert [i] + path[1..] == path;
    }
  }

  lemma {:induction false} ListedBelow(v: Vocabulary, f: File, ns: seq<Node>, first: nat, i: nat, rest: seq<nat>)
    requires i < |ns| && rest in DefinitionPaths(v, f, ns[i])
    ensures [first + i] + rest in PathsFrom(v, f, ns, first)
    decreases |ns|
  {
    if i == 0 {
      var k :| 0 <= k < |DefinitionPaths(v, f, ns[0])| && DefinitionPaths(v, f, ns[0])[k] == rest;
      assert Under(first, DefinitionPaths(v, f, ns[0]))[k] in Under(first, DefinitionPaths(v, f, ns[0]));
    } else {
      ListedBelow(v, f, ns[1..], first + 1, i - 1, rest);
    }
  }

  ghost predicate Distinct<T(!new)>(xs: seq<T>) {
    forall i, j :: 0 <= i < j < |xs| ==> xs[i] != xs[j]
  }

  lemma {:induction false} PathsAreDistinct(v: Vocabulary, f: File, n: Node)
    ensures Distinct(DefinitionPaths(v, f, n))
    decreases n, 0
  {
    PathsBelowDistinct(v, f, n, n.children, 0);
  }

  lemma {:induction false} PathsBelowDistinct(v: Vocabulary, f: File, n: Node, ns: seq<Node>, first: nat)
    requires forall k :: 0 <= k < |ns| ==> ns[k] < n
    ensures Distinct(PathsFrom(v, f, ns, first))
    ensures forall k :: 0 <= k < |PathsFrom(v, f, ns, first)| ==> PathsFrom(v, f, ns, first)[k] != [] && PathsFrom(v, f, ns, first)[k][0] >= first
    decreases n, 0, |ns|
  {
    if ns != [] {
      PathsAreDistinct(v, f, ns[0]);
      PathsBelowDistinct(v, f, n, ns[1..], first + 1);
      var paths := DefinitionPaths(v, f, ns[0]);
      hide DefinitionPaths;
      forall i, j | 0 <= i < j < |paths| ensures Under(first, paths)[i] != Under(first, paths)[j] {
        assert ([first] + paths[i])[1..] == paths[i] && ([first] + paths[j])[1..] == paths[j];
      }
    }
  }

  /** What the files contribute under a name, file after file. */
  function Contributed(v: Vocabulary, files: seq<File>, name: string): seq<Definition> {
    if files == [] then []
    else
      var f := files[|files| - 1];
      Contributed(v, files[..|files| - 1], name) + Values(Symbols(v, f, f.tree, None), name)
  }

  lemma {:induction false} ValuesAppend<T>(a: seq<(string, T)>, b: seq<(string, T)>, name: string)
    ensures Values(a + b, name) == Values(a, name) + Values(b, name)
  {
    if a == [] {
      assert a + b == b;
    } else {
      SplitFirst(a, b);
      ValuesAppend(a[1..], b, name);
      ValuesCons(a[0], a[1..], name);
      ValuesCons(a[0], a[1..] + b, name);
      hide Values;
      Assoc(if a[0].0 == name then [a[0].1] else [], Values(a[1..], name), Values(b, name));
    }
  }

  lemma {:induction false} ValuesCons<T>(e: (string, T), rest: seq<(string, T)>, name: string)
    ensures Values([e] + rest, name) == (if e.0 == name then [e.1] else []) + Values(rest, name)
  {
    assert ([e] + rest)[1..] == rest;
  }

  lemma {:induction false} AllContributed(v: Vocabulary, files: seq<File>, name: string)
    ensures Values(AllSymbols(v, files), name) == Contributed(v, files, name)
  {
    if files != [] {
      var n := |files| - 1;
      AllContributed(v, files[..n], name);
      ValuesAppend(AllSymbols(v, files[..n]), Symbols(v, files[n], files[n].tree, None), name);
    }
  }

  /** The symbol table holds under each name, in order, what each file's defining nodes contribute; and these are
      exactly one entry per defining node, under the name that its enclosing definitions spell. */
  lemma {:induction false} TableHoldsDefinitions(v: Vocabulary, files: seq<File>, name: string, f: File)
    ensures Lookup(Filled(map[], AllSymbols(v, files)), name) == Contributed(v, files, name)
    ensures |Symbols(v, f, f.tree, None)| == |DefinitionPaths(v, f, f.tree)| && Distinct(DefinitionPaths(v, f, f.tree))
    ensures forall k :: 0 <= k < |DefinitionPaths(v, f, f.tree)| ==>
              IsEntry(v, f, f.tree, None, DefinitionPaths(v, f, f.tree)[k], Symbols(v, f, f.tree, None)[k])
  {
    FilledLookup(map[], AllSymbols(v, files), name);
    AllContributed(v, files, name);
    hide Filled, Values, AllSymbols, Symbols;
    EntriesAreDefinitions(v, f, f.tree, None);
    PathsAreDistinct(v, f, f.tree);
    assert Lookup<Definition>(map[], name) == [];
  }

  // ---- Scopes are symbols ----

  lemma {:induction false} ScopesBelow(v: Vocabulary, f: File, n: Node, scope: Option<string>)
    ensures forall k :: 0 <= k < |References(v, f, n, scope)| ==>
              ScopeOk(References(v, f, n, scope)[k].1.scope, scope, Symbols(v, f, n, scope))
    decreases n, 0
  {
    var here := ChildScope(v, f, n, scope);
    ScopesOfChildren(v, f, n.children, here);
    var mine, below := Symbols(v, f, n, scope), SymbolsOf(v, f, n.children, here);
    forall k | 0 <= k < |ReferencesOf(v, f, n.children, here)|
      ensures ScopeOk(ReferencesOf(v, f, n.children, here)[k].1.scope, scope, mine)
    {
      var s := ReferencesOf(v, f, n.children, here)[k].1.scope;
      assert ScopeOk(s, here, below);
      var own := if v.defines(n, f.language) then 1 else 0;
      if s == here {
        if own == 1 { assert mine[0].0 == s.value; }
      } else {
        var i :| 0 <= i < |below| && s == Some(below[i].0);
        assert mine[own + i] == below[i];
      }
    }
  }

  /** A scope is the one passed in, or a name entered below. */
  ghost predicate ScopeOk(s: Option<string>, scope: Option<string>, entries: seq<(string, Definition)>) {
    s == scope || exists i :: 0 <= i < |entries| && s == Some(entries[i].0)
  }

  lemma {:induction false} ScopesOfChildren(v: Vocabulary, f: File, ns: seq<Node>, scope: Option<string>)
    ensures forall k :: 0 <= k < |ReferencesOf(v, f, ns, scope)| ==>
              ScopeOk(ReferencesOf(v, f, ns, scope)[k].1.scope, scope, SymbolsOf(v, f, ns, scope))
    decreases ns, 1
  {
    if ns != [] {
      ScopesBelow(v, f, ns[0], scope);
      ScopesOfChildren(v, f, ns[1..], scope);
      var a, b := Symbols(v, f, ns[0], scope), SymbolsOf(v, f, ns[1..], scope);
      forall s | ScopeOk(s, scope, a) || ScopeOk(s, scope, b) ensures ScopeOk(s, scope, a + b) {
        ScopeIn(s, scope, a, b);
      }
      hide ScopeOk;
    }
  }

  lemma {:induction false} ScopeIn(s: Option<string>, scope: Option<string>, a: seq<(string, Definition)>,
                                   b: seq<(string, Definition)>)
    requires ScopeOk(s, scope, a) || ScopeOk(s, scope, b)
    ensures ScopeOk(s, scope, a + b)
  {
    if s != scope {
      if i :| 0 <= i < |a| && s == Some(a[i].0) {
        assert (a + b)[i] == a[i];
      } else {
        var j :| 0 <= j < |b| && s == Some(b[j].0);
        assert (a + b)[|a| + j] == b[j];
      }
    }
  }

  lemma {:induction false} ScopesAreEntries(v: Vocabulary, files: seq<File>)
    ensures forall k :: 0 <= k < |AllReferences(v, files)| ==> ScopeOk(AllReferences(v, files)[k].1.scope, None, AllSymbols(v, files))
  {
    if files != [] {
      var n := |files| - 1;
      var f := files[n];
      ScopesAreEntries(v, files[..n]);
      ScopesBelow(v, f, f.tree, None);
      var a, b := AllSymbols(v, files[..n]), Symbols(v, f, f.tree, None);
      forall s | ScopeOk(s, None, a) || ScopeOk(s, None, b) ensures ScopeOk(s, None, a + b) {
        ScopeIn(s, None, a, b);
      }
      hide ScopeOk;
    }
  }

  lemma {:induction false} ValuesArePushed<T>(entries: seq<(string, T)>, name: string, value: T)
    ensures value in Values(entries, name) <==> exists k :: 0 <= k < |entries| && entries[k] == (name, value)
  {
    if entries != [] {
      ValuesArePushed(entries[1..], name, value);
      if k :| 0 <= k < |entries| && entries[k] == (name, value) {
        if k > 0 { assert entries[1..][k - 1] == entries[k]; }
      }
      if k :| 0 <= k < |entries| - 1 && entries[1..][k] == (name, value) {
        assert entries[k + 1] == (name, value);
      }
    }
  }

  /** In tables built from the same files, the enclosing scope of every usage is a key of the symbol table. */
  lemma {:induction false} EnclosingScopeIsSymbol(v: Vocabulary, files: seq<File>, label_: string, u: Usage)
    requires u in Lookup(Filled(map[], AllReferences(v, files)), label_) && u.scope.Some?
    ensures Lookup(Filled(map[], AllSymbols(v, files)), u.scope.value) != []
  {
    var refs, syms := AllReferences(v, files), AllSymbols(v, files);
    FilledLookup(map[], refs, label_);
    FilledLookup(map[], syms, u.scope.value);
    ScopesAreEntries(v, files);
    ValuesArePushed(refs, label_, u);
    hide AllReferences, AllSymbols, Filled;
    assert u in Values(refs, label_);
    var k :| 0 <= k < |refs| && refs[k] == (label_, u);
    assert ScopeOk(u.scope, None, syms);
    var i :| 0 <= i < |syms| && u.scope == Some(syms[i].0);
    ValuesArePushed(syms, u.scope.value, syms[i].1);
    assert syms[i] == (u.scope.value, syms[i].1);
  }

  // ---- The difference of two symbol tables ----

  /** A symbol found in another file: its definitions on both sides. */
  datatype Moved = Moved(name: string, before: Definition, after: Definition)

  datatype Renamed = Renamed(oldName: string, newName: string, before: Definition, after: Definition)

  ghost predicate IsMoved(old_: Table<Definition>, new_: Table<Definition>, m: Moved) {
    m.before in Lookup(old_, m.name) && m.after in Lookup(new_, m.name) && m.before.file != m.after.file
  }

  /** The name up to its last dot. */
  function Parent(name: string): string {
    if ParentId(name).Some? then ParentId(name).value else ""
  }

  /** File, kind and enclosing scope, as one string. */
  function GroupKey(name: string, d: Definition): string {
    d.file + "|" + d.kind + "|" + Parent(name)
  }

  /** Names of one table that the other lacks, with a group key; a name with no definitions has none. */
  ghost predicate InGroup(table: Table<Definition>, other: Table<Definition>, key: string, name: string) {
    name in table && name !in other && table[name] != [] && GroupKey(name, table[name][0]) == key
  }

  ghost predicate AloneInGroup(table: Table<Definition>, other: Table<Definition>, key: string, name: string) {
    InGroup(table, other, key, name) && forall n :: InGroup(table, other, key, n) ==> n == name
  }

  ghost predicate IsRenamed(old_: Table<Definition>, new_: Table<Definition>, r: Renamed) {
    && r.oldName in old_ && r.newName in new_ && old_[r.oldName] != [] && new_[r.newName] != []
    && r.before == old_[r.oldName][0] && r.after == new_[r.newName][0]
    && AloneInGroup(old_, new_, GroupKey(r.oldName, r.before), r.oldName)
    && AloneInGroup(new_, old_, GroupKey(r.oldName, r.before), r.newName)
  }

  /** Every definition list is nonempty, as in tables that were built by pushing. */
  ghost predicate Built(table: Table<Definition>) {
    forall name :: name in table ==> table[name] != []
  }

  method MovesOfSymbol(name: string, olds: seq<Definition>, news: seq<Definition>) returns (moves: seq<Moved>)
    ensures forall m :: m in moves <==> m.name == name && m.before in olds && m.after in news && m.before.file != m.after.file
  {
    moves := [];
    for i := 0 to |olds|
      invariant forall m :: m in moves <==> m.name == name && m.before in olds[..i] && m.after in news && m.before.file != m.after.file
    {
      ghost var before := moves;
      assert olds[..i + 1] == olds[..i] + [olds[i]];
      for j := 0 to |news|
        invariant forall m :: m in moves <==>
                    (m in before || (m.name == name && m.before == olds[i] && m.after in news[..j] && m.before.file != m.after.file))
      {
        assert news[..j + 1] == news[..j] + [news[j]];
        if olds[i].file != news[j].file {
          moves := moves + [Moved(name, olds[i], news[j])];
        }
      }
      assert news[..|news|] == news;
    }
    assert olds[..|olds|] == olds;
  }

  /** The names of each group, in the order in which they were met. */
  ghost predicate AreGroups(groups: map<string, seq<string>>, table: Table<Definition>, other: Table<Definition>,
                            done: set<string>) {
    && (forall key :: key in groups ==> groups[key] != [] && Distinct(groups[key]))
    && (forall key, name :: key in groups && name in groups[key] ==> name in done && InGroup(table, other, key, name))
    && (forall key, name :: name in done && InGroup(table, other, key, name) ==> key in groups && name in groups[key])
  }

  lemma {:induction false} GroupStep(groups: map<string, seq<string>>, table: Table<Definition>,
                                     other: Table<Definition>, done: set<string>, name: string)
    requires AreGroups(groups, table, other, done) && name in table && name !in done && table[name] != []
    ensures var key := GroupKey(name, table[name][0]);
            AreGroups(if name in other then groups else groups[key := (if key in groups then groups[key] else []) + [name]],
                      table, other, done + {name})
  {
    var mine := GroupKey(name, table[name][0]);
    hide GroupKey;
    forall key | key in groups ensures name !in groups[key] {}
    forall key | InGroup(table, other, key, name) ensures key == mine && name !in other {}
    hide InGroup;
  }

  /** One more element of a set is dealt with. */
  lemma {:induction false} DealtWith(all: set<string>, todo: set<string>, done: set<string>, x: string)
    requires todo + done == all && todo !! done && x in todo
    ensures (todo - {x}) + (done + {x}) == all && (todo - {x}) !! (done + {x})
    ensures x in all && x !in done && |todo - {x}| < |todo|
  {}

  method GroupNames(table: Table<Definition>, other: Table<Definition>) returns (groups: map<string, seq<string>>)
    requires Built(table)
    ensures AreGroups(groups, table, other, table.Keys)
  {
    groups := map[];
    var todo, done := table.Keys, {};
    assert AreGroups(groups, table, other, done);
    hide AreGroups, GroupKey;
    while todo != {}
      invariant todo + done == table.Keys && todo !! done
      invariant AreGroups(groups, table, other, done)
      decreases |todo|
    {
      var name :| name in todo;
      DealtWith(table.Keys, todo, done, name);
      groups := AddToGroup(groups, table, other, done, name);
      todo, done := todo - {name}, done + {name};
    }
    assert done == table.Keys;
  }

  method AddToGroup(groups: map<string, seq<string>>, table: Table<Definition>, other: Table<Definition>,
                    ghost done: set<string>, name: string) returns (after: map<string, seq<string>>)
    requires AreGroups(groups, table, other, done) && name in table && name !in done && table[name] != []
    ensures AreGroups(after, table, other, done + {name})
  {
    GroupStep(groups, table, other, done, name);
    hide AreGroups, GroupKey;
    after := groups;
    if name !in other {
      var key := GroupKey(name, table[name][0]);
      after := groups[key := (if key in groups then groups[key] else []) + [name]];
    }
  }

  lemma {:induction false} OnlyName(names: seq<string>, name: string)
    requires Distinct(names) && name in names && forall i :: 0 <= i < |names| ==> names[i] == name
    ensures names == [name]
  {
    hide Distinct;
    if |names| > 1 { FirstTwo(names); }
  }

  lemma {:induction false} FirstTwo(names: seq<string>)
    requires Distinct(names) && |names| > 1
    ensures names[0] != names[1]
  {}

  lemma {:induction false} LoneName(groups: map<string, seq<string>>, table: Table<Definition>,
                                    other: Table<Definition>, key: string)
    requires AreGroups(groups, table, other, table.Keys)
    ensures key in groups && |groups[key]| == 1 ==> AloneInGroup(table, other, key, groups[key][0])
    ensures forall name :: AloneInGroup(table, other, key, name) ==> key in groups && groups[key] == [name]
  {
    hide GroupKey;
    if key in groups && |groups[key]| == 1 {
      assert groups[key][0] in groups[key];
    }
    forall name | AloneInGroup(table, other, key, name) ensures key in groups && groups[key] == [name] {
      assert InGroup(table, other, key, name) && name in table.Keys;
      assert key in groups && name in groups[key];
      var names := groups[key];
      forall i | 0 <= i < |names| ensures names[i] == name {
        assert names[i] in names;
        assert InGroup(table, other, key, names[i]);
      }
      OnlyName(names, name);
    }
  }

  method FindMoves(old_: Table<Definition>, new_: Table<Definition>) returns (moves: seq<Moved>)
    ensures forall m :: m in moves <==> IsMoved(old_, new_, m)
  {
    moves := [];
    var todo := old_.Keys;
    while todo != {}
      invariant todo <= old_.Keys
      invariant forall m :: m in moves <==> m.name in old_.Keys - todo && IsMoved(old_, new_, m)
      decreases |todo|
    {
      var name :| name in todo;
      if name in new_ {
        var found := MovesOfSymbol(name, old_[name], new_[name]);
        moves := moves + found;
      }
      todo := todo - {name};
    }
  }

  /** A rename whose group is among the given keys. */
  ghost predicate RenamedIn(old_: Table<Definition>, new_: Table<Definition>, keys: set<string>, r: Renamed) {
    IsRenamed(old_, new_, r) && GroupKey(r.oldName, r.before) in keys
  }

  lemma {:induction false} RenameOfGroup(old_: Table<Definition>, new_: Table<Definition>,
                                         removed: map<string, seq<string>>, added: map<string, seq<string>>,
                                         key: string)
    requires AreGroups(removed, old_, new_, old_.Keys) && AreGroups(added, new_, old_, new_.Keys) && key in removed
    ensures key in added && |removed[key]| == 1 && |added[key]| == 1 ==>
              removed[key][0] in old_ && old_[removed[key][0]] != [] && added[key][0] in new_ && new_[added[key][0]] != []
    ensures forall r :: RenamedIn(old_, new_, {key}, r) <==>
              (key in added && |removed[key]| == 1 && |added[key]| == 1 &&
               r == Renamed(removed[key][0], added[key][0], old_[removed[key][0]][0], new_[added[key][0]][0]))
  {
    LoneName(removed, old_, new_, key);
    LoneName(added, new_, old_, key);
    hide GroupKey, AreGroups;
  }

  method FindRenames(old_: Table<Definition>, new_: Table<Definition>) returns (renames: seq<Renamed>)
    requires Built(old_) && Built(new_)
    ensures forall r :: r in renames <==> IsRenamed(old_, new_, r)
  {
    renames := [];
    var removed := GroupNames(old_, new_);
    var added := GroupNames(new_, old_);
    var keys, done := removed.Keys, {};
    hide AreGroups, IsRenamed, GroupKey, RenamedIn, Built;
    assert forall r :: !RenamedIn(old_, new_, {}, r) by { NoGroups(old_, new_); }
    while keys != {}
      invariant keys + done == removed.Keys && keys !! done
      invariant forall r :: r in renames <==> RenamedIn(old_, new_, done, r)
      decreases |keys|
    {
      var key :| key in keys;
      DealtWith(removed.Keys, keys, done, key);
      var one := RenameIn(old_, new_, removed, added, key);
      OneMoreGroup(old_, new_, done, key);
      renames := renames + one;
      keys, done := keys - {key}, done + {key};
    }
    forall r ensures RenamedIn(old_, new_, removed.Keys, r) <==> IsRenamed(old_, new_, r) {
      if IsRenamed(old_, new_, r) { GroupExists(old_, new_, removed, r); }
      RenamedInIs(old_, new_, removed.Keys, r);
    }
    assert done == removed.Keys;
  }

  /** The rename of one group, if both sides have one name in it. */
  method RenameIn(old_: Table<Definition>, new_: Table<Definition>, removed: map<string, seq<string>>,
                  added: map<string, seq<string>>, key: string) returns (one: seq<Renamed>)
    requires AreGroups(removed, old_, new_, old_.Keys) && AreGroups(added, new_, old_, new_.Keys) && key in removed
    ensures forall r :: r in one <==> RenamedIn(old_, new_, {key}, r)
  {
    RenameOfGroup(old_, new_, removed, added, key);
    hide AreGroups, RenamedIn;
    one := [];
    if key in added && |removed[key]| == 1 && |added[key]| == 1 {
      var oldName, newName := removed[key][0], added[key][0];
      one := [Renamed(oldName, newName, old_[oldName][0], new_[newName][0])];
    }
  }

  lemma {:induction false} RenamedInIs(old_: Table<Definition>, new_: Table<Definition>, keys: set<string>, r: Renamed)
    ensures RenamedIn(old_, new_, keys, r) <==> IsRenamed(old_, new_, r) && GroupKey(r.oldName, r.before) in keys
  {}

  lemma {:induction false} NoGroups(old_: Table<Definition>, new_: Table<Definition>)
    ensures forall r :: !RenamedIn(old_, new_, {}, r)
  {}

  lemma {:induction false} OneMoreGroup(old_: Table<Definition>, new_: Table<Definition>, done: set<string>, key: string)
    ensures forall r :: RenamedIn(old_, new_, done + {key}, r) <==> RenamedIn(old_, new_, done, r) || RenamedIn(old_, new_, {key}, r)
  {
    hide IsRenamed, GroupKey;
  }

  lemma {:induction false} GroupExists(old_: Table<Definition>, new_: Table<Definition>,
                                       removed: map<string, seq<string>>, r: Renamed)
    requires AreGroups(removed, old_, new_, old_.Keys) && IsRenamed(old_, new_, r)
    ensures GroupKey(r.oldName, r.before) in removed
  {
    LoneName(removed, old_, new_, GroupKey(r.oldName, r.before));
    hide GroupKey, AreGroups;
  }

  method DiffSymbolTables(old_: Table<Definition>, new_: Table<Definition>) returns (moves: seq<Moved>,
                          renames: seq<Renamed>)
    requires Built(old_) && Built(new_)
    ensures forall m :: m in moves <==> IsMoved(old_, new_, m)
    ensures forall r :: r in renames <==> IsRenamed(old_, new_, r)
  {
    moves := FindMoves(old_, new_);
    renames := FindRenames(old_, new_);
  }

  /** The moves and renames from B to A are those from A to B, turned around. */
  lemma {:induction false} DiffReversed(old_: Table<Definition>, new_: Table<Definition>, m: Moved, r: Renamed)
    ensures IsMoved(old_, new_, m) <==> IsMoved(new_, old_, Moved(m.name, m.after, m.before))
    ensures IsRenamed(old_, new_, r) <==> IsRenamed(new_, old_, Renamed(r.newName, r.oldName, r.after, r.before))
  {
    hide GroupKey;
    if IsRenamed(old_, new_, r) {
      assert InGroup(new_, old_, GroupKey(r.oldName, r.before), r.newName);
    }
    if IsRenamed(new_, old_, Renamed(r.newName, r.oldName, r.after, r.before)) {
      assert InGroup(old_, new_, GroupKey(r.newName, r.after), r.oldName);
    }
  }

  /** A symbol takes part in at most one rename, on either side. */
  lemma {:induction false} RenamedOnce(old_: Table<Definition>, new_: Table<Definition>, r: Renamed, r': Renamed)
    requires IsRenamed(old_, new_, r) && IsRenamed(old_, new_, r')
    ensures r.oldName == r'.oldName <==> r.newName == r'.newName
    ensures r.oldName == r'.oldName ==> r == r'
  {
    hide GroupKey;
    DiffReversed(old_, new_, Moved("", r.before, r.after), r);
    DiffReversed(old_, new_, Moved("", r.before, r.after), r');
  }

  // ---- Renames in plain terms ----

  /** `scope` is what stands in front of the last dot, or nothing. */
  ghost predicate ScopeOf(name: string, scope: string) {
    (exists last :: name == scope + "." + last && '.' !in last) || ('.' !in name && scope == "")
  }

  lemma {:induction false} ScopeIs(name: string, scope: string)
    ensures ScopeOf(name, scope) <==> Parent(name) == scope
  {
    ParentIdIs(name, scope);
    if last :| name == scope + "." + last && '.' !in last {
      assert name[|scope| + 1..] == last;
      assert name[|scope|] == '.';
    }
    if scope + "." <= name {
      assert name == scope + "." + name[|scope| + 1..];
    }
    hide ParentId;
  }

  /** The scope of a joined name is the one it was joined to. */
  lemma {:induction false} ScopeOfJoined(scope: string, name: string)
    requires '.' !in name
    ensures ScopeOf(Joined(Some(scope), name), scope) && Parent(Joined(Some(scope), name)) == scope
    ensures ScopeOf(Joined(None, name), "") && Parent(Joined(None, name)) == ""
  {
    assert scope + "." + name == Joined(Some(scope), name);
    ScopeIs(Joined(Some(scope), name), scope);
    ScopeIs(name, "");
  }

  /** Two definitions in the same file, of the same kind and with the same scope. */
  ghost predicate Alike(name: string, d: Definition, name': string, d': Definition) {
    d.file == d'.file && d.kind == d'.kind && exists scope :: ScopeOf(name, scope) && ScopeOf(name', scope)
  }

  /** Alike definitions have one group, and without bars in files and kinds only they have. */
  lemma {:induction false} GroupsAreAlike(name: string, d: Definition, name': string, d': Definition)
    ensures Alike(name, d, name', d') ==> GroupKey(name, d) == GroupKey(name', d')
    ensures '|' !in d.file + d.kind + d'.file + d'.kind ==> (Alike(name, d, name', d') <==> GroupKey(name, d) == GroupKey(name', d'))
  {
    ScopeIs(name, Parent(name));
    ScopeIs(name', Parent(name));
    forall scope | ScopeOf(name, scope) ensures scope == Parent(name) { ScopeIs(name, scope); }
    hide ScopeOf, Parent;
    if '|' !in d.file + d.kind + d'.file + d'.kind && GroupKey(name, d) == GroupKey(name', d') {
      var p, p' := Parent(name), Parent(name');
      assert GroupKey(name, d) == d.file + "|" + (d.kind + "|" + p) && GroupKey(name', d') == d'.file + "|" + (d'.kind + "|" + p');
      CutAtSeparator({'|'}, d.file, '|', d.kind + "|" + p, d'.file, '|', d'.kind + "|" + p');
      CutAtSeparator({'|'}, d.kind, '|', p, d'.kind, '|', p');
    }
  }

  /** A name that only one table has, with its first definition. */
  ghost predicate OneSided(table: Table<Definition>, other: Table<Definition>, name: string, d: Definition) {
    name in table && name !in other && table[name] != [] && table[name][0] == d
  }

  /** The only one-sided name that is like the given definition. */
  ghost predicate OnlyOneLike(table: Table<Definition>, other: Table<Definition>, name: string, d: Definition) {
    OneSided(table, other, name, d) && forall n, e :: OneSided(table, other, n, e) && Alike(n, e, name, d) ==> n == name
  }

  /** A removed and an added symbol, alike, and each the only such one on its side. */
  ghost predicate RenamesAlike(old_: Table<Definition>, new_: Table<Definition>, r: Renamed) {
    && OnlyOneLike(old_, new_, r.oldName, r.before) && OnlyOneLike(new_, old_, r.newName, r.after)
    && Alike(r.oldName, r.before, r.newName, r.after)
  }

  /** No file and no kind of the table holds a bar. */
  ghost predicate BarFree(table: Table<Definition>) {
    forall name, d :: name in table && d in table[name] ==> '|' !in d.file && '|' !in d.kind
  }

  lemma {:induction false} AloneIsOnlyLike(table: Table<Definition>, other: Table<Definition>, name: string, d: Definition)
    requires BarFree(table) && OneSided(table, other, name, d)
    ensures OnlyOneLike(table, other, name, d) <==> AloneInGroup(table, other, GroupKey(name, d), name)
  {
    forall n, e | OneSided(table, other, n, e) ensures Alike(n, e, name, d) <==> GroupKey(n, e) == GroupKey(name, d) {
      assert d in table[name] && e in table[n];
      GroupsAreAlike(n, e, name, d);
    }
    hide Alike, GroupKey, BarFree;
    var key := GroupKey(name, d);
    assert InGroup(table, other, key, name);
    if OnlyOneLike(table, other, name, d) {
      forall n | InGroup(table, other, key, n) ensures n == name {
        assert OneSided(table, other, n, table[n][0]);
      }
    }
    if AloneInGroup(table, other, key, name) {
      forall n, e | OneSided(table, other, n, e) && Alike(n, e, name, d) ensures n == name {
        assert InGroup(table, other, key, n);
      }
    }
  }

  /** Where no file and no kind holds a bar, the renames are the pairs of a removed and an added symbol in
      one file, of one kind and scope, that are the only such ones on their sides. */
  lemma {:induction false} RenamesAreAlike(old_: Table<Definition>, new_: Table<Definition>, r: Renamed)
    requires BarFree(old_) && BarFree(new_)
    ensures IsRenamed(old_, new_, r) <==> RenamesAlike(old_, new_, r)
  {
    var key := GroupKey(r.oldName, r.before);
    hide GroupKey, Alike, BarFree, OnlyOneLike;
    if IsRenamed(old_, new_, r) || RenamesAlike(old_, new_, r) {
      OneSidedOf(old_, new_, r);
      AloneIsOnlyLike(old_, new_, r.oldName, r.before);
      AloneIsOnlyLike(new_, old_, r.newName, r.after);
      BarFreeAt(old_, r.oldName, r.before);
      BarFreeAt(new_, r.newName, r.after);
      assert '|' !in r.before.file + r.before.kind + r.after.file + r.after.kind;
      GroupsAreAlike(r.oldName, r.before, r.newName, r.after);
    }
  }

  lemma {:induction false} OneSidedOf(old_: Table<Definition>, new_: Table<Definition>, r: Renamed)
    requires IsRenamed(old_, new_, r) || RenamesAlike(old_, new_, r)
    ensures OneSided(old_, new_, r.oldName, r.before) && OneSided(new_, old_, r.newName, r.after)
  {}

  lemma {:induction false} BarFreeAt(table: Table<Definition>, name: string, d: Definition)
    requires BarFree(table) && name in table && d in table[name]
    ensures '|' !in d.file && '|' !in d.kind
  {}

  /** A bar in a file name can join what is not alike: a symbol removed from one file and one added to another
      are then reported as a rename. */
  lemma {:induction false} BarsJoinGroups(before: Definition, after: Definition)
    requires before.file == "a|b" && before.kind == "c" && after.file == "a" && after.kind == "b|c"
    ensures IsRenamed(map["f" := [before]], map["g" := [after]], Renamed("f", "g", before, after))
  {
    assert GroupKey("f", before) == "a|b|c|" && GroupKey("g", after) == "a|b|c|";
    hide GroupKey;
  }
}
