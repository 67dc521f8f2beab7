/** The Clojure parameter-rename promotion: when is replacing raw edits by "rename variable" honest? */
module ClojureRename {
  import opened Common
  import opened SemanticTree

  const SYMBOL := "sym_lit"
  const LIST := "list_lit"
  const VECTOR := "vec_lit"

  // ---- The guards of the pass ----

  /** The label of the first symbol child. */
  function Head(n: Node): Option<string> {
    FirstSymbol(n.children)
  }

  function FirstSymbol(ns: seq<Node>): Option<string> {
    if ns == [] then None else if ns[0].kind == SYMBOL then Some(ns[0].text) else FirstSymbol(ns[1..])
  }

  predicate IsNamedDefn(n: Node) {
    n.kind == LIST && n.text != "" && (Head(n) == Some("defn") || Head(n) == Some("defn-"))
  }

  predicate SimpleName(name: string) {
    name != "" && name != "&" && '/' !in name && ':' !in name && '.' !in name
  }

  function VectorsOf(ns: seq<Node>): seq<Node> {
    if ns == [] then []
    else (if ns[0].kind == VECTOR then [ns[0]] else []) + VectorsOf(ns[1..])
  }

  /** The parameters of a single-arity form whose binders are all plain symbols. */
  function SimpleParams(form: Node): Option<seq<Node>> {
    var vectors := VectorsOf(form.children);
    if |vectors| != 1 then None
    else
      var params := vectors[0].children;
      if params == [] || (exists i :: 0 <= i < |params| && (params[i].kind != SYMBOL || !SimpleName(params[i].text)))
      then None
      else Some(params)
  }

  const SHADOWING: set<string> := {
    "let", "let*", "letfn", "fn", "fn*", "loop", "loop*", "binding", "for", "doseq", "if-let", "when-let",
    "if-some", "when-some", "with-open", "as->", "catch", "defn", "defn-"}

  const READER_QUOTES: set<string> := {
    "quoting_lit", "syn_quoting_lit", "unquoting_lit", "unquote_splicing_lit", "var_quoting_lit",
    "quote_lit", "syn_quote_lit", "unquote_lit", "var_lit"}

  const SPECIAL_QUOTES: set<string> := {
    "quote", "syntax-quote", "unquote", "unquote-splicing", "var", "case", "case*"}

  /** The part after the last slash, if there is one. */
  function AfterSlash(s: string): Option<string> {
    if '/' !in s then None
    else if s[0] == '/' && '/' !in s[1..] then Some(s[1..])
    else AfterSlash(s[1..])
  }

  predicate ShadowingNode(n: Node) {
    n.kind == LIST && Head(n).Some? && Head(n).value in SHADOWING
  }

  predicate QuotingHead(head: string) {
    head in SPECIAL_QUOTES || (head != "" && head[0] == '.') || head == "doto" ||
    AfterSlash(head) == Some("case") || AfterSlash(head) == Some("case*")
  }

  predicate QuotingNode(n: Node) {
    n.kind in READER_QUOTES || (n.kind == LIST && Head(n).Some? && QuotingHead(Head(n).value))
  }

  /** The forms the pass refuses to reason about. */
  predicate Excluded(n: Node) {
    ShadowingNode(n) || QuotingNode(n)
  }

  predicate HasExcluded(form: Node) {
    exists k :: 0 <= k < |Descendants(form)| && Excluded(Descendants(form)[k])
  }

  type Renames = map<string, string>

  function Renamed(renames: Renames, name: string): string {
    if name in renames then renames[name] else name
  }

  /** Same shape, same labels, except that symbols are mapped. */
  predicate EqualModulo(a: Node, b: Node, renames: Renames)
    decreases a, 0
  {
    && a.kind == b.kind && |a.children| == |b.children|
    && (if a.kind == SYMBOL then Renamed(renames, a.text) else a.text) == b.text
    && EqualForests(a.children, b.children, renames)
  }

  predicate EqualForests(as_: seq<Node>, bs: seq<Node>, renames: Renames)
    decreases as_, 1
  {
    |as_| == |bs| && (as_ == [] || (EqualModulo(as_[0], bs[0], renames) && EqualForests(as_[1..], bs[1..], renames)))
  }

  function Labels(ns: seq<Node>): (s: seq<string>)
    ensures |s| == |ns|
    ensures forall i :: 0 <= i < |ns| ==> s[i] == ns[i].text
  {
    if ns == [] then [] else [ns[0].text] + Labels(ns[1..])
  }

  predicate Distinct(s: seq<string>) {
    forall i, j :: 0 <= i < j < |s| ==> s[i] != s[j]
  }

  predicate OccursIn(ns: seq<Node>, name: string) {
    exists k :: 0 <= k < |Forest(ns)| && Forest(ns)[k].kind == SYMBOL && Forest(ns)[k].text == name
  }

  predicate OccursBelow(form: Node, name: string) {
    OccursIn(form.children, name)
  }

  /** A changed parameter takes a name that is nobody's parameter on the old side and occurs nowhere
      in the old form; its old name is nobody's parameter on the new side. */
  predicate FreshPair(form: Node, olds: seq<string>, news: seq<string>, i: nat)
    requires i < |olds| == |news|
  {
    olds[i] == news[i] || (news[i] !in olds && olds[i] !in news && !OccursBelow(form, news[i]))
  }

  predicate AllFresh(form: Node, olds: seq<string>, news: seq<string>)
    requires |olds| == |news|
  {
    forall i :: 0 <= i < |olds| ==> FreshPair(form, olds, news, i)
  }

  /** The rename map of the first `n` parameter positions. */
  function MappingUpTo(olds: seq<string>, news: seq<string>, n: nat): Renames
    requires n <= |olds| == |news|
  {
    if n == 0 then map[]
    else
      var m := MappingUpTo(olds, news, n - 1);
      if olds[n - 1] == news[n - 1] then m else m[olds[n - 1] := news[n - 1]]
  }

  /** The syntactic conditions under which the pass treats two forms as one renamed function. */
  predicate ProvesRename(a: Node, b: Node, olds: seq<string>, news: seq<string>) {
    && IsNamedDefn(a) && IsNamedDefn(b)
    && !HasExcluded(a) && !HasExcluded(b)
    && SimpleParams(a).Some? && Labels(SimpleParams(a).value) == olds
    && SimpleParams(b).Some? && Labels(SimpleParams(b).value) == news
    && |olds| == |news| && Distinct(olds) && Distinct(news)
    && AllFresh(a, olds, news)
    && olds != news
    && EqualModulo(a, b, MappingUpTo(olds, news, |olds|))
  }

  // ---- Evaluators ----

  /** How a language reads a list or another composite node, by its kind and its first symbol. */
  datatype Reading =
    | Values  // combines the values of its parts
    | Special // a special form, which locals cannot shadow, combining the values of its parts, like `if`
    | Syntax  // a special form that reads its parts as syntax, like `def`
    | Macro   // reads its parts as syntax, unless a local has taken its first symbol, like `dotimes`

  /** Syntax without ids; symbols are atoms. */
  datatype Form = Form(kind: string, text: string, parts: seq<Form>)

  function FormOf(n: Node): Form
    decreases n, 0
  {
    Form(n.kind, n.text, if n.kind == SYMBOL then [] else FormsOf(n.children))
  }

  function FormsOf(ns: seq<Node>): (fs: seq<Form>)
    ensures |fs| == |ns|
    decreases ns, 1
  {
    if ns == [] then [] else [FormOf(ns[0])] + FormsOf(ns[1..])
  }

  /** Any evaluator that is compositional outside the excluded forms, except where `reading` says that a node is read as
      syntax: there it sees the syntax and what the locals in it are bound to. On excluded forms it may do as it likes.
      Values may be computations, so laziness and effects are covered. */
  datatype Evaluator<!V> = Evaluator(
    reading: (string, Option<string>) -> Reading,
    combine: (string, string, Option<string>, seq<V>) -> V,
    expand: (Form, map<string, V>) -> V,
    global: string -> V,
    raw: (Node, map<string, V>) -> V)

  /** The symbol a node starts with. */
  function First(n: Node): Option<string> {
    if n.children != [] && n.children[0].kind == SYMBOL then Some(n.children[0].text) else None
  }

  function ReadingOf(reading: (string, Option<string>) -> Reading, n: Node): Reading {
    reading(n.kind, First(n))
  }

  predicate ReadsSyntax(reading: (string, Option<string>) -> Reading, n: Node, locals: set<string>) {
    match ReadingOf(reading, n)
    case Syntax => true
    case Macro => First(n).None? || First(n).value !in locals
    case _ => false
  }

  function Operator(reading: (string, Option<string>) -> Reading, n: Node): Option<string> {
    if ReadingOf(reading, n).Special? then First(n) else None
  }

  function Lookup<V>(ev: Evaluator<V>, env: map<string, V>, name: string): V {
    if name in env then env[name] else ev.global(name)
  }

  /** What the locals below a node are bound to. */
  function LocalsOf<V>(n: Node, env: map<string, V>): map<string, V> {
    map name | name in Visible(n) && name in env :: env[name]
  }

  function Eval<V>(ev: Evaluator<V>, n: Node, env: map<string, V>): V
    decreases n, 0
  {
    if Excluded(n) then ev.raw(n, env)
    else if n.kind == SYMBOL then Lookup(ev, env, n.text)
    else if ReadsSyntax(ev.reading, n, env.Keys) then ev.expand(FormOf(n), LocalsOf(n, env))
    else ev.combine(n.kind, n.text, Operator(ev.reading, n), EvalAll(ev, n.children, env))
  }

  function EvalAll<V>(ev: Evaluator<V>, ns: seq<Node>, env: map<string, V>): (vs: seq<V>)
    ensures |vs| == |ns|
    decreases ns, 1
  {
    if ns == [] then [] else [Eval(ev, ns[0], env)] + EvalAll(ev, ns[1..], env)
  }

  /** What stands before the parameter vector: the defining symbol, the name, documentation, metadata. */
  function Prelude(ns: seq<Node>): seq<Node> {
    if ns == [] || ns[0].kind == VECTOR then [] else [ns[0]] + Prelude(ns[1..])
  }

  function Body(ns: seq<Node>): seq<Node> {
    if ns == [] then [] else if ns[0].kind == VECTOR then ns[1..] else Body(ns[1..])
  }

  function Bind<V>(params: seq<string>, args: seq<V>): map<string, V>
    requires |params| == |args|
  {
    if params == [] then map[]
    else Bind(params[..|params| - 1], args[..|args| - 1])[params[|params| - 1] := args[|args| - 1]]
  }

  /** The two definitions mean the same: equal preludes outside, equal bodies under equal arguments. */
  ghost predicate SameMeaning<V(!new)>(ev: Evaluator<V>, a: Node, b: Node, olds: seq<string>, news: seq<string>)
    requires |olds| == |news|
  {
    && EvalAll(ev, Prelude(a.children), map[]) == EvalAll(ev, Prelude(b.children), map[])
    && forall args: seq<V> {:trigger Bind(olds, args)} :: |args| == |olds| ==>
         EvalAll(ev, Body(a.children), Bind(olds, args)) == EvalAll(ev, Body(b.children), Bind(news, args))
  }

  // ---- When the promotion is honest ----

  /** Symbols an evaluation can meet. */
  function Visible(n: Node): set<string>
    decreases n, 0
  {
    if n.kind == SYMBOL then {n.text} else VisibleIn(n.children)
  }

  function VisibleIn(ns: seq<Node>): set<string>
    decreases ns, 1
  {
    if ns == [] then {} else Visible(ns[0]) + VisibleIn(ns[1..])
  }

  /** A renamed first symbol is, and becomes, a plain local; what is read as syntax holds no renamed symbol. */
  predicate StableAt(reading: (string, Option<string>) -> Reading, m: Renames, locals: set<string>, n: Node) {
    if First(n).Some? && First(n).value in m
    then TakesLocals(ReadingOf(reading, n)) && TakesLocals(reading(n.kind, Some(m[First(n).value])))
    else ReadsSyntax(reading, n, locals) ==> Visible(n) !! m.Keys
  }

  predicate TakesLocals(r: Reading) {
    r.Values? || r.Macro?
  }

  predicate Stable(reading: (string, Option<string>) -> Reading, m: Renames, locals: set<string>, n: Node)
    decreases n, 0
  {
    n.kind == SYMBOL || (StableAt(reading, m, locals, n) && StableIn(reading, m, locals, n.children))
  }

  predicate StableIn(reading: (string, Option<string>) -> Reading, m: Renames, locals: set<string>, ns: seq<Node>)
    decreases ns, 1
  {
    ns == [] || (Stable(reading, m, locals, ns[0]) && StableIn(reading, m, locals, ns[1..]))
  }

  /** A condition on the old form and the parameter names alone. */
  predicate Honest(reading: (string, Option<string>) -> Reading, a: Node, olds: seq<string>, news: seq<string>)
    requires |olds| == |news|
  {
    var m := MappingUpTo(olds, news, |olds|);
    && VisibleIn(Prelude(a.children)) !! m.Keys
    && StableIn(reading, m, (set name | name in olds), Body(a.children))
  }

  // ---- Facts about the guards ----

  predicate Plain(n: Node)
    decreases n, 0
  {
    !Excluded(n) && PlainIn(n.children)
  }

  predicate PlainIn(ns: seq<Node>)
    decreases ns, 1
  {
    ns == [] || (Plain(ns[0]) && PlainIn(ns[1..]))
  }

  lemma {:induction false} NoExcludedIsPlain(ns: seq<Node>)
    requires forall k :: 0 <= k < |Forest(ns)| ==> !Excluded(Forest(ns)[k])
    ensures PlainIn(ns)
    decreases ns
  {
    if ns != [] {
      var below, rest := Descendants(ns[0]), Forest(ns[1..]);
      var all := Forest(ns);
      assert all == [ns[0]] + below + rest;
      assert all[0] == ns[0];
      forall k | 0 <= k < |below| ensures !Excluded(below[k]) { assert all[k + 1] == below[k]; }
      forall k | 0 <= k < |rest| ensures !Excluded(rest[k]) { assert all[k + 1 + |below|] == rest[k]; }
      NoExcludedIsPlain(ns[0].children);
      NoExcludedIsPlain(ns[1..]);
    }
  }

  lemma {:induction false} FormIsPlain(form: Node)
    requires !HasExcluded(form)
    ensures PlainIn(form.children)
  {
    assert Descendants(form) == Forest(form.children);
    NoExcludedIsPlain(form.children);
  }

  predicate IsNamed(n: Node, name: string) {
    n.kind == SYMBOL && n.text == name
  }

  lemma {:induction false} OccursInIs(ns: seq<Node>, name: string)
    ensures OccursIn(ns, name) <==> exists x :: x in Forest(ns) && IsNamed(x, name)
  {
    hide Forest;
    if OccursIn(ns, name) {
      var k :| 0 <= k < |Forest(ns)| && Forest(ns)[k].kind == SYMBOL && Forest(ns)[k].text == name;
      assert Forest(ns)[k] in Forest(ns) && IsNamed(Forest(ns)[k], name);
    }
  }

  lemma {:induction false} OccursInSplit(n: Node, ns: seq<Node>, name: string)
    ensures OccursIn([n] + ns, name) <==>
              (n.kind == SYMBOL && n.text == name) || OccursIn(n.children, name) || OccursIn(ns, name)
  {
    var below, rest := Descendants(n), Forest(ns);
    var all := Forest([n] + ns);
    assert ([n] + ns)[1..] == ns && all == [n] + below + rest && below == Forest(n.children);
    OccursInIs([n] + ns, name);
    OccursInIs(n.children, name);
    OccursInIs(ns, name);
    hide OccursIn, Forest, Descendants;
    assert forall x :: x in all <==> x == n || x in below || x in rest;
    assert IsNamed(n, name) <==> n.kind == SYMBOL && n.text == name;
    hide IsNamed;
  }

  lemma {:induction false} VisibleOccurs(ns: seq<Node>, name: string)
    requires name in VisibleIn(ns)
    ensures OccursIn(ns, name)
    decreases ns
  {
    assert ns == [ns[0]] + ns[1..];
    OccursInSplit(ns[0], ns[1..], name);
    if name in Visible(ns[0]) {
      if ns[0].kind != SYMBOL { VisibleOccurs(ns[0].children, name); }
    } else {
      VisibleOccurs(ns[1..], name);
    }
  }

  lemma {:induction false} MappingIs(olds: seq<string>, news: seq<string>, n: nat)
    requires n <= |olds| == |news| && Distinct(olds)
    ensures forall i :: 0 <= i < n && olds[i] != news[i] ==>
              olds[i] in MappingUpTo(olds, news, n) && MappingUpTo(olds, news, n)[olds[i]] == news[i]
    ensures forall name :: name in MappingUpTo(olds, news, n) ==>
              exists i :: 0 <= i < n && olds[i] == name && olds[i] != news[i]
  {
    if n > 0 { MappingIs(olds, news, n - 1); }
  }

  lemma {:induction false} BindIs<V>(params: seq<string>, args: seq<V>)
    requires |params| == |args| && Distinct(params)
    ensures forall i :: 0 <= i < |params| ==> params[i] in Bind(params, args) && Bind(params, args)[params[i]] == args[i]
    ensures forall name :: name in Bind(params, args) ==> exists i :: 0 <= i < |params| && params[i] == name
  {
    if params != [] {
      var n := |params| - 1;
      BindIs(params[..n], args[..n]);
      assert forall i :: 0 <= i < n ==> params[..n][i] == params[i] && args[..n][i] == args[i];
    }
  }

  /** Each symbol of the old form finds on the new side, under its new name, what it found before. */
  lemma {:induction false} LookupAgrees<V>(ev: Evaluator<V>, a: Node, olds: seq<string>, news: seq<string>,
                                           args: seq<V>, name: string)
    requires |olds| == |news| == |args| && Distinct(olds) && Distinct(news)
    requires AllFresh(a, olds, news)
    requires OccursBelow(a, name)
    ensures Lookup(ev, Bind(olds, args), name) ==
            Lookup(ev, Bind(news, args), Renamed(MappingUpTo(olds, news, |olds|), name))
  {
    hide AllFresh, OccursBelow;
    if name in olds {
      var i :| 0 <= i < |olds| && olds[i] == name;
      ParameterLookup(ev, olds, news, args, i);
    } else {
      OutsiderStaysFree(a, olds, news, name);
      BindIs(olds, args);
      BindIs(news, args);
      MappingIs(olds, news, |olds|);
      hide MappingUpTo, Bind;
      assert name !in MappingUpTo(olds, news, |olds|);
      assert name !in Bind(olds, args) && name !in Bind(news, args);
    }
  }

  lemma {:induction false} ParameterLookup<V>(ev: Evaluator<V>, olds: seq<string>, news: seq<string>, args: seq<V>, i: nat)
    requires |olds| == |news| == |args| && Distinct(olds) && Distinct(news) && i < |olds|
    ensures Lookup(ev, Bind(olds, args), olds[i]) == args[i]
    ensures Lookup(ev, Bind(news, args), Renamed(MappingUpTo(olds, news, |olds|), olds[i])) == args[i]
  {
    RenamedParameter(olds, news, i);
    hide Renamed, MappingUpTo, Distinct;
    BindIs(olds, args);
    BindIs(news, args);
  }

  lemma {:induction false} RenamedParameter(olds: seq<string>, news: seq<string>, i: nat)
    requires |olds| == |news| && Distinct(olds) && i < |olds|
    ensures Renamed(MappingUpTo(olds, news, |olds|), olds[i]) == news[i]
  {
    MappingIs(olds, news, |olds|);
    hide MappingUpTo;
    var m := MappingUpTo(olds, news, |olds|);
    if olds[i] == news[i] && olds[i] in m {
      var j :| 0 <= j < |olds| && olds[j] == olds[i] && olds[j] != news[j];
      assert false;
    }
  }

  lemma {:induction false} OutsiderStaysFree(a: Node, olds: seq<string>, news: seq<string>, name: string)
    requires |olds| == |news| && OccursBelow(a, name) && name !in olds
    requires AllFresh(a, olds, news)
    ensures name !in news
  {
    forall i | 0 <= i < |news| ensures news[i] != name {
      assert FreshPair(a, olds, news, i);
    }
  }

  lemma {:induction false} SplitEqual(as_: seq<Node>, bs: seq<Node>, m: Renames)
    requires EqualForests(as_, bs, m)
    ensures EqualForests(Prelude(as_), Prelude(bs), m) && EqualForests(Body(as_), Body(bs), m)
  {
    if as_ != [] && as_[0].kind != VECTOR {
      SplitEqual(as_[1..], bs[1..], m);
      assert Prelude(as_)[1..] == Prelude(as_[1..]) && Prelude(bs)[1..] == Prelude(bs[1..]);
    }
  }

  lemma {:induction false} SplitPlain(ns: seq<Node>)
    requires PlainIn(ns)
    ensures PlainIn(Prelude(ns)) && PlainIn(Body(ns))
    ensures VisibleIn(Prelude(ns)) <= VisibleIn(ns) && VisibleIn(Body(ns)) <= VisibleIn(ns)
  {
    if ns != [] && ns[0].kind != VECTOR {
      SplitPlain(ns[1..]);
      assert Prelude(ns)[1..] == Prelude(ns[1..]);
    }
  }

  // ---- Promotion preserves meaning ----

  /** Where a name leads on the old side, its new name leads on the new side. */
  ghost predicate SameBinding<V>(ev: Evaluator<V>, m: Renames, env: map<string, V>, env': map<string, V>, name: string) {
    && Lookup(ev, env, name) == Lookup(ev, env', Renamed(m, name))
    && (name in env <==> Renamed(m, name) in env') && (name in m ==> name in env)
  }

  lemma {:induction false} EvalRenamed<V>(ev: Evaluator<V>, as_: seq<Node>, bs: seq<Node>, m: Renames,
                                          env: map<string, V>, env': map<string, V>)
    requires EqualForests(as_, bs, m) && PlainIn(as_) && PlainIn(bs)
    requires StableIn(ev.reading, m, env.Keys, as_)
    requires forall name :: name in VisibleIn(as_) ==> SameBinding(ev, m, env, env', name)
    ensures EvalAll(ev, as_, env) == EvalAll(ev, bs, env')
    decreases as_
  {
    if as_ != [] {
      var a, b := as_[0], bs[0];
      assert VisibleIn(as_) == Visible(a) + VisibleIn(as_[1..]);
      EvalRenamed(ev, as_[1..], bs[1..], m, env, env');
      assert EqualModulo(a, b, m) && Plain(a) && Plain(b) && Stable(ev.reading, m, env.Keys, a);
      assert Eval(ev, a, env) == Eval(ev, b, env') by {
        if a.kind == SYMBOL {
          assert a.text in Visible(a) && SameBinding(ev, m, env, env', a.text);
        } else {
          assert Visible(a) == VisibleIn(a.children);
          EvalRenamed(ev, a.children, b.children, m, env, env');
          NodeRenamed(ev, a, b, m, env, env');
        }
      }
    }
  }

  lemma {:induction false} NodeRenamed<V>(ev: Evaluator<V>, a: Node, b: Node, m: Renames,
                                          env: map<string, V>, env': map<string, V>)
    requires a.kind != SYMBOL && EqualModulo(a, b, m) && !Excluded(a) && !Excluded(b)
    requires StableAt(ev.reading, m, env.Keys, a)
    requires forall name :: name in Visible(a) ==> SameBinding(ev, m, env, env', name)
    requires EvalAll(ev, a.children, env) == EvalAll(ev, b.children, env')
    ensures Eval(ev, a, env) == Eval(ev, b, env')
  {
    FirstRenamed(a, b, m);
    hide Excluded, EqualModulo, EqualForests, Visible, First;
    if First(a).Some? {
      assert SameBinding(ev, m, env, env', First(a).value);
    }
    assert ReadsSyntax(ev.reading, a, env.Keys) <==> ReadsSyntax(ev.reading, b, env'.Keys);
    if ReadsSyntax(ev.reading, a, env.Keys) {
      SyntaxRenamed(a, b, m);
      forall name | name in Visible(a) ensures name in env <==> name in env' {
        assert SameBinding(ev, m, env, env', name);
      }
      forall name | name in Visible(a) && name in env ensures env[name] == env'[name] {
        assert SameBinding(ev, m, env, env', name);
      }
      assert LocalsOf(a, env) == LocalsOf(b, env');
    }
  }

  lemma {:induction false} FirstRenamed(a: Node, b: Node, m: Renames)
    requires a.kind != SYMBOL && EqualModulo(a, b, m)
    ensures First(a).Some? ==> First(a).value in Visible(a)
    ensures First(b) == if First(a).Some? then Some(Renamed(m, First(a).value)) else None
  {
    if a.children != [] {
      assert EqualModulo(a.children[0], b.children[0], m);
      assert Visible(a) == Visible(a.children[0]) + VisibleIn(a.children[1..]);
    }
  }

  /** Without renamed symbols the syntax is the same. */
  lemma {:induction false} SyntaxRenamed(a: Node, b: Node, m: Renames)
    requires a.kind != SYMBOL && EqualModulo(a, b, m) && Visible(a) !! m.Keys
    ensures FormOf(a) == FormOf(b) && Visible(a) == Visible(b)
  {
    SameSyntax(a.children, b.children, m);
  }

  lemma {:induction false} SameSyntax(as_: seq<Node>, bs: seq<Node>, m: Renames)
    requires EqualForests(as_, bs, m) && VisibleIn(as_) !! m.Keys
    ensures FormsOf(as_) == FormsOf(bs) && VisibleIn(as_) == VisibleIn(bs)
    decreases as_
  {
    if as_ != [] {
      var a, b := as_[0], bs[0];
      assert VisibleIn(as_) == Visible(a) + VisibleIn(as_[1..]);
      SameSyntax(as_[1..], bs[1..], m);
      assert EqualModulo(a, b, m);
      if a.kind != SYMBOL {
        SameSyntax(a.children, b.children, m);
      } else {
        assert a.text in Visible(a);
      }
    }
  }

  /** The same syntax holds no renamed symbol. */
  lemma {:induction false} SameSyntaxUntouched(as_: seq<Node>, bs: seq<Node>, m: Renames)
    requires EqualForests(as_, bs, m) && FormsOf(as_) == FormsOf(bs)
    requires forall name :: name in m ==> m[name] != name
    ensures VisibleIn(as_) !! m.Keys
    decreases as_
  {
    if as_ != [] {
      var a, b := as_[0], bs[0];
      assert FormsOf(as_)[0] == FormOf(a) && FormsOf(bs)[0] == FormOf(b);
      assert FormsOf(as_)[1..] == FormsOf(as_[1..]) && FormsOf(bs)[1..] == FormsOf(bs[1..]);
      SameSyntaxUntouched(as_[1..], bs[1..], m);
      assert EqualModulo(a, b, m);
      if a.kind != SYMBOL {
        SameSyntaxUntouched(a.children, b.children, m);
      }
      assert Visible(a) !! m.Keys;
    }
  }

  /** What holds no renamed symbol is stable. */
  lemma {:induction false} UntouchedStable(reading: (string, Option<string>) -> Reading, ns: seq<Node>, m: Renames,
                                           locals: set<string>)
    requires VisibleIn(ns) !! m.Keys
    ensures StableIn(reading, m, locals, ns)
    decreases ns
  {
    if ns != [] {
      var n := ns[0];
      assert VisibleIn(ns) == Visible(n) + VisibleIn(ns[1..]);
      UntouchedStable(reading, ns[1..], m, locals);
      if n.kind != SYMBOL {
        UntouchedStable(reading, n.children, m, locals);
        if n.children != [] { assert Visible(n) == Visible(n.children[0]) + VisibleIn(n.children[1..]); }
        assert StableAt(reading, m, locals, n);
      }
    }
  }

  lemma {:induction false} ParametersBound<V>(olds: seq<string>, args: seq<V>)
    requires |olds| == |args| && Distinct(olds)
    ensures Bind(olds, args).Keys == set name | name in olds
  {
    BindIs(olds, args);
  }

  lemma {:induction false} SameBindings<V>(ev: Evaluator<V>, a: Node, olds: seq<string>, news: seq<string>, args: seq<V>, name: string)
    requires |olds| == |news| == |args| && Distinct(olds) && Distinct(news)
    requires AllFresh(a, olds, news) && OccursBelow(a, name)
    ensures SameBinding(ev, MappingUpTo(olds, news, |olds|), Bind(olds, args), Bind(news, args), name)
  {
    LookupAgrees(ev, a, olds, news, args, name);
    ParametersBound(olds, args);
    ParametersBound(news, args);
    MappingIs(olds, news, |olds|);
    hide Bind, MappingUpTo, Lookup;
    if name in olds {
      var i :| 0 <= i < |olds| && olds[i] == name;
      RenamedParameter(olds, news, i);
    } else {
      OutsiderStaysFree(a, olds, news, name);
    }
    hide AllFresh, OccursBelow, Distinct;
  }

  lemma {:induction false} BodiesAgree<V>(ev: Evaluator<V>, a: Node, b: Node, olds: seq<string>, news: seq<string>,
                                          args: seq<V>)
    requires ProvesRename(a, b, olds, news) && |args| == |olds|
    requires StableIn(ev.reading, MappingUpTo(olds, news, |olds|), (set name | name in olds), Body(a.children))
    ensures EvalAll(ev, Body(a.children), Bind(olds, args)) == EvalAll(ev, Body(b.children), Bind(news, args))
  {
    hide SimpleParams, HasExcluded, Bind, MappingUpTo, FreshPair, OccursIn, SameBinding, Distinct, Labels;
    var m := MappingUpTo(olds, news, |olds|);
    FormIsPlain(a);
    FormIsPlain(b);
    SplitPlain(a.children);
    SplitPlain(b.children);
    SplitEqual(a.children, b.children, m);
    ParametersBound(olds, args);
    forall name | name in VisibleIn(Body(a.children)) ensures SameBinding(ev, m, Bind(olds, args), Bind(news, args), name) {
      VisibleOccurs(a.children, name);
      SameBindings(ev, a, olds, news, args, name);
    }
    EvalRenamed(ev, Body(a.children), Body(b.children), m, Bind(olds, args), Bind(news, args));
  }

  lemma {:induction false} PreludesAgree<V>(ev: Evaluator<V>, a: Node, b: Node, m: Renames)
    requires !HasExcluded(a) && !HasExcluded(b) && EqualModulo(a, b, m)
    requires VisibleIn(Prelude(a.children)) !! m.Keys
    ensures EvalAll(ev, Prelude(a.children), map[]) == EvalAll(ev, Prelude(b.children), map[])
  {
    FormIsPlain(a);
    FormIsPlain(b);
    SplitPlain(a.children);
    SplitPlain(b.children);
    SplitEqual(a.children, b.children, m);
    var none: map<string, V> := map[];
    UntouchedStable(ev.reading, Prelude(a.children), m, none.Keys);
    EvalRenamed(ev, Prelude(a.children), Prelude(b.children), m, none, none);
  }

  /** Soundness: for every evaluator under whose reading the rename is honest, the two definitions mean the same. */
  lemma {:induction false} HonestPromotionSound<V(!new)>(ev: Evaluator<V>, a: Node, b: Node, olds: seq<string>,
                                                         news: seq<string>)
    requires ProvesRename(a, b, olds, news)
    requires Honest(ev.reading, a, olds, news)
    ensures SameMeaning(ev, a, b, olds, news)
  {
    PreludesAgree(ev, a, b, MappingUpTo(olds, news, |olds|));
    forall args: seq<V> {:trigger Bind(olds, args)} | |args| == |olds|
      ensures EvalAll(ev, Body(a.children), Bind(olds, args)) == EvalAll(ev, Body(b.children), Bind(news, args))
    {
      BodiesAgree(ev, a, b, olds, news, args);
    }
  }

  // ---- The condition is exact ----

  /** Values of the free evaluator: what was evaluated, kept apart wherever it can be. */
  datatype Term =
    | Local(index: nat)
    | Global(name: string)
    | Apply(kind: string, text: string, operator: Option<string>, kids: seq<Term>)
    | Expanded(form: Form, locals: map<string, Term>)
    | Opaque

  function FreeEvaluator(reading: (string, Option<string>) -> Reading): Evaluator<Term> {
    Evaluator(reading, (kind, text, operator, kids) => Apply(kind, text, operator, kids),
              (form, locals) => Expanded(form, locals), name => Global(name), (n, env) => Opaque)
  }

  /** Equal values of composite nodes: both read as syntax, and the same, or both with the same operator and parts. */
  lemma {:induction false} EqualTerms(reading: (string, Option<string>) -> Reading, a: Node, b: Node,
                                      env: map<string, Term>, env': map<string, Term>)
    requires a.kind != SYMBOL && b.kind != SYMBOL && !Excluded(a) && !Excluded(b)
    requires Eval(FreeEvaluator(reading), a, env) == Eval(FreeEvaluator(reading), b, env')
    ensures if ReadsSyntax(reading, a, env.Keys) then ReadsSyntax(reading, b, env'.Keys) && FormOf(a) == FormOf(b)
            else !ReadsSyntax(reading, b, env'.Keys) && Operator(reading, a) == Operator(reading, b) &&
                 EvalAll(FreeEvaluator(reading), a.children, env) == EvalAll(FreeEvaluator(reading), b.children, env')
  {
    hide Excluded, ReadsSyntax, Operator, FormOf;
  }

  lemma {:induction false} EqualTermsUntouched(reading: (string, Option<string>) -> Reading, as_: seq<Node>, bs: seq<Node>,
                                               m: Renames)
    requires EqualForests(as_, bs, m) && PlainIn(as_) && PlainIn(bs)
    requires forall name :: name in m ==> m[name] != name
    requires EvalAll(FreeEvaluator(reading), as_, map[]) == EvalAll(FreeEvaluator(reading), bs, map[])
    ensures VisibleIn(as_) !! m.Keys
    decreases as_
  {
    if as_ != [] {
      var ev, a, b := FreeEvaluator(reading), as_[0], bs[0];
      FirstAndRest(ev, as_, bs, map[], map[]);
      EqualTermsUntouched(reading, as_[1..], bs[1..], m);
      assert EqualModulo(a, b, m) && Plain(a) && Plain(b);
      assert Visible(a) !! m.Keys by {
        if a.kind == SYMBOL {
          assert Eval(ev, a, map[]) == Global(a.text) && Eval(ev, b, map[]) == Global(b.text);
        } else {
          EqualTerms(reading, a, b, map[], map[]);
          var none: map<string, Term> := map[];
          if ReadsSyntax(reading, a, none.Keys) {
            SameSyntaxUntouched(a.children, b.children, m);
          } else {
            EqualTermsUntouched(reading, a.children, b.children, m);
          }
        }
      }
    }
  }

  lemma {:induction false} FirstAndRest<V>(ev: Evaluator<V>, as_: seq<Node>, bs: seq<Node>, env: map<string, V>,
                                           env': map<string, V>)
    requires as_ != [] && bs != [] && EvalAll(ev, as_, env) == EvalAll(ev, bs, env')
    ensures Eval(ev, as_[0], env) == Eval(ev, bs[0], env')
    ensures EvalAll(ev, as_[1..], env) == EvalAll(ev, bs[1..], env')
  {
    var x, y := EvalAll(ev, as_, env), EvalAll(ev, bs, env');
    assert x[0] == Eval(ev, as_[0], env) && y[0] == Eval(ev, bs[0], env');
    assert x[1..] == EvalAll(ev, as_[1..], env) && y[1..] == EvalAll(ev, bs[1..], env');
  }

  lemma {:induction false} EqualTermsStable(reading: (string, Option<string>) -> Reading, as_: seq<Node>, bs: seq<Node>,
                                            m: Renames, env: map<string, Term>, env': map<string, Term>)
    requires EqualForests(as_, bs, m) && PlainIn(as_) && PlainIn(bs)
    requires forall name :: name in m ==> m[name] != name && name in env
    requires EvalAll(FreeEvaluator(reading), as_, env) == EvalAll(FreeEvaluator(reading), bs, env')
    ensures StableIn(reading, m, env.Keys, as_)
    decreases as_
  {
    if as_ != [] {
      var ev, a, b := FreeEvaluator(reading), as_[0], bs[0];
      FirstAndRest(ev, as_, bs, env, env');
      EqualTermsStable(reading, as_[1..], bs[1..], m, env, env');
      assert EqualModulo(a, b, m) && Plain(a) && Plain(b);
      assert Stable(reading, m, env.Keys, a) by {
        if a.kind != SYMBOL {
          EqualTerms(reading, a, b, env, env');
          if ReadsSyntax(reading, a, env.Keys) {
            SameSyntaxUntouched(a.children, b.children, m);
            UntouchedStable(reading, a.children, m, env.Keys);
          } else {
            EqualTermsStable(reading, a.children, b.children, m, env, env');
          }
          EqualTermsStableAt(reading, a, b, m, env.Keys, env'.Keys);
        }
      }
    }
  }

  lemma {:induction false} EqualTermsStableAt(reading: (string, Option<string>) -> Reading, a: Node, b: Node, m: Renames,
                                              locals: set<string>, locals': set<string>)
    requires a.kind != SYMBOL && EqualModulo(a, b, m)
    requires forall name :: name in m ==> m[name] != name && name in locals
    requires if ReadsSyntax(reading, a, locals) then ReadsSyntax(reading, b, locals') && Visible(a) !! m.Keys
             else !ReadsSyntax(reading, b, locals') && Operator(reading, a) == Operator(reading, b)
    ensures StableAt(reading, m, locals, a)
  {
    FirstRenamed(a, b, m);
    hide EqualModulo, Visible, First;
  }

  lemma {:induction false} SameMeaningIsHonest(reading: (string, Option<string>) -> Reading, a: Node, b: Node,
                                               olds: seq<string>, news: seq<string>)
    requires ProvesRename(a, b, olds, news) && SameMeaning(FreeEvaluator(reading), a, b, olds, news)
    ensures Honest(reading, a, olds, news)
  {
    var m := MappingUpTo(olds, news, |olds|);
    var args := seq(|olds|, i => Opaque);
    assert EvalAll(FreeEvaluator(reading), Body(a.children), Bind(olds, args)) ==
           EvalAll(FreeEvaluator(reading), Body(b.children), Bind(news, args));
    hide SameMeaning, SimpleParams, HasExcluded, AllFresh, Bind, FreeEvaluator, EvalAll, Body, Prelude, Labels;
    FormIsPlain(a);
    FormIsPlain(b);
    SplitPlain(a.children);
    SplitPlain(b.children);
    SplitEqual(a.children, b.children, m);
    MappingIs(olds, news, |olds|);
    EqualTermsUntouched(reading, Prelude(a.children), Prelude(b.children), m);
    ParametersBound(olds, args);
    EqualTermsStable(reading, Body(a.children), Body(b.children), m, Bind(olds, args), Bind(news, args));
  }

  /** A promoted rename is honest exactly when the free evaluator, and with it every evaluator that reads syntax in the
      same places, cannot tell the two definitions apart. */
  lemma {:induction false} HonestIffSameMeaning(reading: (string, Option<string>) -> Reading, a: Node, b: Node,
                                                olds: seq<string>, news: seq<string>)
    requires ProvesRename(a, b, olds, news)
    ensures Honest(reading, a, olds, news) <==> SameMeaning(FreeEvaluator(reading), a, b, olds, news)
  {
    assert |olds| == |news|;
    hide ProvesRename, Honest, SameMeaning;
    assert FreeEvaluator(reading).reading == reading;
    if Honest(reading, a, olds, news) {
      HonestPromotionSound(FreeEvaluator(reading), a, b, olds, news);
    }
    if SameMeaning(FreeEvaluator(reading), a, b, olds, news) {
      SameMeaningIsHonest(reading, a, b, olds, news);
    }
  }

  // ---- The verdict is symmetric ----

  lemma {:induction false} EqualInverse(as_: seq<Node>, bs: seq<Node>, m: Renames, inverse: Renames)
    requires EqualForests(as_, bs, m)
    requires forall name :: OccursIn(as_, name) ==> Renamed(inverse, Renamed(m, name)) == name
    ensures EqualForests(bs, as_, inverse)
    decreases as_
  {
    if as_ != [] {
      assert as_ == [as_[0]] + as_[1..];
      forall name ensures OccursIn(as_, name) <==>
          (as_[0].kind == SYMBOL && as_[0].text == name) || OccursIn(as_[0].children, name) || OccursIn(as_[1..], name)
      {
        OccursInSplit(as_[0], as_[1..], name);
      }
      assert EqualModulo(as_[0], bs[0], m);
      EqualInverse(as_[1..], bs[1..], m, inverse);
      EqualInverse(as_[0].children, bs[0].children, m, inverse);
      assert as_[0].kind == SYMBOL ==> OccursIn(as_, as_[0].text);
    }
  }

  lemma {:induction false} OccursRenamed(as_: seq<Node>, bs: seq<Node>, m: Renames, name: string)
    requires EqualForests(as_, bs, m) && OccursIn(bs, name)
    ensures exists was :: OccursIn(as_, was) && Renamed(m, was) == name
    decreases as_
  {
    assert as_ == [as_[0]] + as_[1..] && bs == [bs[0]] + bs[1..];
    OccursInSplit(bs[0], bs[1..], name);
    assert EqualModulo(as_[0], bs[0], m);
    var was: string;
    if bs[0].kind == SYMBOL && bs[0].text == name {
      was := as_[0].text;
    } else if OccursIn(bs[0].children, name) {
      OccursRenamed(as_[0].children, bs[0].children, m, name);
      was :| OccursIn(as_[0].children, was) && Renamed(m, was) == name;
    } else {
      OccursRenamed(as_[1..], bs[1..], m, name);
      was :| OccursIn(as_[1..], was) && Renamed(m, was) == name;
    }
    OccursInSplit(as_[0], as_[1..], was);
  }

  lemma {:induction false} RenamedBack(a: Node, olds: seq<string>, news: seq<string>, name: string)
    requires |olds| == |news| && Distinct(olds) && Distinct(news)
    requires AllFresh(a, olds, news)
    requires OccursBelow(a, name)
    ensures Renamed(MappingUpTo(news, olds, |olds|), Renamed(MappingUpTo(olds, news, |olds|), name)) == name
  {
    hide FreshPair;
    if name in olds {
      var i :| 0 <= i < |olds| && olds[i] == name;
      ParameterBack(olds, news, i);
    } else {
      OutsiderStaysFree(a, olds, news, name);
      hide OccursBelow;
      MappingIs(olds, news, |olds|);
      MappingIs(news, olds, |olds|);
      assert name !in MappingUpTo(olds, news, |olds|);
      assert name !in MappingUpTo(news, olds, |olds|);
    }
  }

  lemma {:induction false} ParameterBack(olds: seq<string>, news: seq<string>, i: nat)
    requires |olds| == |news| && Distinct(olds) && Distinct(news) && i < |olds|
    ensures Renamed(MappingUpTo(news, olds, |olds|), Renamed(MappingUpTo(olds, news, |olds|), olds[i])) == olds[i]
  {
    RenamedParameter(olds, news, i);
    RenamedParameter(news, olds, i);
  }

  lemma {:induction false} FreshBack(a: Node, b: Node, olds: seq<string>, news: seq<string>, i: nat)
    requires |olds| == |news| && Distinct(olds) && Distinct(news) && i < |olds|
    requires AllFresh(a, olds, news)
    requires EqualModulo(a, b, MappingUpTo(olds, news, |olds|))
    ensures FreshPair(b, news, olds, i)
  {
    var m := MappingUpTo(olds, news, |olds|);
    MappingIs(olds, news, |olds|);
    assert FreshPair(a, olds, news, i);
    if olds[i] != news[i] {
      forall was ensures Renamed(m, was) != olds[i] {
        if was in m {
          var j :| 0 <= j < |olds| && olds[j] == was && olds[j] != news[j];
          assert news[j] in news;
        }
      }
      if OccursBelow(b, olds[i]) {
        OccursRenamed(a.children, b.children, m, olds[i]);
      }
    }
  }

  /** The verdict reads the same in both directions: undoing the map turns the new form back into
      the old one, and the old names are fresh on the new side. */
  lemma {:induction false} RenameIsSymmetric(a: Node, b: Node, olds: seq<string>, news: seq<string>)
    requires ProvesRename(a, b, olds, news)
    ensures ProvesRename(b, a, news, olds)
  {
    hide SimpleParams, HasExcluded, IsNamedDefn, FreshPair, MappingUpTo, OccursBelow, OccursIn;
    var m, inverse := MappingUpTo(olds, news, |olds|), MappingUpTo(news, olds, |olds|);
    forall i | 0 <= i < |olds| ensures FreshPair(b, news, olds, i) {
      FreshBack(a, b, olds, news, i);
    }
    forall name | OccursIn(a.children, name) ensures Renamed(inverse, Renamed(m, name)) == name {
      OccursBelowIs(a, name);
      RenamedBack(a, olds, news, name);
    }
    EqualInverse(a.children, b.children, m, inverse);
    assert a.kind == b.kind == LIST by { DefnIsList(a); }
  }

  lemma {:induction false} OccursBelowIs(a: Node, name: string)
    ensures OccursBelow(a, name) == OccursIn(a.children, name)
  {}

  lemma {:induction false} DefnIsList(a: Node)
    requires IsNamedDefn(a)
    ensures a.kind == LIST
  {}
}
