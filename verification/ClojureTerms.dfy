/** The rename promotion in plain terms: which forms are promoted, what no promoted form can hold, and
    what becomes of every draft. */
module ClojureTerms {
  import opened Common
  import opened SemanticTree
  import opened ClojureRename
  import opened ClojurePass

  // ---- The guards in plain terms ----

  /** `n` is a list whose first symbol is `head`. */
  ghost predicate Calls(n: Node, head: string) {
    n.kind == "list_lit" && exists i :: 0 <= i < |n.children| && IsFirstSymbol(n.children, i) && n.children[i].text == head
  }

  ghost predicate IsFirstSymbol(ns: seq<Node>, i: nat)
    requires i < |ns|
  {
    ns[i].kind == "sym_lit" && forall k :: 0 <= k < i ==> ns[k].kind != "sym_lit"
  }

  lemma {:induction false} FirstSymbolIs(ns: seq<Node>, name: string)
    ensures FirstSymbol(ns) == Some(name) <==> exists i :: 0 <= i < |ns| && IsFirstSymbol(ns, i) && ns[i].text == name
  {
    if ns != [] {
      FirstSymbolIs(ns[1..], name);
      if ns[0].kind == "sym_lit" {
        assert IsFirstSymbol(ns, 0);
      } else {
        forall i | 0 <= i < |ns[1..]| ensures IsFirstSymbol(ns[1..], i) <==> IsFirstSymbol(ns, i + 1) {
          if IsFirstSymbol(ns[1..], i) {
            forall k | 0 <= k < i + 1 ensures ns[k].kind != "sym_lit" {
              if k > 0 { assert ns[1..][k - 1] == ns[k]; }
            }
          }
        }
        if i :| 0 <= i < |ns| && IsFirstSymbol(ns, i) && ns[i].text == name {
          assert ns[1..][i - 1] == ns[i] && IsFirstSymbol(ns[1..], i - 1);
        }
      }
    }
  }

  lemma {:induction false} CallsIs(n: Node, head: string)
    ensures Calls(n, head) <==> n.kind == LIST && Head(n) == Some(head)
  {
    FirstSymbolIs(n.children, head);
  }

  ghost predicate Definition(n: Node) {
    n.text != "" && (Calls(n, "defn") || Calls(n, "defn-"))
  }

  lemma {:induction false} DefinitionIs(n: Node)
    ensures Definition(n) <==> IsNamedDefn(n)
  {
    CallsIs(n, "defn");
    CallsIs(n, "defn-");
    hide Calls;
  }

  /** Heads of binding forms, of quotes, of `case` under any name space, and of Java interop. */
  ghost predicate ForbiddenHead(head: string) {
    || head in {"let", "let*", "letfn", "fn", "fn*", "loop", "loop*", "binding", "for", "doseq", "if-let", "when-let",
                "if-some", "when-some", "with-open", "as->", "catch", "defn", "defn-"}
    || head in {"quote", "syntax-quote", "unquote", "unquote-splicing", "var", "case", "case*"}
    || "." <= head || head == "doto"
    || CaseHead(head)
  }

  /** Reader quotes, and calls of forbidden heads. */
  ghost predicate Forbidden(n: Node) {
    || n.kind in {"quoting_lit", "syn_quoting_lit", "unquoting_lit", "unquote_splicing_lit", "var_quoting_lit",
                  "quote_lit", "syn_quote_lit", "unquote_lit", "var_lit"}
    || (exists head :: Calls(n, head) && ForbiddenHead(head))
  }

  lemma {:induction false} AfterSlashIs(s: string, t: string)
    requires '/' !in t
    ensures AfterSlash(s) == Some(t) <==> exists space :: s == space + "/" + t
  {
    forall space | s == space + "/" + t ensures AfterSlash(s) == Some(t) {
      BehindSlash(space, t);
    }
    if AfterSlash(s) == Some(t) {
      var space := BeforeSlash(s, t);
    }
  }

  lemma {:induction false} BehindSlash(space: string, t: string)
    requires '/' !in t
    ensures AfterSlash(space + "/" + t) == Some(t)
  {
    var s := space + "/" + t;
    assert s[|space|] == '/';
    if space == "" {
      assert s[1..] == t;
    } else {
      assert s[1..] == space[1..] + "/" + t;
      assert s[1..][|space| - 1] == '/';
      BehindSlash(space[1..], t);
    }
  }

  lemma {:induction false} BeforeSlash(s: string, t: string) returns (space: string)
    requires AfterSlash(s) == Some(t)
    ensures s == space + "/" + t
  {
    if s[0] == '/' && '/' !in s[1..] {
      space := "";
    } else {
      var rest := BeforeSlash(s[1..], t);
      space := [s[0]] + rest;
    }
  }

  ghost predicate CaseHead(head: string) {
    exists space :: head == space + "/case" || head == space + "/case*"
  }

  lemma {:induction false} CaseHeadIs(head: string)
    ensures CaseHead(head) <==> AfterSlash(head) == Some("case") || AfterSlash(head) == Some("case*")
  {
    AfterSlashIs(head, "case");
    AfterSlashIs(head, "case*");
    hide AfterSlash;
    forall space ensures space + "/case" == space + "/" + "case" && space + "/case*" == space + "/" + "case*" {}
  }

  lemma {:induction false} ForbiddenHeadIs(head: string)
    ensures ForbiddenHead(head) <==> head in SHADOWING || QuotingHead(head)
  {
    CaseHeadIs(head);
    assert "." <= head <==> head != "" && head[0] == '.';
    hide AfterSlash, CaseHead;
  }

  lemma {:induction false} ForbiddenIs(n: Node)
    ensures Forbidden(n) <==> Excluded(n)
  {
    if Head(n).Some? {
      CallsIs(n, Head(n).value);
      ForbiddenHeadIs(Head(n).value);
    }
    forall head | Calls(n, head) ensures n.kind == LIST && Head(n) == Some(head) {
      CallsIs(n, head);
    }
    hide Calls, ForbiddenHead, QuotingHead;
  }

  /** The only vector of the form holds `params`, all of them symbols with plain names. */
  ghost predicate HasParams(form: Node, params: seq<Node>) {
    && params != []
    && (exists j :: 0 <= j < |form.children| && IsOnlyVector(form.children, j) && form.children[j].children == params)
    && forall i :: 0 <= i < |params| ==> params[i].kind == "sym_lit" && PlainName(params[i].text)
  }

  ghost predicate IsOnlyVector(ns: seq<Node>, j: nat)
    requires j < |ns|
  {
    ns[j].kind == "vec_lit" && forall k :: 0 <= k < |ns| && ns[k].kind == "vec_lit" ==> k == j
  }

  predicate PlainName(name: string) {
    name != "" && name != "&" && forall c :: c in name ==> c !in {'/', ':', '.'}
  }

  lemma {:induction false} NoVectors(ns: seq<Node>)
    ensures VectorsOf(ns) == [] <==> forall k :: 0 <= k < |ns| ==> ns[k].kind != "vec_lit"
  {
    if ns != [] { NoVectors(ns[1..]); }
  }

  lemma {:induction false} OnlyVectorIs(ns: seq<Node>, v: Node)
    ensures VectorsOf(ns) == [v] <==> exists j :: 0 <= j < |ns| && IsOnlyVector(ns, j) && ns[j] == v
  {
    if ns != [] {
      var rest := ns[1..];
      NoVectors(rest);
      OnlyVectorIs(rest, v);
      if ns[0].kind == "vec_lit" {
        var later := VectorsOf(rest);
        assert VectorsOf(ns) == [ns[0]] + later && forall k :: 0 < k < |ns| ==> ns[k] == rest[k - 1];
        assert forall j :: 0 <= j < |ns| && IsOnlyVector(ns, j) ==> j == 0;
        if later == [] {
          assert IsOnlyVector(ns, 0);
          assert [ns[0]] == [v] <==> ns[0] == v;
        } else {
          assert |[ns[0]] + later| > 1;
          var y :| 0 <= y < |rest| && rest[y].kind == "vec_lit";
          assert ns[y + 1].kind == "vec_lit";
        }
      } else {
        if j :| 0 <= j < |rest| && IsOnlyVector(rest, j) && rest[j] == v {
          assert IsOnlyVector(ns, j + 1) && ns[j + 1] == v;
        }
        if j :| 0 <= j < |ns| && IsOnlyVector(ns, j) && ns[j] == v {
          assert rest[j - 1] == v && IsOnlyVector(rest, j - 1);
        }
      }
    }
  }

  lemma {:induction false} HasParamsIs(form: Node, params: seq<Node>)
    ensures HasParams(form, params) <==> SimpleParams(form) == Some(params)
  {
    var vectors := VectorsOf(form.children);
    if j :| 0 <= j < |form.children| && IsOnlyVector(form.children, j) && form.children[j].children == params {
      OnlyVectorIs(form.children, form.children[j]);
      assert vectors == [form.children[j]];
    }
    if |vectors| == 1 {
      assert vectors == [vectors[0]];
      OnlyVectorIs(form.children, vectors[0]);
    }
    hide VectorsOf, IsOnlyVector;
  }

  /** A tree without its ids. */
  datatype Shape = Shape(kind: string, text: string, parts: seq<Shape>)

  function ShapeOf(n: Node): Shape
    decreases n, 0
  {
    Shape(n.kind, n.text, ShapesOf(n.children))
  }

  function ShapesOf(ns: seq<Node>): (shapes: seq<Shape>)
    ensures |shapes| == |ns|
    decreases ns, 1
  {
    if ns == [] then [] else [ShapeOf(ns[0])] + ShapesOf(ns[1..])
  }

  /** Every symbol carries its new name. */
  function Substituted(s: Shape, m: Renames): Shape
    decreases s, 0
  {
    Shape(s.kind, if s.kind == "sym_lit" && s.text in m then m[s.text] else s.text, SubstitutedIn(s.parts, m))
  }

  function SubstitutedIn(ss: seq<Shape>, m: Renames): (ts: seq<Shape>)
    ensures |ts| == |ss|
    decreases ss, 1
  {
    if ss == [] then [] else [Substituted(ss[0], m)] + SubstitutedIn(ss[1..], m)
  }

  lemma {:induction false} EqualIsSubstitution(as_: seq<Node>, bs: seq<Node>, m: Renames)
    ensures EqualForests(as_, bs, m) <==> ShapesOf(bs) == SubstitutedIn(ShapesOf(as_), m)
    decreases as_
  {
    if as_ != [] && bs != [] {
      EqualIsSubstitution(as_[0].children, bs[0].children, m);
      EqualIsSubstitution(as_[1..], bs[1..], m);
      var s, t := SubstitutedIn(ShapesOf(as_), m), ShapesOf(bs);
      assert ShapesOf(as_)[1..] == ShapesOf(as_[1..]);
      assert s[1..] == SubstitutedIn(ShapesOf(as_[1..]), m) && t[1..] == ShapesOf(bs[1..]);
      assert s == t <==> s[0] == t[0] && s[1..] == t[1..];
    }
  }

  lemma {:induction false} EqualModuloIs(a: Node, b: Node, m: Renames)
    ensures EqualModulo(a, b, m) <==> ShapeOf(b) == Substituted(ShapeOf(a), m)
  {
    EqualIsSubstitution(a.children, b.children, m);
  }

  /** `m` sends each changed parameter to the name in its place, and nothing else. */
  ghost predicate IsMapping(m: Renames, olds: seq<Node>, news: seq<Node>)
    requires |olds| == |news|
  {
    && (forall i :: 0 <= i < |olds| && olds[i].text != news[i].text ==> olds[i].text in m && m[olds[i].text] == news[i].text)
    && (forall name :: name in m ==> exists i :: 0 <= i < |olds| && olds[i].text == name && olds[i].text != news[i].text)
  }

  lemma {:induction false} IsMappingIs(m: Renames, olds: seq<Node>, news: seq<Node>)
    requires |olds| == |news| && Distinct(Labels(olds))
    ensures IsMapping(m, olds, news) <==> m == MappingUpTo(Labels(olds), Labels(news), |olds|)
  {
    var m' := MappingUpTo(Labels(olds), Labels(news), |olds|);
    ComputedIsMapping(olds, news);
    if IsMapping(m, olds, news) { MappingsAgree(m, m', olds, news); }
    hide IsMapping;
  }

  lemma {:induction false} ComputedIsMapping(olds: seq<Node>, news: seq<Node>)
    requires |olds| == |news| && Distinct(Labels(olds))
    ensures IsMapping(MappingUpTo(Labels(olds), Labels(news), |olds|), olds, news)
  {
    MappingIs(Labels(olds), Labels(news), |olds|);
    hide MappingUpTo, Labels;
  }

  lemma {:induction false} MappingsAgree(m: Renames, m': Renames, olds: seq<Node>, news: seq<Node>)
    requires |olds| == |news| && IsMapping(m, olds, news) && IsMapping(m', olds, news)
    ensures m == m'
  {
    forall name ensures name in m <==> name in m' {}
    forall name | name in m ensures m[name] == m'[name] {
      var i :| 0 <= i < |olds| && olds[i].text == name && olds[i].text != news[i].text;
    }
  }

  // ---- The promoted forms ----

  /** An old form, the new form that continues it, and the parameters of both. */
  datatype FormPair = FormPair(a: Node, b: Node, olds: seq<Node>, news: seq<Node>)

  /** `ns[x]` is a definition, and the only one of its name. */
  ghost predicate OnlyOf(ns: seq<Node>, x: nat)
    requires x < |ns|
  {
    Definition(ns[x]) && forall y :: 0 <= y < |ns| && Definition(ns[y]) && ns[y].text == ns[x].text ==> y == x
  }

  ghost predicate OnlyDefinition(ns: seq<Node>, n: Node) {
    exists x :: 0 <= x < |ns| && OnlyOf(ns, x) && ns[x] == n
  }

  /** The parameter in place `i` changes its name. */
  predicate Changes(f: FormPair, i: nat) {
    i < |f.olds| && i < |f.news| && f.olds[i].text != f.news[i].text
  }

  /** Neither name of the place is a parameter of the other side, and the new one stands nowhere in the
      old form. */
  ghost predicate Fresh(f: FormPair, i: nat)
    requires Changes(f, i)
  {
    && (forall j :: 0 <= j < |f.olds| ==> f.olds[j].text != f.news[i].text)
    && (forall j :: 0 <= j < |f.news| ==> f.news[j].text != f.olds[i].text)
    && (forall n :: n in Descendants(f.a) ==> !(n.kind == "sym_lit" && n.text == f.news[i].text))
  }

  ghost predicate Deletes(changes: seq<Draft>, id: string) {
    exists k :: 0 <= k < |changes| && changes[k].change == Deletion && changes[k].oldNode.Some? && changes[k].oldNode.value.id == id
  }

  ghost predicate Adds(changes: seq<Draft>, id: string) {
    exists k :: 0 <= k < |changes| && changes[k].change == Addition && changes[k].newNode.Some? && changes[k].newNode.value.id == id
  }

  ghost predicate DistinctNames(ns: seq<Node>) {
    forall i, j :: 0 <= i < j < |ns| ==> ns[i].text != ns[j].text
  }

  ghost predicate IsSubstitution(f: FormPair)
    requires |f.olds| == |f.news|
  {
    exists m :: IsMapping(m, f.olds, f.news) && ShapeOf(f.b) == Substituted(ShapeOf(f.a), m)
  }

  /** Nothing forbidden at any depth, and the new form is the old one with fresh names for some of its
      parameters. */
  ghost predicate Guarded(f: FormPair)
    requires |f.olds| == |f.news|
  {
    && (forall n :: n in Descendants(f.a) || n in Descendants(f.b) ==> !Forbidden(n))
    && DistinctNames(f.olds) && DistinctNames(f.news)
    && (exists i: nat :: Changes(f, i)) && (forall i: nat :: Changes(f, i) ==> Fresh(f, i))
    && IsSubstitution(f)
  }

  /** The new form is the only definition that continues the old one and is proved to be a renaming of it;
      both ends of every changed parameter were reported. */
  ghost predicate IsRenamed(changes: seq<Draft>, oldTree: Node, newTree: Node, f: FormPair) {
    && OnlyDefinition(oldTree.children, f.a) && OnlyDefinition(newTree.children, f.b) && f.a.text == f.b.text
    && HasParams(f.a, f.olds) && HasParams(f.b, f.news) && |f.olds| == |f.news|
    && Guarded(f)
    && (forall i: nat :: Changes(f, i) ==> Deletes(changes, f.olds[i].id) && Adds(changes, f.news[i].id))
  }

  lemma {:induction false} NamedDefns(ns: seq<Node>, name: string)
    requires ns != []
    ensures Named(Defns(ns), name) ==
            (if IsNamedDefn(ns[0]) && ns[0].text == name then [ns[0]] else []) + Named(Defns(ns[1..]), name)
  {
    hide IsNamedDefn;
    if IsNamedDefn(ns[0]) {
      assert Defns(ns)[0] == ns[0] && Defns(ns)[1..] == Defns(ns[1..]);
    } else {
      assert Defns(ns) == Defns(ns[1..]);
    }
  }

  lemma {:induction false} NoDefinition(ns: seq<Node>, name: string)
    ensures Named(Defns(ns), name) == [] <==> forall y :: 0 <= y < |ns| ==> !(Definition(ns[y]) && ns[y].text == name)
  {
    if ns != [] {
      NamedDefns(ns, name);
      NoDefinition(ns[1..], name);
      DefinitionIs(ns[0]);
      hide Definition, IsNamedDefn, Named, Defns;
      assert forall y :: 0 < y < |ns| ==> ns[y] == ns[1..][y - 1];
      assert forall y :: 0 <= y < |ns[1..]| ==> ns[1..][y] == ns[y + 1];
    }
  }

  lemma {:induction false} OnlyDefinitionIs(ns: seq<Node>, n: Node)
    ensures OnlyDefinition(ns, n) <==> IsNamedDefn(n) && Named(Defns(ns), n.text) == [n]
  {
    if ns != [] {
      var rest := ns[1..];
      NamedDefns(ns, n.text);
      NoDefinition(rest, n.text);
      OnlyDefinitionIs(rest, n);
      DefinitionIs(ns[0]);
      DefinitionIs(n);
      hide Definition, IsNamedDefn, Named, Defns;
      assert forall y :: 0 < y < |ns| ==> ns[y] == rest[y - 1];
      assert forall y :: 0 <= y < |rest| ==> rest[y] == ns[y + 1];
      if Definition(ns[0]) && ns[0].text == n.text {
        HeadIsOnly(ns, n, Named(Defns(rest), n.text));
      } else {
        forall x | 0 <= x < |rest| && rest[x] == n ensures OnlyOf(rest, x) <==> OnlyOf(ns, x + 1) {
          OnlyOfRest(ns, x);
        }
        assert !(OnlyOf(ns, 0) && ns[0] == n);
        hide OnlyOf;
      }
    }
  }

  lemma {:induction false} OnlyOfRest(ns: seq<Node>, x: nat)
    requires x + 1 < |ns| && !(Definition(ns[0]) && ns[0].text == ns[x + 1].text)
    ensures OnlyOf(ns[1..], x) <==> OnlyOf(ns, x + 1)
  {
    hide Definition;
    assert forall y :: 0 < y < |ns| ==> ns[y] == ns[1..][y - 1];
    if OnlyOf(ns, x + 1) {
      forall y | 0 <= y < |ns[1..]| && Definition(ns[1..][y]) && ns[1..][y].text == ns[1..][x].text ensures y == x {
        assert ns[y + 1] == ns[1..][y];
      }
    }
  }

  lemma {:induction false} HeadIsOnly(ns: seq<Node>, n: Node, later: seq<Node>)
    requires ns != [] && Definition(ns[0]) && ns[0].text == n.text
    requires later == [] <==> forall y :: 0 <= y < |ns[1..]| ==> !(Definition(ns[1..][y]) && ns[1..][y].text == n.text)
    ensures OnlyDefinition(ns, n) <==> [ns[0]] + later == [n]
  {
    hide Definition;
    assert forall y :: 0 < y < |ns| ==> ns[y] == ns[1..][y - 1];
    assert forall x :: 0 <= x < |ns| && OnlyOf(ns, x) && ns[x] == n ==> x == 0;
    if later == [] {
      assert OnlyOf(ns, 0);
      assert [ns[0]] == [n] <==> ns[0] == n;
    } else {
      assert |[ns[0]] + later| > 1;
      var y :| 0 <= y < |ns[1..]| && Definition(ns[1..][y]) && ns[1..][y].text == n.text;
      assert ns[y + 1] == ns[1..][y];
    }
  }

  lemma {:induction false} ForbidsNothing(form: Node)
    ensures HasExcluded(form) <==> exists n :: n in Descendants(form) && Forbidden(n)
  {
    var ds := Descendants(form);
    hide Descendants;
    forall n ensures Forbidden(n) <==> Excluded(n) { ForbiddenIs(n); }
    hide Forbidden, Excluded;
    if k :| 0 <= k < |ds| && Excluded(ds[k]) { assert ds[k] in ds; }
  }

  lemma {:induction false} FreshIs(f: FormPair, i: nat)
    requires |f.olds| == |f.news| && Changes(f, i)
    ensures Fresh(f, i) <==> FreshPair(f.a, Labels(f.olds), Labels(f.news), i)
  {
    var olds, news, name := Labels(f.olds), Labels(f.news), f.news[i].text;
    OccursInIs(f.a.children, name);
    OccursBelowIs(f.a, name);
    DescendantsForest(f.a);
    hide OccursIn, OccursBelow, Labels, Descendants, Forest;
    assert forall n {:trigger n in Forest(f.a.children)} :: IsNamed(n, name) <==> n.kind == "sym_lit" && n.text == name;
    assert forall j :: 0 <= j < |olds| ==> olds[j] == f.olds[j].text;
    assert forall j :: 0 <= j < |news| ==> news[j] == f.news[j].text;
  }

  lemma {:induction false} DescendantsForest(n: Node)
    ensures Descendants(n) == Forest(n.children)
  {}

  lemma {:induction false} AllFreshIs(f: FormPair)
    requires |f.olds| == |f.news|
    ensures AllFresh(f.a, Labels(f.olds), Labels(f.news)) <==> forall i: nat :: Changes(f, i) ==> Fresh(f, i)
  {
    forall i: nat | Changes(f, i) ensures Fresh(f, i) <==> FreshPair(f.a, Labels(f.olds), Labels(f.news), i) {
      FreshIs(f, i);
    }
    hide Fresh, OccursBelow;
    forall i: nat | i < |f.olds| && !Changes(f, i) ensures FreshPair(f.a, Labels(f.olds), Labels(f.news), i) {}
  }

  lemma {:induction false} LabelsAre(f: FormPair)
    requires |f.olds| == |f.news|
    ensures Distinct(Labels(f.olds)) <==> DistinctNames(f.olds)
    ensures Distinct(Labels(f.news)) <==> DistinctNames(f.news)
    ensures Labels(f.olds) != Labels(f.news) <==> exists i: nat :: Changes(f, i)
  {
    var olds, news := Labels(f.olds), Labels(f.news);
    hide Labels;
    if olds != news {
      var i :| 0 <= i < |olds| && olds[i] != news[i];
      assert Changes(f, i);
    }
  }

  lemma {:induction false} PairsAreChanges(f: FormPair, n: nat)
    requires n <= |f.olds| == |f.news|
    ensures forall p :: p in ChangedPairs(f.olds, f.news, n) <==> exists i: nat :: i < n && Changes(f, i) && p == (f.olds[i], f.news[i])
  {
    if n > 0 {
      PairsAreChanges(f, n - 1);
      assert Changes(f, n - 1) <==> f.olds[n - 1].text != f.news[n - 1].text;
      hide Changes;
    }
  }

  lemma {:induction false} EndpointsAre(changes: seq<Draft>, f: FormPair)
    requires |f.olds| == |f.news|
    ensures EndpointsReported(changes, ChangedPairs(f.olds, f.news, |f.olds|)) <==>
            forall i: nat :: Changes(f, i) ==> Deletes(changes, f.olds[i].id) && Adds(changes, f.news[i].id)
  {
    var pairs := ChangedPairs(f.olds, f.news, |f.olds|);
    PairsAreChanges(f, |f.olds|);
    forall id ensures (ReportsDeletion(changes, id) <==> Deletes(changes, id)) && (ReportsAddition(changes, id) <==> Adds(changes, id)) {}
    hide ReportsDeletion, ReportsAddition, Deletes, Adds, ChangedPairs;
    if EndpointsReported(changes, pairs) {
      forall i: nat | Changes(f, i) ensures Deletes(changes, f.olds[i].id) && Adds(changes, f.news[i].id) {
        assert (f.olds[i], f.news[i]) in pairs;
      }
    } else {
      var k :| 0 <= k < |pairs| && !(ReportsDeletion(changes, pairs[k].0.id) && ReportsAddition(changes, pairs[k].1.id));
      assert pairs[k] in pairs;
    }
  }

  lemma {:induction false} SubstitutionIs(f: FormPair)
    requires |f.olds| == |f.news| && DistinctNames(f.olds)
    ensures IsSubstitution(f) <==> EqualModulo(f.a, f.b, MappingUpTo(Labels(f.olds), Labels(f.news), |f.olds|))
  {
    hide EqualModulo, Distinct, DistinctNames, Labels, MappingUpTo, ShapeOf, Substituted, IsMapping;
    LabelsAre(f);
    var m' := MappingUpTo(Labels(f.olds), Labels(f.news), |f.olds|);
    EqualModuloIs(f.a, f.b, m');
    forall m ensures IsMapping(m, f.olds, f.news) <==> m == m' { IsMappingIs(m, f.olds, f.news); }
  }

  lemma {:induction false} ForbidsNothingInBoth(f: FormPair)
    ensures (forall n :: n in Descendants(f.a) || n in Descendants(f.b) ==> !Forbidden(n)) <==>
            !HasExcluded(f.a) && !HasExcluded(f.b)
  {
    ForbidsNothing(f.a);
    ForbidsNothing(f.b);
    hide HasExcluded, Forbidden, Descendants;
  }

  lemma {:induction false} GuardedIs(f: FormPair)
    requires |f.olds| == |f.news|
    ensures Guarded(f) <==>
              && !HasExcluded(f.a) && !HasExcluded(f.b)
              && Distinct(Labels(f.olds)) && Distinct(Labels(f.news)) && Labels(f.olds) != Labels(f.news)
              && AllFresh(f.a, Labels(f.olds), Labels(f.news))
              && EqualModulo(f.a, f.b, MappingUpTo(Labels(f.olds), Labels(f.news), |f.olds|))
  {
    hide HasExcluded, Forbidden, Distinct, DistinctNames, AllFresh, Fresh, IsSubstitution, Labels, EqualModulo, Descendants, MappingUpTo, Changes;
    ForbidsNothingInBoth(f);
    LabelsAre(f);
    AllFreshIs(f);
    if DistinctNames(f.olds) { SubstitutionIs(f); }
  }

  lemma {:induction false} ProvesIs(f: FormPair)
    requires |f.olds| == |f.news| && SimpleParams(f.a) == Some(f.olds) && SimpleParams(f.b) == Some(f.news)
    ensures ProvesRename(f.a, f.b, Labels(f.olds), Labels(f.news)) <==> IsNamedDefn(f.a) && IsNamedDefn(f.b) && Guarded(f)
  {
    GuardedIs(f);
    hide HasExcluded, Distinct, AllFresh, Labels, SimpleParams, EqualModulo, IsNamedDefn, MappingUpTo, Guarded;
  }

  lemma {:induction false} OnlyIs(ns: seq<Node>, n: Node)
    ensures OnlyDefinition(ns, n) <==> n in Defns(ns) && |Named(Defns(ns), n.text)| == 1
    ensures OnlyDefinition(ns, n) ==> IsNamedDefn(n) && Named(Defns(ns), n.text) == [n]
  {
    var defs := Defns(ns);
    var found := Named(defs, n.text);
    hide IsNamedDefn, Defns, Named, OnlyDefinition;
    OnlyDefinitionIs(ns, n);
    DefnsAreDefns(ns);
    NamedAreMembers(defs, n.text);
    if n in defs {
      NamedHolds(defs, n);
      if |found| == 1 { assert found == [found[0]] && found[0] == n; }
    }
    if found == [n] { assert n in found; }
  }

  /** What the pass promotes are exactly the renamed forms. */
  lemma {:induction false} PromotesIs(changes: seq<Draft>, oldTree: Node, newTree: Node, f: FormPair)
    ensures IsRenamed(changes, oldTree, newTree, f) <==>
              && f.a in Defns(oldTree.children) && Promotes(changes, Defns(oldTree.children), Defns(newTree.children), f.a, f.b)
              && SimpleParams(f.a) == Some(f.olds) && SimpleParams(f.b) == Some(f.news)
  {
    hide HasParams, SimpleParams, OnlyDefinition, Defns, Named, IsNamedDefn, ProvesRename, EndpointsReported;
    hide Guarded, Deletes, Adds, Labels, ChangedPairs, Changes;
    OnlyIs(oldTree.children, f.a);
    OnlyContinues(newTree.children, f.a, f.b);
    HasParamsIs(f.a, f.olds);
    HasParamsIs(f.b, f.news);
    LengthsOfProved(f);
    if |f.olds| == |f.news| && SimpleParams(f.a) == Some(f.olds) && SimpleParams(f.b) == Some(f.news) {
      ProvesIs(f);
      EndpointsAre(changes, f);
    }
  }

  lemma {:induction false} OnlyContinues(ns: seq<Node>, a: Node, b: Node)
    ensures OnlyDefinition(ns, b) && a.text == b.text <==> IsNamedDefn(b) && Named(Defns(ns), a.text) == [b]
  {
    hide IsNamedDefn, Defns, Named, OnlyDefinition;
    OnlyDefinitionIs(ns, b);
    NamedAreMembers(Defns(ns), a.text);
    assert [b][0] == b;
  }

  lemma {:induction false} LengthsOfProved(f: FormPair)
    ensures ProvesRename(f.a, f.b, Labels(f.olds), Labels(f.news)) ==> |f.olds| == |f.news| && IsNamedDefn(f.b)
  {}

  lemma {:induction false} NamedHolds(defs: seq<Node>, n: Node)
    requires n in defs
    ensures n in Named(defs, n.text)
  {
    if defs[0] != n { NamedHolds(defs[1..], n); }
  }

  // ---- What becomes of the drafts ----

  /** One changed parameter of a promoted form. */
  datatype Renaming = Renaming(form: FormPair, index: nat)

  /** The changed places below `n`, ascending. */
  function ChangedAt(f: FormPair, n: nat): (at: seq<nat>)
    requires n <= |f.olds| == |f.news|
    ensures forall i: nat :: i in at <==> i < n && Changes(f, i)
    ensures forall k, l :: 0 <= k < l < |at| ==> at[k] < at[l]
    ensures |at| == |ChangedPairs(f.olds, f.news, n)|
    ensures forall k :: 0 <= k < |at| ==> Changes(f, at[k]) && ChangedPairs(f.olds, f.news, n)[k] == (f.olds[at[k]], f.news[at[k]])
  {
    if n == 0 then [] else ChangedAt(f, n - 1) + (if Changes(f, n - 1) then [n - 1] else [])
  }

  /** The form pair behind a promotion. */
  function Parameterised(p: (Node, Node)): FormPair {
    var olds, news := SimpleParams(p.0), SimpleParams(p.1);
    FormPair(p.0, p.1, if olds.Some? then olds.value else [], if news.Some? then news.value else [])
  }

  predicate Paired(p: (Node, Node)) {
    SimpleParams(p.0).Some? && SimpleParams(p.1).Some? && |SimpleParams(p.0).value| == |SimpleParams(p.1).value|
  }

  ghost predicate Once<T>(s: seq<T>) {
    forall k, l :: 0 <= k < l < |s| ==> s[k] != s[l]
  }

  function RenamingsOf(p: (Node, Node)): (rs: seq<Renaming>)
    requires Paired(p)
    ensures forall r :: r in rs <==> r.form == Parameterised(p) && Changes(r.form, r.index)
    ensures Once(rs)
  {
    var f := Parameterised(p);
    var at := ChangedAt(f, |f.olds|);
    Placed(f, at);
    seq(|at|, k requires 0 <= k < |at| => Renaming(f, at[k]))
  }

  lemma {:induction false} Placed(f: FormPair, at: seq<nat>)
    ensures var rs := seq(|at|, k requires 0 <= k < |at| => Renaming(f, at[k]));
            forall r :: r in rs <==> r.form == f && r.index in at
  {
    var rs := seq(|at|, k requires 0 <= k < |at| => Renaming(f, at[k]));
    forall r: Renaming | r.form == f && r.index in at ensures r in rs {
      var k :| 0 <= k < |at| && at[k] == r.index;
      assert rs[k] == r;
    }
  }

  /** The draft of a changed parameter: from the old parameter to the new one. */
  ghost predicate IsRenamingDraft(d: Draft, r: Renaming)
    requires Changes(r.form, r.index)
  {
    && d.change == Refactoring && d.refactoringKind == Some("RENAME_VARIABLE") && d.confidence == 1.0
    && d.oldNode == Some(r.form.olds[r.index]) && d.newNode == Some(r.form.news[r.index])
    && d.oldIndex == None && d.newIndex == None
  }

  lemma {:induction false} FormDraftsAre(p: (Node, Node))
    requires Paired(p)
    ensures |FormDrafts(p.0, p.1)| == |RenamingsOf(p)|
    ensures forall k :: 0 <= k < |RenamingsOf(p)| ==>
              Changes(RenamingsOf(p)[k].form, RenamingsOf(p)[k].index) && IsRenamingDraft(FormDrafts(p.0, p.1)[k], RenamingsOf(p)[k])
  {
    var f, rs := Parameterised(p), RenamingsOf(p);
    hide SimpleParams, ChangedPairs, Changes;
    var at := ChangedAt(f, |f.olds|);
    assert |rs| == |at| && forall k :: 0 <= k < |rs| ==> rs[k] == Renaming(f, at[k]);
    assert FormDrafts(p.0, p.1) == RenameDrafts(ChangedPairs(f.olds, f.news, |f.olds|));
    hide RenamingsOf, FormDrafts, ChangedAt, Parameterised, Once;
  }

  ghost predicate AllPaired(ps: seq<(Node, Node)>) {
    forall k :: 0 <= k < |ps| ==> Paired(ps[k])
  }

  function AllRenamings(ps: seq<(Node, Node)>): (rs: seq<Renaming>)
    requires AllPaired(ps)
  {
    if ps == [] then [] else AllRenamings(ps[..|ps| - 1]) + RenamingsOf(ps[|ps| - 1])
  }

  lemma {:induction false} AllRenamingsStep(ps: seq<(Node, Node)>)
    requires ps != [] && AllPaired(ps)
    ensures AllRenamings(ps) == AllRenamings(ps[..|ps| - 1]) + RenamingsOf(ps[|ps| - 1])
  {}

  lemma {:induction false} AllRenamingsAre(ps: seq<(Node, Node)>, r: Renaming)
    requires AllPaired(ps)
    ensures r in AllRenamings(ps) <==> Changes(r.form, r.index) && Source(ps, r.form)
  {
    if ps != [] {
      var front, last := ps[..|ps| - 1], ps[|ps| - 1];
      AllRenamingsAre(front, r);
      AllRenamingsStep(ps);
      assert r in RenamingsOf(last) <==> r.form == Parameterised(last) && Changes(r.form, r.index);
      hide *;
      SourceSplit(ps, r.form);
    }
  }

  ghost predicate Source(ps: seq<(Node, Node)>, f: FormPair) {
    exists p :: p in ps && f == Parameterised(p)
  }

  lemma {:induction false} SourceSplit(ps: seq<(Node, Node)>, f: FormPair)
    requires ps != []
    ensures Source(ps, f) <==> Source(ps[..|ps| - 1], f) || f == Parameterised(ps[|ps| - 1])
  {
    hide Parameterised;
    assert ps == ps[..|ps| - 1] + [ps[|ps| - 1]];
    forall p ensures p in ps <==> p in ps[..|ps| - 1] || p == ps[|ps| - 1] {}
  }

  lemma {:induction false} OnceJoined<T>(s: seq<T>, t: seq<T>)
    requires Once(s) && Once(t) && forall x :: x in s ==> x !in t
    ensures Once(s + t)
  {
    assert forall k :: 0 <= k < |s| ==> s[k] in s;
    assert forall k :: 0 <= k < |t| ==> t[k] in t;
  }

  lemma {:induction false} RenamingsOnce(ps: seq<(Node, Node)>)
    requires AllPaired(ps) && Once(ps)
    ensures Once(AllRenamings(ps))
  {
    if ps != [] {
      var n := |ps| - 1;
      var front, last := AllRenamings(ps[..n]), RenamingsOf(ps[n]);
      RenamingsOnce(ps[..n]);
      hide Paired, Changes, AllRenamings;
      forall r | r in front ensures r !in last {
        AllRenamingsAre(ps[..n], r);
        var p :| p in ps[..n] && r.form == Parameterised(p);
        assert p == (Parameterised(p).a, Parameterised(p).b) && ps[n] == (Parameterised(ps[n]).a, Parameterised(ps[n]).b);
      }
      hide *;
      OnceJoined(front, last);
      assert AllRenamings(ps) == front + last by { AllRenamingsStep(ps); }
    }
  }

  lemma {:induction false} PromotedDraftsAre(ps: seq<(Node, Node)>)
    requires AllPaired(ps)
    ensures var rs, ds := AllRenamings(ps), PromotedDrafts(ps);
            && |rs| == |ds|
            && forall k :: 0 <= k < |rs| ==> Changes(rs[k].form, rs[k].index) && IsRenamingDraft(ds[k], rs[k])
  {
    if ps != [] {
      var n := |ps| - 1;
      PromotedDraftsAre(ps[..n]);
      FormDraftsAre(ps[n]);
      hide IsRenamingDraft, Changes, FormDrafts, RenamingsOf, Paired;
    }
  }

  lemma {:induction false} LastPromotion(changes: seq<Draft>, oldDefs: seq<Node>, newDefs: seq<Node>, n: nat) returns (last: seq<(Node, Node)>)
    requires n < |oldDefs|
    ensures Promotions(changes, oldDefs, newDefs, n + 1) == Promotions(changes, oldDefs, newDefs, n) + last
    ensures |last| <= 1 && forall p :: p in last <==> p.0 == oldDefs[n] && Promotes(changes, oldDefs, newDefs, p.0, p.1)
  {
    hide ProvesRename, EndpointsReported, SimpleParams, Named, Labels;
    var a := oldDefs[n];
    var found := Named(newDefs, a.text);
    last := if |found| == 1 && Promotes(changes, oldDefs, newDefs, a, found[0]) then [(a, found[0])] else [];
    assert forall b :: Promotes(changes, oldDefs, newDefs, a, b) ==> found == [b];
  }

  /** `ps` are the promoted pairs of the first `n` old definitions. */
  ghost predicate PairsUpTo(changes: seq<Draft>, oldDefs: seq<Node>, newDefs: seq<Node>, n: nat, ps: seq<(Node, Node)>)
    requires n <= |oldDefs|
  {
    forall p :: p in ps <==> p.0 in oldDefs[..n] && Promotes(changes, oldDefs, newDefs, p.0, p.1)
  }

  lemma {:induction false} NextPair(changes: seq<Draft>, oldDefs: seq<Node>, newDefs: seq<Node>, n: nat,
                                    front: seq<(Node, Node)>, last: seq<(Node, Node)>)
    requires n < |oldDefs| && PairsUpTo(changes, oldDefs, newDefs, n, front)
    requires forall p :: p in last <==> p.0 == oldDefs[n] && Promotes(changes, oldDefs, newDefs, p.0, p.1)
    ensures PairsUpTo(changes, oldDefs, newDefs, n + 1, front + last)
  {
    hide Promotes;
    assert oldDefs[..n + 1] == oldDefs[..n] + [oldDefs[n]];
    forall p ensures p in front + last <==> p.0 in oldDefs[..n + 1] && Promotes(changes, oldDefs, newDefs, p.0, p.1) {
      assert p in front + last <==> p in front || p in last;
      assert p.0 in oldDefs[..n + 1] <==> p.0 in oldDefs[..n] || p.0 == oldDefs[n];
    }
  }

  lemma {:induction false} FreshLast(changes: seq<Draft>, oldDefs: seq<Node>, newDefs: seq<Node>, n: nat,
                                     front: seq<(Node, Node)>, p: (Node, Node))
    requires n < |oldDefs| && PairsUpTo(changes, oldDefs, newDefs, n, front)
    requires p.0 == oldDefs[n] && Promotes(changes, oldDefs, newDefs, p.0, p.1)
    ensures p !in front
  {
    assert |Named(oldDefs, p.0.text)| == 1;
    hide Promotes;
    NotBefore(oldDefs, n);
  }

  lemma {:induction false} NextOnce(changes: seq<Draft>, oldDefs: seq<Node>, newDefs: seq<Node>, n: nat,
                                    front: seq<(Node, Node)>, last: seq<(Node, Node)>)
    requires n < |oldDefs| && PairsUpTo(changes, oldDefs, newDefs, n, front) && Once(front) && |last| <= 1
    requires forall p :: p in last <==> p.0 == oldDefs[n] && Promotes(changes, oldDefs, newDefs, p.0, p.1)
    ensures PairsUpTo(changes, oldDefs, newDefs, n + 1, front + last) && Once(front + last)
  {
    hide *;
    NextPair(changes, oldDefs, newDefs, n, front, last);
    forall p | p in last ensures p !in front {
      FreshLast(changes, oldDefs, newDefs, n, front, p);
    }
    AtMostOne(last);
    OnceJoined(front, last);
  }

  lemma {:induction false} NoPairs(changes: seq<Draft>, oldDefs: seq<Node>, newDefs: seq<Node>)
    ensures Promotions(changes, oldDefs, newDefs, 0) == [] && Once(Promotions(changes, oldDefs, newDefs, 0))
    ensures PairsUpTo(changes, oldDefs, newDefs, 0, Promotions(changes, oldDefs, newDefs, 0))
  {
    hide Promotes;
    assert oldDefs[..0] == [];
  }

  lemma {:induction false} PromotionsOnce(changes: seq<Draft>, oldDefs: seq<Node>, newDefs: seq<Node>, n: nat)
    requires n <= |oldDefs|
    ensures PairsUpTo(changes, oldDefs, newDefs, n, Promotions(changes, oldDefs, newDefs, n))
    ensures Once(Promotions(changes, oldDefs, newDefs, n))
  {
    hide *;
    if n == 0 {
      NoPairs(changes, oldDefs, newDefs);
    } else {
      PromotionsOnce(changes, oldDefs, newDefs, n - 1);
      var last := LastPromotion(changes, oldDefs, newDefs, n - 1);
      NextOnce(changes, oldDefs, newDefs, n - 1, Promotions(changes, oldDefs, newDefs, n - 1), last);
    }
  }

  lemma {:induction false} AtMostOne<T>(s: seq<T>)
    requires |s| <= 1
    ensures Once(s)
  {}

  lemma {:induction false} NamedTwice(defs: seq<Node>, n: nat)
    requires n < |defs| && defs[n] in defs[..n]
    ensures |Named(defs, defs[n].text)| > 1
  {
    if defs[0] == defs[n] {
      NamedHolds(defs[1..], defs[1..][n - 1]);
    } else {
      assert defs[1..][..n - 1] == defs[..n][1..];
      NamedTwice(defs[1..], n - 1);
    }
  }

  lemma {:induction false} NotBefore(defs: seq<Node>, n: nat)
    requires n < |defs| && |Named(defs, defs[n].text)| == 1
    ensures defs[n] !in defs[..n]
  {
    if defs[n] in defs[..n] { NamedTwice(defs, n); }
  }

  ghost predicate Holds(form: Node, id: string) {
    form.id == id || exists n :: n in Descendants(form) && n.id == id
  }

  /** A raw deletion or addition of a node of a promoted form. */
  ghost predicate OfPromotedForm(changes: seq<Draft>, oldTree: Node, newTree: Node, d: Draft) {
    exists f :: IsRenamed(changes, oldTree, newTree, f) && EditOf(d, f)
  }

  ghost predicate EditOf(d: Draft, f: FormPair) {
    || (d.change == Deletion && d.oldNode.Some? && Holds(f.a, d.oldNode.value.id))
    || (d.change == Addition && d.newNode.Some? && Holds(f.b, d.newNode.value.id))
  }

  lemma {:induction false} FormIdsAre(form: Node, id: string)
    ensures id in FormIds(form) <==> Holds(form, id)
  {
    hide Descendants;
    var all := [form] + Descendants(form);
    assert all[0] == form;
    forall n ensures n in all <==> n == form || n in Descendants(form) {}
  }

  lemma {:induction false} AllIds(changes: seq<Draft>, oldTree: Node, newTree: Node, ps: seq<(Node, Node)>, d: Draft)
    requires ps == Promotions(changes, Defns(oldTree.children), Defns(newTree.children), |Defns(oldTree.children)|)
    ensures Absorbed(d, CoveredOld(ps), CoveredNew(ps)) <==> OfPromotedForm(changes, oldTree, newTree, d)
  {
    PromotionsPaired(changes, oldTree, newTree, ps);
    hide Absorbed, CoveredOld, CoveredNew, EditOf, Parameterised, IsRenamed, Promotions;
    CoveredForms(ps, d);
    if f :| IsRenamed(changes, oldTree, newTree, f) && EditOf(d, f) {
      assert (f.a, f.b) in ps;
    }
  }

  lemma {:induction false} CoveredForms(ps: seq<(Node, Node)>, d: Draft)
    requires AllPaired(ps)
    ensures Absorbed(d, CoveredOld(ps), CoveredNew(ps)) <==> exists p :: p in ps && EditOf(d, Parameterised(p))
  {
    forall p: (Node, Node) ensures Parameterised(p).a == p.0 && Parameterised(p).b == p.1 {}
    hide CoveredOld, CoveredNew, FormIds, Holds, Parameterised;
    if d.oldNode.Some? {
      CoveredBy(ps, d.oldNode.value.id);
      forall p: (Node, Node) ensures d.oldNode.value.id in FormIds(p.0) <==> Holds(p.0, d.oldNode.value.id) { FormIdsAre(p.0, d.oldNode.value.id); }
    }
    if d.newNode.Some? {
      CoveredBy(ps, d.newNode.value.id);
      forall p: (Node, Node) ensures d.newNode.value.id in FormIds(p.1) <==> Holds(p.1, d.newNode.value.id) { FormIdsAre(p.1, d.newNode.value.id); }
    }
  }

  /** The promotions are the renamed forms, each once. */
  lemma {:induction false} PromotionsPaired(changes: seq<Draft>, oldTree: Node, newTree: Node, ps: seq<(Node, Node)>)
    requires ps == Promotions(changes, Defns(oldTree.children), Defns(newTree.children), |Defns(oldTree.children)|)
    ensures AllPaired(ps) && Once(ps)
    ensures forall p :: p in ps ==> IsRenamed(changes, oldTree, newTree, Parameterised(p)) && Parameterised(p).a == p.0 && Parameterised(p).b == p.1
    ensures forall f :: IsRenamed(changes, oldTree, newTree, f) ==> (f.a, f.b) in ps && Parameterised((f.a, f.b)) == f
  {
    var oldDefs, newDefs := Defns(oldTree.children), Defns(newTree.children);
    PromotionsOnce(changes, oldDefs, newDefs, |oldDefs|);
    assert oldDefs[..|oldDefs|] == oldDefs;
    hide Promotions, IsRenamed, Defns, SimpleParams;
    forall p | p in ps
      ensures Paired(p) && IsRenamed(changes, oldTree, newTree, Parameterised(p))
    {
      LengthsOfProved(Parameterised(p));
      hide ProvesRename;
      PromotesIs(changes, oldTree, newTree, Parameterised(p));
    }
    forall f | IsRenamed(changes, oldTree, newTree, f) ensures (f.a, f.b) in ps && Parameterised((f.a, f.b)) == f {
      PromotesIs(changes, oldTree, newTree, f);
      hide Promotes;
    }
  }

  /** The places of the retained drafts, ascending. */
  function RetainedAt(changes: seq<Draft>, coveredOld: set<string>, coveredNew: set<string>): (at: seq<nat>)
    ensures forall k: nat :: k in at <==> k < |changes| && !Absorbed(changes[k], coveredOld, coveredNew)
    ensures forall k, l :: 0 <= k < l < |at| ==> at[k] < at[l]
    ensures |at| == |Retain(changes, coveredOld, coveredNew)|
    ensures forall k :: 0 <= k < |at| ==> at[k] < |changes| && Retain(changes, coveredOld, coveredNew)[k] == changes[at[k]]
  {
    if changes == [] then []
    else
      var n := |changes| - 1;
      RetainedAt(changes[..n], coveredOld, coveredNew) + (if Absorbed(changes[n], coveredOld, coveredNew) then [] else [n])
  }

  lemma {:induction false} KeptDrafts(changes: seq<Draft>, oldTree: Node, newTree: Node, ps: seq<(Node, Node)>) returns (kept: seq<nat>)
    requires ps == Promotions(changes, Defns(oldTree.children), Defns(newTree.children), |Defns(oldTree.children)|)
    ensures |kept| == |Retain(changes, CoveredOld(ps), CoveredNew(ps))|
    ensures forall k :: 0 <= k < |kept| ==> kept[k] < |changes| && Retain(changes, CoveredOld(ps), CoveredNew(ps))[k] == changes[kept[k]]
    ensures forall k, l :: 0 <= k < l < |kept| ==> kept[k] < kept[l]
    ensures forall k: nat :: k in kept <==> k < |changes| && !OfPromotedForm(changes, oldTree, newTree, changes[k])
  {
    hide *;
    kept := RetainedAt(changes, CoveredOld(ps), CoveredNew(ps));
    forall k: nat | k < |changes|
      ensures Absorbed(changes[k], CoveredOld(ps), CoveredNew(ps)) <==> OfPromotedForm(changes, oldTree, newTree, changes[k])
    {
      AllIds(changes, oldTree, newTree, ps, changes[k]);
    }
  }

  lemma {:induction false} AddedDrafts(changes: seq<Draft>, oldTree: Node, newTree: Node, ps: seq<(Node, Node)>) returns (added: seq<Renaming>)
    requires ps == Promotions(changes, Defns(oldTree.children), Defns(newTree.children), |Defns(oldTree.children)|)
    ensures |added| == |PromotedDrafts(ps)|
    ensures forall k :: 0 <= k < |added| ==> Changes(added[k].form, added[k].index) && IsRenamingDraft(PromotedDrafts(ps)[k], added[k])
    ensures forall r :: r in added <==> IsRenamed(changes, oldTree, newTree, r.form) && Changes(r.form, r.index)
    ensures Once(added)
  {
    hide *;
    PromotionsPaired(changes, oldTree, newTree, ps);
    added := AllRenamings(ps);
    PromotedDraftsAre(ps);
    RenamingsOnce(ps);
    forall r ensures r in added <==> IsRenamed(changes, oldTree, newTree, r.form) && Changes(r.form, r.index) {
      AllRenamingsAre(ps, r);
      SourceIs(changes, oldTree, newTree, ps, r.form);
    }
  }

  /** The pass as a whole. Each result draft is either an old draft, in the old order, that does not edit a
      promoted form, or the one draft of a changed parameter of a promoted form; nothing else is lost and
      no changed parameter is left out or reported twice. */
  lemma {:induction false} PassInPlainTerms(changes: seq<Draft>, oldTree: Node, newTree: Node)
    returns (kept: seq<nat>, added: seq<Renaming>)
    ensures var result := Promoted(changes, oldTree, newTree, "clojure");
            && |result| == |kept| + |added|
            && (forall k :: 0 <= k < |kept| ==> kept[k] < |changes| && result[k] == changes[kept[k]])
            && (forall k :: 0 <= k < |added| ==> Changes(added[k].form, added[k].index) &&
                                                 IsRenamingDraft(result[|kept| + k], added[k]))
    ensures forall k, l :: 0 <= k < l < |kept| ==> kept[k] < kept[l]
    ensures forall k: nat :: k in kept <==> k < |changes| && !OfPromotedForm(changes, oldTree, newTree, changes[k])
    ensures forall r :: r in added <==> IsRenamed(changes, oldTree, newTree, r.form) && Changes(r.form, r.index)
    ensures Once(added)
  {
    hide *;
    var ps := Promotions(changes, Defns(oldTree.children), Defns(newTree.children), |Defns(oldTree.children)|);
    PromotedIs(changes, oldTree, newTree, ps);
    kept := KeptDrafts(changes, oldTree, newTree, ps);
    added := AddedDrafts(changes, oldTree, newTree, ps);
  }

  lemma {:induction false} SourceIs(changes: seq<Draft>, oldTree: Node, newTree: Node, ps: seq<(Node, Node)>, f: FormPair)
    requires forall p :: p in ps ==> IsRenamed(changes, oldTree, newTree, Parameterised(p))
    requires forall f :: IsRenamed(changes, oldTree, newTree, f) ==> (f.a, f.b) in ps && Parameterised((f.a, f.b)) == f
    ensures Source(ps, f) <==> IsRenamed(changes, oldTree, newTree, f)
  {
    hide IsRenamed, Parameterised;
    if IsRenamed(changes, oldTree, newTree, f) {
      assert (f.a, f.b) in ps;
    }
  }

  lemma {:induction false} PromotedIs(changes: seq<Draft>, oldTree: Node, newTree: Node, ps: seq<(Node, Node)>)
    requires ps == Promotions(changes, Defns(oldTree.children), Defns(newTree.children), |Defns(oldTree.children)|)
    ensures Promoted(changes, oldTree, newTree, "clojure") == Retain(changes, CoveredOld(ps), CoveredNew(ps)) + PromotedDrafts(ps)
  {
    if ps == [] { RetainsAll(changes); }
  }

  lemma {:induction false} RetainsAll(changes: seq<Draft>)
    ensures Retain(changes, {}, {}) == changes
  {
    if changes != [] { RetainsAll(changes[..|changes| - 1]); }
  }
}
