/** The rename promotion as a pass over the edit drafts, and what its rewriting may claim. */
module ClojurePass {
  import opened Common
  import opened SemanticTree
  import opened ClojureRename

  function Defns(ns: seq<Node>): seq<Node> {
    if ns == [] then [] else (if IsNamedDefn(ns[0]) then [ns[0]] else []) + Defns(ns[1..])
  }

  function Named(defs: seq<Node>, name: string): seq<Node> {
    if defs == [] then [] else (if defs[0].text == name then [defs[0]] else []) + Named(defs[1..], name)
  }

  predicate ReportsDeletion(changes: seq<Draft>, id: string) {
    exists k :: 0 <= k < |changes| && changes[k].change == Deletion && changes[k].oldNode.Some? && changes[k].oldNode.value.id == id
  }

  predicate ReportsAddition(changes: seq<Draft>, id: string) {
    exists k :: 0 <= k < |changes| && changes[k].change == Addition && changes[k].newNode.Some? && changes[k].newNode.value.id == id
  }

  /** Parameters whose names differ, position by position, up to `n`. */
  function ChangedPairs(olds: seq<Node>, news: seq<Node>, n: nat): seq<(Node, Node)>
    requires n <= |olds| == |news|
  {
    if n == 0 then []
    else ChangedPairs(olds, news, n - 1) + (if olds[n - 1].text == news[n - 1].text then [] else [(olds[n - 1], news[n - 1])])
  }

  /** The matcher reported both ends of every changed parameter. */
  predicate EndpointsReported(changes: seq<Draft>, pairs: seq<(Node, Node)>) {
    forall k :: 0 <= k < |pairs| ==> ReportsDeletion(changes, pairs[k].0.id) && ReportsAddition(changes, pairs[k].1.id)
  }

  /** The pass promotes the old form `a`, continued by the new form `b`. */
  predicate Promotes(changes: seq<Draft>, oldDefs: seq<Node>, newDefs: seq<Node>, a: Node, b: Node) {
    && |Named(oldDefs, a.text)| == 1 && Named(newDefs, a.text) == [b]
    && SimpleParams(a).Some? && SimpleParams(b).Some?
    && ProvesRename(a, b, Labels(SimpleParams(a).value), Labels(SimpleParams(b).value))
    && EndpointsReported(changes, ChangedPairs(SimpleParams(a).value, SimpleParams(b).value, |SimpleParams(a).value|))
  }

  /** The promoted pairs among the first `n` old definitions. */
  function Promotions(changes: seq<Draft>, oldDefs: seq<Node>, newDefs: seq<Node>, n: nat): (ps: seq<(Node, Node)>)
    requires n <= |oldDefs|
    ensures forall k :: 0 <= k < |ps| ==> Promotes(changes, oldDefs, newDefs, ps[k].0, ps[k].1) && ps[k].0 in oldDefs
  {
    if n == 0 then []
    else
      var a, found := oldDefs[n - 1], Named(newDefs, oldDefs[n - 1].text);
      Promotions(changes, oldDefs, newDefs, n - 1) +
      (if |found| == 1 && Promotes(changes, oldDefs, newDefs, a, found[0]) then [(a, found[0])] else [])
  }

  function FormIds(form: Node): set<string> {
    set n | n in [form] + Descendants(form) :: n.id
  }

  function CoveredOld(ps: seq<(Node, Node)>): set<string> {
    if ps == [] then {} else CoveredOld(ps[..|ps| - 1]) + FormIds(ps[|ps| - 1].0)
  }

  function CoveredNew(ps: seq<(Node, Node)>): set<string> {
    if ps == [] then {} else CoveredNew(ps[..|ps| - 1]) + FormIds(ps[|ps| - 1].1)
  }

  function RenameDraft(pair: (Node, Node)): Draft {
    Draft(Refactoring, Some(pair.0), Some(pair.1), None, None, 1.0, Some("RENAME_VARIABLE"))
  }

  function RenameDrafts(pairs: seq<(Node, Node)>): (ds: seq<Draft>)
    ensures |ds| == |pairs| && forall k :: 0 <= k < |pairs| ==> ds[k] == RenameDraft(pairs[k])
  {
    seq(|pairs|, k requires 0 <= k < |pairs| => RenameDraft(pairs[k]))
  }

  /** One draft per changed parameter of a form. */
  function FormDrafts(a: Node, b: Node): seq<Draft> {
    var olds, news := SimpleParams(a), SimpleParams(b);
    if olds.None? || news.None? || |olds.value| != |news.value| then []
    else RenameDrafts(ChangedPairs(olds.value, news.value, |olds.value|))
  }

  function PromotedDrafts(ps: seq<(Node, Node)>): seq<Draft> {
    if ps == [] then [] else PromotedDrafts(ps[..|ps| - 1]) + FormDrafts(ps[|ps| - 1].0, ps[|ps| - 1].1)
  }

  /** A raw edit of a promoted form. */
  predicate Absorbed(d: Draft, coveredOld: set<string>, coveredNew: set<string>) {
    (d.change == Deletion && d.oldNode.Some? && d.oldNode.value.id in coveredOld) ||
    (d.change == Addition && d.newNode.Some? && d.newNode.value.id in coveredNew)
  }

  function Retain(changes: seq<Draft>, coveredOld: set<string>, coveredNew: set<string>): seq<Draft> {
    if changes == [] then []
    else
      Retain(changes[..|changes| - 1], coveredOld, coveredNew) +
      (if Absorbed(changes[|changes| - 1], coveredOld, coveredNew) then [] else [changes[|changes| - 1]])
  }

  /** The drafts after the pass. */
  function Promoted(changes: seq<Draft>, oldTree: Node, newTree: Node, language: string): seq<Draft> {
    var oldDefs, newDefs := Defns(oldTree.children), Defns(newTree.children);
    var ps := Promotions(changes, oldDefs, newDefs, |oldDefs|);
    if language != "clojure" || ps == [] then changes
    else Retain(changes, CoveredOld(ps), CoveredNew(ps)) + PromotedDrafts(ps)
  }

  /** The inner loop over parameter positions; stops at the first pair that is not fresh. */
  method PairParameters(form: Node, olds: seq<Node>, news: seq<Node>)
    returns (valid: bool, mapping: Renames, pairs: seq<(Node, Node)>)
    requires |olds| == |news|
    ensures valid <==> AllFresh(form, Labels(olds), Labels(news))
    ensures valid ==> mapping == MappingUpTo(Labels(olds), Labels(news), |olds|)
    ensures valid ==> pairs == ChangedPairs(olds, news, |olds|)
  {
    valid, mapping, pairs := true, map[], [];
    var oldNames, newNames := Labels(olds), Labels(news);
    hide Labels, OccursBelow;
    var i := 0;
    while i < |olds|
      invariant i <= |olds| && valid
      invariant forall j :: 0 <= j < i ==> FreshPair(form, oldNames, newNames, j)
      invariant mapping == MappingUpTo(oldNames, newNames, i)
      invariant pairs == ChangedPairs(olds, news, i)
    {
      var old_, new_ := olds[i], news[i];
      if old_.text != new_.text {
        if new_.text in oldNames || old_.text in newNames || OccursBelow(form, new_.text) {
          assert !FreshPair(form, oldNames, newNames, i);
          valid := false;
          return;
        }
        mapping := mapping[old_.text := new_.text];
        pairs := pairs + [(old_, new_)];
      }
      i := i + 1;
    }
  }

  lemma {:induction false} DefnsAreDefns(ns: seq<Node>)
    ensures forall n :: n in Defns(ns) ==> IsNamedDefn(n) && n in ns
  {
    if ns != [] { DefnsAreDefns(ns[1..]); }
  }

  lemma {:induction false} NamedAreMembers(defs: seq<Node>, name: string)
    ensures forall n :: n in Named(defs, name) ==> n in defs && n.text == name
  {
    if defs != [] { NamedAreMembers(defs[1..], name); }
  }

  lemma {:induction false} NoChangedPairs(olds: seq<Node>, news: seq<Node>, n: nat)
    requires n <= |olds| == |news|
    ensures ChangedPairs(olds, news, n) == [] <==> forall i :: 0 <= i < n ==> olds[i].text == news[i].text
  {
    if n > 0 { NoChangedPairs(olds, news, n - 1); }
  }

  /** The tests one candidate form has to pass, in the order of the source. */
  method PromoteForm(changes: seq<Draft>, a: Node, b: Node) returns (ok: bool, drafts: seq<Draft>)
    requires IsNamedDefn(a) && IsNamedDefn(b)
    ensures ok <==>
              && SimpleParams(a).Some? && SimpleParams(b).Some?
              && ProvesRename(a, b, Labels(SimpleParams(a).value), Labels(SimpleParams(b).value))
              && EndpointsReported(changes, ChangedPairs(SimpleParams(a).value, SimpleParams(b).value, |SimpleParams(a).value|))
    ensures ok ==> drafts != []
    ensures ok ==> drafts == FormDrafts(a, b)
  {
    ok, drafts := false, [];
    if HasExcluded(a) || HasExcluded(b) {
      return;
    }
    var olds, news := SimpleParams(a), SimpleParams(b);
    if olds.None? || news.None? || |olds.value| != |news.value| {
      return;
    }
    hide SimpleParams, HasExcluded, IsNamedDefn;
    if !Distinct(Labels(olds.value)) || !Distinct(Labels(news.value)) {
      return;
    }
    var valid, mapping, pairs := PairParameters(a, olds.value, news.value);
    NoChangedPairs(olds.value, news.value, |olds.value|);
    if !valid || pairs == [] || !EqualModulo(a, b, mapping) || !EndpointsReported(changes, pairs) {
      return;
    }
    return true, RenameDrafts(pairs);
  }

  /** One round of the main loop: is `a` continued by exactly one form, and is that a proved rename? */
  method ConsiderForm(changes: seq<Draft>, oldDefs: seq<Node>, newDefs: seq<Node>, a: Node)
    returns (promoted: Option<Node>, drafts: seq<Draft>)
    requires IsNamedDefn(a) && forall n :: n in newDefs ==> IsNamedDefn(n)
    ensures promoted.Some? ==> Named(newDefs, a.text) == [promoted.value]
    ensures promoted.Some? <==>
              |Named(newDefs, a.text)| == 1 && Promotes(changes, oldDefs, newDefs, a, Named(newDefs, a.text)[0])
    ensures promoted.Some? ==> drafts != [] && drafts == FormDrafts(a, promoted.value)
  {
    promoted, drafts := None, [];
    if |Named(oldDefs, a.text)| != 1 {
      return;
    }
    var candidates := Named(newDefs, a.text);
    if |candidates| != 1 {
      return;
    }
    var b := candidates[0];
    assert candidates == [b] && b in candidates;
    NamedAreMembers(newDefs, a.text);
    hide ProvesRename, SimpleParams, IsNamedDefn;
    var ok;
    ok, drafts := PromoteForm(changes, a, b);
    promoted := if ok then Some(b) else None;
  }

  lemma {:induction false} PromotionsStep(changes: seq<Draft>, oldDefs: seq<Node>, newDefs: seq<Node>, k: nat)
    requires k < |oldDefs|
    ensures var a, found := oldDefs[k], Named(newDefs, oldDefs[k].text);
            Promotions(changes, oldDefs, newDefs, k + 1) ==
            Promotions(changes, oldDefs, newDefs, k) +
            (if |found| == 1 && Promotes(changes, oldDefs, newDefs, a, found[0]) then [(a, found[0])] else [])
  {}

  lemma {:induction false} Accumulate(ps: seq<(Node, Node)>, p: (Node, Node))
    ensures CoveredOld(ps + [p]) == CoveredOld(ps) + FormIds(p.0)
    ensures CoveredNew(ps + [p]) == CoveredNew(ps) + FormIds(p.1)
    ensures PromotedDrafts(ps + [p]) == PromotedDrafts(ps) + FormDrafts(p.0, p.1)
  {
    assert (ps + [p])[..|ps|] == ps;
  }

  method PromoteParameterRenames(changes: seq<Draft>, oldTree: Node, newTree: Node, language: string)
    returns (result: seq<Draft>)
    ensures result == Promoted(changes, oldTree, newTree, language)
    ensures language != "clojure" ==> result == changes
  {
    if language != "clojure" {
      return changes;
    }
    var oldDefs, newDefs := Defns(oldTree.children), Defns(newTree.children);
    var coveredOld: set<string>, coveredNew: set<string>, promoted: seq<Draft> := {}, {}, [];
    ghost var ps: seq<(Node, Node)> := Promotions(changes, oldDefs, newDefs, 0);
    DefnsAreDefns(oldTree.children);
    DefnsAreDefns(newTree.children);
    hide Promotes, IsNamedDefn, Defns, FormDrafts, FormIds, Named, PromotedDrafts, CoveredOld, CoveredNew, Promotions;
    for k := 0 to |oldDefs|
      invariant ps == Promotions(changes, oldDefs, newDefs, k)
      invariant coveredOld == CoveredOld(ps) && coveredNew == CoveredNew(ps)
      invariant promoted == PromotedDrafts(ps)
      invariant promoted == [] <==> ps == []
    {
      var a := oldDefs[k];
      assert a in oldDefs;
      var b, drafts := ConsiderForm(changes, oldDefs, newDefs, a);
      PromotionsStep(changes, oldDefs, newDefs, k);
      if b.Some? {
        Accumulate(ps, (a, b.value));
        ps := ps + [(a, b.value)];
        promoted := promoted + drafts;
        coveredOld := coveredOld + FormIds(a);
        coveredNew := coveredNew + FormIds(b.value);
      }
    }
    if promoted == [] {
      return changes;
    }
    var kept := RetainDrafts(changes, coveredOld, coveredNew);
    result := kept + promoted;
  }

  method RetainDrafts(changes: seq<Draft>, coveredOld: set<string>, coveredNew: set<string>) returns (result: seq<Draft>)
    ensures result == Retain(changes, coveredOld, coveredNew)
  {
    result := [];
    for k := 0 to |changes|
      invariant result == Retain(changes[..k], coveredOld, coveredNew)
    {
      assert changes[..k + 1][..k] == changes[..k];
      if !Absorbed(changes[k], coveredOld, coveredNew) {
        result := result + [changes[k]];
      }
    }
    assert changes[..|changes|] == changes;
  }

  // ---- What the pass may remove, and what it may claim ----

  lemma {:induction false} CoveredBy(ps: seq<(Node, Node)>, id: string)
    ensures id in CoveredOld(ps) <==> exists p :: p in ps && id in FormIds(p.0)
    ensures id in CoveredNew(ps) <==> exists p :: p in ps && id in FormIds(p.1)
  {
    if ps != [] {
      var front, last := ps[..|ps| - 1], ps[|ps| - 1];
      CoveredBy(front, id);
      hide FormIds;
      assert ps == front + [last];
      assert forall p :: p in ps <==> p in front || p == last;
    }
  }

  lemma {:induction false} RetainCounts(changes: seq<Draft>, coveredOld: set<string>, coveredNew: set<string>, d: Draft)
    ensures multiset(Retain(changes, coveredOld, coveredNew))[d] ==
            if Absorbed(d, coveredOld, coveredNew) then 0 else multiset(changes)[d]
  {
    if changes != [] {
      var n := |changes| - 1;
      hide Absorbed;
      assert changes == changes[..n] + [changes[n]];
      RetainCounts(changes[..n], coveredOld, coveredNew, d);
    }
  }

  /** The draft is a raw deletion or addition of a node inside one of the promoted forms. */
  ghost predicate InsidePromoted(d: Draft, ps: seq<(Node, Node)>) {
    (d.change == Deletion && d.oldNode.Some? && exists p :: p in ps && d.oldNode.value.id in FormIds(p.0)) ||
    (d.change == Addition && d.newNode.Some? && exists p :: p in ps && d.newNode.value.id in FormIds(p.1))
  }

  /** The pass removes exactly the raw deletions and additions inside promoted forms, keeps every other
      draft as often as it was there, and adds the rename drafts. */
  lemma {:induction false} PassRemovesOnlyPromotedForms(changes: seq<Draft>, oldTree: Node, newTree: Node, d: Draft)
    ensures var oldDefs, newDefs := Defns(oldTree.children), Defns(newTree.children);
            var ps := Promotions(changes, oldDefs, newDefs, |oldDefs|);
            multiset(Promoted(changes, oldTree, newTree, "clojure"))[d] ==
            (if InsidePromoted(d, ps) then 0 else multiset(changes)[d]) + multiset(PromotedDrafts(ps))[d]
  {
    var oldDefs, newDefs := Defns(oldTree.children), Defns(newTree.children);
    var ps := Promotions(changes, oldDefs, newDefs, |oldDefs|);
    hide Promotions, FormIds, CoveredOld, CoveredNew, Defns, PromotedDrafts, Retain;
    PromotedCounts(changes, oldTree, newTree, d);
    hide Promoted;
    RetainCounts(changes, CoveredOld(ps), CoveredNew(ps), d);
    assert InsidePromoted(d, ps) <==> Absorbed(d, CoveredOld(ps), CoveredNew(ps)) by {
      if d.oldNode.Some? { CoveredBy(ps, d.oldNode.value.id); }
      if d.newNode.Some? { CoveredBy(ps, d.newNode.value.id); }
    }
  }

  lemma {:induction false} PromotedCounts(changes: seq<Draft>, oldTree: Node, newTree: Node, d: Draft)
    ensures var oldDefs, newDefs := Defns(oldTree.children), Defns(newTree.children);
            var ps := Promotions(changes, oldDefs, newDefs, |oldDefs|);
            multiset(Promoted(changes, oldTree, newTree, "clojure"))[d] ==
            multiset(Retain(changes, CoveredOld(ps), CoveredNew(ps)))[d] + multiset(PromotedDrafts(ps))[d]
  {
    var oldDefs, newDefs := Defns(oldTree.children), Defns(newTree.children);
    var ps := Promotions(changes, oldDefs, newDefs, |oldDefs|);
    if ps == [] {
      RetainCounts(changes, {}, {}, d);
      assert CoveredOld(ps) == {} && CoveredNew(ps) == {} && PromotedDrafts(ps) == [];
    }
    hide Promotions, CoveredOld, CoveredNew, Defns, PromotedDrafts, Retain;
  }

  /** Every form whose raw edits the pass absorbs means the same before and after, for every evaluator under whose
      reading the rename is honest; the map read backwards proves the reverse rename. */
  lemma {:induction false} PromotedFormsKeepMeaning<V(!new)>(changes: seq<Draft>, oldDefs: seq<Node>, newDefs: seq<Node>,
                                                             k: nat, ev: Evaluator<V>)
    requires k < |Promotions(changes, oldDefs, newDefs, |oldDefs|)|
    ensures var (a, b) := Promotions(changes, oldDefs, newDefs, |oldDefs|)[k];
            SimpleParams(a).Some? && SimpleParams(b).Some? &&
            var olds, news := Labels(SimpleParams(a).value), Labels(SimpleParams(b).value);
            && ProvesRename(a, b, olds, news) && ProvesRename(b, a, news, olds)
            && (Honest(ev.reading, a, olds, news) ==> SameMeaning(ev, a, b, olds, news))
  {
    var (a, b) := Promotions(changes, oldDefs, newDefs, |oldDefs|)[k];
    hide Promotions;
    var olds, news := Labels(SimpleParams(a).value), Labels(SimpleParams(b).value);
    RenameIsSymmetric(a, b, olds, news);
    if Honest(ev.reading, a, olds, news) {
      HonestPromotionSound(ev, a, b, olds, news);
    }
  }

  // ---- Promotions that change the meaning ----

  function Symbol(id: string, name: string): Node {
    Node(id, SYMBOL, name, [])
  }

  function ParamsNode(p: string): Node {
    Node("0.0.2", VECTOR, "", [Symbol("0.0.2.0", p)])
  }

  function CallNode(head: string, p: string): Node {
    Node("0.0.3", LIST, "", [Symbol("0.0.3.0", head), Symbol("0.0.3.1", p), Symbol("0.0.3.2", p)])
  }

  /** `(defn f [p] (head p p))`. */
  function Calling(head: string, p: string): Node {
    Node("0.0", LIST, "f", [Symbol("0.0.0", "defn"), Symbol("0.0.1", "f"), ParamsNode(p), CallNode(head, p)])
  }

  /** A part of Clojure's own reading: `if` is a special form, and `def` one that reads a symbol as a name. */
  function CoreReading(kind: string, first: Option<string>): Reading {
    if kind != LIST then Values else if first == Some("if") then Special else if first == Some("def") then Syntax else Values
  }

  lemma {:induction false} SymbolsForest(ns: seq<Node>)
    requires forall i :: 0 <= i < |ns| ==> ns[i].children == []
    ensures Forest(ns) == ns
  {
    if ns != [] {
      SymbolsForest(ns[1..]);
      assert Descendants(ns[0]) == [] && [ns[0]] + [] + ns[1..] == ns;
    }
  }

  lemma {:induction false} CallingDescendants(head: string, p: string)
    ensures Descendants(Calling(head, p)) ==
            [Symbol("0.0.0", "defn"), Symbol("0.0.1", "f"), ParamsNode(p)] + ParamsNode(p).children +
            [CallNode(head, p)] + CallNode(head, p).children
  {
    var cs := Calling(head, p).children;
    var vector, call := cs[2], cs[3];
    SymbolsForest(vector.children);
    SymbolsForest(call.children);
    SymbolsForest([]);
    assert Descendants(vector) == vector.children && Descendants(call) == call.children;
    assert Descendants(cs[0]) == [] && Descendants(cs[1]) == [];
    assert cs[3..] == [call] && [call][1..] == [] && cs[2..][1..] == cs[3..] && cs[1..][1..] == cs[2..];
    hide Descendants;
    assert Forest(cs[3..]) == [call] + call.children + [];
    assert Forest(cs[2..]) == [vector] + vector.children + Forest(cs[3..]);
    assert Forest(cs[1..]) == [cs[1]] + [] + Forest(cs[2..]);
    assert Forest(cs) == [cs[0]] + [] + Forest(cs[1..]);
    assert Descendants(Calling(head, p)) == Forest(cs) by { DescendantsAre(Calling(head, p)); }
  }

  lemma {:induction false} DescendantsAre(n: Node)
    ensures Descendants(n) == Forest(n.children)
  {}

  lemma {:induction false} CallingParams(head: string, p: string)
    requires SimpleName(p)
    ensures SimpleParams(Calling(head, p)) == Some([Symbol("0.0.2.0", p)])
    ensures IsNamedDefn(Calling(head, p))
  {
    var cs := Calling(head, p).children;
    assert VectorsOf(cs[3..]) == [] && cs[4..] == [] && cs[3..][1..] == cs[4..];
    assert VectorsOf(cs[2..]) == [cs[2]] && cs[2..][1..] == cs[3..];
    assert VectorsOf(cs[1..]) == [cs[2]] && cs[1..][1..] == cs[2..];
    assert VectorsOf(cs) == [cs[2]];
  }

  /** A name without a slash or a leading dot is no excluded head, unless it is listed. */
  lemma {:induction false} CallingPlain(head: string, p: string)
    requires head in {"if", "def", "a", "b", "x"}
    ensures !HasExcluded(Calling(head, p))
  {
    CallingDescendants(head, p);
    var ds := Descendants(Calling(head, p));
    hide Calling;
    assert |ds| == 8;
    assert AfterSlash(head) == None && !QuotingHead(head) && head !in SHADOWING;
    forall k | 0 <= k < 8 ensures !Excluded(ds[k]) {
      assert ds[k].kind in {SYMBOL, VECTOR, LIST} && ds[k].kind !in READER_QUOTES;
      assert ds[k].kind == LIST ==> ds[k] == CallNode(head, p) && Head(ds[k]) == Some(head);
    }
  }

  lemma {:induction false} SymbolsEqual(as_: seq<Node>, bs: seq<Node>, m: Renames)
    requires |as_| == |bs|
    requires forall i :: 0 <= i < |as_| ==> as_[i].kind == bs[i].kind == SYMBOL && as_[i].children == bs[i].children == []
    requires forall i :: 0 <= i < |as_| ==> Renamed(m, as_[i].text) == bs[i].text
    ensures EqualForests(as_, bs, m)
  {
    if as_ != [] {
      SymbolsEqual(as_[1..], bs[1..], m);
      assert EqualForests([], [], m);
      assert EqualModulo(as_[0], bs[0], m);
    }
  }

  lemma {:induction false} CallingEqual(head: string, p: string, q: string)
    requires p != "defn" && p != "f"
    ensures EqualModulo(Calling(head, p), Calling(Renamed(map[p := q], head), q), map[p := q])
  {
    var m := map[p := q];
    var x, y := Calling(head, p), Calling(Renamed(m, head), q);
    var a, b := x.children, y.children;
    SymbolsEqual(a[2].children, b[2].children, m);
    SymbolsEqual(a[3].children, b[3].children, m);
    SymbolsEqual(a[..2], b[..2], m);
    assert EqualModulo(a[2], b[2], m) && EqualModulo(a[3], b[3], m);
    hide Calling;
    ForestsFromHeads(a, b, m);
    assert x.kind == y.kind && x.text == y.text && x.kind != SYMBOL;
  }

  lemma {:induction false} ForestsFromHeads(a: seq<Node>, b: seq<Node>, m: Renames)
    requires |a| == |b| == 4 && EqualForests(a[..2], b[..2], m) && EqualModulo(a[2], b[2], m) && EqualModulo(a[3], b[3], m)
    ensures EqualForests(a, b, m)
  {
    assert a[..2][0] == a[0] && b[..2][0] == b[0] && a[..2][1..] == [a[1]] && b[..2][1..] == [b[1]];
    assert EqualForests([a[1]], [b[1]], m);
    assert EqualModulo(a[0], b[0], m) && EqualModulo(a[1], b[1], m);
    hide EqualModulo;
    assert a[3..][1..] == [] && b[3..][1..] == [] && EqualForests(a[3..], b[3..], m);
    assert a[2..][1..] == a[3..] && b[2..][1..] == b[3..] && EqualForests(a[2..], b[2..], m);
    assert a[1..][1..] == a[2..] && b[1..][1..] == b[2..] && EqualForests(a[1..], b[1..], m);
  }

  lemma {:induction false} CallingFresh(head: string, p: string, q: string)
    requires q !in {p, "defn", "f", head}
    ensures AllFresh(Calling(head, p), [p], [q])
  {
    CallingDescendants(head, p);
    var a := Calling(head, p);
    DescendantsAre(a);
    hide Descendants, Forest;
    var ds := Descendants(a);
    forall k | 0 <= k < |ds| ensures !(ds[k].kind == SYMBOL && ds[k].text == q) {
      assert |ds| == 8;
    }
  }

  lemma {:induction false} OneParameter(p: string, q: string)
    requires p != q
    ensures MappingUpTo([p], [q], 1) == map[p := q] && Distinct([p]) && [p] != [q]
    ensures Labels([Symbol("0.0.2.0", p)]) == [p]
  {
    assert MappingUpTo([p], [q], 0) == map[];
    assert [p][0] == p && [q][0] == q;
  }

  lemma {:induction false} CallingRenames(head: string, p: string, q: string)
    requires p in {"if", "a"} && q in {"b", "x"} && head in {p, "def"} && SimpleName(p) && SimpleName(q)
    ensures var m := map[p := q];
            && ProvesRename(Calling(head, p), Calling(Renamed(m, head), q), [p], [q])
            && MappingUpTo([p], [q], 1) == m
  {
    var head' := Renamed(map[p := q], head);
    hide SimpleName, Calling, HasExcluded, SimpleParams, AllFresh, IsNamedDefn, EqualModulo, MappingUpTo, Labels, Distinct;
    CallingPlain(head, p);
    CallingPlain(head', q);
    CallingParams(head, p);
    CallingParams(head', q);
    CallingFresh(head, p, q);
    CallingEqual(head, p, q);
    OneParameter(p, q);
    OneParameter(q, p);
    hide Renamed;
  }

  lemma {:induction false} CallingUnstable(head: string, p: string, m: Renames, locals: set<string>)
    requires !StableAt(CoreReading, m, locals, CallNode(head, p))
    ensures !StableIn(CoreReading, m, locals, Body(Calling(head, p).children))
  {
    var cs := Calling(head, p).children;
    assert cs[1..][1..] == cs[2..] && cs[2..][1..] == cs[3..] && cs[3..] == [cs[3]];
    assert Body(cs[2..]) == cs[3..] && Body(cs[1..]) == Body(cs[2..]) && Body(cs) == Body(cs[1..]);
    hide StableAt;
    assert !Stable(CoreReading, m, locals, cs[3]);
  }

  lemma {:induction false} UnstableCalls()
    ensures !StableAt(CoreReading, map["if" := "x"], {"if"}, CallNode("if", "if"))
    ensures !StableAt(CoreReading, map["a" := "b"], {"a"}, CallNode("def", "a"))
  {
    var call := CallNode("def", "a");
    assert First(CallNode("if", "if")) == Some("if") && First(call) == Some("def");
    var rest := call.children[1..];
    assert rest[0] == Symbol("0.0.3.1", "a");
    assert Visible(call) == Visible(call.children[0]) + VisibleIn(rest) && VisibleIn(rest) == Visible(rest[0]) + VisibleIn(rest[1..]);
    assert "a" in Visible(call) && "a" in map["a" := "b"];
  }

  lemma {:induction false} UnstableCallChangesMeaning(head: string, p: string, q: string)
    requires p in {"if", "a"} && q in {"b", "x"} && head in {p, "def"} && SimpleName(p) && SimpleName(q)
    requires !StableAt(CoreReading, map[p := q], {p}, CallNode(head, p))
    ensures var head' := Renamed(map[p := q], head);
            && ProvesRename(Calling(head, p), Calling(head', q), [p], [q])
            && !SameMeaning(FreeEvaluator(CoreReading), Calling(head, p), Calling(head', q), [p], [q])
  {
    hide SimpleName, CallNode, StableAt, ProvesRename, SameMeaning;
    CallingRenames(head, p, q);
    CallingUnstable(head, p, map[p := q], {p});
    assert (set name | name in [p]) == {p};
    hide Calling, StableIn, MappingUpTo;
    HonestIffSameMeaning(CoreReading, Calling(head, p), Calling(Renamed(map[p := q], head), q), [p], [q]);
    hide Renamed, VisibleIn, Body, Prelude;
  }

  /** The pass accepts `(defn f [if] (if if if))` becoming `(defn f [x] (x x x))` as a pure rename, yet a language in
      which `if` is a special form sees two different functions. */
  lemma {:induction false} RenamingASpecialFormChangesMeaning()
    ensures ProvesRename(Calling("if", "if"), Calling("x", "x"), ["if"], ["x"])
    ensures !SameMeaning(FreeEvaluator(CoreReading), Calling("if", "if"), Calling("x", "x"), ["if"], ["x"])
  {
    assert SimpleName("if") && SimpleName("x") && Renamed(map["if" := "x"], "if") == "x";
    UnstableCalls();
    hide *;
    UnstableCallChangesMeaning("if", "if", "x");
  }

  /** It accepts `(defn f [a] (def a a))` becoming `(defn f [b] (def b b))`, though the two define different globals. */
  lemma {:induction false} RenamingADefinitionChangesMeaning()
    ensures ProvesRename(Calling("def", "a"), Calling("def", "b"), ["a"], ["b"])
    ensures !SameMeaning(FreeEvaluator(CoreReading), Calling("def", "a"), Calling("def", "b"), ["a"], ["b"])
  {
    assert SimpleName("a") && SimpleName("b") && Renamed(map["a" := "b"], "def") == "def";
    UnstableCalls();
    hide *;
    UnstableCallChangesMeaning("def", "a", "b");
  }
}
