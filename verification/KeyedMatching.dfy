/** Pairing the nodes of two trees that share an identity key: Dockerfile, HCL and Puppet resources, and
    named entities that the positional matching lost. */
module KeyedMatching {
  import opened Common

  /** A node, its start line, and the identity key its language profile gives it, if any. */
  datatype Item<+K> = Item(id: string, line: int, key: Option<K>)

  datatype Match<+K> = Match(from: Item<K>, to: Item<K>)

  function Froms<K(==)>(matching: seq<Match<K>>): set<string> {
    set m | m in matching :: m.from.id
  }

  function Tos<K(==)>(matching: seq<Match<K>>): set<string> {
    set m | m in matching :: m.to.id
  }

  ghost predicate DistinctIds<K>(nodes: seq<Item<K>>) {
    forall i, j :: 0 <= i < j < |nodes| ==> nodes[i].id != nodes[j].id
  }

  ghost predicate OneToOne<K>(matching: seq<Match<K>>) {
    forall i, j :: 0 <= i < j < |matching| ==>
      matching[i].from.id != matching[j].from.id && matching[i].to.id != matching[j].to.id
  }

  /** The nodes of a key that are not taken, in tree order. */
  function Free<K(==)>(nodes: seq<Item<K>>, taken: set<string>, key: K): seq<Item<K>> {
    if nodes == [] then []
    else
      var last := nodes[|nodes| - 1];
      Free(nodes[..|nodes| - 1], taken, key) + (if last.key == Some(key) && last.id !in taken then [last] else [])
  }

  lemma {:induction false} FreeAre<K>(nodes: seq<Item<K>>, taken: set<string>, key: K)
    ensures forall x :: x in Free(nodes, taken, key) ==> x in nodes && x.key == Some(key) && x.id !in taken
    ensures forall x :: x in nodes && x.key == Some(key) && x.id !in taken ==> x in Free(nodes, taken, key)
  {
    if nodes != [] {
      var n := |nodes| - 1;
      FreeAre(nodes[..n], taken, key);
      assert nodes == nodes[..n] + [nodes[n]];
    }
  }

  lemma {:induction false} FreeUnchanged<K>(nodes: seq<Item<K>>, taken: set<string>, id: string, key: K)
    requires forall x :: x in nodes && x.id == id ==> x.key != Some(key)
    ensures Free(nodes, taken + {id}, key) == Free(nodes, taken, key)
  {
    if nodes != [] {
      FreeUnchanged(nodes[..|nodes| - 1], taken, id, key);
    }
  }

  /** Taking the first free node of a key leaves the others. */
  lemma {:induction false} FreeAfterFirst<K>(nodes: seq<Item<K>>, taken: set<string>, key: K)
    requires DistinctIds(nodes) && Free(nodes, taken, key) != []
    ensures Free(nodes, taken + {Free(nodes, taken, key)[0].id}, key) == Free(nodes, taken, key)[1..]
  {
    var n := |nodes| - 1;
    var rest, last := Free(nodes[..n], taken, key), nodes[n];
    FreeAre(nodes[..n], taken, key);
    if rest == [] {
      FreeUnchanged(nodes[..n], taken, last.id, key);
      assert Free(nodes, taken, key) == [last];
    } else {
      var id := rest[0].id;
      FreeAfterFirst(nodes[..n], taken, key);
      assert rest[0] in rest;
      var i :| 0 <= i < n && nodes[..n][i] == rest[0];
      assert nodes[i].id == id && last.id != id;
      FreeLast(nodes, taken, key);
      FreeLast(nodes, taken + {id}, key);
      hide Free;
      TailOfAppend(rest, if last.key == Some(key) && last.id !in taken then [last] else []);
    }
  }

  lemma {:induction false} TailOfAppend<T>(a: seq<T>, b: seq<T>)
    requires a != []
    ensures (a + b)[0] == a[0] && (a + b)[1..] == a[1..] + b
  {}

  // ---- The greedy pairing that both passes perform ----

  /** Resources take the first free candidate; entities take the one nearest in start line. */
  datatype Rule = FirstFree | NearestLine

  function Distance(a: int, b: int): nat {
    if a < b then b - a else a - b
  }

  /** The first of the candidates nearest to a line. */
  function NearestIn<K>(line: int, free: seq<Item<K>>): (i: nat)
    requires free != []
    ensures i < |free|
  {
    if |free| == 1 then 0
    else
      var n := |free| - 1;
      var best := NearestIn(line, free[..n]);
      if Distance(free[n].line, line) < Distance(free[best].line, line) then n else best
  }

  function Chosen<K>(rule: Rule, node: Item<K>, free: seq<Item<K>>): (i: nat)
    requires free != []
    ensures i < |free|
  {
    match rule
    case FirstFree => 0
    case NearestLine => NearestIn(node.line, free)
  }

  /** Go through the old nodes in order; give each unmatched keyed node a free candidate of its key. */
  function Greedy<K(==)>(rule: Rule, olds: seq<Item<K>>, news: seq<Item<K>>, base: seq<Match<K>>): seq<Match<K>> {
    if olds == [] then base
    else
      var n := |olds| - 1;
      Extended(rule, olds[n], news, Greedy(rule, olds[..n], news, base))
  }

  function Extended<K(==)>(rule: Rule, node: Item<K>, news: seq<Item<K>>, sofar: seq<Match<K>>): seq<Match<K>> {
    if node.key.None? || node.id in Froms(sofar) then sofar
    else
      var free := Free(news, Tos(sofar), node.key.value);
      if free == [] then sofar else sofar + [Match(node, free[Chosen(rule, node, free)])]
  }

  /** What every step keeps. */
  ghost predicate KeyEqual<K>(matching: seq<Match<K>>) {
    forall m :: m in matching ==> m.from.key == m.to.key
  }

  lemma {:induction false} ExtendedKeeps<K>(rule: Rule, node: Item<K>, news: seq<Item<K>>, sofar: seq<Match<K>>)
    ensures sofar <= Extended(rule, node, news, sofar)
    ensures OneToOne(sofar) ==> OneToOne(Extended(rule, node, news, sofar))
    ensures KeyEqual(sofar) ==> KeyEqual(Extended(rule, node, news, sofar))
    ensures Froms(sofar) <= Froms(Extended(rule, node, news, sofar))
    ensures Tos(sofar) <= Tos(Extended(rule, node, news, sofar))
  {
    if node.key.Some? && node.id !in Froms(sofar) {
      var free := Free(news, Tos(sofar), node.key.value);
      FreeAre(news, Tos(sofar), node.key.value);
      hide Free;
      if free != [] {
        var candidate := free[Chosen(rule, node, free)];
        assert candidate in free;
        AppendKeeps(sofar, Match(node, candidate));
      }
    }
  }

  lemma {:induction false} AppendKeeps<K>(sofar: seq<Match<K>>, m: Match<K>)
    requires m.from.key == m.to.key && m.from.id !in Froms(sofar) && m.to.id !in Tos(sofar)
    ensures OneToOne(sofar) ==> OneToOne(sofar + [m])
    ensures KeyEqual(sofar) ==> KeyEqual(sofar + [m])
    ensures Froms(sofar) <= Froms(sofar + [m]) && Tos(sofar) <= Tos(sofar + [m])
  {
    UsedPlus(sofar, m);
    AppendOneToOne(sofar, m);
    hide Froms, Tos;
  }

  lemma {:induction false} GreedyKeeps<K>(rule: Rule, olds: seq<Item<K>>, news: seq<Item<K>>, base: seq<Match<K>>)
    ensures base <= Greedy(rule, olds, news, base)
    ensures OneToOne(base) ==> OneToOne(Greedy(rule, olds, news, base))
    ensures KeyEqual(base) ==> KeyEqual(Greedy(rule, olds, news, base))
    ensures Froms(base) <= Froms(Greedy(rule, olds, news, base))
  {
    if olds != [] {
      var n := |olds| - 1;
      GreedyKeeps(rule, olds[..n], news, base);
      ExtendedKeeps(rule, olds[n], news, Greedy(rule, olds[..n], news, base));
      hide Extended, OneToOne, KeyEqual, Froms, Tos;
    }
  }

  /** No key is left with an unmatched node on both sides. */
  ghost predicate Maximal<K>(olds: seq<Item<K>>, news: seq<Item<K>>, matching: seq<Match<K>>) {
    forall o, n :: o in olds && n in news && o.key.Some? && o.key == n.key ==> o.id in Froms(matching) || n.id in Tos(matching)
  }

  lemma {:induction false} ExtendedMaximal<K>(rule: Rule, node: Item<K>, news: seq<Item<K>>, sofar: seq<Match<K>>)
    ensures forall n :: n in news && node.key.Some? && node.key == n.key ==>
              node.id in Froms(Extended(rule, node, news, sofar)) || n.id in Tos(Extended(rule, node, news, sofar))
  {
    if node.key.Some? {
      FreeAre(news, Tos(sofar), node.key.value);
      hide Free;
      var after := Extended(rule, node, news, sofar);
      if |after| > |sofar| {
        assert after[|sofar|] in after && after[|sofar|].from == node;
      }
    }
  }

  lemma {:induction false} GreedyMaximal<K>(rule: Rule, olds: seq<Item<K>>, news: seq<Item<K>>, base: seq<Match<K>>)
    ensures Maximal(olds, news, Greedy(rule, olds, news, base))
  {
    if olds != [] {
      var n := |olds| - 1;
      var sofar := Greedy(rule, olds[..n], news, base);
      var after := Extended(rule, olds[n], news, sofar);
      assert Greedy(rule, olds, news, base) == after && olds[..n] + [olds[n]] == olds;
      hide Greedy, Extended, OneToOne, KeyEqual, Froms, Tos, Maximal;
      GreedyMaximal(rule, olds[..n], news, base);
      ExtendedKeeps(rule, olds[n], news, sofar);
      ExtendedMaximal(rule, olds[n], news, sofar);
      OneMoreMaximal(olds[..n], olds[n], news, sofar, after);
    }
  }

  lemma {:induction false} OneMoreMaximal<K>(olds: seq<Item<K>>, node: Item<K>, news: seq<Item<K>>, sofar: seq<Match<K>>,
                                             after: seq<Match<K>>)
    requires Maximal(olds, news, sofar) && Froms(sofar) <= Froms(after) && Tos(sofar) <= Tos(after)
    requires forall n :: n in news && node.key.Some? && node.key == n.key ==> node.id in Froms(after) || n.id in Tos(after)
    ensures Maximal(olds + [node], news, after)
  {
    hide Froms, Tos;
  }

  /** A matching that is already maximal is left alone. */
  lemma {:induction false} MaximalUnchanged<K>(rule: Rule, olds: seq<Item<K>>, news: seq<Item<K>>, base: seq<Match<K>>)
    requires Maximal(olds, news, base)
    ensures Greedy(rule, olds, news, base) == base
  {
    if olds != [] {
      var n := |olds| - 1;
      assert Maximal(olds[..n], news, base);
      MaximalUnchanged(rule, olds[..n], news, base);
      if olds[n].key.Some? && olds[n].id !in Froms(base) {
        var free := Free(news, Tos(base), olds[n].key.value);
        FreeAre(news, Tos(base), olds[n].key.value);
        hide Free;
        if free != [] {
          FirstIn(free);
          assert false;
        }
      }
    }
  }

  lemma {:induction false} FirstIn<T>(xs: seq<T>)
    requires xs != []
    ensures exists x :: x in xs
  {
    assert xs[0] in xs;
  }

  // ---- Resource profiles ----

  /** Positional matches survive when their keys agree and neither node is matched already. */
  function Kept<K(==)>(matching: seq<Match<K>>): seq<Match<K>> {
    if matching == [] then []
    else
      var n := |matching| - 1;
      var sofar, m := Kept(matching[..n]), matching[n];
      if m.from.key != m.to.key || m.from.id in Froms(sofar) || m.to.id in Tos(sofar) then sofar else sofar + [m]
  }

  method KeepAgreeing<K(==)>(matching: seq<Match<K>>) returns (result: seq<Match<K>>, matchedOld: set<string>,
                             matchedNew: set<string>)
    ensures result == Kept(matching) && matchedOld == Froms(result) && matchedNew == Tos(result)
  {
    result, matchedOld, matchedNew := [], {}, {};
    for i := 0 to |matching|
      invariant result == Kept(matching[..i]) && matchedOld == Froms(result) && matchedNew == Tos(result)
    {
      assert matching[..i + 1][..i] == matching[..i];
      var pair := matching[i];
      if pair.from.key != pair.to.key || pair.from.id in matchedOld || pair.to.id in matchedNew {
        continue;
      }
      UsedPlus(result, pair);
      result, matchedOld, matchedNew := result + [pair], matchedOld + {pair.from.id}, matchedNew + {pair.to.id};
    }
    assert matching[..|matching|] == matching;
  }

  lemma {:induction false} UsedPlus<K>(matching: seq<Match<K>>, m: Match<K>)
    ensures Froms(matching + [m]) == Froms(matching) + {m.from.id}
    ensures Tos(matching + [m]) == Tos(matching) + {m.to.id}
  {
    assert forall x :: x in matching + [m] <==> x in matching || x == m;
  }

  /** The candidate lists by key: exactly the free new nodes, in order. */
  ghost predicate ListsFree<K(!new)>(lists: map<K, seq<Item<K>>>, news: seq<Item<K>>, taken: set<string>) {
    forall key :: Free(news, taken, key) == if key in lists then lists[key] else []
  }

  method ListCandidates<K(==,!new)>(news: seq<Item<K>>, taken: set<string>) returns (lists: map<K, seq<Item<K>>>)
    ensures ListsFree(lists, news, taken)
  {
    lists := map[];
    for i := 0 to |news|
      invariant ListsFree(lists, news[..i], taken)
    {
      assert news[..i + 1][..i] == news[..i];
      if news[i].key.Some? && news[i].id !in taken {
        var key := news[i].key.value;
        lists := lists[key := (if key in lists then lists[key] else []) + [news[i]]];
      }
    }
    assert news[..|news|] == news;
  }

  lemma {:induction false} TakeFirst<K(!new)>(lists: map<K, seq<Item<K>>>, news: seq<Item<K>>, taken: set<string>, key: K)
    requires DistinctIds(news) && ListsFree(lists, news, taken) && key in lists && lists[key] != []
    ensures ListsFree(lists[key := lists[key][1..]], news, taken + {lists[key][0].id})
  {
    var node := lists[key][0];
    FreeAre(news, taken, key);
    assert node in news && node.key == Some(key);
    FreeAfterFirst(news, taken, key);
    forall other | other != key ensures Free(news, taken + {node.id}, other) == Free(news, taken, other) {
      FreeUnchanged(news, taken, node.id, other);
    }
    hide Free;
  }

  method AugmentResourceMatching<K(==,!new)>(olds: seq<Item<K>>, news: seq<Item<K>>, matching: seq<Match<K>>)
    returns (result: seq<Match<K>>)
    requires DistinctIds(news)
    ensures result == Greedy(FirstFree, olds, news, Kept(matching))
  {
    var matchedOld: set<string>, matchedNew: set<string>;
    result, matchedOld, matchedNew := KeepAgreeing(matching);
    var lists := ListCandidates(news, matchedNew);
    for i := 0 to |olds|
      invariant result == Greedy(FirstFree, olds[..i], news, Kept(matching))
      invariant matchedOld == Froms(result) && matchedNew == Tos(result)
      invariant ListsFree(lists, news, matchedNew)
    {
      assert olds[..i + 1][..i] == olds[..i];
      var node := olds[i];
      if node.id in matchedOld || node.key.None? {
        continue;
      }
      var key := node.key.value;
      assert Free(news, matchedNew, key) == if key in lists then lists[key] else [];
      if key !in lists || lists[key] == [] {
        continue;
      }
      var candidate := lists[key][0];
      TakeFirst(lists, news, matchedNew, key);
      UsedPlus(result, Match(node, candidate));
      hide Free, ListsFree, Kept;
      lists := lists[key := lists[key][1..]];
      result := result + [Match(node, candidate)];
      matchedOld, matchedNew := matchedOld + {node.id}, matchedNew + {candidate.id};
    }
    assert olds[..|olds|] == olds;
  }

  lemma {:induction false} KeptAgrees<K>(matching: seq<Match<K>>)
    ensures OneToOne(Kept(matching)) && KeyEqual(Kept(matching))
    ensures forall m :: m in Kept(matching) ==> m in matching
  {
    if matching != [] {
      var n := |matching| - 1;
      var sofar := Kept(matching[..n]);
      KeptAgrees(matching[..n]);
      hide Froms, Tos, OneToOne, KeyEqual;
      if Kept(matching) != sofar {
        AppendKeeps(sofar, matching[n]);
      }
    }
  }

  /** Of a one-to-one matching exactly the pairs with equal keys survive. */
  lemma {:induction false} KeptOfOneToOne<K>(matching: seq<Match<K>>)
    requires OneToOne(matching)
    ensures forall m :: m in Kept(matching) ==> m in matching && m.from.key == m.to.key
    ensures forall m :: m in matching && m.from.key == m.to.key ==> m in Kept(matching)
  {
    if matching != [] {
      var n := |matching| - 1;
      var rest := matching[..n];
      KeptOfOneToOne(rest);
      assert matching == rest + [matching[n]];
      forall m | m in Kept(rest) ensures m.from.id != matching[n].from.id && m.to.id != matching[n].to.id {
        assert m in rest;
        var i :| 0 <= i < n && rest[i] == m;
        assert matching[i] == m;
      }
    }
  }

  lemma {:induction false} LastIsFree<K>(matching: seq<Match<K>>)
    requires matching != [] && OneToOne(matching)
    ensures var front, last := matching[..|matching| - 1], matching[|matching| - 1];
            last.from.id !in Froms(front) && last.to.id !in Tos(front)
  {}

  lemma {:induction false} KeptUnchanged<K>(matching: seq<Match<K>>)
    requires OneToOne(matching) && KeyEqual(matching)
    ensures Kept(matching) == matching
  {
    if matching != [] {
      var front, last := matching[..|matching| - 1], matching[|matching| - 1];
      assert OneToOne(front) && KeyEqual(front) && last in matching;
      LastIsFree(matching);
      hide OneToOne, KeyEqual, Froms, Tos;
      KeptUnchanged(front);
      assert front + [last] == matching;
    }
  }

  /** Whatever the positional matching: the result is one-to-one, pairs equal keys, leaves no key unmatched on
      both sides, and a second run changes nothing. */
  lemma {:induction false} ResourceMatching<K>(olds: seq<Item<K>>, news: seq<Item<K>>, matching: seq<Match<K>>)
    ensures var result := Greedy(FirstFree, olds, news, Kept(matching));
            && OneToOne(result) && KeyEqual(result) && Maximal(olds, news, result)
            && Kept(matching) <= result
            && Greedy(FirstFree, olds, news, Kept(result)) == result
  {
    KeptAgrees(matching);
    GreedyKeeps(FirstFree, olds, news, Kept(matching));
    GreedyMaximal(FirstFree, olds, news, Kept(matching));
    var result := Greedy(FirstFree, olds, news, Kept(matching));
    KeptUnchanged(result);
    MaximalUnchanged(FirstFree, olds, news, result);
  }

  /** The pairs of one key. */
  function OfKey<K(==)>(pairs: seq<Match<K>>, key: K): seq<Match<K>> {
    if pairs == [] then []
    else
      var last := pairs[|pairs| - 1];
      OfKey(pairs[..|pairs| - 1], key) + (if last.from.key == Some(key) then [last] else [])
  }

  function Zip<K>(a: seq<Item<K>>, b: seq<Item<K>>): seq<Match<K>> {
    var n := if |a| < |b| then |a| else |b|;
    seq(n, i requires 0 <= i < n => Match(a[i], b[i]))
  }

  /** The nodes beyond the first `n`. */
  function Beyond<K>(nodes: seq<Item<K>>, n: nat): seq<Item<K>> {
    if n <= |nodes| then nodes[n..] else []
  }

  lemma {:induction false} OfKeyStep<K>(pairs: seq<Match<K>>, m: Match<K>, key: K)
    ensures OfKey(pairs + [m], key) == OfKey(pairs, key) + (if m.from.key == Some(key) then [m] else [])
  {
    assert (pairs + [m])[..|pairs|] == pairs;
  }

  /** New pairs are appended, and start at old nodes. */
  lemma {:induction false} AddedFromOlds<K>(rule: Rule, olds: seq<Item<K>>, news: seq<Item<K>>, base: seq<Match<K>>)
    ensures base <= Greedy(rule, olds, news, base)
    ensures forall m :: m in Greedy(rule, olds, news, base)[|base|..] ==> m.from in olds
  {
    if olds != [] {
      var n := |olds| - 1;
      var sofar := Greedy(rule, olds[..n], news, base);
      AddedFromOlds(rule, olds[..n], news, base);
      hide Free, Froms, Tos, Chosen;
      var result := Greedy(rule, olds, news, base);
      if result != sofar {
        assert result[|base|..] == sofar[|base|..] + [result[|sofar|]];
      }
      forall m | m in result[|base|..] ensures m.from in olds {
        assert m in sofar[|base|..] || m.from == olds[n];
      }
    }
  }

  /** New resource pairs join, for each key, the first free old node with the first free new node, the second
      with the second, and so on, both sides in tree order. */
  lemma {:induction false} ResourcesPairInOrder<K>(olds: seq<Item<K>>, news: seq<Item<K>>, base: seq<Match<K>>, key: K)
    requires DistinctIds(olds) && DistinctIds(news)
    ensures var result := Greedy(FirstFree, olds, news, base);
            var free := Free(olds, Froms(base), key);
            && base <= result
            && OfKey(result[|base|..], key) == Zip(free, Free(news, Tos(base), key))
            && Free(news, Tos(result), key) == Beyond(Free(news, Tos(base), key), |free|)
  {
    AddedFromOlds(FirstFree, olds, news, base);
    if olds == [] {
      assert Greedy(FirstFree, olds, news, base)[|base|..] == [];
    } else {
      var n := |olds| - 1;
      var sofar := Greedy(FirstFree, olds[..n], news, base);
      ResourcesPairInOrder(olds[..n], news, base, key);
      AddedFromOlds(FirstFree, olds[..n], news, base);
      LastNotAdded(olds, base, sofar);
      FreeLast(olds, Froms(base), key);
      hide DistinctIds, Froms, Tos, Zip, Beyond, OfKey;
      ResourceStep(olds[n], news, base, sofar, Free(olds[..n], Froms(base), key), key);
    }
  }

  lemma {:induction false} ResourcePair<K>(node: Item<K>, news: seq<Item<K>>, base: seq<Match<K>>,
                                           sofar: seq<Match<K>>, before: seq<Item<K>>, key: K)
    requires DistinctIds(news) && base <= sofar
    requires node.key.Some? && node.id !in Froms(sofar) && Free(news, Tos(sofar), node.key.value) != []
    requires node.id in Froms(sofar) <==> node.id in Froms(base)
    requires OfKey(sofar[|base|..], key) == Zip(before, Free(news, Tos(base), key))
    requires Free(news, Tos(sofar), key) == Beyond(Free(news, Tos(base), key), |before|)
    ensures var result := Extended(FirstFree, node, news, sofar);
            var free := before + (if node.key == Some(key) && node.id !in Froms(base) then [node] else []);
            && base <= result
            && OfKey(result[|base|..], key) == Zip(free, Free(news, Tos(base), key))
            && Free(news, Tos(result), key) == Beyond(Free(news, Tos(base), key), |free|)
  {
    var free := Free(news, Tos(sofar), node.key.value);
    var added := Match(node, free[0]);
    assert Extended(FirstFree, node, news, sofar) == sofar + [added];
    assert (sofar + [added])[|base|..] == sofar[|base|..] + [added];
    hide Free, Zip, OfKey, Beyond, Extended, DistinctIds, Froms, Tos;
    OfKeyStep(sofar[|base|..], added, key);
    UsedPlus(sofar, added);
    if node.key == Some(key) {
      FreeAfterFirst(news, Tos(sofar), key);
      ZipStep(before, Free(news, Tos(base), key), node);
    } else {
      FreeOfOtherKey(news, Tos(sofar), node.key.value, key);
      assert before + [] == before;
    }
  }

  lemma {:induction false} ResourceStep<K>(node: Item<K>, news: seq<Item<K>>, base: seq<Match<K>>,
                                           sofar: seq<Match<K>>, before: seq<Item<K>>, key: K)
    requires DistinctIds(news) && base <= sofar
    requires node.id in Froms(sofar) <==> node.id in Froms(base)
    requires OfKey(sofar[|base|..], key) == Zip(before, Free(news, Tos(base), key))
    requires Free(news, Tos(sofar), key) == Beyond(Free(news, Tos(base), key), |before|)
    ensures var result := Extended(FirstFree, node, news, sofar);
            var free := before + (if node.key == Some(key) && node.id !in Froms(base) then [node] else []);
            && base <= result
            && OfKey(result[|base|..], key) == Zip(free, Free(news, Tos(base), key))
            && Free(news, Tos(result), key) == Beyond(Free(news, Tos(base), key), |free|)
  {
    hide Free, Zip, OfKey, Beyond, DistinctIds, Froms, Tos;
    assert before + [] == before;
    if node.key.Some? && node.id !in Froms(sofar) {
      if Free(news, Tos(sofar), node.key.value) != [] {
        ResourcePair(node, news, base, sofar, before, key);
        hide Extended;
      } else if node.key == Some(key) {
        ZipStop(before, Free(news, Tos(base), key), node);
      }
    }
  }

  lemma {:induction false} FreeLast<K>(nodes: seq<Item<K>>, taken: set<string>, key: K)
    requires nodes != []
    ensures var last := nodes[|nodes| - 1];
            Free(nodes, taken, key) ==
            Free(nodes[..|nodes| - 1], taken, key) + (if last.key == Some(key) && last.id !in taken then [last] else [])
  {
  }

  lemma {:induction false} FreeOfOtherKey<K>(nodes: seq<Item<K>>, taken: set<string>, key: K, other: K)
    requires DistinctIds(nodes) && key != other && Free(nodes, taken, key) != []
    ensures Free(nodes, taken + {Free(nodes, taken, key)[0].id}, other) == Free(nodes, taken, other)
  {
    var node := Free(nodes, taken, key)[0];
    FreeAre(nodes, taken, key);
    assert node in Free(nodes, taken, key);
    SameIdSameNode(nodes, node);
    FreeUnchanged(nodes, taken, node.id, other);
  }

  lemma {:induction false} ZipStop<K>(before: seq<Item<K>>, all: seq<Item<K>>, node: Item<K>)
    requires Beyond(all, |before|) == []
    ensures Zip(before + [node], all) == Zip(before, all) && Beyond(all, |before| + 1) == []
    ensures before + [] == before
  {
  }

  lemma {:induction false} ZipStep<K>(before: seq<Item<K>>, all: seq<Item<K>>, node: Item<K>)
    requires Beyond(all, |before|) != []
    ensures Zip(before + [node], all) == Zip(before, all) + [Match(node, Beyond(all, |before|)[0])]
    ensures Beyond(all, |before| + 1) == Beyond(all, |before|)[1..]
  {
  }

  lemma {:induction false} SameIdSameNode<K>(nodes: seq<Item<K>>, node: Item<K>)
    requires DistinctIds(nodes) && node in nodes
    ensures forall x :: x in nodes && x.id == node.id ==> x == node
  {
    var i :| 0 <= i < |nodes| && nodes[i] == node;
    forall x | x in nodes && x.id == node.id ensures x == node {
      var j :| 0 <= j < |nodes| && nodes[j] == x;
    }
  }

  lemma {:induction false} LastNotAdded<K>(olds: seq<Item<K>>, base: seq<Match<K>>, sofar: seq<Match<K>>)
    requires olds != [] && DistinctIds(olds) && base <= sofar
    requires forall m :: m in sofar[|base|..] ==> m.from in olds[..|olds| - 1]
    ensures olds[|olds| - 1].id in Froms(sofar) <==> olds[|olds| - 1].id in Froms(base)
  {
    assert sofar == base + sofar[|base|..];
    forall m | m in sofar[|base|..] ensures m.from.id != olds[|olds| - 1].id {
      var i :| 0 <= i < |olds| - 1 && olds[..|olds| - 1][i] == m.from;
    }
  }

  // ---- Entity anchors ----

  /** Positional matches between entities of the same key. */
  function Anchored<K(==)>(matching: seq<Match<K>>): seq<Match<K>> {
    if matching == [] then []
    else
      var m := matching[|matching| - 1];
      Anchored(matching[..|matching| - 1]) + (if m.from.key.Some? && m.from.key == m.to.key then [m] else [])
  }

  lemma {:induction false} AnchoredAre<K>(matching: seq<Match<K>>)
    requires OneToOne(matching)
    ensures OneToOne(Anchored(matching)) && KeyEqual(Anchored(matching))
    ensures forall m :: m in Anchored(matching) ==> m in matching && m.from.key.Some? && m.from.key == m.to.key
    ensures forall m :: m in matching && m.from.key.Some? && m.from.key == m.to.key ==> m in Anchored(matching)
  {
    if matching != [] {
      var n := |matching| - 1;
      var rest := matching[..n];
      AnchoredAre(rest);
      assert matching == rest + [matching[n]];
      var sofar := Anchored(rest);
      forall m | m in sofar ensures m.from.id != matching[n].from.id && m.to.id != matching[n].to.id {
        assert m in rest;
        var j :| 0 <= j < n && rest[j] == m;
        assert matching[j] == m;
      }
      if matching[n].from.key.Some? && matching[n].from.key == matching[n].to.key {
        AppendKeeps(sofar, matching[n]);
      }
      hide OneToOne, KeyEqual;
    }
  }

  method NearestFree<K(==)>(node: Item<K>, candidates: seq<Item<K>>, used: set<string>,
                              ghost key: K, ghost news: seq<Item<K>>, ghost taken: set<string>)
    returns (best: Option<Item<K>>)
    requires candidates == Free(news, taken, key) && taken <= used
    ensures var free := Free(news, used, key);
            best == if free == [] then None else Some(free[NearestIn(node.line, free)])
  {
    best := None;
    ghost var seen: seq<Item<K>> := [];
    FreeOfFree(news, taken, used, key);
    assert Unused(candidates[..0], used) == [];
    hide Free, NearestIn, Distance, Unused;
    for i := 0 to |candidates|
      invariant seen == Unused(candidates[..i], used)
      invariant best == if seen == [] then None else Some(seen[NearestIn(node.line, seen)])
    {
      UnusedStep(candidates, used, i);
      if candidates[i].id !in used {
        NearestStep(node.line, seen, candidates[i]);
        seen := seen + [candidates[i]];
        if best.None? || Distance(candidates[i].line, node.line) < Distance(best.value.line, node.line) {
          best := Some(candidates[i]);
        }
      }
    }
    assert candidates[..|candidates|] == candidates;
  }

  lemma {:induction false} NearestStep<K>(line: int, seen: seq<Item<K>>, next: Item<K>)
    ensures var all := seen + [next];
            all[NearestIn(line, all)] ==
            if seen == [] || Distance(next.line, line) < Distance(seen[NearestIn(line, seen)].line, line) then next
            else seen[NearestIn(line, seen)]
  {
    assert (seen + [next])[..|seen|] == seen;
  }

  function Unused<K>(nodes: seq<Item<K>>, used: set<string>): seq<Item<K>> {
    if nodes == [] then []
    else Unused(nodes[..|nodes| - 1], used) + (if nodes[|nodes| - 1].id !in used then [nodes[|nodes| - 1]] else [])
  }

  lemma {:induction false} UnusedStep<K>(nodes: seq<Item<K>>, used: set<string>, i: nat)
    requires i < |nodes|
    ensures Unused(nodes[..i + 1], used) == if nodes[i].id !in used then Unused(nodes[..i], used) + [nodes[i]] else Unused(nodes[..i], used)
  {
    assert nodes[..i + 1][..i] == nodes[..i] && Unused(nodes[..i], used) + [] == Unused(nodes[..i], used);
  }

  lemma {:induction false} FreeOfFree<K>(nodes: seq<Item<K>>, taken: set<string>, used: set<string>, key: K)
    requires taken <= used
    ensures Unused(Free(nodes, taken, key), used) == Free(nodes, used, key)
  {
    if nodes != [] {
      var n := |nodes| - 1;
      FreeOfFree(nodes[..n], taken, used, key);
      var rest := Free(nodes[..n], taken, key);
      assert (rest + [nodes[n]])[..|rest|] == rest;
      assert rest + [] == rest;
    }
  }

  method RecoverEntityPairs<K(==,!new)>(olds: seq<Item<K>>, news: seq<Item<K>>, matching: seq<Match<K>>)
    returns (pairs: seq<Match<K>>)
    ensures pairs == Greedy(NearestLine, olds, news, Anchored(matching))
  {
    pairs := [];
    var usedOld: set<string>, usedNew: set<string> := {}, {};
    for i := 0 to |matching|
      invariant pairs == Anchored(matching[..i]) && usedOld == Froms(pairs) && usedNew == Tos(pairs)
    {
      assert matching[..i + 1][..i] == matching[..i];
      var m := matching[i];
      if m.from.key.Some? && m.from.key == m.to.key {
        UsedPlus(pairs, m);
        pairs, usedOld, usedNew := pairs + [m], usedOld + {m.from.id}, usedNew + {m.to.id};
      }
    }
    assert matching[..|matching|] == matching;
    var lists := ListCandidates(news, usedNew);
    ghost var taken := usedNew;
    for i := 0 to |olds|
      invariant pairs == Greedy(NearestLine, olds[..i], news, Anchored(matching))
      invariant usedOld == Froms(pairs) && usedNew == Tos(pairs) && taken <= usedNew
    {
      assert olds[..i + 1][..i] == olds[..i];
      var node := olds[i];
      if node.id in usedOld || node.key.None? {
        continue;
      }
      var key := node.key.value;
      assert Free(news, taken, key) == if key in lists then lists[key] else [];
      var best := NearestFree(node, if key in lists then lists[key] else [], usedNew, key, news, taken);
      if best.Some? {
        UsedPlus(pairs, Match(node, best.value));
        pairs := pairs + [Match(node, best.value)];
        usedOld, usedNew := usedOld + {node.id}, usedNew + {best.value.id};
      }
    }
    assert olds[..|olds|] == olds;
  }

  /** From a one-to-one matching: one-to-one, key-equal, maximal, keeping every same-key positional match. */
  lemma {:induction false} EntityPairs<K>(olds: seq<Item<K>>, news: seq<Item<K>>, matching: seq<Match<K>>)
    requires OneToOne(matching)
    ensures var pairs := Greedy(NearestLine, olds, news, Anchored(matching));
            && OneToOne(pairs) && KeyEqual(pairs) && Maximal(olds, news, pairs)
            && forall m :: m in matching && m.from.key.Some? && m.from.key == m.to.key ==> m in pairs
  {
    AnchoredAre(matching);
    GreedyKeeps(NearestLine, olds, news, Anchored(matching));
    GreedyMaximal(NearestLine, olds, news, Anchored(matching));
    hide Anchored, Greedy;
  }

  /** Every distance that reaches `b` from the line also reaches `a`. */
  predicate NoFarther(line: int, a: int, b: int) {
    if b >= line then line - (b - line) <= a <= b else b <= a <= line + (line - b)
  }

  lemma {:induction false} NearestIsNearest<K>(line: int, free: seq<Item<K>>)
    requires free != []
    ensures var best := NearestIn(line, free);
            && (forall j :: 0 <= j < |free| ==> NoFarther(line, free[best].line, free[j].line))
            && (forall j :: 0 <= j < best ==> !NoFarther(line, free[j].line, free[best].line))
  {
    if |free| > 1 {
      var n := |free| - 1;
      var rest := free[..n];
      NearestIsNearest(line, rest);
      assert forall j :: 0 <= j < n ==> rest[j] == free[j];
    }
  }

  /** Each recovered pair joins an old entity to a free candidate nearer than all others free at that moment. */
  lemma {:induction false} RecoveredAreNearest<K>(olds: seq<Item<K>>, news: seq<Item<K>>, base: seq<Match<K>>, k: nat)
    requires |base| <= k < |Greedy(NearestLine, olds, news, base)|
    ensures var pairs := Greedy(NearestLine, olds, news, base);
            && pairs[k].from in olds && pairs[k].from.key.Some?
            && var free := Free(news, Tos(pairs[..k]), pairs[k].from.key.value);
               && pairs[k].to in free
               && forall n :: n in free ==> NoFarther(pairs[k].from.line, pairs[k].to.line, n.line)
  {
    var n := |olds| - 1;
    var sofar := Greedy(NearestLine, olds[..n], news, base);
    ExtendedKeeps(NearestLine, olds[n], news, sofar);
    if k < |sofar| {
      RecoveredAreNearest(olds[..n], news, base, k);
      assert Greedy(NearestLine, olds, news, base)[..k] == sofar[..k];
    } else {
      assert Greedy(NearestLine, olds, news, base)[..k] == sofar;
      var free := Free(news, Tos(sofar), olds[n].key.value);
      NearestIsNearest(olds[n].line, free);
    }
  }

  /** A pair that the entity anchors propose, and whether its node types allow it. */
  datatype Proposal<+K> = Proposal(pair: Match<K>, allowed: bool)

  /** Proposals are taken in turn; the first to claim a node has it. */
  function Accepted<K(==)>(matching: seq<Match<K>>, proposals: seq<Proposal<K>>): seq<Match<K>> {
    if proposals == [] then matching
    else
      var sofar, last := Accepted(matching, proposals[..|proposals| - 1]), proposals[|proposals| - 1];
      if last.pair.from.id in Froms(sofar) || last.pair.to.id in Tos(sofar) || !last.allowed then sofar else sofar + [last.pair]
  }

  method AddProposals<K(==)>(matching: seq<Match<K>>, proposals: seq<Proposal<K>>) returns (result: seq<Match<K>>)
    ensures result == Accepted(matching, proposals)
  {
    result := matching;
    var matchedOld, matchedNew := Froms(matching), Tos(matching);
    for i := 0 to |proposals|
      invariant result == Accepted(matching, proposals[..i])
      invariant matchedOld == Froms(result) && matchedNew == Tos(result)
    {
      assert proposals[..i + 1][..i] == proposals[..i];
      var pair := proposals[i].pair;
      if pair.from.id in matchedOld || pair.to.id in matchedNew || !proposals[i].allowed { continue; }
      UsedPlus(result, pair);
      result, matchedOld, matchedNew := result + [pair], matchedOld + {pair.from.id}, matchedNew + {pair.to.id};
    }
    assert proposals[..|proposals|] == proposals;
  }

  /** Whatever is proposed, the matching only grows and stays one-to-one; an allowed proposal is left out only when
      one of its nodes is taken. */
  lemma {:induction false} ProposalsKeepOneToOne<K>(matching: seq<Match<K>>, proposals: seq<Proposal<K>>)
    ensures matching <= Accepted(matching, proposals)
    ensures OneToOne(matching) ==> OneToOne(Accepted(matching, proposals))
    ensures forall p :: p in proposals && p.allowed ==>
              p.pair.from.id in Froms(Accepted(matching, proposals)) || p.pair.to.id in Tos(Accepted(matching, proposals))
  {
    if proposals != [] {
      var n := |proposals| - 1;
      var sofar, last := Accepted(matching, proposals[..n]), proposals[n];
      ProposalsKeepOneToOne(matching, proposals[..n]);
      assert proposals == proposals[..n] + [last];
      UsedPlus(sofar, last.pair);
      if last.pair.from.id !in Froms(sofar) && last.pair.to.id !in Tos(sofar) {
        AppendOneToOne(sofar, last.pair);
      }
      hide Froms, Tos, OneToOne;
    }
  }

  lemma {:induction false} AppendOneToOne<K>(sofar: seq<Match<K>>, m: Match<K>)
    requires m.from.id !in Froms(sofar) && m.to.id !in Tos(sofar)
    ensures OneToOne(sofar) ==> OneToOne(sofar + [m])
  {
    forall i | 0 <= i < |sofar| ensures sofar[i].from.id != m.from.id && sofar[i].to.id != m.to.id {
      assert sofar[i] in sofar;
    }
    hide Froms, Tos;
  }
}
