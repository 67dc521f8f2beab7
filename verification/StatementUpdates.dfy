/** One deleted and one added statement under a matched pair of parents are one edited statement. */
module StatementUpdates {
  import opened Common
  import opened SemanticTree

  // ---- Pairing by keys that occur exactly once ----

  /** The positions of a key, ascending. */
  function Occurrences<K(==,!new)>(keys: seq<Option<K>>, key: K): (at: seq<nat>)
    ensures forall i :: 0 <= i < |at| ==> at[i] < |keys| && keys[at[i]] == Some(key)
  {
    if keys == [] then []
    else Occurrences(keys[..|keys| - 1], key) + (if keys[|keys| - 1] == Some(key) then [|keys| - 1] else [])
  }

  /** Position `at` holds the only occurrence of `key`. */
  ghost predicate OnlyAt<K(!new)>(keys: seq<Option<K>>, key: K, at: nat) {
    at < |keys| && keys[at] == Some(key) && forall i :: 0 <= i < |keys| && keys[i] == Some(key) ==> i == at
  }

  lemma {:induction false} OccurrencesComplete<K(!new)>(keys: seq<Option<K>>, key: K)
    ensures forall i :: 0 <= i < |keys| && keys[i] == Some(key) ==> i in Occurrences(keys, key)
    ensures forall j, k :: 0 <= j < k < |Occurrences(keys, key)| ==> Occurrences(keys, key)[j] < Occurrences(keys, key)[k]
  {
    if keys != [] {
      var n := |keys| - 1;
      OccurrencesComplete(keys[..n], key);
      forall i | 0 <= i < |keys| && keys[i] == Some(key) ensures i in Occurrences(keys, key) {
        if i < n { assert keys[..n][i] == Some(key); }
      }
    }
  }

  lemma {:induction false} SingleOccurrence<K(!new)>(keys: seq<Option<K>>, key: K)
    ensures |Occurrences(keys, key)| == 1 ==> OnlyAt(keys, key, Occurrences(keys, key)[0])
    ensures forall at: nat :: OnlyAt(keys, key, at) ==> Occurrences(keys, key) == [at]
  {
    OccurrencesComplete(keys, key);
    var found := Occurrences(keys, key);
    forall at: nat | OnlyAt(keys, key, at) ensures found == [at] {
      assert at in found;
      assert forall k :: 0 <= k < |found| ==> found[k] == at;
      assert found[0] == at && found[|found| - 1] == at;
    }
  }

  /** The map from each key to its positions. */
  ghost predicate IsIndex<K(!new)>(keys: seq<Option<K>>, index: map<K, seq<nat>>) {
    forall key :: if key in index then index[key] == Occurrences(keys, key) != [] else Occurrences(keys, key) == []
  }

  method BuildIndex<K(==,!new)>(keys: seq<Option<K>>) returns (index: map<K, seq<nat>>)
    ensures IsIndex(keys, index)
  {
    index := map[];
    for n := 0 to |keys|
      invariant IsIndex(keys[..n], index)
    {
      assert keys[..n + 1][..n] == keys[..n];
      if keys[n].Some? {
        var key := keys[n].value;
        index := index[key := (if key in index then index[key] else []) + [n]];
      }
    }
    assert keys[..|keys|] == keys;
  }

  /** A deletion and an addition that answer each other: both keys occur once, and one leads to the other. */
  ghost predicate Answers<K(!new)>(deleted: seq<Option<K>>, added: seq<Option<K>>, partner: K -> Option<K>, d: nat, a: nat) {
    exists key, other :: OnlyAt(deleted, key, d) && partner(key) == Some(other) && OnlyAt(added, other, a)
  }

  ghost predicate DistinctPairs(pairs: seq<(nat, nat)>) {
    forall i, j :: 0 <= i < j < |pairs| ==> pairs[i].0 != pairs[j].0
  }

  /** The pairs found by one pass: each answers, is not in `skip`, and is acceptable; none is missed. */
  ghost predicate ArePairs<K(!new)>(deleted: seq<Option<K>>, added: seq<Option<K>>, partner: K -> Option<K>,
                                  skip: set<nat>, accept: (nat, nat) -> bool, pairs: seq<(nat, nat)>) {
    && DistinctPairs(pairs)
    && forall d: nat, a: nat :: (d, a) in pairs <==>
         Answers(deleted, added, partner, d, a) && d !in skip && a !in skip && accept(d, a)
  }

  lemma {:induction false} AnswerOf<K(!new)>(deleted: seq<Option<K>>, added: seq<Option<K>>, partner: K -> Option<K>,
                                             key: K, d: nat, a: nat)
    requires d < |deleted| && deleted[d] == Some(key)
    ensures Answers(deleted, added, partner, d, a) <==>
            Occurrences(deleted, key) == [d] && partner(key).Some? && Occurrences(added, partner(key).value) == [a]
  {
    SingleOccurrence(deleted, key);
    if partner(key).Some? { SingleOccurrence(added, partner(key).value); }
  }

  /** The body of one pass for one key: the pair it contributes, if any. */
  method PairForKey<K(==,!new)>(deleted: seq<Option<K>>, added: seq<Option<K>>, deletions: map<K, seq<nat>>,
                                additions: map<K, seq<nat>>,
                                partner: K -> Option<K>, skip: set<nat>, accept: (nat, nat) -> bool, key: K)
    returns (pair: Option<(nat, nat)>)
    requires IsIndex(deleted, deletions) && IsIndex(added, additions) && key in deletions
    ensures forall d: nat, a: nat :: pair == Some((d, a)) <==>
              d < |deleted| && deleted[d] == Some(key) &&
              Answers(deleted, added, partner, d, a) && d !in skip && a !in skip && accept(d, a)
  {
    forall d: nat, a: nat | d < |deleted| && deleted[d] == Some(key)
      ensures Answers(deleted, added, partner, d, a) <==>
              Occurrences(deleted, key) == [d] && partner(key).Some? && Occurrences(added, partner(key).value) == [a]
    {
      AnswerOf(deleted, added, partner, key, d, a);
    }
    hide Answers;
    var ds := deletions[key];
    if |ds| != 1 || ds[0] in skip || partner(key).None? || partner(key).value !in additions {
      return None;
    }
    var as_ := additions[partner(key).value];
    if |as_| != 1 || as_[0] in skip || !accept(ds[0], as_[0]) {
      return None;
    }
    assert ds == [ds[0]] && as_ == [as_[0]];
    return Some((ds[0], as_[0]));
  }

  method PairPass<K(==,!new)>(deleted: seq<Option<K>>, added: seq<Option<K>>, partner: K -> Option<K>,
                              skip: set<nat>, accept: (nat, nat) -> bool) returns (pairs: seq<(nat, nat)>)
    ensures ArePairs(deleted, added, partner, skip, accept, pairs)
  {
    var deletions := BuildIndex(deleted);
    var additions := BuildIndex(added);
    pairs := [];
    var todo := deletions.Keys;
    while todo != {}
      invariant todo <= deletions.Keys
      invariant DistinctPairs(pairs)
      invariant forall d: nat, a: nat :: (d, a) in pairs <==>
                  d < |deleted| && deleted[d].Some? && deleted[d].value in deletions && deleted[d].value !in todo &&
                  Answers(deleted, added, partner, d, a) && d !in skip && a !in skip && accept(d, a)
      decreases |todo|
    {
      var key :| key in todo;
      var pair := PairForKey(deleted, added, deletions, additions, partner, skip, accept, key);
      hide Answers;
      if pair.Some? {
        var d, a := pair.value.0, pair.value.1;
        assert pair == Some((d, a));
        forall i | 0 <= i < |pairs| ensures pairs[i].0 != d {
          assert (pairs[i].0, pairs[i].1) in pairs;
        }
        pairs := pairs + [pair.value];
      }
      todo := todo - {key};
    }
    forall d: nat, a: nat | Answers(deleted, added, partner, d, a) ensures d < |deleted| && deleted[d].Some? && deleted[d].value in deletions {
      var key :| OnlyAt(deleted, key, d);
      SingleOccurrence(deleted, key);
      assert Occurrences(deleted, key) == [d];
    }
  }

  // ---- Candidates of the two passes ----

  type Key = (string, string)

  function DeletedNode(d: Draft): Option<Node> {
    if d.change == Deletion then d.oldNode else None
  }

  function AddedNode(d: Draft): Option<Node> {
    if d.change == Addition then d.newNode else None
  }

  /** Names are left to the rename machinery by the first pass. */
  predicate RenameOwned(kind: string) {
    kind == "identifier" || kind == "name"
  }

  /** First pass: parent and node type. */
  function TypedKey(named: string -> bool, n: Option<Node>): Option<Key> {
    if n.None? || named(n.value.kind) || RenameOwned(n.value.kind) then None
    else
      match ParentId(n.value.id)
      case Some(parent) => Some((parent, n.value.kind))
      case None => None
  }

  /** Second pass: the parent alone. */
  function ParentKey(named: string -> bool, n: Option<Node>): Option<string> {
    if n.None? || named(n.value.kind) then None else ParentId(n.value.id)
  }

  function MapDrafts<T>(changes: seq<Draft>, f: Draft -> T): (r: seq<T>)
    ensures |r| == |changes| && forall i :: 0 <= i < |changes| ==> r[i] == f(changes[i])
  {
    seq(|changes|, i requires 0 <= i < |changes| => f(changes[i]))
  }

  /** Old parent id to new parent id; a later pair overwrites an earlier one. */
  function MatchedParents(matching: seq<MatchPair>): map<string, string> {
    if matching == [] then map[]
    else
      var last := matching[|matching| - 1];
      MatchedParents(matching[..|matching| - 1])[last.oldNode.id := last.newNode.id]
  }

  function TypedPartner(parents: map<string, string>): Key -> Option<Key> {
    (key: Key) => if key.0 in parents then Some((parents[key.0], key.1)) else None
  }

  function ParentPartner(parents: map<string, string>): string -> Option<string> {
    (key: string) => if key in parents then Some(parents[key]) else None
  }

  function Used(pairs: seq<(nat, nat)>): set<nat> {
    if pairs == [] then {} else Used(pairs[..|pairs| - 1]) + {pairs[|pairs| - 1].0, pairs[|pairs| - 1].1}
  }

  function TypesDiffer(changes: seq<Draft>): (nat, nat) -> bool {
    (d: nat, a: nat) => d < |changes| && a < |changes| && changes[d].oldNode.Some? && changes[a].newNode.Some? &&
                        changes[d].oldNode.value.kind != changes[a].newNode.value.kind
  }

  /** Same statement type under matched parents, each the only candidate of its type there. */
  ghost predicate FirstPass(named: string -> bool, changes: seq<Draft>, parents: map<string, string>,
                            pairs: seq<(nat, nat)>) {
    ArePairs(MapDrafts(changes, (d: Draft) => TypedKey(named, DeletedNode(d))),
             MapDrafts(changes, (d: Draft) => TypedKey(named, AddedNode(d))),
             TypedPartner(parents), {}, (d: nat, a: nat) => true, pairs)
  }

  /** Different types under matched parents, each the only candidate there, not used by the first pass. */
  ghost predicate SecondPass(named: string -> bool, changes: seq<Draft>, parents: map<string, string>,
                             first: seq<(nat, nat)>, pairs: seq<(nat, nat)>) {
    ArePairs(MapDrafts(changes, (d: Draft) => ParentKey(named, DeletedNode(d))),
             MapDrafts(changes, (d: Draft) => ParentKey(named, AddedNode(d))),
             ParentPartner(parents), Used(first), TypesDiffer(changes), pairs)
  }

  // ---- Rewriting ----

  function Retained(changes: seq<Draft>, remove: set<nat>, n: nat): seq<Draft>
    requires n <= |changes|
  {
    if n == 0 then []
    else Retained(changes, remove, n - 1) + (if n - 1 in remove then [] else [changes[n - 1]])
  }

  function Update(old_: Option<Node>, new_: Option<Node>): Draft {
    Draft(Modification, old_, new_, None, None, 0.9, None)
  }

  ghost predicate InRange(changes: seq<Draft>, pairs: seq<(nat, nat)>) {
    forall k :: 0 <= k < |pairs| ==>
      && pairs[k].0 < |changes| && pairs[k].1 < |changes|
      && DeletedNode(changes[pairs[k].0]).Some? && AddedNode(changes[pairs[k].1]).Some?
  }

  function Updates(changes: seq<Draft>, pairs: seq<(nat, nat)>): (r: seq<Draft>)
    requires InRange(changes, pairs)
    ensures |r| == |pairs|
  {
    if pairs == [] then []
    else
      var last := pairs[|pairs| - 1];
      Updates(changes, pairs[..|pairs| - 1]) + [Update(changes[last.0].oldNode, changes[last.1].newNode)]
  }

  lemma {:induction false} PairsInRange<K(!new)>(changes: seq<Draft>, deleted: seq<Option<K>>, added: seq<Option<K>>,
                                                 partner: K -> Option<K>,
                                                 skip: set<nat>, accept: (nat, nat) -> bool, pairs: seq<(nat, nat)>)
    requires ArePairs(deleted, added, partner, skip, accept, pairs)
    requires |deleted| == |added| == |changes|
    requires forall i :: 0 <= i < |changes| && deleted[i].Some? ==> DeletedNode(changes[i]).Some?
    requires forall i :: 0 <= i < |changes| && added[i].Some? ==> AddedNode(changes[i]).Some?
    ensures InRange(changes, pairs)
  {
    forall k | 0 <= k < |pairs|
      ensures && pairs[k].0 < |changes| && pairs[k].1 < |changes|
              && DeletedNode(changes[pairs[k].0]).Some? && AddedNode(changes[pairs[k].1]).Some?
    {
      var d, a := pairs[k].0, pairs[k].1;
      assert (d, a) in pairs;
      assert Answers(deleted, added, partner, d, a);
    }
  }

  /** The result of promoting the pairs of both passes: what is left, then the updates. */
  ghost predicate IsPromotion(named: string -> bool, changes: seq<Draft>, matching: seq<MatchPair>,
                              first: seq<(nat, nat)>, second: seq<(nat, nat)>, result: seq<Draft>) {
    && FirstPass(named, changes, MatchedParents(matching), first)
    && SecondPass(named, changes, MatchedParents(matching), first, second)
    && InRange(changes, first + second)
    && result == Retained(changes, Used(first + second), |changes|) + Updates(changes, first + second)
  }

  method PromoteStatementUpdates(named: string -> bool, changes: seq<Draft>,
                                 matching: seq<MatchPair>) returns (result: seq<Draft>)
    ensures exists first, second :: IsPromotion(named, changes, matching, first, second, result)
  {
    var parents := MatchedParents(matching);
    var deleted := MapDrafts(changes, (d: Draft) => TypedKey(named, DeletedNode(d)));
    var added := MapDrafts(changes, (d: Draft) => TypedKey(named, AddedNode(d)));
    var typed := PairPass(deleted, added, TypedPartner(parents), {}, (d: nat, a: nat) => true);
    PairsInRange(changes, deleted, added, TypedPartner(parents), {}, (d: nat, a: nat) => true, typed);
    var deletedAny := MapDrafts(changes, (d: Draft) => ParentKey(named, DeletedNode(d)));
    var addedAny := MapDrafts(changes, (d: Draft) => ParentKey(named, AddedNode(d)));
    var any := PairPass(deletedAny, addedAny, ParentPartner(parents), Used(typed), TypesDiffer(changes));
    PairsInRange(changes, deletedAny, addedAny, ParentPartner(parents), Used(typed), TypesDiffer(changes), any);
    assert FirstPass(named, changes, parents, typed) && SecondPass(named, changes, parents, typed, any);
    hide FirstPass, SecondPass, ArePairs, TypedKey, ParentKey, DeletedNode, AddedNode, MatchedParents;
    var pairs := typed + any;
    var kept := RetainDrafts(changes, Used(pairs));
    var updates := CollectUpdates(changes, pairs);
    result := kept + updates;
    assert IsPromotion(named, changes, matching, typed, any, result);
  }

  method RetainDrafts(changes: seq<Draft>, remove: set<nat>) returns (result: seq<Draft>)
    ensures result == Retained(changes, remove, |changes|)
  {
    result := [];
    for n := 0 to |changes|
      invariant result == Retained(changes, remove, n)
    {
      if n !in remove {
        result := result + [changes[n]];
      }
    }
  }

  method CollectUpdates(changes: seq<Draft>, pairs: seq<(nat, nat)>) returns (updates: seq<Draft>)
    requires InRange(changes, pairs)
    ensures updates == Updates(changes, pairs)
  {
    updates := [];
    for k := 0 to |pairs|
      invariant InRange(changes, pairs[..k])
      invariant updates == Updates(changes, pairs[..k])
    {
      assert pairs[..k + 1][..k] == pairs[..k];
      updates := updates + [Update(changes[pairs[k].0].oldNode, changes[pairs[k].1].newNode)];
    }
    assert pairs[..|pairs|] == pairs;
  }

  // ---- Each candidate is used once ----

  ghost predicate OneToOne(matching: seq<MatchPair>) {
    forall i, j :: 0 <= i < j < |matching| ==>
      matching[i].oldNode.id != matching[j].oldNode.id && matching[i].newNode.id != matching[j].newNode.id
  }

  ghost predicate Injective<K(!new)>(partner: K -> Option<K>) {
    forall x, y :: partner(x).Some? && partner(x) == partner(y) ==> x == y
  }

  /** The map sends the old id of each pair to its new id, and holds nothing else. */
  ghost predicate AreParents(matching: seq<MatchPair>, parents: map<string, string>) {
    && (forall k :: 0 <= k < |matching| ==> matching[k].oldNode.id in parents)
    && (forall k :: 0 <= k < |matching| ==> parents[matching[k].oldNode.id] == matching[k].newNode.id)
    && forall id :: id in parents ==> HasOldId(matching, id)
  }

  ghost predicate HasOldId(matching: seq<MatchPair>, id: string) {
    exists k :: 0 <= k < |matching| && matching[k].oldNode.id == id
  }

  lemma {:induction false} MatchedParentsAre(matching: seq<MatchPair>)
    requires OneToOne(matching)
    ensures AreParents(matching, MatchedParents(matching))
  {
    if matching != [] {
      var n := |matching| - 1;
      MatchedParentsAre(matching[..n]);
      OneMoreParent(matching, MatchedParents(matching[..n]));
    }
  }

  lemma {:induction false} OneMoreParent(matching: seq<MatchPair>, parents: map<string, string>)
    requires matching != [] && OneToOne(matching) && AreParents(matching[..|matching| - 1], parents)
    ensures var last := matching[|matching| - 1]; AreParents(matching, parents[last.oldNode.id := last.newNode.id])
  {
    var n := |matching| - 1;
    var rest := matching[..n];
    assert forall k :: 0 <= k < n ==> rest[k] == matching[k];
    forall id | HasOldId(rest, id) || id == matching[n].oldNode.id ensures HasOldId(matching, id) {
      if id != matching[n].oldNode.id {
        var k :| 0 <= k < n && rest[k].oldNode.id == id;
        assert matching[k].oldNode.id == id;
      }
    }
    hide HasOldId;
  }

  lemma {:induction false} PartnersInjective(matching: seq<MatchPair>)
    requires OneToOne(matching)
    ensures Injective(TypedPartner(MatchedParents(matching)))
    ensures Injective(ParentPartner(MatchedParents(matching)))
  {
    var parents := MatchedParents(matching);
    MatchedParentsAre(matching);
    hide MatchedParents;
    forall x, y | x in parents && y in parents && parents[x] == parents[y] ensures x == y {
      var i :| 0 <= i < |matching| && matching[i].oldNode.id == x;
      var j :| 0 <= j < |matching| && matching[j].oldNode.id == y;
      assert i == j;
    }
  }

  /** No candidate appears twice, on either side, nor on both sides. */
  ghost predicate UsedOnce(pairs: seq<(nat, nat)>) {
    && (forall i, j :: 0 <= i < j < |pairs| ==> pairs[i].0 != pairs[j].0 && pairs[i].1 != pairs[j].1)
    && (forall i, j :: 0 <= i < |pairs| && 0 <= j < |pairs| ==> pairs[i].0 != pairs[j].1)
  }

  lemma {:induction false} AnsweredOnce<K(!new)>(deleted: seq<Option<K>>, added: seq<Option<K>>,
                                                 partner: K -> Option<K>, d: nat, d': nat, a: nat)
    requires Injective(partner) && Answers(deleted, added, partner, d, a) && Answers(deleted, added, partner, d', a)
    ensures d == d'
  {
    var key, other :| OnlyAt(deleted, key, d) && partner(key) == Some(other) && OnlyAt(added, other, a);
    var key', other' :| OnlyAt(deleted, key', d') && partner(key') == Some(other') && OnlyAt(added, other', a);
    assert key == key';
  }

  lemma {:induction false} PassUsesOnce<K(!new)>(deleted: seq<Option<K>>, added: seq<Option<K>>, partner: K -> Option<K>,
                                                 skip: set<nat>, accept: (nat, nat) -> bool, pairs: seq<(nat, nat)>)
    requires Injective(partner) && ArePairs(deleted, added, partner, skip, accept, pairs)
    ensures forall i, j :: 0 <= i < j < |pairs| ==> pairs[i].0 != pairs[j].0 && pairs[i].1 != pairs[j].1
    ensures forall i :: 0 <= i < |pairs| ==> pairs[i].0 !in skip && pairs[i].1 !in skip
  {
    forall i | 0 <= i < |pairs|
      ensures pairs[i].0 !in skip && pairs[i].1 !in skip && Answers(deleted, added, partner, pairs[i].0, pairs[i].1)
    {
      assert (pairs[i].0, pairs[i].1) in pairs;
    }
    forall i, j | 0 <= i < j < |pairs| ensures pairs[i].1 != pairs[j].1 {
      if pairs[i].1 == pairs[j].1 {
        AnsweredOnce(deleted, added, partner, pairs[i].0, pairs[j].0, pairs[i].1);
      }
    }
  }

  lemma {:induction false} UsedIs(pairs: seq<(nat, nat)>)
    ensures forall i :: 0 <= i < |pairs| ==> pairs[i].0 in Used(pairs) && pairs[i].1 in Used(pairs)
  {
    if pairs != [] {
      var n := |pairs| - 1;
      UsedIs(pairs[..n]);
      assert forall i :: 0 <= i < n ==> pairs[..n][i] == pairs[i];
    }
  }

  /** Across both passes, each deletion and each addition takes part in at most one promotion. */
  lemma {:induction false} BothPassesUseOnce(named: string -> bool, changes: seq<Draft>, matching: seq<MatchPair>,
                                             first: seq<(nat, nat)>, second: seq<(nat, nat)>)
    requires OneToOne(matching)
    requires FirstPass(named, changes, MatchedParents(matching), first)
    requires SecondPass(named, changes, MatchedParents(matching), first, second)
    requires InRange(changes, first + second)
    ensures UsedOnce(first + second)
  {
    var parents := MatchedParents(matching);
    PartnersInjective(matching);
    hide MatchedParents;
    PassUsesOnce(MapDrafts(changes, (d: Draft) => TypedKey(named, DeletedNode(d))),
                 MapDrafts(changes, (d: Draft) => TypedKey(named, AddedNode(d))),
                 TypedPartner(parents), {}, (d: nat, a: nat) => true, first);
    PassUsesOnce(MapDrafts(changes, (d: Draft) => ParentKey(named, DeletedNode(d))),
                 MapDrafts(changes, (d: Draft) => ParentKey(named, AddedNode(d))),
                 ParentPartner(parents), Used(first), TypesDiffer(changes), second);
    UsedIs(first);
    hide ArePairs, TypedPartner, ParentPartner, TypesDiffer, Used;
    var pairs := first + second;
    forall i, j | 0 <= i < j < |pairs| ensures pairs[i].0 != pairs[j].0 && pairs[i].1 != pairs[j].1 {
      if i < |first| <= j {
        assert pairs[i] == first[i] && pairs[j] == second[j - |first|];
      } else if j < |first| {
        assert pairs[i] == first[i] && pairs[j] == first[j];
      } else {
        assert pairs[i] == second[i - |first|] && pairs[j] == second[j - |first|];
      }
    }
  }

  // ---- Nothing is lost: endpoints are conserved ----

  /** The sum of a measure over a list of drafts. */
  function Total(changes: seq<Draft>, measure: Draft -> int): int {
    if changes == [] then 0 else Total(changes[..|changes| - 1], measure) + measure(changes[|changes| - 1])
  }

  /** The same over the drafts below `n` whose number is in `at`. */
  function TotalAt(changes: seq<Draft>, at: set<nat>, n: nat, measure: Draft -> int): int
    requires n <= |changes|
  {
    if n == 0 then 0
    else TotalAt(changes, at, n - 1, measure) + (if n - 1 in at then measure(changes[n - 1]) else 0)
  }

  /** How often `node` is the old (or new) endpoint of a draft. */
  function Carries(node: Node, old_: bool): Draft -> int {
    (d: Draft) => if (if old_ then d.oldNode else d.newNode) == Some(node) then 1 else 0
  }

  /** The drafts of a list that have `node` as their old (or new) endpoint. */
  function EndpointCount(changes: seq<Draft>, node: Node, old_: bool): int {
    Total(changes, Carries(node, old_))
  }

  function Each(n: int): Draft -> int {
    (d: Draft) => n
  }

  lemma {:induction false} TotalStep(changes: seq<Draft>, d: Draft, measure: Draft -> int)
    ensures Total(changes + [d], measure) == Total(changes, measure) + measure(d)
  {
    assert (changes + [d])[..|changes|] == changes;
  }

  lemma {:induction false} TotalAppend(a: seq<Draft>, b: seq<Draft>, measure: Draft -> int)
    ensures Total(a + b, measure) == Total(a, measure) + Total(b, measure)
  {
    if b == [] {
      assert a + b == a;
    } else {
      assert (a + b)[..|a + b| - 1] == a + b[..|b| - 1];
      TotalAppend(a, b[..|b| - 1], measure);
    }
  }

  lemma {:induction false} TotalEach(changes: seq<Draft>)
    ensures Total(changes, Each(1)) == |changes| && Total(changes, Each(2)) == 2 * |changes|
  {
    if changes != [] { TotalEach(changes[..|changes| - 1]); }
  }

  lemma {:induction false} RetainedTotal(changes: seq<Draft>, remove: set<nat>, n: nat, measure: Draft -> int)
    requires n <= |changes|
    ensures Total(Retained(changes, remove, n), measure) + TotalAt(changes, remove, n, measure) == Total(changes[..n], measure)
  {
    if n > 0 {
      RetainedTotal(changes, remove, n - 1, measure);
      var kept, last := Retained(changes, remove, n - 1), changes[n - 1];
      TotalStep(kept, last, measure);
      TotalStep(changes[..n - 1], last, measure);
      assert changes[..n] == changes[..n - 1] + [last];
      assert kept + [] == kept;
    }
  }

  lemma {:induction false} TotalAtPlus(changes: seq<Draft>, at: set<nat>, i: nat, n: nat, measure: Draft -> int)
    requires n <= |changes| && i !in at
    ensures TotalAt(changes, at + {i}, n, measure) == TotalAt(changes, at, n, measure) + (if i < n then measure(changes[i]) else 0)
  {
    if n > 0 { TotalAtPlus(changes, at, i, n - 1, measure); }
  }

  lemma {:induction false} TotalAtNone(changes: seq<Draft>, n: nat, measure: Draft -> int)
    requires n <= |changes|
    ensures TotalAt(changes, {}, n, measure) == 0
  {
    if n > 0 { TotalAtNone(changes, n - 1, measure); }
  }

  /** Deletions carry an old node only, additions a new node only. */
  ghost predicate WellFormedDrafts(changes: seq<Draft>) {
    forall k :: 0 <= k < |changes| ==>
      && (changes[k].change == Deletion ==> changes[k].oldNode.Some? && changes[k].newNode.None?)
      && (changes[k].change == Addition ==> changes[k].newNode.Some? && changes[k].oldNode.None?)
  }

  lemma {:induction false} UsedMembers(pairs: seq<(nat, nat)>, i: nat)
    requires i in Used(pairs)
    ensures exists k :: 0 <= k < |pairs| && (pairs[k].0 == i || pairs[k].1 == i)
  {
    var n := |pairs| - 1;
    if i != pairs[n].0 && i != pairs[n].1 {
      UsedMembers(pairs[..n], i);
      var k :| 0 <= k < n && (pairs[..n][k].0 == i || pairs[..n][k].1 == i);
      assert pairs[k] == pairs[..n][k];
    }
  }

  /** The updates measure as much as the drafts they replace, when each does. */
  lemma {:induction false} UpdatesCarry(changes: seq<Draft>, pairs: seq<(nat, nat)>, measure: Draft -> int,
                                        after: Draft -> int)
    requires InRange(changes, pairs) && UsedOnce(pairs)
    requires forall k :: 0 <= k < |pairs| ==>
               after(Update(changes[pairs[k].0].oldNode, changes[pairs[k].1].newNode)) ==
               measure(changes[pairs[k].0]) + measure(changes[pairs[k].1])
    ensures Total(Updates(changes, pairs), after) == TotalAt(changes, Used(pairs), |changes|, measure)
  {
    if pairs == [] {
      TotalAtNone(changes, |changes|, measure);
    } else {
      var n := |pairs| - 1;
      var rest, d, a := pairs[..n], pairs[n].0, pairs[n].1;
      assert forall k :: 0 <= k < n ==> rest[k] == pairs[k];
      hide Total, TotalAt;
      UpdatesCarry(changes, rest, measure, after);
      FreshUse(pairs);
      TotalAtPlus(changes, Used(rest), d, |changes|, measure);
      TotalAtPlus(changes, Used(rest) + {d}, a, |changes|, measure);
      assert Used(pairs) == Used(rest) + {d} + {a};
      TotalStep(Updates(changes, rest), Update(changes[d].oldNode, changes[a].newNode), after);
      hide Total, TotalAt, Used;
    }
  }

  lemma {:induction false} FreshUse(pairs: seq<(nat, nat)>)
    requires pairs != [] && UsedOnce(pairs)
    ensures var n := |pairs| - 1;
            pairs[n].0 !in Used(pairs[..n]) && pairs[n].1 !in Used(pairs[..n]) + {pairs[n].0}
  {
    var n := |pairs| - 1;
    if pairs[n].0 in Used(pairs[..n]) { UsedMembers(pairs[..n], pairs[n].0); }
    if pairs[n].1 in Used(pairs[..n]) { UsedMembers(pairs[..n], pairs[n].1); }
  }

  lemma {:induction false} ConservedMeasure(changes: seq<Draft>, pairs: seq<(nat, nat)>, measure: Draft -> int,
                                            after: Draft -> int)
    requires InRange(changes, pairs) && UsedOnce(pairs)
    requires forall k :: 0 <= k < |pairs| ==>
               after(Update(changes[pairs[k].0].oldNode, changes[pairs[k].1].newNode)) ==
               measure(changes[pairs[k].0]) + measure(changes[pairs[k].1])
    ensures Total(Retained(changes, Used(pairs), |changes|), measure) + Total(Updates(changes, pairs), after) == Total(changes, measure)
  {
    assert changes[..|changes|] == changes;
    UpdatesCarry(changes, pairs, measure, after);
    RetainedTotal(changes, Used(pairs), |changes|, measure);
  }

  /** The pass neither loses nor invents an endpoint, and shortens the list by one per promotion. */
  lemma {:induction false} PromotionConserves(named: string -> bool, changes: seq<Draft>, matching: seq<MatchPair>,
                                              first: seq<(nat, nat)>, second: seq<(nat, nat)>, result: seq<Draft>)
    requires OneToOne(matching) && WellFormedDrafts(changes)
    requires IsPromotion(named, changes, matching, first, second, result)
    ensures forall node, old_ :: EndpointCount(result, node, old_) == EndpointCount(changes, node, old_)
    ensures |changes| == |result| + |first + second|
  {
    hide FirstPass, SecondPass, MatchedParents, Total, Used, Retained, Updates, OneToOne, WellFormedDrafts, InRange;
    BothPassesUseOnce(named, changes, matching, first, second);
    hide UsedOnce;
    forall node, old_ ensures EndpointCount(result, node, old_) == EndpointCount(changes, node, old_) {
      EndpointConserved(changes, first + second, node, old_);
    }
    LengthShrinks(changes, first + second);
  }

  lemma {:induction false} EndpointConserved(changes: seq<Draft>, pairs: seq<(nat, nat)>, node: Node, old_: bool)
    requires WellFormedDrafts(changes) && InRange(changes, pairs) && UsedOnce(pairs)
    ensures EndpointCount(Retained(changes, Used(pairs), |changes|) + Updates(changes, pairs), node, old_) ==
            EndpointCount(changes, node, old_)
  {
    hide Total, Used, Retained, Updates;
    var measure := Carries(node, old_);
    forall k | 0 <= k < |pairs|
      ensures measure(Update(changes[pairs[k].0].oldNode, changes[pairs[k].1].newNode)) ==
              measure(changes[pairs[k].0]) + measure(changes[pairs[k].1])
    {
      assert DeletedNode(changes[pairs[k].0]).Some? && AddedNode(changes[pairs[k].1]).Some?;
    }
    ConservedMeasure(changes, pairs, measure, measure);
    TotalAppend(Retained(changes, Used(pairs), |changes|), Updates(changes, pairs), measure);
  }

  lemma {:induction false} LengthShrinks(changes: seq<Draft>, pairs: seq<(nat, nat)>)
    requires InRange(changes, pairs) && UsedOnce(pairs)
    ensures |changes| == |Retained(changes, Used(pairs), |changes|) + Updates(changes, pairs)| + |pairs|
  {
    hide Total, Used, Retained, Updates, InRange, UsedOnce;
    ConservedMeasure(changes, pairs, Each(1), Each(2));
    TotalEach(changes);
    TotalEach(Retained(changes, Used(pairs), |changes|));
    TotalEach(Updates(changes, pairs));
  }

  lemma {:induction false} AnsweringKeys<K(!new)>(deleted: seq<Option<K>>, added: seq<Option<K>>, partner: K -> Option<K>,
                                                  skip: set<nat>, accept: (nat, nat) -> bool, pairs: seq<(nat, nat)>, k: nat) returns (key: K)
    requires ArePairs(deleted, added, partner, skip, accept, pairs) && k < |pairs|
    ensures pairs[k].0 < |deleted| && pairs[k].1 < |added| && accept(pairs[k].0, pairs[k].1)
    ensures deleted[pairs[k].0] == Some(key) && partner(key).Some? && added[pairs[k].1] == partner(key)
  {
    var d, a := pairs[k].0, pairs[k].1;
    assert (d, a) in pairs;
    var from, other :| OnlyAt(deleted, from, d) && partner(from) == Some(other) && OnlyAt(added, other, a);
    key := from;
  }

  /** What a promotion joins: two statements, neither a named entity, right below the nodes of one matched pair. */
  ghost predicate UnderMatchedParents(named: string -> bool, matching: seq<MatchPair>, old_: Node, new_: Node) {
    && !named(old_.kind) && !named(new_.kind)
    && exists m :: 0 <= m < |matching| && ParentId(old_.id) == Some(matching[m].oldNode.id) &&
                   ParentId(new_.id) == Some(matching[m].newNode.id)
  }

  lemma {:induction false} PairUnder(named: string -> bool, matching: seq<MatchPair>, old_: Node, new_: Node, parent: string)
    requires OneToOne(matching) && !named(old_.kind) && !named(new_.kind)
    requires parent in MatchedParents(matching)
    requires ParentId(old_.id) == Some(parent) && ParentId(new_.id) == Some(MatchedParents(matching)[parent])
    ensures UnderMatchedParents(named, matching, old_, new_)
  {
    MatchedParentsAre(matching);
    hide MatchedParents, ParentId;
    var m :| 0 <= m < |matching| && matching[m].oldNode.id == parent;
  }

  /** A first-pass promotion joins statements of one type, below matched parents. */
  lemma {:induction false} FirstPromotions(named: string -> bool, changes: seq<Draft>, matching: seq<MatchPair>,
                                           first: seq<(nat, nat)>, k: nat)
    requires OneToOne(matching) && FirstPass(named, changes, MatchedParents(matching), first)
    requires InRange(changes, first) && k < |first|
    ensures var old_, new_ := changes[first[k].0].oldNode.value, changes[first[k].1].newNode.value;
            old_.kind == new_.kind && UnderMatchedParents(named, matching, old_, new_)
  {
    hide MatchedParents, ParentId;
    var key := AnsweringKeys(MapDrafts(changes, (d: Draft) => TypedKey(named, DeletedNode(d))),
                             MapDrafts(changes, (d: Draft) => TypedKey(named, AddedNode(d))),
                             TypedPartner(MatchedParents(matching)), {}, (d: nat, a: nat) => true, first, k);
    PairUnder(named, matching, changes[first[k].0].oldNode.value, changes[first[k].1].newNode.value, key.0);
  }

  /** A second-pass promotion joins statements of different types, below matched parents. */
  lemma {:induction false} SecondPromotions(named: string -> bool, changes: seq<Draft>, matching: seq<MatchPair>,
                                            first: seq<(nat, nat)>, second: seq<(nat, nat)>, k: nat)
    requires OneToOne(matching) && SecondPass(named, changes, MatchedParents(matching), first, second)
    requires InRange(changes, second) && k < |second|
    ensures var old_, new_ := changes[second[k].0].oldNode.value, changes[second[k].1].newNode.value;
            old_.kind != new_.kind && UnderMatchedParents(named, matching, old_, new_)
  {
    hide MatchedParents, ParentId;
    var key := AnsweringKeys(MapDrafts(changes, (d: Draft) => ParentKey(named, DeletedNode(d))),
                             MapDrafts(changes, (d: Draft) => ParentKey(named, AddedNode(d))),
                             ParentPartner(MatchedParents(matching)), Used(first), TypesDiffer(changes), second, k);
    PairUnder(named, matching, changes[second[k].0].oldNode.value, changes[second[k].1].newNode.value, key);
  }

  // ---- Which drafts are paired, in plain terms ----

  /** Draft `i` deletes (or adds) an unnamed node right below `parent`. */
  ghost predicate DeletesBelow(named: string -> bool, changes: seq<Draft>, i: nat, parent: string) {
    i < |changes| && changes[i].change == Deletion && changes[i].oldNode.Some? &&
    !named(changes[i].oldNode.value.kind) && ParentId(changes[i].oldNode.value.id) == Some(parent)
  }

  ghost predicate AddsBelow(named: string -> bool, changes: seq<Draft>, i: nat, parent: string) {
    i < |changes| && changes[i].change == Addition && changes[i].newNode.Some? &&
    !named(changes[i].newNode.value.kind) && ParentId(changes[i].newNode.value.id) == Some(parent)
  }

  /** The only deletion and the only addition of one node type below a matched pair of parents; identifiers and names
      are not paired here. */
  ghost predicate LoneOfType(named: string -> bool, changes: seq<Draft>, d: nat, a: nat, m: MatchPair) {
    && DeletesBelow(named, changes, d, m.oldNode.id) && AddsBelow(named, changes, a, m.newNode.id)
    && var kind := changes[d].oldNode.value.kind;
    && changes[a].newNode.value.kind == kind && kind != "identifier" && kind != "name"
    && (forall i: nat :: DeletesBelow(named, changes, i, m.oldNode.id) && changes[i].oldNode.value.kind == kind ==> i == d)
    && (forall i: nat :: AddsBelow(named, changes, i, m.newNode.id) && changes[i].newNode.value.kind == kind ==> i == a)
  }

  /** The only deletion and the only addition below a matched pair of parents, of different node types. */
  ghost predicate LoneBelow(named: string -> bool, changes: seq<Draft>, d: nat, a: nat, m: MatchPair) {
    && DeletesBelow(named, changes, d, m.oldNode.id) && AddsBelow(named, changes, a, m.newNode.id)
    && changes[d].oldNode.value.kind != changes[a].newNode.value.kind
    && (forall i: nat :: DeletesBelow(named, changes, i, m.oldNode.id) ==> i == d)
    && (forall i: nat :: AddsBelow(named, changes, i, m.newNode.id) ==> i == a)
  }

  lemma {:induction false} ParentsMean(matching: seq<MatchPair>, old_: string, new_: string)
    requires OneToOne(matching)
    ensures old_ in MatchedParents(matching) && MatchedParents(matching)[old_] == new_ <==>
            exists m :: m in matching && m.oldNode.id == old_ && m.newNode.id == new_
  {
    MatchedParentsAre(matching);
    hide MatchedParents;
    if old_ in MatchedParents(matching) {
      var k :| 0 <= k < |matching| && matching[k].oldNode.id == old_;
      assert matching[k] in matching;
    }
    forall m | m in matching && m.oldNode.id == old_ ensures MatchedParents(matching)[old_] == m.newNode.id {
      var k :| 0 <= k < |matching| && matching[k] == m;
    }
  }

  lemma {:induction false} TypedKeysMean(named: string -> bool, changes: seq<Draft>, i: nat, parent: string, kind: string)
    requires i < |changes|
    ensures TypedKey(named, DeletedNode(changes[i])) == Some((parent, kind)) <==>
            DeletesBelow(named, changes, i, parent) && changes[i].oldNode.value.kind == kind && kind != "identifier" && kind != "name"
    ensures TypedKey(named, AddedNode(changes[i])) == Some((parent, kind)) <==>
            AddsBelow(named, changes, i, parent) && changes[i].newNode.value.kind == kind && kind != "identifier" && kind != "name"
    ensures ParentKey(named, DeletedNode(changes[i])) == Some(parent) <==> DeletesBelow(named, changes, i, parent)
    ensures ParentKey(named, AddedNode(changes[i])) == Some(parent) <==> AddsBelow(named, changes, i, parent)
  {
    hide ParentId;
  }

  lemma {:induction false} OnlyDeletion(named: string -> bool, changes: seq<Draft>, d: nat, parent: string, kind: string)
    ensures OnlyAt(MapDrafts(changes, (x: Draft) => TypedKey(named, DeletedNode(x))), (parent, kind), d) <==>
              && DeletesBelow(named, changes, d, parent) && changes[d].oldNode.value.kind == kind
              && kind != "identifier" && kind != "name"
              && forall i: nat :: DeletesBelow(named, changes, i, parent) && changes[i].oldNode.value.kind == kind ==> i == d
    ensures OnlyAt(MapDrafts(changes, (x: Draft) => TypedKey(named, AddedNode(x))), (parent, kind), d) <==>
              && AddsBelow(named, changes, d, parent) && changes[d].newNode.value.kind == kind
              && kind != "identifier" && kind != "name"
              && forall i: nat :: AddsBelow(named, changes, i, parent) && changes[i].newNode.value.kind == kind ==> i == d
  {
    forall i: nat | i < |changes| ensures TypedKey(named, DeletedNode(changes[i])) == Some((parent, kind)) <==>
        DeletesBelow(named, changes, i, parent) && changes[i].oldNode.value.kind == kind && kind != "identifier" && kind != "name"
    {
      TypedKeysMean(named, changes, i, parent, kind);
    }
    forall i: nat | i < |changes| ensures TypedKey(named, AddedNode(changes[i])) == Some((parent, kind)) <==>
        AddsBelow(named, changes, i, parent) && changes[i].newNode.value.kind == kind && kind != "identifier" && kind != "name"
    {
      TypedKeysMean(named, changes, i, parent, kind);
    }
    hide TypedKey, ParentId, DeletedNode, AddedNode;
  }

  lemma {:induction false} OnlyBelow(named: string -> bool, changes: seq<Draft>, d: nat, parent: string)
    ensures OnlyAt(MapDrafts(changes, (x: Draft) => ParentKey(named, DeletedNode(x))), parent, d) <==>
            DeletesBelow(named, changes, d, parent) && forall i: nat :: DeletesBelow(named, changes, i, parent) ==> i == d
    ensures OnlyAt(MapDrafts(changes, (x: Draft) => ParentKey(named, AddedNode(x))), parent, d) <==>
            AddsBelow(named, changes, d, parent) && forall i: nat :: AddsBelow(named, changes, i, parent) ==> i == d
  {
    forall i: nat | i < |changes|
      ensures ParentKey(named, DeletedNode(changes[i])) == Some(parent) <==> DeletesBelow(named, changes, i, parent)
      ensures ParentKey(named, AddedNode(changes[i])) == Some(parent) <==> AddsBelow(named, changes, i, parent)
    {
      TypedKeysMean(named, changes, i, parent, "");
    }
    hide ParentKey, ParentId, DeletedNode, AddedNode;
  }

  /** The first pass pairs exactly the lone statements of one type below a matched pair of parents. */
  lemma {:induction false} FirstPassPairs(named: string -> bool, changes: seq<Draft>, matching: seq<MatchPair>,
                                          first: seq<(nat, nat)>, d: nat, a: nat)
    requires OneToOne(matching) && FirstPass(named, changes, MatchedParents(matching), first)
    ensures (d, a) in first <==> exists m :: m in matching && LoneOfType(named, changes, d, a, m)
  {
    var parents := MatchedParents(matching);
    var deleted := MapDrafts(changes, (x: Draft) => TypedKey(named, DeletedNode(x)));
    var added := MapDrafts(changes, (x: Draft) => TypedKey(named, AddedNode(x)));
    assert (d, a) in first <==> Answers(deleted, added, TypedPartner(parents), d, a);
    if Answers(deleted, added, TypedPartner(parents), d, a) {
      var key, other :| OnlyAt(deleted, key, d) && TypedPartner(parents)(key) == Some(other) && OnlyAt(added, other, a);
      ParentsMean(matching, key.0, other.0);
      hide MatchedParents;
      var m :| m in matching && m.oldNode.id == key.0 && m.newNode.id == other.0;
      OnlyDeletion(named, changes, d, key.0, key.1);
      OnlyDeletion(named, changes, a, other.0, other.1);
      assert LoneOfType(named, changes, d, a, m);
    }
    if m :| m in matching && LoneOfType(named, changes, d, a, m) {
      var kind := changes[d].oldNode.value.kind;
      ParentsMean(matching, m.oldNode.id, m.newNode.id);
      hide MatchedParents;
      OnlyDeletion(named, changes, d, m.oldNode.id, kind);
      OnlyDeletion(named, changes, a, m.newNode.id, kind);
      assert TypedPartner(parents)((m.oldNode.id, kind)) == Some((m.newNode.id, kind));
    }
  }

  /** The second pass pairs exactly the lone statements of different types that the first pass did not use. */
  lemma {:induction false} SecondPassPairs(named: string -> bool, changes: seq<Draft>, matching: seq<MatchPair>,
                                           first: seq<(nat, nat)>, second: seq<(nat, nat)>, d: nat, a: nat)
    requires OneToOne(matching) && SecondPass(named, changes, MatchedParents(matching), first, second)
    ensures (d, a) in second <==>
              && (exists m :: m in matching && LoneBelow(named, changes, d, a, m))
              && forall p :: p in first ==> p.0 != d && p.1 != d && p.0 != a && p.1 != a
  {
    var parents := MatchedParents(matching);
    var deleted := MapDrafts(changes, (x: Draft) => ParentKey(named, DeletedNode(x)));
    var added := MapDrafts(changes, (x: Draft) => ParentKey(named, AddedNode(x)));
    UsedMeans(first, d);
    UsedMeans(first, a);
    hide Used;
    assert (d, a) in second <==>
      Answers(deleted, added, ParentPartner(parents), d, a) && d !in Used(first) && a !in Used(first) && TypesDiffer(changes)(d, a);
    if (d, a) in second {
      var key, other :| OnlyAt(deleted, key, d) && ParentPartner(parents)(key) == Some(other) && OnlyAt(added, other, a);
      ParentsMean(matching, key, other);
      hide MatchedParents;
      var m :| m in matching && m.oldNode.id == key && m.newNode.id == other;
      OnlyBelow(named, changes, d, key);
      OnlyBelow(named, changes, a, other);
      assert LoneBelow(named, changes, d, a, m);
    }
    if m :| m in matching && LoneBelow(named, changes, d, a, m) {
      ParentsMean(matching, m.oldNode.id, m.newNode.id);
      hide MatchedParents;
      OnlyBelow(named, changes, d, m.oldNode.id);
      OnlyBelow(named, changes, a, m.newNode.id);
      assert ParentPartner(parents)(m.oldNode.id) == Some(m.newNode.id);
      assert Answers(deleted, added, ParentPartner(parents), d, a);
    }
  }

  lemma {:induction false} UsedMeans(pairs: seq<(nat, nat)>, i: nat)
    ensures i in Used(pairs) <==> exists p :: p in pairs && (p.0 == i || p.1 == i)
  {
    UsedIs(pairs);
    if i in Used(pairs) {
      UsedMembers(pairs, i);
      var k :| 0 <= k < |pairs| && (pairs[k].0 == i || pairs[k].1 == i);
      assert pairs[k] in pairs;
    }
  }

  /** Behind the drafts that are left stands one modification per pair, from the deleted node to the added one. */
  lemma {:induction false} UpdatesAre(changes: seq<Draft>, pairs: seq<(nat, nat)>, k: nat)
    requires InRange(changes, pairs) && k < |pairs|
    ensures var u := Updates(changes, pairs)[k];
            && u.change == Modification && u.confidence == 0.9 && u.refactoringKind == None && u.oldIndex == None && u.newIndex == None
            && u.oldNode == changes[pairs[k].0].oldNode && u.newNode == changes[pairs[k].1].newNode
  {
    var n := |pairs| - 1;
    if k < n {
      assert pairs[..n][k] == pairs[k];
      UpdatesAre(changes, pairs[..n], k);
    }
  }
}
