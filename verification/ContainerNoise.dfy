/** Dropping added and deleted wrappers whose content is accounted for elsewhere. */
module ContainerNoise {
  import opened Common
  import opened SemanticTree

  /** A leaf carrying a real token: containers repeat their type as label. */
  predicate IsContentLeaf(n: Node) {
    n.children == [] && n.text != "" && n.text != n.kind
  }

  function ContentLeaves(n: Node): seq<Node>
    decreases n, 0
  {
    if n.children == [] then (if IsContentLeaf(n) then [n] else []) else LeavesOf(n.children)
  }

  function LeavesOf(ns: seq<Node>): seq<Node>
    decreases ns, 1
  {
    if ns == [] then [] else ContentLeaves(ns[0]) + LeavesOf(ns[1..])
  }

  /** A node and everything below it. */
  function Subtree(n: Node): set<Node>
    decreases n, 0
  {
    {n} + SubtreesOf(n.children)
  }

  function SubtreesOf(ns: seq<Node>): set<Node>
    decreases ns, 1
  {
    if ns == [] then {} else Subtree(ns[0]) + SubtreesOf(ns[1..])
  }

  function Ids(nodes: set<Node>): set<string> {
    set n | n in nodes :: n.id
  }

  lemma {:induction false} LeavesAreInSubtree(n: Node, leaf: Node)
    ensures leaf in ContentLeaves(n) <==> leaf in Subtree(n) && IsContentLeaf(leaf)
    decreases n, 0
  {
    LeavesAreInSubtrees(n.children, leaf);
  }

  lemma {:induction false} LeavesAreInSubtrees(ns: seq<Node>, leaf: Node)
    ensures leaf in LeavesOf(ns) <==> leaf in SubtreesOf(ns) && IsContentLeaf(leaf)
    decreases ns, 1
  {
    if ns != [] {
      LeavesAreInSubtree(ns[0], leaf);
      LeavesAreInSubtrees(ns[1..], leaf);
    }
  }

  // ---- Drafts on a side ----

  predicate IsContainerDraft(d: Draft) {
    var node := if d.newNode.Some? then d.newNode else d.oldNode;
    (d.change == Addition || d.change == Deletion) && node.Some? && (node.value.kind == "module" || node.value.kind == "block")
  }

  function SideNode(d: Draft, isNew: bool): Option<Node> {
    if isNew then d.newNode else d.oldNode
  }

  function MatchedIds(matching: seq<MatchPair>, isNew: bool): set<string> {
    set p | p in matching :: if isNew then p.newNode.id else p.oldNode.id
  }

  /** Ids carried by the non-container drafts of one side, other than draft `index`. */
  function CarriedIds(changes: seq<Draft>, isNew: bool, index: nat, n: nat): set<string>
    requires n <= |changes|
  {
    if n == 0 then {}
    else
      CarriedIds(changes, isNew, index, n - 1) +
      (if n - 1 == index || IsContainerDraft(changes[n - 1]) || SideNode(changes[n - 1], isNew).None? then {}
       else Ids(Subtree(SideNode(changes[n - 1], isNew).value)))
  }

  /** The wrapper is the only carrier of some content. */
  predicate SoleCarrier(changes: seq<Draft>, matching: seq<MatchPair>, index: nat, node: Node, isNew: bool)
    requires index < |changes|
  {
    exists leaf :: leaf in LeavesOf(node.children) &&
      leaf.id !in MatchedIds(matching, isNew) && leaf.id !in CarriedIds(changes, isNew, index, |changes|)
  }

  predicate IsDropped(changes: seq<Draft>, matching: seq<MatchPair>, index: nat)
    requires index < |changes|
  {
    var d := changes[index];
    var isNew := d.change == Addition;
    IsContainerDraft(d) &&
    (SideNode(d, isNew).None? || !SoleCarrier(changes, matching, index, SideNode(d, isNew).value, isNew))
  }

  function Survivors(changes: seq<Draft>, matching: seq<MatchPair>, n: nat): seq<Draft>
    requires n <= |changes|
  {
    if n == 0 then []
    else Survivors(changes, matching, n - 1) + (if IsDropped(changes, matching, n - 1) then [] else [changes[n - 1]])
  }

  // ---- The pass ----

  method CollectSubtreeIds(n: Node, out_: set<string>) returns (ids: set<string>)
    ensures ids == out_ + Ids(Subtree(n))
    decreases n
  {
    ids := out_ + {n.id};
    assert n.children[0..] == n.children;
    for i := 0 to |n.children|
      invariant ids + Ids(SubtreesOf(n.children[i..])) == out_ + Ids(Subtree(n))
    {
      assert n.children[i..][1..] == n.children[i + 1..];
      IdsUnion(Subtree(n.children[i]), SubtreesOf(n.children[i + 1..]));
      hide Ids, Subtree;
      ids := CollectSubtreeIds(n.children[i], ids);
    }
    assert n.children[|n.children|..] == [];
  }

  lemma {:induction false} IdsUnion(a: set<Node>, b: set<Node>)
    ensures Ids(a + b) == Ids(a) + Ids(b)
  {}

  method CollectContentLeaves(n: Node, out_: seq<Node>) returns (leaves: seq<Node>)
    ensures leaves == out_ + ContentLeaves(n)
    decreases n
  {
    leaves := out_;
    if n.children == [] {
      if IsContentLeaf(n) { leaves := leaves + [n]; }
      return;
    }
    assert n.children[0..] == n.children;
    for i := 0 to |n.children|
      invariant leaves + LeavesOf(n.children[i..]) == out_ + ContentLeaves(n)
    {
      assert n.children[i..][1..] == n.children[i + 1..];
      Assoc(leaves, ContentLeaves(n.children[i]), LeavesOf(n.children[i + 1..]));
      hide ContentLeaves;
      leaves := CollectContentLeaves(n.children[i], leaves);
    }
    assert n.children[|n.children|..] == [];
  }

  method Carried(changes: seq<Draft>, isNew: bool, index: nat) returns (ids: set<string>)
    ensures ids == CarriedIds(changes, isNew, index, |changes|)
  {
    ids := {};
    for k := 0 to |changes|
      invariant ids == CarriedIds(changes, isNew, index, k)
    {
      if k == index || IsContainerDraft(changes[k]) { continue; }
      var node := SideNode(changes[k], isNew);
      if node.Some? {
        ids := CollectSubtreeIds(node.value, ids);
      }
    }
  }

  method IsSoleCarrier(changes: seq<Draft>, matching: seq<MatchPair>, index: nat, node: Node,
                       isNew: bool) returns (sole: bool)
    requires index < |changes|
    ensures sole <==> SoleCarrier(changes, matching, index, node, isNew)
  {
    var matched := MatchedIds(matching, isNew);
    var covered := Carried(changes, isNew, index);
    var leaves: seq<Node> := [];
    assert node.children[0..] == node.children;
    for i := 0 to |node.children|
      invariant leaves + LeavesOf(node.children[i..]) == LeavesOf(node.children)
    {
      assert node.children[i..][1..] == node.children[i + 1..];
      Assoc(leaves, ContentLeaves(node.children[i]), LeavesOf(node.children[i + 1..]));
      hide ContentLeaves, MatchedIds, CarriedIds;
      leaves := CollectContentLeaves(node.children[i], leaves);
    }
    assert node.children[|node.children|..] == [] && leaves == LeavesOf(node.children);
    hide LeavesOf, MatchedIds, CarriedIds;
    sole := exists leaf :: leaf in leaves && leaf.id !in matched && leaf.id !in covered;
  }

  method SuppressContainerNoise(changes: seq<Draft>, matching: seq<MatchPair>) returns (result: seq<Draft>)
    ensures result == Survivors(changes, matching, |changes|)
  {
    var drop := new bool[|changes|](i => false);
    for index := 0 to |changes|
      invariant forall i :: 0 <= i < index ==> drop[i] == IsDropped(changes, matching, i)
      invariant forall i :: index <= i < |changes| ==> !drop[i]
    {
      if !IsContainerDraft(changes[index]) { continue; }
      var isNew := changes[index].change == Addition;
      var node := SideNode(changes[index], isNew);
      if node.None? {
        drop[index] := true;
        continue;
      }
      var sole := IsSoleCarrier(changes, matching, index, node.value, isNew);
      drop[index] := !sole;
    }
    result := [];
    for index := 0 to |changes|
      invariant result == Survivors(changes, matching, index)
    {
      hide IsDropped;
      if !drop[index] { result := result + [changes[index]]; }
    }
  }

  // ---- What is dropped, and what stays covered ----

  /** Additions have a new node only, deletions an old node only. */
  ghost predicate WellFormed(changes: seq<Draft>) {
    forall k :: 0 <= k < |changes| ==>
      && (changes[k].change == Addition ==> changes[k].newNode.Some? && changes[k].oldNode.None?)
      && (changes[k].change == Deletion ==> changes[k].oldNode.Some? && changes[k].newNode.None?)
  }

  /** Draft `k` carries the node on one side. */
  ghost predicate Carries(changes: seq<Draft>, isNew: bool, k: nat, n: Node) {
    k < |changes| && SideNode(changes[k], isNew).Some? && n in Subtree(SideNode(changes[k], isNew).value)
  }

  /** Within the drafts of one side an id names one node. */
  ghost predicate UniqueIds(changes: seq<Draft>, isNew: bool) {
    forall j, k, m, n :: Carries(changes, isNew, j, m) && Carries(changes, isNew, k, n) && m.id == n.id ==> m == n
  }

  lemma {:induction false} CarriedAre(changes: seq<Draft>, isNew: bool, index: nat, n: nat, id: string)
    requires n <= |changes|
    ensures id in CarriedIds(changes, isNew, index, n) <==>
            exists k: nat, m :: k < n && k != index && !IsContainerDraft(changes[k]) && Carries(changes, isNew, k, m) && m.id == id
  {
    if n > 0 {
      CarriedAre(changes, isNew, index, n - 1, id);
      if !(n - 1 == index || IsContainerDraft(changes[n - 1]) || SideNode(changes[n - 1], isNew).None?) {
        var tree := Subtree(SideNode(changes[n - 1], isNew).value);
        if id in Ids(tree) {
          var m :| m in tree && m.id == id;
          assert Carries(changes, isNew, n - 1, m);
        }
      }
      hide IsContainerDraft, CarriedIds;
    }
  }

  /** A wrapper goes exactly when every content leaf below it is matched or lies in another draft that is no wrapper. */
  lemma {:induction false} DroppedIff(changes: seq<Draft>, matching: seq<MatchPair>, index: nat)
    requires WellFormed(changes) && index < |changes| && IsContainerDraft(changes[index])
    ensures var isNew := changes[index].change == Addition;
            var node := SideNode(changes[index], isNew);
            && node.Some?
            && (IsDropped(changes, matching, index) <==>
                  forall leaf :: leaf in SubtreesOf(node.value.children) && IsContentLeaf(leaf) && leaf.id !in MatchedIds(matching, isNew) ==>
                    exists k: nat, m :: k < |changes| && !IsContainerDraft(changes[k]) && Carries(changes, isNew, k, m) && m.id == leaf.id)
  {
    var isNew := changes[index].change == Addition;
    var node := SideNode(changes[index], isNew).value;
    forall leaf ensures leaf in LeavesOf(node.children) <==> leaf in SubtreesOf(node.children) && IsContentLeaf(leaf) {
      LeavesAreInSubtrees(node.children, leaf);
    }
    forall id ensures id in CarriedIds(changes, isNew, index, |changes|) <==>
        exists k: nat, m :: k < |changes| && !IsContainerDraft(changes[k]) && Carries(changes, isNew, k, m) && m.id == id {
      CarriedAre(changes, isNew, index, |changes|, id);
    }
    hide LeavesOf, SubtreesOf, IsContentLeaf, CarriedIds, MatchedIds, Carries;
  }

  lemma {:induction false} SurvivorsAre(changes: seq<Draft>, matching: seq<MatchPair>, n: nat)
    requires n <= |changes|
    ensures forall k :: 0 <= k < n && !IsDropped(changes, matching, k) ==> changes[k] in Survivors(changes, matching, n)
    ensures forall d :: d in Survivors(changes, matching, n) ==> exists k :: 0 <= k < n && changes[k] == d && !IsDropped(changes, matching, k)
  {
    hide IsDropped;
    if n > 0 { SurvivorsAre(changes, matching, n - 1); }
  }

  /** Some draft of the list carries the node on a side. */
  ghost predicate Covered(drafts: seq<Draft>, isNew: bool, n: Node) {
    exists d :: d in drafts && SideNode(d, isNew).Some? && n in Subtree(SideNode(d, isNew).value)
  }

  /** The wrapper draft of a childless node that is itself content. */
  ghost predicate IsOwnWrapper(d: Draft, isNew: bool, leaf: Node) {
    IsContainerDraft(d) && SideNode(d, isNew) == Some(leaf)
  }

  /** An unmatched content leaf stays covered exactly when something other than a wrapper draft of that very leaf
      covered it. */
  lemma {:induction false} CoverageKept(changes: seq<Draft>, matching: seq<MatchPair>, isNew: bool, leaf: Node)
    requires WellFormed(changes) && UniqueIds(changes, isNew)
    requires IsContentLeaf(leaf) && leaf.id !in MatchedIds(matching, isNew)
    ensures Covered(Survivors(changes, matching, |changes|), isNew, leaf) <==>
            exists d :: d in changes && SideNode(d, isNew).Some? && leaf in Subtree(SideNode(d, isNew).value) && !IsOwnWrapper(d, isNew, leaf)
  {
    var after := Survivors(changes, matching, |changes|);
    SurvivorsAre(changes, matching, |changes|);
    hide Survivors, MatchedIds;
    forall k | 0 <= k < |changes| && Carries(changes, isNew, k, leaf)
      ensures IsOwnWrapper(changes[k], isNew, leaf) ==> IsDropped(changes, matching, k)
      ensures !IsOwnWrapper(changes[k], isNew, leaf) ==> Covered(after, isNew, leaf)
    {
      CarrierOf(changes, matching, isNew, leaf, k, after);
    }
    if Covered(after, isNew, leaf) {
      var d :| d in after && SideNode(d, isNew).Some? && leaf in Subtree(SideNode(d, isNew).value);
      var k :| 0 <= k < |changes| && changes[k] == d && !IsDropped(changes, matching, k);
      assert Carries(changes, isNew, k, leaf);
      assert d in changes;
    }
    forall d | d in changes && SideNode(d, isNew).Some? && leaf in Subtree(SideNode(d, isNew).value) && !IsOwnWrapper(d, isNew, leaf)
      ensures Covered(after, isNew, leaf)
    {
      var k :| 0 <= k < |changes| && changes[k] == d;
      assert Carries(changes, isNew, k, leaf);
    }
  }

  lemma {:induction false} CarrierOf(changes: seq<Draft>, matching: seq<MatchPair>, isNew: bool, leaf: Node, k: nat,
                                     after: seq<Draft>)
    requires WellFormed(changes) && UniqueIds(changes, isNew) && k < |changes|
    requires IsContentLeaf(leaf) && leaf.id !in MatchedIds(matching, isNew) && Carries(changes, isNew, k, leaf)
    requires forall i :: 0 <= i < |changes| && !IsDropped(changes, matching, i) ==> changes[i] in after
    ensures IsOwnWrapper(changes[k], isNew, leaf) ==> IsDropped(changes, matching, k)
    ensures !IsOwnWrapper(changes[k], isNew, leaf) ==> Covered(after, isNew, leaf)
  {
    if IsContainerDraft(changes[k]) {
      DroppedIff(changes, matching, k);
      var node := SideNode(changes[k], isNew).value;
      if node == leaf {
        assert SubtreesOf(leaf.children) == {};
      } else {
        assert leaf in SubtreesOf(node.children);
        if IsDropped(changes, matching, k) {
          var j: nat, m :| j < |changes| && !IsContainerDraft(changes[j]) && Carries(changes, isNew, j, m) && m.id == leaf.id;
          assert m == leaf;
          assert !IsDropped(changes, matching, j) && changes[j] in after;
        } else {
          assert changes[k] in after;
        }
      }
    } else {
      assert !IsDropped(changes, matching, k) && changes[k] in after;
    }
  }

  /** A childless module with a real label loses its only draft. */
  lemma {:induction false} LabelledWrapperIsLost(id: string)
    ensures var leaf := Node(id, "module", "main", []);
            var changes := [Draft(Addition, None, Some(leaf), None, None, 1.0, None)];
            IsContentLeaf(leaf) && Covered(changes, true, leaf) && Survivors(changes, [], 1) == []
  {
    var leaf := Node(id, "module", "main", []);
    var changes := [Draft(Addition, None, Some(leaf), None, None, 1.0, None)];
    assert leaf in Subtree(leaf) && changes[0] in changes;
    assert LeavesOf([]) == [];
    assert IsDropped(changes, [], 0);
    assert Survivors(changes, [], 1) == Survivors(changes, [], 0) + [];
  }

  // ---- The pass in plain terms ----

  /** An added or deleted block or module; an addition shows its new node. */
  ghost predicate Wrapper(d: Draft) {
    (d.change == Addition || d.change == Deletion) && exists n :: Shows(d, n) && n.kind in {"block", "module"}
  }

  ghost predicate Shows(d: Draft, n: Node) {
    d.newNode == Some(n) || (d.newNode == None && d.oldNode == Some(n))
  }

  ghost predicate HasNode(d: Draft, isNew: bool, n: Node) {
    if isNew then d.newNode == Some(n) else d.oldNode == Some(n)
  }

  ghost predicate IsMatched(matching: seq<MatchPair>, isNew: bool, id: string) {
    exists p :: p in matching && (if isNew then p.newNode.id == id else p.oldNode.id == id)
  }

  ghost predicate Holds(n: Node, id: string) {
    n.id == id || exists m :: m in Descendants(n) && m.id == id
  }

  /** A draft other than `index` that is no wrapper has the id on that side. */
  ghost predicate HeldElsewhere(changes: seq<Draft>, isNew: bool, index: nat, id: string) {
    exists k, n :: 0 <= k < |changes| && k != index && !Wrapper(changes[k]) && HasNode(changes[k], isNew, n) && Holds(n, id)
  }

  /** Every content leaf below the node is matched or held by another draft. */
  ghost predicate Redundant(changes: seq<Draft>, matching: seq<MatchPair>, isNew: bool, index: nat, n: Node) {
    forall leaf :: leaf in Descendants(n) && leaf.children == [] && leaf.text != "" && leaf.text != leaf.kind ==>
      IsMatched(matching, isNew, leaf.id) || HeldElsewhere(changes, isNew, index, leaf.id)
  }

  /** The node of the draft on that side, if it has one, is redundant. */
  ghost predicate RedundantOn(changes: seq<Draft>, matching: seq<MatchPair>, isNew: bool, index: nat)
    requires index < |changes|
  {
    forall n :: HasNode(changes[index], isNew, n) ==> Redundant(changes, matching, isNew, index, n)
  }

  ghost predicate IsNoise(changes: seq<Draft>, matching: seq<MatchPair>, index: nat)
    requires index < |changes|
  {
    Wrapper(changes[index]) && RedundantOn(changes, matching, changes[index].change == Addition, index)
  }

  lemma {:induction false} SubtreeIs(ns: seq<Node>, m: Node)
    ensures m in SubtreesOf(ns) <==> m in Forest(ns)
    decreases ns
  {
    if ns != [] {
      SubtreeIs(ns[0].children, m);
      SubtreeIs(ns[1..], m);
      assert Subtree(ns[0]) == {ns[0]} + SubtreesOf(ns[0].children);
    }
  }

  lemma {:induction false} WrapperIs(d: Draft)
    ensures Wrapper(d) <==> IsContainerDraft(d)
  {
    if d.newNode.Some? {
      assert Shows(d, d.newNode.value);
    } else if d.oldNode.Some? {
      assert Shows(d, d.oldNode.value);
    }
  }

  lemma {:induction false} HoldsIs(n: Node, id: string)
    ensures Holds(n, id) <==> id in Ids(Subtree(n))
  {
    forall m ensures m in Subtree(n) <==> m == n || m in Descendants(n) {
      SubtreeIs(n.children, m);
    }
    hide Subtree, Descendants;
  }

  lemma {:induction false} CarriedIs(changes: seq<Draft>, isNew: bool, index: nat, id: string)
    ensures HeldElsewhere(changes, isNew, index, id) <==> id in CarriedIds(changes, isNew, index, |changes|)
  {
    CarriedAre(changes, isNew, index, |changes|, id);
    forall d ensures Wrapper(d) <==> IsContainerDraft(d) { WrapperIs(d); }
    forall n ensures Holds(n, id) <==> exists m :: m in Subtree(n) && m.id == id { HoldsIs(n, id); }
    hide CarriedIds, Wrapper, IsContainerDraft, Holds, Subtree;
    if k, n :| 0 <= k < |changes| && k != index && !Wrapper(changes[k]) && HasNode(changes[k], isNew, n) && Holds(n, id) {
      var m :| m in Subtree(n) && m.id == id;
      assert Carries(changes, isNew, k, m);
    }
    if k: nat, m :| k < |changes| && k != index && !IsContainerDraft(changes[k]) && Carries(changes, isNew, k, m) && m.id == id {
      assert HasNode(changes[k], isNew, SideNode(changes[k], isNew).value);
    }
  }

  lemma {:induction false} MatchedIs(matching: seq<MatchPair>, isNew: bool, id: string)
    ensures IsMatched(matching, isNew, id) <==> id in MatchedIds(matching, isNew)
  {}

  lemma {:induction false} RedundantIs(changes: seq<Draft>, matching: seq<MatchPair>, isNew: bool, index: nat, n: Node)
    requires index < |changes|
    ensures Redundant(changes, matching, isNew, index, n) <==> !SoleCarrier(changes, matching, index, n, isNew)
  {
    forall leaf ensures leaf in LeavesOf(n.children) <==>
        leaf in Descendants(n) && leaf.children == [] && leaf.text != "" && leaf.text != leaf.kind {
      LeavesAreInSubtrees(n.children, leaf);
      SubtreeIs(n.children, leaf);
    }
    forall id ensures IsMatched(matching, isNew, id) <==> id in MatchedIds(matching, isNew) { MatchedIs(matching, isNew, id); }
    forall id ensures HeldElsewhere(changes, isNew, index, id) <==> id in CarriedIds(changes, isNew, index, |changes|) {
      CarriedIs(changes, isNew, index, id);
    }
    hide LeavesOf, Descendants, IsMatched, MatchedIds, HeldElsewhere, CarriedIds;
  }

  lemma {:induction false} NoiseIs(changes: seq<Draft>, matching: seq<MatchPair>, index: nat)
    requires index < |changes|
    ensures IsNoise(changes, matching, index) <==> IsDropped(changes, matching, index)
  {
    var d := changes[index];
    WrapperIs(d);
    var side := SideNode(d, d.change == Addition);
    if side.Some? {
      RedundantIs(changes, matching, d.change == Addition, index, side.value);
      assert HasNode(d, d.change == Addition, side.value);
    }
    hide Wrapper, IsContainerDraft, Redundant, SoleCarrier;
  }

  /** The places of the surviving drafts. */
  function SurvivorsAt(changes: seq<Draft>, matching: seq<MatchPair>, n: nat): (at: seq<nat>)
    requires n <= |changes|
    ensures forall k: nat :: k in at <==> k < n && !IsDropped(changes, matching, k)
    ensures forall k, l :: 0 <= k < l < |at| ==> at[k] < at[l]
    ensures |at| == |Survivors(changes, matching, n)|
    ensures forall k :: 0 <= k < |at| ==> at[k] < n && Survivors(changes, matching, n)[k] == changes[at[k]]
  {
    hide IsDropped;
    if n == 0 then [] else SurvivorsAt(changes, matching, n - 1) + (if IsDropped(changes, matching, n - 1) then [] else [n - 1])
  }

  /** The result is the old list without its noise, in the old order. */
  lemma {:induction false} OnlyNoiseIsDropped(changes: seq<Draft>, matching: seq<MatchPair>) returns (kept: seq<nat>)
    ensures var result := Survivors(changes, matching, |changes|);
            |result| == |kept| && forall k :: 0 <= k < |kept| ==> kept[k] < |changes| && result[k] == changes[kept[k]]
    ensures forall k, l :: 0 <= k < l < |kept| ==> kept[k] < kept[l]
    ensures forall k: nat :: k in kept <==> k < |changes| && !IsNoise(changes, matching, k)
  {
    kept := SurvivorsAt(changes, matching, |changes|);
    forall k: nat | k < |changes| ensures IsNoise(changes, matching, k) <==> IsDropped(changes, matching, k) {
      NoiseIs(changes, matching, k);
    }
    hide IsNoise, IsDropped, Survivors;
  }
}
