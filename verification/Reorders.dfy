/** Reordered siblings: which of them really moved, and which were only shifted by an insertion. */
module Reorders {
  import opened Common
  import opened SemanticTree

  // ---- Longest increasing subsequence ----

  ghost predicate IncreasingAt(s: seq<nat>, at: set<nat>) {
    && (forall i :: i in at ==> i < |s|)
    && (forall i, j :: i in at && j in at && i < j ==> s[i] < s[j])
  }

  ghost predicate IsLongestIncreasing(s: seq<nat>, at: set<nat>) {
    IncreasingAt(s, at) && forall other :: IncreasingAt(s, other) ==> |other| <= |at|
  }

  /** Each entry extends the best shorter one: `prev` is -1 where a subsequence starts. */
  ghost predicate Linked(s: seq<nat>, lengths: seq<nat>, prev: seq<int>, n: nat) {
    && n <= |s| == |lengths| == |prev|
    && forall i :: 0 <= i < n ==> LinkedAt(s, lengths, prev, i, i)
  }

  /** Entry `i` has been compared with everything before `k`. */
  ghost predicate LinkedAt(s: seq<nat>, lengths: seq<nat>, prev: seq<int>, i: nat, k: nat)
    requires k <= i < |s| == |lengths| == |prev|
  {
    && (if prev[i] == -1 then lengths[i] == 1
        else 0 <= prev[i] < i && s[prev[i]] < s[i] && lengths[i] == lengths[prev[i]] + 1)
    && forall j :: 0 <= j < k && s[j] < s[i] ==> lengths[j] + 1 <= lengths[i]
  }

  ghost function Largest(at: set<nat>): (m: nat)
    requires at != {}
    ensures m in at && forall i :: i in at ==> i <= m
  {
    var x :| x in at;
    if at == {x} then x
    else
      var y := Largest(at - {x});
      assert forall i :: i in at ==> i == x || i in at - {x};
      if x > y then x else y
  }

  /** No increasing subsequence ending at `i` is longer than `lengths[i]`. */
  lemma {:induction false} LengthsBound(s: seq<nat>, lengths: seq<nat>, prev: seq<int>, at: set<nat>)
    requires Linked(s, lengths, prev, |s|) && IncreasingAt(s, at) && at != {}
    ensures |at| <= lengths[Largest(at)]
    decreases |at|
  {
    var i := Largest(at);
    var rest := at - {i};
    assert LinkedAt(s, lengths, prev, i, i);
    if rest != {} {
      LengthsBound(s, lengths, prev, rest);
      var j := Largest(rest);
      assert j in at && j < i;
    }
  }

  method LongestIncreasingPositions(s: seq<nat>) returns (positions: set<nat>)
    ensures IsLongestIncreasing(s, positions)
  {
    var n := |s|;
    if n == 0 {
      assert forall other :: IncreasingAt(s, other) ==> other == {};
      return {};
    }
    var lengths := new nat[n](_ => 1);
    var prev := new int[n](_ => -1);
    var best := 0;
    for i := 0 to n
      invariant best < n && (if i == 0 then best == 0 else best < i)
      invariant Linked(s, lengths[..], prev[..], i)
      invariant forall j :: i <= j < n ==> lengths[j] == 1 && prev[j] == -1
      invariant forall j :: 0 <= j < i ==> lengths[j] <= lengths[best]
    {
      FillEntry(s, lengths, prev, i);
      if lengths[i] > lengths[best] {
        best := i;
      }
    }
    var cursor: int := best;
    positions := {};
    while cursor != -1
      invariant -1 <= cursor < n
      invariant IncreasingAt(s, positions)
      invariant forall i :: i in positions ==> cursor < i
      invariant cursor == -1 ==> |positions| == lengths[best]
      invariant cursor >= 0 ==>
                  |positions| + lengths[cursor] == lengths[best] && forall i :: i in positions ==> s[cursor] < s[i]
      decreases cursor
    {
      assert LinkedAt(s, lengths[..], prev[..], cursor, cursor);
      positions := positions + {cursor};
      cursor := prev[cursor];
    }
    forall other | IncreasingAt(s, other) ensures |other| <= |positions| {
      if other != {} {
        LengthsBound(s, lengths[..], prev[..], other);
      }
    }
  }

  /** The inner loop: the best predecessor of entry `i`. */
  method FillEntry(s: seq<nat>, lengths: array<nat>, prev: array<int>, i: nat)
    requires i < |s| == lengths.Length == prev.Length
    requires Linked(s, lengths[..], prev[..], i) && lengths[i] == 1 && prev[i] == -1
    modifies lengths, prev
    ensures Linked(s, lengths[..], prev[..], i + 1)
    ensures forall j :: 0 <= j < |s| && j != i ==> lengths[j] == old(lengths[j]) && prev[j] == old(prev[j])
  {
    for j := 0 to i
      invariant forall k :: 0 <= k < |s| && k != i ==> lengths[k] == old(lengths[k]) && prev[k] == old(prev[k])
      invariant LinkedAt(s, lengths[..], prev[..], i, j)
    {
      if s[j] < s[i] && lengths[j] + 1 > lengths[i] {
        lengths[i] := lengths[j] + 1;
        prev[i] := j;
      }
    }
    forall k | 0 <= k < i ensures LinkedAt(s, lengths[..], prev[..], k, k) {
      assert LinkedAt(s, old(lengths[..]), old(prev[..]), k, k);
    }
  }

  // ---- Which drafts are reorders of one and the same entity ----

  /** `named` recognises entity node types; `callable` those whose lower-case name mentions a
      function, a method or a class. */
  datatype Vocabulary = Vocabulary(named: string -> bool, callable: string -> bool)

  function RenamePairs(changes: seq<Draft>): set<(string, string)> {
    set d | d in changes && d.refactoringKind == Some("RENAME_SYMBOL") && d.oldNode.Some? && d.newNode.Some?
      :: (d.oldNode.value.id, d.newNode.value.id)
  }

  predicate SameIdentity(pairs: set<(string, string)>, a: Node, b: Node) {
    a.kind == b.kind && (a.text == b.text || (a.id, b.id) in pairs)
  }

  predicate InsideRename(pairs: set<(string, string)>, a: Node, b: Node) {
    exists p :: p in pairs && p.0 + "." <= a.id && p.1 + "." <= b.id
  }

  predicate ReorderEntity(v: Vocabulary, n: Node) {
    v.named(n.kind) || n.kind in {"jsx_component", "section", "markdown_section"} ||
    (n.kind in {"export_statement", "export_default_declaration"} &&
     exists k :: 0 <= k < |n.children| && (v.named(n.children[k].kind) || v.callable(n.children[k].kind)))
  }

  /** A reorder whose two nodes are one entity. */
  predicate SameIdentityReorder(pairs: set<(string, string)>, d: Draft) {
    d.change == Reorder && d.oldNode.Some? && d.newNode.Some? && SameIdentity(pairs, d.oldNode.value, d.newNode.value)
  }

  /** The reorders that take part in the comparison of sibling orders. */
  predicate Eligible(v: Vocabulary, pairs: set<(string, string)>, d: Draft) {
    && SameIdentityReorder(pairs, d) && d.oldIndex.Some? && d.newIndex.Some?
    && (ReorderEntity(v, d.oldNode.value) || d.oldNode.value.kind == "decorator" ||
        InsideRename(pairs, d.oldNode.value, d.newNode.value))
  }

  /** The parent's id; the empty string for a root. */
  function ParentOf(id: string): string {
    match ParentId(id)
    case Some(parent) => parent
    case None => ""
  }

  // ---- Sibling groups ----

  datatype Member = Member(idx: nat, oldIndex: nat, newIndex: nat)

  /** The eligible reorders below one parent among the first `n` drafts, in draft order. */
  function Group(v: Vocabulary, changes: seq<Draft>, n: nat, parent: string): seq<Member>
    requires n <= |changes|
  {
    if n == 0 then []
    else
      Group(v, changes, n - 1, parent) +
      (if IsMember(v, changes, n - 1, parent) then [MemberOf(v, changes, n - 1)] else [])
  }

  predicate IsMember(v: Vocabulary, changes: seq<Draft>, i: nat, parent: string)
    requires i < |changes|
  {
    Eligible(v, RenamePairs(changes), changes[i]) && ParentKey(v, changes, i) == parent
  }

  function ParentKey(v: Vocabulary, changes: seq<Draft>, i: nat): string
    requires i < |changes| && Eligible(v, RenamePairs(changes), changes[i])
  {
    ParentOf(changes[i].oldNode.value.id)
  }

  function MemberOf(v: Vocabulary, changes: seq<Draft>, i: nat): (m: Member)
    requires i < |changes| && Eligible(v, RenamePairs(changes), changes[i])
  {
    Member(i, changes[i].oldIndex.value, changes[i].newIndex.value)
  }

  /** A group lists, once each and in draft order, exactly the eligible reorders below its parent. */
  lemma {:induction false} GroupIs(v: Vocabulary, changes: seq<Draft>, n: nat, parent: string)
    requires n <= |changes|
    ensures forall k :: 0 <= k < |Group(v, changes, n, parent)| ==>
              Group(v, changes, n, parent)[k].idx < n && IsMember(v, changes, Group(v, changes, n, parent)[k].idx, parent)
    ensures InDraftOrder(Group(v, changes, n, parent))
    ensures forall i: nat :: i < n && IsMember(v, changes, i, parent) ==> MemberOf(v, changes, i) in Group(v, changes, n, parent)
  {
    if n > 0 {
      GroupIs(v, changes, n - 1, parent);
      hide IsMember;
    }
  }

  predicate InDraftOrder(ms: seq<Member>) {
    forall j, k :: 0 <= j < k < |ms| ==> ms[j].idx < ms[k].idx
  }

  /** Old sibling order; ties keep draft order. */
  predicate Precedes(a: Member, b: Member) {
    a.oldIndex < b.oldIndex || (a.oldIndex == b.oldIndex && a.idx < b.idx)
  }

  function InsertMember(m: Member, ms: seq<Member>): (r: seq<Member>)
    ensures multiset(r) == multiset(ms) + multiset{m}
  {
    if ms == [] || m.oldIndex <= ms[0].oldIndex then [m] + ms
    else
      assert ms == [ms[0]] + ms[1..];
      [ms[0]] + InsertMember(m, ms[1..])
  }

  /** Stable sort by old index. */
  function SortMembers(ms: seq<Member>): (r: seq<Member>)
    ensures multiset(r) == multiset(ms)
  {
    if ms == [] then []
    else
      assert ms == [ms[0]] + ms[1..];
      InsertMember(ms[0], SortMembers(ms[1..]))
  }

  ghost predicate DistinctIdx(r: seq<Member>) {
    forall j, k :: 0 <= j < |r| && 0 <= k < |r| && j != k ==> r[j].idx != r[k].idx
  }

  ghost predicate InOldOrder(ms: seq<Member>) {
    forall j, k :: 0 <= j < k < |ms| ==> Precedes(ms[j], ms[k])
  }

  lemma {:induction false} FirstBefore(first: Member, rest: seq<Member>)
    requires InOldOrder(rest) && DistinctIdx(rest)
    requires forall x :: x in rest ==> Precedes(first, x) && first.idx != x.idx
    ensures InOldOrder([first] + rest) && DistinctIdx([first] + rest)
  {
    hide Precedes;
    assert forall k :: 0 <= k < |rest| ==> rest[k] in rest;
  }

  lemma {:induction false} InsertedAre(m: Member, ms: seq<Member>)
    ensures forall x :: x in InsertMember(m, ms) <==> x == m || x in ms
  {
    hide InsertMember;
    var r := InsertMember(m, ms);
    assert forall x :: x in r <==> x in multiset(r);
    assert forall x :: x in ms <==> x in multiset(ms);
  }

  lemma {:induction false} InsertKeepsOrder(m: Member, ms: seq<Member>)
    requires InOldOrder(ms) && DistinctIdx(ms) && forall x :: x in ms ==> m.idx < x.idx
    ensures InOldOrder(InsertMember(m, ms)) && DistinctIdx(InsertMember(m, ms))
  {
    if ms == [] || m.oldIndex <= ms[0].oldIndex {
      forall x | x in ms ensures Precedes(m, x) && m.idx != x.idx {
        var k :| 0 <= k < |ms| && ms[k] == x;
        assert k > 0 ==> Precedes(ms[0], x);
      }
      hide InOldOrder, DistinctIdx, Precedes;
      FirstBefore(m, ms);
    } else {
      var rest := ms[1..];
      assert InOldOrder(rest) && DistinctIdx(rest);
      forall x | x in rest ensures Precedes(ms[0], x) && ms[0].idx != x.idx {
        var k :| 0 <= k < |rest| && rest[k] == x;
        assert ms[k + 1] == x;
      }
      assert Precedes(ms[0], m) && ms[0] in ms;
      assert InsertMember(m, ms) == [ms[0]] + InsertMember(m, rest);
      hide InOldOrder, DistinctIdx, Precedes, InsertMember;
      InsertKeepsOrder(m, rest);
      InsertedAre(m, rest);
      FirstBefore(ms[0], InsertMember(m, rest));
    }
  }

  lemma {:induction false} SortGivesOldOrder(ms: seq<Member>)
    requires InDraftOrder(ms)
    ensures InOldOrder(SortMembers(ms)) && DistinctIdx(SortMembers(ms))
  {
    if ms != [] {
      SortGivesOldOrder(ms[1..]);
      var r := SortMembers(ms[1..]);
      forall k | 0 <= k < |r| ensures ms[0].idx < r[k].idx {
        assert r[k] in multiset(r);
        assert r[k] in ms[1..];
      }
      InsertKeepsOrder(ms[0], r);
    }
  }

  // ---- Movers ----

  ghost function Indices(ms: seq<Member>): set<nat> {
    set m | m in ms :: m.idx
  }

  /** The entities kept in place appear in the same relative order on both sides. */
  ghost predicate OrderPreserved(ms: seq<Member>, kept: set<nat>) {
    forall a, b :: a in ms && b in ms && a.idx in kept && b.idx in kept && Precedes(a, b) ==> a.newIndex < b.newIndex
  }

  /** Taking the movers out of a group leaves the rest in unchanged relative order, and no smaller
      set of movers would. */
  ghost predicate FewestMovers(ms: seq<Member>, movers: set<nat>) {
    && OrderPreserved(ms, Indices(ms) - movers)
    && forall kept :: kept <= Indices(ms) && OrderPreserved(ms, kept) ==> |kept| <= |Indices(ms) - movers|
  }

  ghost function IdxAt(r: seq<Member>, at: set<nat>): set<nat>
    requires forall p :: p in at ==> p < |r|
  {
    set p | p in at :: r[p].idx
  }

  lemma {:induction false} IdxAtSize(r: seq<Member>, at: set<nat>)
    requires DistinctIdx(r) && forall p :: p in at ==> p < |r|
    ensures |IdxAt(r, at)| == |at|
    decreases |at|
  {
    if at != {} {
      var p :| p in at;
      IdxAtSize(r, at - {p});
      assert IdxAt(r, at) == IdxAt(r, at - {p}) + {r[p].idx};
      assert r[p].idx !in IdxAt(r, at - {p});
    }
  }

  function NewIndices(r: seq<Member>): (s: seq<nat>)
    ensures |s| == |r| && forall k :: 0 <= k < |r| ==> s[k] == r[k].newIndex
  {
    seq(|r|, k requires 0 <= k < |r| => r[k].newIndex)
  }

  lemma {:induction false} SortedSameMembers(ms: seq<Member>, r: seq<Member>)
    requires multiset(r) == multiset(ms)
    ensures forall m :: m in ms <==> m in r
    ensures Indices(ms) == Indices(r)
  {
    forall m ensures m in ms <==> m in r {
      assert m in ms <==> m in multiset(ms);
      assert m in r <==> m in multiset(r);
    }
  }

  lemma {:induction false} PositionOf(r: seq<Member>, at: set<nat>, a: Member) returns (i: nat)
    requires DistinctIdx(r) && (forall p :: p in at ==> p < |r|) && a in r && a.idx in IdxAt(r, at)
    ensures i in at && r[i] == a
  {
    i :| i in at && r[i].idx == a.idx;
    var k :| 0 <= k < |r| && r[k] == a;
  }

  /** A kept set in preserved order is an increasing subsequence of the sorted group, and conversely. */
  lemma {:induction false} PreservedIffIncreasing(r: seq<Member>, at: set<nat>)
    requires InOldOrder(r) && DistinctIdx(r) && forall p :: p in at ==> p < |r|
    ensures OrderPreserved(r, IdxAt(r, at)) <==> IncreasingAt(NewIndices(r), at)
  {
    var s := NewIndices(r);
    if OrderPreserved(r, IdxAt(r, at)) {
      forall i, j | i in at && j in at && i < j ensures s[i] < s[j] {
        assert r[i] in r && r[j] in r && r[i].idx in IdxAt(r, at) && r[j].idx in IdxAt(r, at);
      }
    }
    if IncreasingAt(s, at) {
      forall a, b | a in r && b in r && a.idx in IdxAt(r, at) && b.idx in IdxAt(r, at) && Precedes(a, b)
        ensures a.newIndex < b.newIndex
      {
        var i := PositionOf(r, at, a);
        var j := PositionOf(r, at, b);
        assert i != j && !(j < i);
      }
    }
  }

  lemma {:induction false} KeptAtMostStationary(r: seq<Member>, stationary: set<nat>, kept: set<nat>)
    requires InOldOrder(r) && DistinctIdx(r) && IsLongestIncreasing(NewIndices(r), stationary)
    requires kept <= Indices(r) && OrderPreserved(r, kept)
    ensures |kept| <= |stationary|
  {
    var at := set p | 0 <= p < |r| && r[p].idx in kept;
    assert kept == IdxAt(r, at);
    PreservedIffIncreasing(r, at);
    IdxAtSize(r, at);
  }

  lemma {:induction false} StationaryIsRest(r: seq<Member>, stationary: set<nat>, movers: set<nat>)
    requires forall p :: p in stationary ==> p < |r|
    requires forall p :: 0 <= p < |r| ==> (r[p].idx in movers <==> p !in stationary)
    ensures Indices(r) - movers == IdxAt(r, stationary)
  {}

  lemma {:induction false} SameMembersSameOrder(ms: seq<Member>, r: seq<Member>, kept: set<nat>)
    requires forall m :: m in ms <==> m in r
    ensures OrderPreserved(ms, kept) <==> OrderPreserved(r, kept)
  {}

  /** The members off a longest increasing subsequence of the sorted group are a smallest set of movers. */
  lemma {:induction false} OffStationaryIsFewest(ms: seq<Member>, r: seq<Member>, stationary: set<nat>, movers: set<nat>)
    requires InDraftOrder(ms)
    requires r == SortMembers(ms) && IsLongestIncreasing(NewIndices(r), stationary)
    requires forall p :: 0 <= p < |r| ==> (r[p].idx in movers <==> p !in stationary)
    ensures FewestMovers(ms, movers)
  {
    SortGivesOldOrder(ms);
    SortedSameMembers(ms, r);
    assert IncreasingAt(NewIndices(r), stationary);
    hide SortMembers, IsLongestIncreasing, InOldOrder, OrderPreserved;
    var rest := Indices(ms) - movers;
    StationaryIsRest(r, stationary, movers);
    PreservedIffIncreasing(r, stationary);
    IdxAtSize(r, stationary);
    SameMembersSameOrder(ms, r, rest);
    forall kept | kept <= Indices(ms) && OrderPreserved(ms, kept) ensures |kept| <= |rest| {
      SameMembersSameOrder(ms, r, kept);
      KeptAtMostStationary(r, stationary, kept);
    }
  }

  // ---- Finding the movers ----

  /** A draft belongs to the group of one parent only. */
  lemma {:induction false} GroupsDisjoint(v: Vocabulary, changes: seq<Draft>, p: string, q: string)
    requires p != q
    ensures Indices(Group(v, changes, |changes|, p)) !! Indices(Group(v, changes, |changes|, q))
  {
    GroupIs(v, changes, |changes|, p);
    GroupIs(v, changes, |changes|, q);
    hide Group, InDraftOrder, MemberOf;
    forall i | i in Indices(Group(v, changes, |changes|, p)) ensures IsMember(v, changes, i, p) {}
    forall i | i in Indices(Group(v, changes, |changes|, q)) ensures IsMember(v, changes, i, q) {}
  }

  /** The map holds the nonempty groups of the first `n` drafts. */
  ghost predicate GroupsOf(v: Vocabulary, changes: seq<Draft>, n: nat, groups: map<string, seq<Member>>)
    requires n <= |changes|
  {
    forall parent :: if parent in groups then groups[parent] == Group(v, changes, n, parent) != []
                     else Group(v, changes, n, parent) == []
  }

  lemma {:induction false} GroupStep(v: Vocabulary, changes: seq<Draft>, n: nat, groups: map<string, seq<Member>>)
    requires n < |changes| && GroupsOf(v, changes, n, groups)
    ensures !Eligible(v, RenamePairs(changes), changes[n]) ==> GroupsOf(v, changes, n + 1, groups)
    ensures Eligible(v, RenamePairs(changes), changes[n]) ==>
      var parent := ParentKey(v, changes, n);
      GroupsOf(v, changes, n + 1,
               groups[parent := (if parent in groups then groups[parent] else []) + [MemberOf(v, changes, n)]])
  {
    hide ParentKey, Eligible, RenamePairs;
    forall parent ensures Group(v, changes, n + 1, parent) == Group(v, changes, n, parent) +
      (if IsMember(v, changes, n, parent) then [MemberOf(v, changes, n)] else []) {}
    hide Group;
  }

  method CollectGroups(v: Vocabulary, changes: seq<Draft>) returns (groups: map<string, seq<Member>>)
    ensures GroupsOf(v, changes, |changes|, groups)
  {
    groups := map[];
    var pairs := RenamePairs(changes);
    hide ParentKey, Eligible;
    for n := 0 to |changes|
      invariant GroupsOf(v, changes, n, groups)
    {
      GroupStep(v, changes, n, groups);
      hide GroupsOf;
      if Eligible(v, pairs, changes[n]) {
        var parent := ParentKey(v, changes, n);
        groups := groups[parent := (if parent in groups then groups[parent] else []) + [MemberOf(v, changes, n)]];
      }
    }
  }

  lemma {:induction false} OtherGroupsUnaffected(ms: seq<Member>, movers: set<nat>, extra: set<nat>)
    requires FewestMovers(ms, movers) && Indices(ms) !! extra
    ensures FewestMovers(ms, movers + extra)
  {
    assert Indices(ms) - (movers + extra) == Indices(ms) - movers;
  }

  ghost predicate AllEligible(v: Vocabulary, changes: seq<Draft>, movers: set<nat>) {
    forall i :: i in movers ==> i < |changes| && Eligible(v, RenamePairs(changes), changes[i])
  }

  /** Per parent: a smallest set of movers. Everything else in the group kept its relative order. */
  ghost predicate GenuineMovers(v: Vocabulary, changes: seq<Draft>, movers: set<nat>) {
    && AllEligible(v, changes, movers)
    && (forall parent :: FewestMovers(Group(v, changes, |changes|, parent), movers))
  }

  /** The movers of one group, off a longest increasing subsequence. */
  method GroupMovers(ms: seq<Member>) returns (movers: set<nat>)
    requires InDraftOrder(ms)
    ensures movers <= Indices(ms)
    ensures FewestMovers(ms, movers)
  {
    var r := SortMembers(ms);
    var stationary := LongestIncreasingPositions(NewIndices(r));
    movers := set p | 0 <= p < |r| && p !in stationary :: r[p].idx;
    SortGivesOldOrder(ms);
    SortedSameMembers(ms, r);
    hide SortMembers, IsLongestIncreasing, FewestMovers;
    forall p | 0 <= p < |r| ensures r[p].idx in movers <==> p !in stationary {
      if r[p].idx in movers {
        var q :| 0 <= q < |r| && q !in stationary && r[q].idx == r[p].idx;
        assert p == q;
      }
    }
    OffStationaryIsFewest(ms, r, stationary, movers);
  }

  /** The groups not in `todo` are done, the others are untouched. */
  ghost predicate MoversSoFar(groups: map<string, seq<Member>>, todo: set<string>, movers: set<nat>) {
    && (forall parent :: parent in groups && parent in todo ==> Indices(groups[parent]) !! movers)
    && (forall parent :: parent in groups && parent !in todo ==> FewestMovers(groups[parent], movers))
  }

  lemma {:induction false} MoversStep(groups: map<string, seq<Member>>, todo: set<string>, movers: set<nat>,
                                      parent: string, found: set<nat>)
    requires parent in groups && parent in todo && MoversSoFar(groups, todo, movers)
    requires found <= Indices(groups[parent]) && FewestMovers(groups[parent], found)
    requires forall other :: other in groups && other != parent ==> Indices(groups[other]) !! Indices(groups[parent])
    ensures MoversSoFar(groups, todo - {parent}, movers + found)
  {
    hide FewestMovers;
    forall other | other in groups && other !in todo - {parent} ensures FewestMovers(groups[other], movers + found) {
      if other == parent {
        OtherGroupsUnaffected(groups[parent], found, movers);
        assert found + movers == movers + found;
      } else {
        OtherGroupsUnaffected(groups[other], movers, found);
      }
    }
  }

  lemma {:induction false} GroupEligible(v: Vocabulary, changes: seq<Draft>, parent: string, found: set<nat>)
    requires found <= Indices(Group(v, changes, |changes|, parent))
    ensures AllEligible(v, changes, found)
  {
    GroupIs(v, changes, |changes|, parent);
    hide Group, Eligible;
    forall i | i in found ensures i < |changes| && IsMember(v, changes, i, parent) {}
  }

  lemma {:induction false} OthersDisjoint(v: Vocabulary, changes: seq<Draft>, groups: map<string, seq<Member>>,
                                          parent: string)
    requires GroupsOf(v, changes, |changes|, groups) && parent in groups
    ensures forall other :: other in groups && other != parent ==> Indices(groups[other]) !! Indices(groups[parent])
  {
    hide Group;
    forall other | other in groups && other != parent ensures Indices(groups[other]) !! Indices(groups[parent]) {
      GroupsDisjoint(v, changes, parent, other);
    }
  }

  method FindMovers(v: Vocabulary, changes: seq<Draft>) returns (movers: set<nat>)
    ensures GenuineMovers(v, changes, movers)
  {
    var groups := CollectGroups(v, changes);
    hide FewestMovers, Eligible, Indices, Group, InDraftOrder;
    movers := {};
    var todo := groups.Keys;
    assert MoversSoFar(groups, todo, movers) by { Untouched(groups); }
    while todo != {}
      invariant todo <= groups.Keys
      invariant AllEligible(v, changes, movers)
      invariant MoversSoFar(groups, todo, movers)
      decreases |todo|
    {
      var parent :| parent in todo;
      GroupIs(v, changes, |changes|, parent);
      var found := GroupMovers(groups[parent]);
      GroupEligible(v, changes, parent, found);
      OthersDisjoint(v, changes, groups, parent);
      MoversStep(groups, todo, movers, parent, found);
      movers := movers + found;
      todo := todo - {parent};
    }
    forall parent ensures FewestMovers(Group(v, changes, |changes|, parent), movers) {
      if parent !in groups { EmptyGroup(movers); }
    }
  }

  lemma {:induction false} Untouched(groups: map<string, seq<Member>>)
    ensures MoversSoFar(groups, groups.Keys, {})
  {}

  lemma {:induction false} EmptyGroup(movers: set<nat>)
    ensures FewestMovers([], movers)
  {
    assert forall kept :: kept <= Indices([]) ==> kept == {};
  }

  // ---- Rewriting the drafts ----

  /** Same-identity reorders survive only as genuine movers; every other draft survives. */
  predicate Survives(changes: seq<Draft>, movers: set<nat>, i: nat)
    requires i < |changes|
  {
    SameIdentityReorder(RenamePairs(changes), changes[i]) ==> i in movers
  }

  /** The surviving draft numbers among the first `n`, ascending. */
  function Origins(changes: seq<Draft>, movers: set<nat>, n: nat): (s: seq<nat>)
    requires n <= |changes|
    ensures |s| <= n && forall k :: 0 <= k < |s| ==> s[k] < n
  {
    if n == 0 then []
    else Origins(changes, movers, n - 1) + (if Survives(changes, movers, n - 1) then [n - 1] else [])
  }

  lemma {:induction false} OriginsAre(changes: seq<Draft>, movers: set<nat>, n: nat)
    requires n <= |changes|
    ensures var s := Origins(changes, movers, n);
            && (forall j, k :: 0 <= j < k < |s| ==> s[j] < s[k])
            && (forall i: nat :: i in s <==> i < n && Survives(changes, movers, i))
  {
    hide Survives;
    if n > 0 { OriginsAre(changes, movers, n - 1); }
  }

  /** Reordering decorators, or statements inside a renamed callable, changes behaviour. */
  predicate BehaviourReorder(v: Vocabulary, pairs: set<(string, string)>, d: Draft)
    requires d.oldNode.Some? && d.newNode.Some?
  {
    d.oldNode.value.kind == "decorator" ||
    (InsideRename(pairs, d.oldNode.value, d.newNode.value) && !v.named(d.oldNode.value.kind))
  }

  function RewriteOne(v: Vocabulary, pairs: set<(string, string)>, d: Draft): Draft {
    if SameIdentityReorder(pairs, d) then
      d.(change := if BehaviourReorder(v, pairs, d) then Modification else Move,
         confidence := if d.confidence < 0.85 then d.confidence else 0.85)
    else d
  }

  /** Every surviving draft, in order, movers rewritten. */
  ghost predicate IsRewrite(v: Vocabulary, changes: seq<Draft>, movers: set<nat>, n: nat, result: seq<Draft>)
    requires n <= |changes|
  {
    var origins := Origins(changes, movers, n);
    && |result| == |origins|
    && forall k :: 0 <= k < |result| ==> result[k] == RewriteOne(v, RenamePairs(changes), changes[origins[k]])
  }

  /** The ascending positions at which a reorder became a move. */
  ghost predicate ArePromotedAt(changes: seq<Draft>, movers: set<nat>, n: nat, result: seq<Draft>, promoted: seq<nat>)
    requires n <= |changes| && |result| == |Origins(changes, movers, n)|
  {
    && (forall j, k :: 0 <= j < k < |promoted| ==> promoted[j] < promoted[k])
    && forall k: nat :: k in promoted <==>
         k < |result| && changes[Origins(changes, movers, n)[k]].change == Reorder && result[k].change == Move
  }

  lemma {:induction false} RewriteStep(v: Vocabulary, changes: seq<Draft>, movers: set<nat>, n: nat, result: seq<Draft>)
    requires n < |changes| && IsRewrite(v, changes, movers, n, result)
    ensures |result| == |Origins(changes, movers, n)|
    ensures if Survives(changes, movers, n)
            then IsRewrite(v, changes, movers, n + 1, result + [RewriteOne(v, RenamePairs(changes), changes[n])])
            else IsRewrite(v, changes, movers, n + 1, result)
  {
    hide Survives, RewriteOne;
  }

  lemma {:induction false} NonePromoted(changes: seq<Draft>, movers: set<nat>)
    ensures ArePromotedAt(changes, movers, 0, [], [])
    ensures forall v: Vocabulary :: IsRewrite(v, changes, movers, 0, [])
  {}

  lemma {:induction false} PromotedStep(changes: seq<Draft>, movers: set<nat>, n: nat, result: seq<Draft>,
                                        promoted: seq<nat>, d: Draft)
    requires n < |changes| && |result| == |Origins(changes, movers, n)|
    requires ArePromotedAt(changes, movers, n, result, promoted)
    ensures !Survives(changes, movers, n) ==> ArePromotedAt(changes, movers, n + 1, result, promoted)
    ensures Survives(changes, movers, n) ==>
      ArePromotedAt(changes, movers, n + 1, result + [d],
                    if changes[n].change == Reorder && d.change == Move then promoted + [|result|] else promoted)
  {
    hide Survives;
    var before, after := Origins(changes, movers, n), Origins(changes, movers, n + 1);
    if Survives(changes, movers, n) {
      assert after == before + [n];
      var all := if changes[n].change == Reorder && d.change == Move then promoted + [|result|] else promoted;
      forall j | 0 <= j < |promoted| ensures promoted[j] < |result| {
        var position := promoted[j];
        assert position in promoted;
      }
      assert forall j, k :: 0 <= j < k < |all| ==> all[j] < all[k];
      forall k: nat
        ensures k in all <==> k < |result + [d]| && changes[after[k]].change == Reorder && (result + [d])[k].change == Move
      {
        if k < |result| {
          assert after[k] == before[k] && (result + [d])[k] == result[k];
          assert k in promoted <==> k in all;
        } else if k == |result| {
          assert after[k] == n && k !in promoted;
        } else {
          assert k !in promoted;
        }
      }
    }
  }

  method SuppressLowSignalReorders(v: Vocabulary, changes: seq<Draft>)
    returns (result: seq<Draft>, suppressed: nat, promoted: seq<nat>, ghost movers: set<nat>)
    ensures GenuineMovers(v, changes, movers)
    ensures IsRewrite(v, changes, movers, |changes|, result)
    ensures ArePromotedAt(changes, movers, |changes|, result, promoted)
    ensures |changes| == suppressed + |result|
  {
    var pairs := RenamePairs(changes);
    var genuine := FindMovers(v, changes);
    movers := genuine;
    result, promoted := [], [];
    NonePromoted(changes, movers);
    hide SameIdentity, BehaviourReorder, Eligible, RenamePairs, GenuineMovers, ArePromotedAt, IsRewrite, Origins;
    for n := 0 to |changes|
      invariant IsRewrite(v, changes, movers, n, result)
      invariant ArePromotedAt(changes, movers, n, result, promoted)
      invariant |result| == |Origins(changes, movers, n)|
    {
      var d := changes[n];
      RewriteStep(v, changes, movers, n, result);
      PromotedStep(changes, movers, n, result, promoted, RewriteOne(v, pairs, d));
      if SameIdentityReorder(pairs, d) {
        if n in genuine {
          if !BehaviourReorder(v, pairs, d) {
            promoted := promoted + [|result|];
          }
          result := result + [RewriteOne(v, pairs, d)];
        }
      } else {
        result := result + [d];
      }
    }
    suppressed := |changes| - |result|;
  }

  // ---- What the pass promises ----

  lemma {:induction false} RenamePairsShrink(v: Vocabulary, changes: seq<Draft>, movers: set<nat>, result: seq<Draft>)
    requires IsRewrite(v, changes, movers, |changes|, result)
    ensures RenamePairs(result) <= RenamePairs(changes)
  {
    forall p | p in RenamePairs(result) ensures p in RenamePairs(changes) {
      var d :| d in result && d.refactoringKind == Some("RENAME_SYMBOL") && d.oldNode.Some? && d.newNode.Some? &&
               p == (d.oldNode.value.id, d.newNode.value.id);
      var k :| 0 <= k < |result| && result[k] == d;
      var was := changes[Origins(changes, movers, |changes|)[k]];
      assert was in changes && was.oldNode == d.oldNode && was.newNode == d.newNode && was.refactoringKind == d.refactoringKind;
    }
  }

  /** No reorder of an entity with itself is left, whichever renames one looks at afterwards. */
  lemma {:induction false} NoIdentityReorderLeft(v: Vocabulary, changes: seq<Draft>, movers: set<nat>,
                                                 result: seq<Draft>, k: nat)
    requires IsRewrite(v, changes, movers, |changes|, result) && k < |result|
    ensures !SameIdentityReorder(RenamePairs(changes), result[k])
    ensures !SameIdentityReorder(RenamePairs(result), result[k])
  {
    OriginsAre(changes, movers, |changes|);
    assert Origins(changes, movers, |changes|)[k] in Origins(changes, movers, |changes|);
    RenamePairsShrink(v, changes, movers, result);
  }

  /** Draft `i` stands unchanged in the result at the place that `origins` gives it. */
  ghost predicate KeptAt(changes: seq<Draft>, result: seq<Draft>, origins: seq<nat>, i: nat)
    requires |origins| == |result| && i < |changes|
  {
    exists k :: 0 <= k < |result| && origins[k] == i && result[k] == changes[i]
  }

  /** The result draws its drafts from ascending positions, so in order and none twice: from every draft that is no
      reorder of an entity with itself, unchanged, and from nothing else but the movers. */
  lemma {:induction false} OthersSurvive(v: Vocabulary, changes: seq<Draft>, movers: set<nat>, result: seq<Draft>)
    requires IsRewrite(v, changes, movers, |changes|, result)
    ensures var origins, pairs := Origins(changes, movers, |changes|), RenamePairs(changes);
            && |origins| == |result|
            && (forall j, k :: 0 <= j < k < |origins| ==> origins[j] < origins[k])
            && (forall i :: 0 <= i < |changes| && !SameIdentityReorder(pairs, changes[i]) ==> KeptAt(changes, result, origins, i))
            && (forall k :: 0 <= k < |origins| ==>
                  origins[k] < |changes| && (SameIdentityReorder(pairs, changes[origins[k]]) ==> origins[k] in movers))
  {
    var origins, pairs := Origins(changes, movers, |changes|), RenamePairs(changes);
    OriginsAre(changes, movers, |changes|);
    hide Origins, RenamePairs, SameIdentityReorder;
    forall i | 0 <= i < |changes| && !SameIdentityReorder(pairs, changes[i]) ensures KeptAt(changes, result, origins, i) {
      assert Survives(changes, movers, i) && i in origins;
      var k :| 0 <= k < |origins| && origins[k] == i;
      assert result[k] == changes[i];
    }
    forall k | 0 <= k < |origins|
      ensures origins[k] < |changes| && (SameIdentityReorder(pairs, changes[origins[k]]) ==> origins[k] in movers)
    {
      assert origins[k] in origins;
    }
  }

  /** A second run changes nothing. */
  lemma {:induction false} SecondRunChangesNothing(v: Vocabulary, changes: seq<Draft>, movers: set<nat>, result: seq<Draft>,
                                                   movers': set<nat>, result': seq<Draft>)
    requires IsRewrite(v, changes, movers, |changes|, result)
    requires GenuineMovers(v, result, movers') && IsRewrite(v, result, movers', |result|, result')
    ensures result' == result
  {
    forall k | 0 <= k < |result| ensures !SameIdentityReorder(RenamePairs(result), result[k]) {
      NoIdentityReorderLeft(v, changes, movers, result, k);
    }
    AllSurvive(result, movers', |result|);
  }

  lemma {:induction false} AllSurvive(changes: seq<Draft>, movers: set<nat>, n: nat)
    requires n <= |changes|
    requires forall k :: 0 <= k < |changes| ==> !SameIdentityReorder(RenamePairs(changes), changes[k])
    ensures |Origins(changes, movers, n)| == n && forall k :: 0 <= k < n ==> Origins(changes, movers, n)[k] == k
  {
    if n > 0 { AllSurvive(changes, movers, n - 1); }
  }

  // ---- What becomes of a draft, in plain terms ----

  /** A RENAME_SYMBOL draft joins exactly these two nodes. */
  ghost predicate SymbolRenamed(changes: seq<Draft>, a: Node, b: Node) {
    exists d :: d in changes && d.refactoringKind == Some("RENAME_SYMBOL") && d.oldNode.Some? && d.newNode.Some? &&
                d.oldNode.value.id == a.id && d.newNode.value.id == b.id
  }

  /** Both nodes lie strictly below the ends of one RENAME_SYMBOL draft. */
  ghost predicate BelowRename(changes: seq<Draft>, a: Node, b: Node) {
    exists d :: d in changes && d.refactoringKind == Some("RENAME_SYMBOL") && d.oldNode.Some? && d.newNode.Some? &&
                d.oldNode.value.id + "." <= a.id && d.newNode.value.id + "." <= b.id
  }

  /** A reorder of one entity: same type, and same label or a renamed symbol. */
  ghost predicate OneEntityMoved(changes: seq<Draft>, d: Draft) {
    d.change == Reorder && d.oldNode.Some? && d.newNode.Some? && d.oldNode.value.kind == d.newNode.value.kind &&
    (d.oldNode.value.text == d.newNode.value.text || SymbolRenamed(changes, d.oldNode.value, d.newNode.value))
  }

  lemma {:induction false} OneEntityMeans(changes: seq<Draft>, d: Draft)
    ensures SameIdentityReorder(RenamePairs(changes), d) <==> OneEntityMoved(changes, d)
  {
    if d.oldNode.Some? && d.newNode.Some? {
      PairsMean(changes, d.oldNode.value, d.newNode.value);
      hide RenamePairs, SymbolRenamed;
    }
  }

  lemma {:induction false} PairsMean(changes: seq<Draft>, a: Node, b: Node)
    ensures (a.id, b.id) in RenamePairs(changes) <==> SymbolRenamed(changes, a, b)
    ensures InsideRename(RenamePairs(changes), a, b) <==> BelowRename(changes, a, b)
  {
    if BelowRename(changes, a, b) {
      var d :| d in changes && d.refactoringKind == Some("RENAME_SYMBOL") && d.oldNode.Some? && d.newNode.Some? &&
               d.oldNode.value.id + "." <= a.id && d.newNode.value.id + "." <= b.id;
      var p := (d.oldNode.value.id, d.newNode.value.id);
      assert p in RenamePairs(changes) && p.0 + "." <= a.id;
    }
  }

  /** Decorators, and unnamed statements below a renamed symbol: their order is behaviour. */
  ghost predicate OrderMatters(v: Vocabulary, changes: seq<Draft>, d: Draft)
    requires d.oldNode.Some? && d.newNode.Some?
  {
    d.oldNode.value.kind == "decorator" ||
    (!v.named(d.oldNode.value.kind) && BelowRename(changes, d.oldNode.value, d.newNode.value))
  }

  /** Draft `i` stands at place `k` of the result as a mover: a modification where order is behaviour, else a move
      that is reported as promoted; its confidence is capped at 0.85, the rest is as it was. */
  ghost predicate StandsAsMover(v: Vocabulary, changes: seq<Draft>, result: seq<Draft>, promoted: seq<nat>, i: nat, k: nat)
    requires i < |changes| && k < |result| && changes[i].oldNode.Some? && changes[i].newNode.Some?
  {
    var was, now := changes[i], result[k];
    && now.oldNode == was.oldNode && now.newNode == was.newNode && now.oldIndex == was.oldIndex && now.newIndex == was.newIndex
    && now.refactoringKind == was.refactoringKind
    && now.confidence <= was.confidence && now.confidence <= 0.85 && (now.confidence == was.confidence || now.confidence == 0.85)
    && (if OrderMatters(v, changes, was) then now.change == Modification && k !in promoted else now.change == Move && k in promoted)
  }

  ghost predicate StandsAt(v: Vocabulary, changes: seq<Draft>, result: seq<Draft>, promoted: seq<nat>, i: nat, k: nat)
    requires i < |changes| && k < |result|
  {
    if OneEntityMoved(changes, changes[i]) then StandsAsMover(v, changes, result, promoted, i, k)
    else result[k] == changes[i] && k !in promoted
  }

  /** The fate of each draft: a reorder of one entity is dropped, unless it is a mover; everything else stays as it is. */
  lemma {:induction false} DraftFate(v: Vocabulary, changes: seq<Draft>, movers: set<nat>, result: seq<Draft>,
                                     promoted: seq<nat>, i: nat)
    requires IsRewrite(v, changes, movers, |changes|, result) && ArePromotedAt(changes, movers, |changes|, result, promoted)
    requires i < |changes|
    ensures var origins, d := Origins(changes, movers, |changes|), changes[i];
            |origins| == |result| &&
            if OneEntityMoved(changes, d) && i !in movers then i !in origins
            else exists k :: 0 <= k < |origins| && origins[k] == i && StandsAt(v, changes, result, promoted, i, k)
  {
    var origins, d := Origins(changes, movers, |changes|), changes[i];
    OriginsAre(changes, movers, |changes|);
    OneEntityMeans(changes, d);
    hide Origins, RenamePairs, SameIdentityReorder, OneEntityMoved;
    if Survives(changes, movers, i) {
      assert i in origins;
      var k :| 0 <= k < |origins| && origins[k] == i;
      assert result[k] == RewriteOne(v, RenamePairs(changes), d);
      assert k in promoted <==> d.change == Reorder && result[k].change == Move;
      if OneEntityMoved(changes, d) {
        assert d.change == Reorder && d.oldNode.Some? && d.newNode.Some? by { EntityHasNodes(changes, d); }
        PairsMean(changes, d.oldNode.value, d.newNode.value);
        hide InsideRename, BelowRename;
        assert StandsAsMover(v, changes, result, promoted, i, k);
      }
      assert StandsAt(v, changes, result, promoted, i, k);
    }
  }

  lemma {:induction false} EntityHasNodes(changes: seq<Draft>, d: Draft)
    requires OneEntityMoved(changes, d)
    ensures d.change == Reorder && d.oldNode.Some? && d.newNode.Some?
  {}

  /** Only these are ever movers: with both sibling positions, a named entity, a document section, an export of an
      entity, a decorator, or anything below a renamed symbol. */
  ghost predicate MayMove(v: Vocabulary, changes: seq<Draft>, d: Draft) {
    OneEntityMoved(changes, d) && d.oldIndex.Some? && d.newIndex.Some? &&
    var n := d.oldNode.value;
    || v.named(n.kind) || n.kind == "jsx_component" || n.kind == "section" || n.kind == "markdown_section"
    || n.kind == "decorator" || BelowRename(changes, n, d.newNode.value)
    || ((n.kind == "export_statement" || n.kind == "export_default_declaration") &&
        exists child :: child in n.children && (v.named(child.kind) || v.callable(child.kind)))
  }

  lemma {:induction false} EligibleMeans(v: Vocabulary, changes: seq<Draft>, d: Draft)
    ensures Eligible(v, RenamePairs(changes), d) <==> MayMove(v, changes, d)
  {
    OneEntityMeans(changes, d);
    if d.oldNode.Some? && d.newNode.Some? {
      PairsMean(changes, d.oldNode.value, d.newNode.value);
      var n := d.oldNode.value;
      if Eligible(v, RenamePairs(changes), d) && !MayMove(v, changes, d) {
        assert false;
      }
    }
  }

  /** Every mover could move. */
  lemma {:induction false} MoversMayMove(v: Vocabulary, changes: seq<Draft>, movers: set<nat>, i: nat)
    requires GenuineMovers(v, changes, movers) && i in movers
    ensures i < |changes| && MayMove(v, changes, changes[i])
  {
    EligibleMeans(v, changes, changes[i]);
  }

  /** Two siblings that may move, exchanged on the new side, and no third reorder among their siblings: exactly one of
      them is a mover. Among more siblings, still at least one is. */
  lemma {:induction false} ExchangeLeavesMover(v: Vocabulary, changes: seq<Draft>, movers: set<nat>, parent: string, i: nat, j: nat)
    requires GenuineMovers(v, changes, movers) && i < |changes| && j < |changes|
    requires MayMove(v, changes, changes[i]) && MayMove(v, changes, changes[j])
    requires ParentId(changes[i].oldNode.value.id) == ParentId(changes[j].oldNode.value.id) == Some(parent)
    requires changes[i].oldIndex.value < changes[j].oldIndex.value && changes[i].newIndex.value >= changes[j].newIndex.value
    ensures i in movers || j in movers
    ensures (forall k :: 0 <= k < |changes| && k != i && k != j && changes[k].change == Reorder && changes[k].oldNode.Some? ==>
               ParentId(changes[k].oldNode.value.id) != Some(parent) && (parent == "" ==> '.' in changes[k].oldNode.value.id))
            ==> !(i in movers && j in movers)
  {
    EligibleMeans(v, changes, changes[i]);
    EligibleMeans(v, changes, changes[j]);
    var ms := Group(v, changes, |changes|, parent);
    GroupIs(v, changes, |changes|, parent);
    assert IsMember(v, changes, i, parent) && IsMember(v, changes, j, parent);
    var a, b := MemberOf(v, changes, i), MemberOf(v, changes, j);
    assert a in ms && b in ms && FewestMovers(ms, movers);
    assert Precedes(a, b) && !(a.newIndex < b.newIndex);
    hide FewestMovers;
    assert i in movers || j in movers by { NotBothKept(ms, movers, a, b); }
    if forall k :: 0 <= k < |changes| && k != i && k != j && changes[k].change == Reorder && changes[k].oldNode.Some? ==>
         ParentId(changes[k].oldNode.value.id) != Some(parent) && (parent == "" ==> '.' in changes[k].oldNode.value.id) {
      forall m | m in ms ensures m.idx == i || m.idx == j {
        var n :| 0 <= n < |ms| && ms[n] == m;
        assert IsMember(v, changes, ms[n].idx, parent);
        ParentIdIs(changes[m.idx].oldNode.value.id, parent);
      }
      OneOfTwo(ms, movers, a, b);
    }
  }

  lemma {:induction false} NotBothKept(ms: seq<Member>, movers: set<nat>, a: Member, b: Member)
    requires FewestMovers(ms, movers) && a in ms && b in ms && Precedes(a, b) && a.newIndex >= b.newIndex
    ensures a.idx in movers || b.idx in movers
  {
    var kept := Indices(ms) - movers;
    assert a.idx in Indices(ms) && b.idx in Indices(ms);
  }

  lemma {:induction false} OneOfTwo(ms: seq<Member>, movers: set<nat>, a: Member, b: Member)
    requires FewestMovers(ms, movers) && a in ms && b in ms && a.idx != b.idx && InDraftOrder(ms)
    requires forall m :: m in ms ==> m.idx == a.idx || m.idx == b.idx
    ensures !(a.idx in movers && b.idx in movers)
  {
    var kept := {a.idx};
    assert kept <= Indices(ms);
    forall m, n | m in ms && n in ms && m.idx in kept && n.idx in kept ensures !Precedes(m, n) {
      var x :| 0 <= x < |ms| && ms[x] == m;
      var y :| 0 <= y < |ms| && ms[y] == n;
      assert x == y;
    }
    assert OrderPreserved(ms, kept);
    assert |kept| <= |Indices(ms) - movers|;
    assert a.idx in movers && b.idx in movers ==> Indices(ms) - movers == {};
  }
}
