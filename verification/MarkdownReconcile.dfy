/** Replacing raw edits by proven section moves and heading renames, and renumbering the groups that point at them. */
module MarkdownReconcile {
  import opened Common

  /** First and last line of a node. */
  datatype Span = Span(first: nat, last: nat)

  datatype Kind = Deletion | Addition | Modification | Move | OtherKind

  datatype Change = Change(kind: Kind, before: Option<Span>, after: Option<Span>, text: string)

  /** Byte ranges on both sides; a missing range is malformed. */
  datatype Evidence = Evidence(oldRange: Option<(nat, nat)>, newRange: Option<(nat, nat)>)

  /** A group of changes, by number; some groups carry no numbers. */
  datatype Group = Group(ignoredStyle: bool, indices: Option<seq<nat>>, metadata: Evidence, label_: string)

  datatype Presentation = Presentation(changes: seq<Change>, groups: seq<Group>, ignoredStyle: seq<Evidence>)

  /** What the section review proved about two sources; their characters stand for bytes. */
  datatype Review = Review(moves: seq<Change>, renames: seq<Change>, moveGroup: Option<Group>, renameGroup: Option<Group>,
                           oldSource: string, newSource: string)

  datatype Phase = Moves | Renames | All

  predicate UseMoves(phase: Phase) {
    phase != Renames
  }

  predicate UseRenames(phase: Phase) {
    phase != Moves
  }

  // ---- Which raw changes a proven change owns ----

  predicate Contained(node: Option<Span>, section: Option<Span>, headingOnly: bool) {
    node.Some? && section.Some? &&
    if headingOnly then node.value.first == section.value.first == node.value.last
    else node.value.first >= section.value.first && node.value.last <= section.value.last
  }

  predicate OwnedByMove(change: Change, m: Change) {
    match change.kind
    case Deletion => Contained(change.before, m.before, false)
    case Addition => Contained(change.after, m.after, false)
    case _ => false
  }

  predicate OwnedByRename(change: Change, r: Change) {
    match change.kind
    case Modification => Contained(change.before, r.before, true) && Contained(change.after, r.after, true)
    case Deletion => Contained(change.before, r.before, true)
    case Addition => Contained(change.after, r.after, true)
    case _ => false
  }

  predicate Stays(review: Review, phase: Phase, change: Change) {
    && (UseMoves(phase) ==> forall m :: m in review.moves ==> !OwnedByMove(change, m))
    && (UseRenames(phase) ==> forall r :: r in review.renames ==> !OwnedByRename(change, r))
  }

  function Owned(review: Review, phase: Phase): seq<Change> {
    (if UseMoves(phase) then review.moves else []) + (if UseRenames(phase) then review.renames else [])
  }

  /** Where lines begin from position `i` on: behind each line feed. */
  function StartsFrom(source: string, i: nat): seq<nat>
    requires i <= |source|
    decreases |source| - i
  {
    if i == |source| then [] else (if source[i] == '\n' then [i + 1] else []) + StartsFrom(source, i + 1)
  }

  function LineStarts(source: string): seq<nat> {
    [0] + StartsFrom(source, 0)
  }

  /** Line starts are in order: the beginning, and each position behind a line feed. */
  lemma {:induction false} StartsAre(source: string, i: nat)
    requires i <= |source|
    ensures forall k :: k in StartsFrom(source, i) <==> i < k <= |source| && source[k - 1] == '\n'
    ensures forall j, k :: 0 <= j < k < |StartsFrom(source, i)| ==> StartsFrom(source, i)[j] < StartsFrom(source, i)[k]
    decreases |source| - i
  {
    if i < |source| {
      StartsAre(source, i + 1);
      var rest := StartsFrom(source, i + 1);
      assert forall j :: 0 <= j < |rest| ==> rest[j] in rest;
      var here := if source[i] == '\n' then [i + 1] else [];
      assert StartsFrom(source, i) == here + rest;
      assert forall k :: k in here <==> k == i + 1 && source[i] == '\n';
      hide StartsFrom;
    }
  }

  /** The lines of a span hold a byte range; without a next line they reach to the end. */
  predicate InLines(source: string, span: Span, range: (nat, nat)) {
    var starts := LineStarts(source);
    && span.first < |starts| && range.0 >= starts[span.first]
    && range.1 <= if span.last + 1 < |starts| then starts[span.last + 1] else |source|
  }

  predicate Covers(review: Review, oldSide: bool, range: (nat, nat), c: Change) {
    if oldSide then c.before.Some? && InLines(review.oldSource, c.before.value, range)
    else c.after.Some? && InLines(review.newSource, c.after.value, range)
  }

  predicate Covered(review: Review, oldSide: bool, range: (nat, nat), owned: seq<Change>) {
    range.0 == range.1 || exists c :: c in owned && Covers(review, oldSide, range, c)
  }

  /** Style evidence is superseded when each nonempty side lies in an owned section, and some side is nonempty. */
  predicate Superseded(review: Review, e: Evidence, owned: seq<Change>) {
    && e.oldRange.Some? && e.newRange.Some?
    && Covered(review, true, e.oldRange.value, owned) && Covered(review, false, e.newRange.value, owned)
    && !(e.oldRange.value.0 == e.oldRange.value.1 && e.newRange.value.0 == e.newRange.value.1)
  }

  // ---- Dropping and renumbering ----

  /** How many are kept below `i`. */
  function Rank(keep: seq<bool>, i: nat): (r: nat)
    requires i <= |keep|
    ensures r <= i
  {
    if i == 0 then 0 else Rank(keep, i - 1) + (if keep[i - 1] then 1 else 0)
  }

  function Filter<T>(xs: seq<T>, keep: seq<bool>): seq<T>
    requires |xs| == |keep|
  {
    if xs == [] then []
    else Filter(xs[..|xs| - 1], keep[..|keep| - 1]) + (if keep[|keep| - 1] then [xs[|xs| - 1]] else [])
  }

  lemma {:induction false} RankOfPrefix(keep: seq<bool>, i: nat, n: nat)
    requires i <= n <= |keep|
    ensures Rank(keep[..n], i) == Rank(keep, i)
  {
    if i > 0 { RankOfPrefix(keep, i - 1, n); }
  }

  /** A kept element is found at its rank. */
  lemma {:induction false} FilterAt<T>(xs: seq<T>, keep: seq<bool>)
    requires |xs| == |keep|
    ensures |Filter(xs, keep)| == Rank(keep, |keep|)
    ensures forall i :: 0 <= i < |xs| && keep[i] ==> Rank(keep, i) < |Filter(xs, keep)| && Filter(xs, keep)[Rank(keep, i)] == xs[i]
  {
    if xs != [] {
      var n := |xs| - 1;
      FilterAt(xs[..n], keep[..n]);
      RankOfPrefix(keep, n, n);
      forall i | 0 <= i < |xs| && keep[i]
        ensures Rank(keep, i) < |Filter(xs, keep)| && Filter(xs, keep)[Rank(keep, i)] == xs[i]
      {
        if i < n {
          assert keep[..n][i] == keep[i];
          RankOfPrefix(keep, i, n);
        }
      }
    }
  }

  predicate Alive(keep: seq<bool>, i: nat) {
    i < |keep| && keep[i]
  }

  /** New numbers of the surviving changes of a group. */
  function Renumbered(keep: seq<bool>, indices: seq<nat>): seq<nat> {
    if indices == [] then []
    else
      (if Alive(keep, indices[0]) then [Rank(keep, indices[0])] else []) + Renumbered(keep, indices[1..])
  }

  /** A group goes when it had changes and lost them all. */
  predicate GroupStays(keep: seq<bool>, g: Group) {
    g.indices.None? || g.indices.value == [] || exists i :: i in g.indices.value && Alive(keep, i)
  }

  function GroupAfter(keep: seq<bool>, g: Group): Group {
    if g.indices.None? then g else g.(indices := Some(Renumbered(keep, g.indices.value)))
  }

  function GroupsAfter(keep: seq<bool>, groups: seq<Group>): seq<Group> {
    if groups == [] then []
    else
      (if GroupStays(keep, groups[0]) then [GroupAfter(keep, groups[0])] else []) + GroupsAfter(keep, groups[1..])
  }

  predicate StyleStays(review: Review, owned: seq<Change>, g: Group) {
    g.ignoredStyle ==> !Superseded(review, g.metadata, owned)
  }

  function StyledGroups(review: Review, owned: seq<Change>, groups: seq<Group>): seq<Group> {
    if groups == [] then []
    else (if StyleStays(review, owned, groups[0]) then [groups[0]] else []) + StyledGroups(review, owned, groups[1..])
  }

  function StyledEvidence(review: Review, owned: seq<Change>, es: seq<Evidence>): seq<Evidence> {
    if es == [] then []
    else
      StyledEvidence(review, owned, es[..|es| - 1]) +
      (if Superseded(review, es[|es| - 1], owned) then [] else [es[|es| - 1]])
  }

  function KeepFlags(review: Review, phase: Phase, changes: seq<Change>): (keep: seq<bool>)
    ensures |keep| == |changes|
  {
    seq(|changes|, i requires 0 <= i < |changes| => Stays(review, phase, changes[i]))
  }

  function Range(from: nat, to: nat): (r: seq<nat>)
    requires from <= to
    ensures |r| == to - from && forall i :: 0 <= i < |r| ==> r[i] == from + i
  {
    seq(to - from, i requires 0 <= i < to - from => from + i)
  }

  /** The group for appended changes. */
  function Appended(enabled: bool, changes: seq<Change>, group: Option<Group>, start: nat): seq<Group> {
    if !enabled || changes == [] || group.None? then []
    else [group.value.(indices := Some(Range(start, start + |changes|)))]
  }

  function Reconciled(p: Presentation, review: Review, phase: Phase): Presentation {
    var keep := KeepFlags(review, phase, p.changes);
    var owned := Owned(review, phase);
    var kept := Filter(p.changes, keep);
    var withMoves := if UseMoves(phase) then kept + review.moves else kept;
    Presentation(if UseRenames(phase) then withMoves + review.renames else withMoves,
                 GroupsAfter(keep, StyledGroups(review, owned, p.groups)) +
                 Appended(UseMoves(phase), review.moves, review.moveGroup, |kept|) +
                 Appended(UseRenames(phase), review.renames, review.renameGroup, |withMoves|),
                 StyledEvidence(review, owned, p.ignoredStyle))
  }

  // ---- The pass ----

  /** Numbers of the surviving changes. */
  ghost predicate IsRemap(keep: seq<bool>, remap: map<nat, nat>) {
    && (forall i :: i in remap <==> Alive(keep, i))
    && forall i :: i in remap ==> remap[i] == Rank(keep, i)
  }

  method DropOwned(review: Review, phase: Phase, changes: seq<Change>) returns (retained: seq<Change>, remap: map<nat, nat>)
    ensures retained == Filter(changes, KeepFlags(review, phase, changes))
    ensures IsRemap(KeepFlags(review, phase, changes), remap)
  {
    ghost var keep := KeepFlags(review, phase, changes);
    assert forall i :: 0 <= i < |changes| ==> keep[i] == Stays(review, phase, changes[i]);
    assert Filter(changes[..0], keep[..0]) == [] && IsRemap(keep[..0], map[]);
    hide Filter, Stays, KeepFlags, IsRemap;
    retained, remap := [], map[];
    for index := 0 to |changes|
      invariant retained == Filter(changes[..index], keep[..index])
      invariant IsRemap(keep[..index], remap)
    {
      FilterStep(changes, keep, index);
      RemapStep(keep, index, remap);
      if Stays(review, phase, changes[index]) {
        remap := remap[index := |retained|];
        retained := retained + [changes[index]];
      }
    }
    assert changes[..|changes|] == changes && keep[..|changes|] == keep;
  }

  lemma {:induction false} RemapStep(keep: seq<bool>, n: nat, remap: map<nat, nat>)
    requires n < |keep| && IsRemap(keep[..n], remap)
    ensures IsRemap(keep[..n + 1], if keep[n] then remap[n := Rank(keep, n)] else remap)
  {
    forall i | 0 <= i <= n ensures Rank(keep[..n + 1], i) == Rank(keep, i) && Rank(keep[..n], i) == Rank(keep, i) {
      RankOfPrefix(keep, i, n + 1);
      RankOfPrefix(keep, i, n);
    }
    hide Rank;
  }

  lemma {:induction false} FilterStep<T>(xs: seq<T>, keep: seq<bool>, n: nat)
    requires |xs| == |keep| && n < |xs|
    ensures Filter(xs[..n + 1], keep[..n + 1]) == Filter(xs[..n], keep[..n]) + (if keep[n] then [xs[n]] else [])
    ensures |Filter(xs[..n], keep[..n])| == Rank(keep, n)
  {
    assert xs[..n + 1][..n] == xs[..n] && keep[..n + 1][..n] == keep[..n];
    FilterAt(xs[..n], keep[..n]);
    RankOfPrefix(keep, n, n);
  }

  lemma {:induction false} RenumberedAppend(keep: seq<bool>, a: seq<nat>, b: seq<nat>)
    ensures Renumbered(keep, a + b) == Renumbered(keep, a) + Renumbered(keep, b)
  {
    if a == [] {
      assert a + b == b;
    } else {
      hide Renumbered, Rank, Alive;
      SplitFirst(a, b);
      RenumberedAppend(keep, a[1..], b);
      RenumberedCons(keep, a[0], a[1..]);
      RenumberedCons(keep, a[0], a[1..] + b);
      if Alive(keep, a[0]) { Assoc([Rank(keep, a[0])], Renumbered(keep, a[1..]), Renumbered(keep, b)); }
    }
  }

  lemma {:induction false} RenumberedCons(keep: seq<bool>, i: nat, rest: seq<nat>)
    ensures Renumbered(keep, [i] + rest) == if Alive(keep, i) then [Rank(keep, i)] + Renumbered(keep, rest) else Renumbered(keep, rest)
  {
    hide Alive, Rank;
    assert ([i] + rest)[1..] == rest;
  }

  lemma {:induction false} RenumberedStep(keep: seq<bool>, indices: seq<nat>, k: nat)
    requires k < |indices|
    ensures Renumbered(keep, indices[..k + 1]) ==
            Renumbered(keep, indices[..k]) + (if Alive(keep, indices[k]) then [Rank(keep, indices[k])] else [])
  {
    hide Alive, Rank;
    var one := [indices[k]];
    assert indices[..k + 1] == indices[..k] + one;
    RenumberedAppend(keep, indices[..k], one);
    assert one[1..] == [] && Renumbered(keep, []) == [];
  }

  method RenumberGroup(g: Group, remap: map<nat, nat>, ghost keep: seq<bool>) returns (stays: bool, after: Group)
    requires IsRemap(keep, remap)
    ensures stays <==> GroupStays(keep, g)
    ensures after == GroupAfter(keep, g)
  {
    if g.indices.None? { return true, g; }
    var indices := g.indices.value;
    var renumbered: seq<nat> := [];
    stays := indices == [];
    for k := 0 to |indices|
      invariant renumbered == Renumbered(keep, indices[..k])
      invariant stays <==> indices == [] || exists i :: i in indices[..k] && Alive(keep, i)
    {
      assert indices[..k + 1] == indices[..k] + [indices[k]];
      RenumberedStep(keep, indices, k);
      hide Alive, Rank, Renumbered;
      if indices[k] in remap {
        renumbered := renumbered + [remap[indices[k]]];
        stays := true;
      }
    }
    assert indices[..|indices|] == indices;
    after := g.(indices := Some(renumbered));
  }

  method RenumberGroups(review: Review, owned: seq<Change>, groups: seq<Group>, remap: map<nat, nat>, ghost keep: seq<bool>)
    returns (after: seq<Group>)
    requires IsRemap(keep, remap)
    ensures after == GroupsAfter(keep, StyledGroups(review, owned, groups))
  {
    after := [];
    ghost var all := GroupsAfter(keep, StyledGroups(review, owned, groups));
    assert groups[0..] == groups && after + all == all;
    for k := 0 to |groups|
      invariant after + GroupsAfter(keep, StyledGroups(review, owned, groups[k..])) == all
    {
      GroupsStep(review, owned, keep, groups, k);
      hide *;
      ghost var rest := GroupsAfter(keep, StyledGroups(review, owned, groups[k + 1..]));
      if StyleStays(review, owned, groups[k]) {
        var stays, g := RenumberGroup(groups[k], remap, keep);
        if stays {
          Assoc(after, [g], rest);
          after := after + [g];
        }
      }
    }
    assert groups[|groups|..] == [] && after + [] == after;
  }

  lemma {:induction false} GroupsStep(review: Review, owned: seq<Change>, keep: seq<bool>, groups: seq<Group>, k: nat)
    requires k < |groups|
    ensures var rest := GroupsAfter(keep, StyledGroups(review, owned, groups[k + 1..]));
            GroupsAfter(keep, StyledGroups(review, owned, groups[k..])) ==
            if StyleStays(review, owned, groups[k]) && GroupStays(keep, groups[k]) then [GroupAfter(keep, groups[k])] + rest else rest
  {
    hide StyleStays, GroupStays, GroupAfter;
    var rest := StyledGroups(review, owned, groups[k + 1..]);
    assert groups[k..][1..] == groups[k + 1..];
    assert ([groups[k]] + rest)[1..] == rest;
    assert [] + rest == rest && [] + GroupsAfter(keep, rest) == GroupsAfter(keep, rest);
  }

  method EvidenceOwned(review: Review, e: Evidence, owned: seq<Change>) returns (yes: bool)
    ensures yes == Superseded(review, e, owned)
  {
    hide Covers;
    var seen, sides := false, [e.oldRange, e.newRange];
    for k := 0 to 2
      invariant forall j :: 0 <= j < k ==> sides[j].Some? && Covered(review, j == 0, sides[j].value, owned)
      invariant seen <==> exists j :: 0 <= j < k && sides[j].Some? && sides[j].value.0 != sides[j].value.1
    {
      if sides[k].None? { return false; }
      var range := sides[k].value;
      if range.0 == range.1 { continue; }
      seen := true;
      if !exists c :: c in owned && Covers(review, k == 0, range, c) { return false; }
    }
    assert sides[0] == e.oldRange && sides[1] == e.newRange;
    assert Covered(review, true, sides[0].value, owned) && Covered(review, false, sides[1].value, owned);
    return seen;
  }

  method SupersedeEvidence(review: Review, owned: seq<Change>, es: seq<Evidence>) returns (kept: seq<Evidence>)
    ensures kept == StyledEvidence(review, owned, es)
  {
    kept := [];
    hide Superseded;
    for k := 0 to |es|
      invariant kept == StyledEvidence(review, owned, es[..k])
    {
      EvidenceStep(review, owned, es, k);
      var gone := EvidenceOwned(review, es[k], owned);
      if !gone { kept := kept + [es[k]]; }
    }
    assert es[..|es|] == es;
  }

  lemma {:induction false} EvidenceStep(review: Review, owned: seq<Change>, es: seq<Evidence>, k: nat)
    requires k < |es|
    ensures StyledEvidence(review, owned, es[..k + 1]) ==
            StyledEvidence(review, owned, es[..k]) + (if Superseded(review, es[k], owned) then [] else [es[k]])
  {
    assert es[..k + 1][..k] == es[..k];
  }

  /** Only Markdown files are touched. */
  method Reconcile(p: Presentation, review: Review, markdown: bool, phase: Phase) returns (result: Presentation)
    ensures result == if markdown then Reconciled(p, review, phase) else p
  {
    if !markdown { return p; }
    ghost var keep := KeepFlags(review, phase, p.changes);
    var owned := Owned(review, phase);
    var ignored := SupersedeEvidence(review, owned, p.ignoredStyle);
    var retained, remap := DropOwned(review, phase, p.changes);
    var groups := RenumberGroups(review, owned, p.groups, remap, keep);
    if UseMoves(phase) {
      groups := groups + Appended(true, review.moves, review.moveGroup, |retained|);
      retained := retained + review.moves;
    }
    if UseRenames(phase) {
      groups := groups + Appended(true, review.renames, review.renameGroup, |retained|);
      retained := retained + review.renames;
    }
    return Presentation(retained, groups, ignored);
  }

  // ---- Groups keep pointing at the same changes ----

  predicate Within(indices: seq<nat>, n: nat) {
    forall k :: 0 <= k < |indices| ==> indices[k] < n
  }

  ghost predicate InBounds(p: Presentation) {
    forall g :: g in p.groups && g.indices.Some? ==> Within(g.indices.value, |p.changes|)
  }

  function Pick(changes: seq<Change>, indices: seq<nat>): seq<Change>
    requires Within(indices, |changes|)
  {
    seq(|indices|, k requires 0 <= k < |indices| => changes[indices[k]])
  }

  function Surviving(keep: seq<bool>, indices: seq<nat>): (r: seq<nat>)
    ensures Within(r, |keep|)
  {
    if indices == [] then [] else (if Alive(keep, indices[0]) then [indices[0]] else []) + Surviving(keep, indices[1..])
  }

  lemma {:induction false} RenumberedPointsAtSame(changes: seq<Change>, keep: seq<bool>, after: seq<Change>,
                                                  indices: seq<nat>)
    requires |changes| == |keep| && Filter(changes, keep) <= after
    ensures Within(Renumbered(keep, indices), |after|)
    ensures Pick(after, Renumbered(keep, indices)) == Pick(changes, Surviving(keep, indices))
  {
    if indices != [] {
      RenumberedPointsAtSame(changes, keep, after, indices[1..]);
      if Alive(keep, indices[0]) {
        FilterAt(changes, keep);
        hide Filter;
        var first, rest := Rank(keep, indices[0]), Renumbered(keep, indices[1..]);
        assert Filter(changes, keep)[first] == after[first];
        PickCons(after, first, rest);
        PickCons(changes, indices[0], Surviving(keep, indices[1..]));
        hide Pick, Rank;
      } else {
        assert Renumbered(keep, indices) == Renumbered(keep, indices[1..]);
        assert Surviving(keep, indices) == Surviving(keep, indices[1..]);
      }
    }
  }

  lemma {:induction false} PickCons(changes: seq<Change>, first: nat, rest: seq<nat>)
    requires first < |changes| && Within(rest, |changes|)
    ensures Within([first] + rest, |changes|) && Pick(changes, [first] + rest) == [changes[first]] + Pick(changes, rest)
  {}

  ghost predicate PointsAtSame(changes: seq<Change>, keep: seq<bool>, after: seq<Change>, g: Group, h: Group)
    requires |changes| == |keep|
  {
    if g.indices.None? then h == g
    else
      && h.indices.Some? && h == g.(indices := h.indices)
      && Within(h.indices.value, |after|)
      && Pick(after, h.indices.value) == Pick(changes, Surviving(keep, g.indices.value))
  }

  ghost predicate ComesFrom(changes: seq<Change>, keep: seq<bool>, after: seq<Change>, groups: seq<Group>, h: Group)
    requires |changes| == |keep|
  {
    exists g :: g in groups && GroupStays(keep, g) && PointsAtSame(changes, keep, after, g, h)
  }

  lemma {:induction false} GroupPointsAtSame(changes: seq<Change>, keep: seq<bool>, after: seq<Change>, g: Group)
    requires |changes| == |keep| && Filter(changes, keep) <= after
    ensures PointsAtSame(changes, keep, after, g, GroupAfter(keep, g))
  {
    if g.indices.Some? { RenumberedPointsAtSame(changes, keep, after, g.indices.value); }
    hide Filter, Surviving, Renumbered, Pick, Within;
  }

  /** Every surviving group is an input group, pointing at its surviving changes, in order. */
  lemma {:induction false} GroupsPointAtSame(changes: seq<Change>, keep: seq<bool>, after: seq<Change>, groups: seq<Group>)
    requires |changes| == |keep| && Filter(changes, keep) <= after
    ensures forall h :: h in GroupsAfter(keep, groups) ==> ComesFrom(changes, keep, after, groups, h)
    ensures forall g :: g in groups && GroupStays(keep, g) ==> GroupAfter(keep, g) in GroupsAfter(keep, groups)
  {
    if groups != [] {
      hide PointsAtSame, GroupStays, GroupAfter, Filter, GroupsAfter;
      var g, rest := groups[0], groups[1..];
      GroupsPointAtSame(changes, keep, after, rest);
      GroupPointsAtSame(changes, keep, after, g);
      assert groups == [g] + rest;
      GroupsCons(keep, g, rest);
      forall h | h in GroupsAfter(keep, groups) ensures ComesFrom(changes, keep, after, groups, h) {
        if h in GroupsAfter(keep, rest) {
          var g' :| g' in rest && GroupStays(keep, g') && PointsAtSame(changes, keep, after, g', h);
          assert g' in groups;
        } else {
          assert g in groups;
        }
      }
    } else {
      assert GroupsAfter(keep, groups) == [];
    }
  }

  ghost predicate PointsAt(p: Presentation, h: Group, changes: seq<Change>) {
    h.indices.Some? && Within(h.indices.value, |p.changes|) && Pick(p.changes, h.indices.value) == changes
  }

  lemma {:induction false} PicksRange(changes: seq<Change>, from: nat, to: nat)
    requires from <= to <= |changes|
    ensures Within(Range(from, to), |changes|) && Pick(changes, Range(from, to)) == changes[from..to]
  {}

  lemma {:induction false} NewGroups(p: Presentation, review: Review, phase: Phase, h: Group)
    requires var kept := Filter(p.changes, KeepFlags(review, phase, p.changes));
             var withMoves := if UseMoves(phase) then kept + review.moves else kept;
             h in Appended(UseMoves(phase), review.moves, review.moveGroup, |kept|) ||
             h in Appended(UseRenames(phase), review.renames, review.renameGroup, |withMoves|)
    ensures PointsAt(Reconciled(p, review, phase), h, review.moves) || PointsAt(Reconciled(p, review, phase), h, review.renames)
  {
    var result := Reconciled(p, review, phase);
    hide GroupsAfter, StyledGroups, StyledEvidence, Owned, Filter, KeepFlags;
    var kept := Filter(p.changes, KeepFlags(review, phase, p.changes));
    var withMoves := if UseMoves(phase) then kept + review.moves else kept;
    assert result.changes == withMoves + if UseRenames(phase) then review.renames else [];
    hide Reconciled, UseMoves, UseRenames, PointsAt;
    if h in Appended(UseMoves(phase), review.moves, review.moveGroup, |kept|) {
      AppendedPointsAt(result, kept, review.moves, if UseRenames(phase) then review.renames else [], UseMoves(phase), review.moveGroup, h);
    } else {
      assert withMoves + review.renames + [] == withMoves + review.renames;
      AppendedPointsAt(result, withMoves, review.renames, [], UseRenames(phase), review.renameGroup, h);
    }
    hide *;
  }

  lemma {:induction false} AppendedPointsAt(p: Presentation, front: seq<Change>, added: seq<Change>, tail: seq<Change>, enabled: bool,
                                            group: Option<Group>, h: Group)
    requires h in Appended(enabled, added, group, |front|)
    requires enabled ==> p.changes == front + added + tail
    ensures PointsAt(p, h, added)
  {
    Slice(front, added, tail);
    PicksRange(p.changes, |front|, |front| + |added|);
    hide Pick, Within, Range;
  }

  lemma {:induction false} Slice<T>(a: seq<T>, b: seq<T>, c: seq<T>)
    ensures (a + b + c)[|a|..|a| + |b|] == b
    ensures a + b + [] == a + b
  {}

  /** Whatever numbers came in: every group of the result is an input group pointing at the same changes, or the
      new group of the appended moves or renames. */
  lemma {:induction false} GroupsStayExact(p: Presentation, review: Review, phase: Phase, h: Group)
    requires h in Reconciled(p, review, phase).groups
    ensures var result, keep := Reconciled(p, review, phase), KeepFlags(review, phase, p.changes);
            ComesFrom(p.changes, keep, result.changes, p.groups, h) || PointsAt(result, h, review.moves) || PointsAt(result, h, review.renames)
  {
    var result, keep, owned := Reconciled(p, review, phase), KeepFlags(review, phase, p.changes), Owned(review, phase);
    var styled := StyledGroups(review, owned, p.groups);
    if h in GroupsAfter(keep, styled) {
      GroupsPointAtSame(p.changes, keep, result.changes, styled);
      StyledAreGroups(review, owned, p.groups);
      hide KeepFlags, GroupsAfter, StyledGroups, GroupStays, PointsAtSame;
      assert ComesFrom(p.changes, keep, result.changes, styled, h);
    } else {
      NewGroups(p, review, phase, h);
    }
  }

  /** Every number of the result is in bounds. */
  lemma {:induction false} NumbersInBounds(p: Presentation, review: Review, phase: Phase)
    ensures InBounds(Reconciled(p, review, phase))
  {
    var result := Reconciled(p, review, phase);
    forall h | h in result.groups && h.indices.Some? ensures Within(h.indices.value, |result.changes|) {
      GroupsStayExact(p, review, phase, h);
      hide Reconciled;
    }
  }

  /** Nothing else is lost: a group stays unless it had changes and none survives, or its style is superseded. */
  lemma {:induction false} GroupsKept(p: Presentation, review: Review, phase: Phase, g: Group)
    requires g in p.groups
    ensures var keep := KeepFlags(review, phase, p.changes);
            GroupStays(keep, g) && StyleStays(review, Owned(review, phase), g) ==> GroupAfter(keep, g) in Reconciled(p, review, phase).groups
  {
    var keep, owned := KeepFlags(review, phase, p.changes), Owned(review, phase);
    StyledAreGroups(review, owned, p.groups);
    GroupsPointAtSame(p.changes, keep, Reconciled(p, review, phase).changes, StyledGroups(review, owned, p.groups));
    hide GroupStays, StyleStays, GroupAfter, KeepFlags, GroupsAfter, StyledGroups;
  }

  lemma {:induction false} StyledAreGroups(review: Review, owned: seq<Change>, groups: seq<Group>)
    ensures forall g :: g in StyledGroups(review, owned, groups) <==> g in groups && StyleStays(review, owned, g)
  {
    if groups != [] {
      StyledAreGroups(review, owned, groups[1..]);
      assert groups == [groups[0]] + groups[1..];
      hide StyleStays;
    }
  }

  // ---- Moves and then renames, or all at once ----

  /** `keep` keeps what `first` keeps and `second` keeps afterwards. */
  ghost predicate Composes(keep: seq<bool>, first: seq<bool>, second: seq<bool>) {
    && |keep| == |first| && Rank(first, |first|) <= |second|
    && (forall i :: 0 <= i < |keep| && first[i] ==> Rank(first, i) < |second|)
    && forall i :: 0 <= i < |keep| ==> keep[i] == (first[i] && second[Rank(first, i)])
  }

  lemma {:induction false} RankComposes(keep: seq<bool>, first: seq<bool>, second: seq<bool>, i: nat)
    requires Composes(keep, first, second) && i <= |keep|
    ensures Rank(first, i) <= |second| && Rank(keep, i) == Rank(second, Rank(first, i))
  {
    if i > 0 {
      RankComposes(keep, first, second, i - 1);
    }
  }

  lemma {:induction false} RenumberedComposes(keep: seq<bool>, first: seq<bool>, second: seq<bool>, indices: seq<nat>)
    requires Composes(keep, first, second)
    ensures Renumbered(second, Renumbered(first, indices)) == Renumbered(keep, indices)
    ensures (exists i :: i in indices && Alive(keep, i)) <==> exists i :: i in Renumbered(first, indices) && Alive(second, i)
    ensures (exists i :: i in indices && Alive(first, i)) <==> Renumbered(first, indices) != []
  {
    if indices != [] {
      var i, rest := indices[0], indices[1..];
      RenumberedComposes(keep, first, second, rest);
      assert indices == [i] + rest;
      if Alive(first, i) {
        RankComposes(keep, first, second, i);
        assert Renumbered(first, indices) == [Rank(first, i)] + Renumbered(first, rest);
        assert ([Rank(first, i)] + Renumbered(first, rest))[1..] == Renumbered(first, rest);
        assert Alive(second, Rank(first, i)) <==> Alive(keep, i);
      } else {
        assert Renumbered(first, indices) == Renumbered(first, rest) && !Alive(keep, i);
      }
      hide Rank, Alive, Composes;
    }
  }

  lemma {:induction false} GroupsCompose(keep: seq<bool>, first: seq<bool>, second: seq<bool>, groups: seq<Group>)
    requires Composes(keep, first, second)
    ensures GroupsAfter(second, GroupsAfter(first, groups)) == GroupsAfter(keep, groups)
  {
    if groups != [] {
      var g, rest := groups[0], GroupsAfter(first, groups[1..]);
      GroupsCompose(keep, first, second, groups[1..]);
      OneGroupComposes(keep, first, second, g);
      if GroupStays(first, g) {
        assert GroupsAfter(first, groups) == [GroupAfter(first, g)] + rest;
        assert ([GroupAfter(first, g)] + rest)[1..] == rest;
      } else {
        assert GroupsAfter(first, groups) == rest;
      }
      hide GroupStays, GroupAfter, Composes;
    }
  }

  lemma {:induction false} OneGroupComposes(keep: seq<bool>, first: seq<bool>, second: seq<bool>, g: Group)
    requires Composes(keep, first, second)
    ensures GroupStays(keep, g) <==> GroupStays(first, g) && GroupStays(second, GroupAfter(first, g))
    ensures GroupAfter(second, GroupAfter(first, g)) == GroupAfter(keep, g)
  {
    if g.indices.Some? {
      RenumberedComposes(keep, first, second, g.indices.value);
      hide Composes, Alive, Renumbered;
      if g.indices.value == [] {
        NoneRenumbered(first);
        NoneRenumbered(second);
        NoneRenumbered(keep);
      }
    }
  }

  lemma {:induction false} NoneRenumbered(keep: seq<bool>)
    ensures Renumbered(keep, []) == []
  {}

  lemma {:induction false} GroupsAppend(keep: seq<bool>, a: seq<Group>, b: seq<Group>)
    ensures GroupsAfter(keep, a + b) == GroupsAfter(keep, a) + GroupsAfter(keep, b)
  {
    if a == [] {
      assert a + b == b;
    } else {
      hide *;
      SplitFirst(a, b);
      GroupsAppend(keep, a[1..], b);
      GroupsCons(keep, a[0], a[1..]);
      GroupsCons(keep, a[0], a[1..] + b);
      Assoc([GroupAfter(keep, a[0])], GroupsAfter(keep, a[1..]), GroupsAfter(keep, b));
    }
  }

  lemma {:induction false} FilterLast<T>(xs: seq<T>, keep: seq<bool>, n: nat)
    requires |xs| == |keep| == n + 1
    ensures Filter(xs, keep) == if keep[n] then Filter(xs[..n], keep[..n]) + [xs[n]] else Filter(xs[..n], keep[..n])
  {
    assert Filter(xs[..n], keep[..n]) + [] == Filter(xs[..n], keep[..n]);
  }

  lemma {:induction false} FilterComposes<T>(xs: seq<T>, keep: seq<bool>, first: seq<bool>, second: seq<bool>)
    requires |xs| == |keep| && Composes(keep, first, second)
    ensures |Filter(xs, first)| == Rank(first, |first|)
    ensures Filter(Filter(xs, first), second[..Rank(first, |first|)]) == Filter(xs, keep)
  {
    FilterAt(xs, first);
    if xs != [] {
      var n := |xs| - 1;
      var front, r := Filter(xs[..n], first[..n]), Rank(first, n);
      ComposesPrefix(keep, first, second, n);
      RankOfPrefix(first, n, n);
      FilterComposes(xs[..n], keep[..n], first[..n], second);
      assert |front| == r && Rank(first, n + 1) == r + if first[n] then 1 else 0;
      hide Composes, Rank, Filter;
      FilterLast(xs, first, n);
      FilterLast(xs, keep, n);
      if first[n] {
        var flags := second[..r + 1];
        FilterLast(front + [xs[n]], flags, r);
        assert (front + [xs[n]])[..r] == front && flags[..r] == second[..r];
      }
    }
  }

  lemma {:induction false} ComposesPrefix(keep: seq<bool>, first: seq<bool>, second: seq<bool>, n: nat)
    requires Composes(keep, first, second) && n < |keep|
    ensures Composes(keep[..n], first[..n], second)
    ensures Rank(first, n) <= Rank(first, |first|) && (first[n] ==> Rank(first, n) < |second|)
    ensures keep[n] == (first[n] && second[Rank(first, n)])
  {
    forall i | 0 <= i <= n ensures Rank(first[..n], i) == Rank(first, i) { RankOfPrefix(first, i, n); }
    RankGrows(first, n, |first|);
  }

  lemma {:induction false} RankGrows(keep: seq<bool>, i: nat, n: nat)
    requires i <= n <= |keep|
    ensures Rank(keep, i) <= Rank(keep, n)
  {
    if i < n { RankGrows(keep, i, n - 1); }
  }

  /** Behind position `m` everything is kept. */
  ghost predicate TailKept(keep: seq<bool>, m: nat) {
    m <= |keep| && forall i :: m <= i < |keep| ==> keep[i]
  }

  lemma {:induction false} FilterTail<T>(front: seq<T>, tail: seq<T>, keep: seq<bool>)
    requires |keep| == |front| + |tail| && TailKept(keep, |front|)
    ensures Filter(front + tail, keep) == Filter(front, keep[..|front|]) + tail
  {
    if tail == [] {
      assert front + tail == front && keep[..|front|] == keep;
    } else {
      var n := |keep| - 1;
      assert (front + tail)[..n] == front + tail[..|tail| - 1];
      FilterTail(front, tail[..|tail| - 1], keep[..n]);
      assert keep[..n][..|front|] == keep[..|front|];
    }
  }

  lemma {:induction false} RenumberedTail(keep: seq<bool>, from: nat, end: nat)
    requires from <= end == |keep| && TailKept(keep, from)
    ensures Rank(keep, end) >= Rank(keep, from)
    ensures Renumbered(keep, Range(from, end)) == Range(Rank(keep, from), Rank(keep, end))
    decreases end - from
  {
    if from < end {
      RankRises(keep, from);
      hide *;
      RenumberedTail(keep, from + 1, end);
      RangeCons(from, end);
      RangeCons(Rank(keep, from), Rank(keep, end));
      RenumberedCons(keep, from, Range(from + 1, end));
    } else {
      hide Rank;
      assert Range(from, end) == [] && Range(Rank(keep, from), Rank(keep, end)) == [];
    }
  }

  lemma {:induction false} RankRises(keep: seq<bool>, from: nat)
    requires from < |keep| && TailKept(keep, from)
    ensures Alive(keep, from) && Rank(keep, from + 1) == Rank(keep, from) + 1 && TailKept(keep, from + 1)
  {}

  lemma {:induction false} RankTail(keep: seq<bool>, m: nat, i: nat)
    requires TailKept(keep, m) && m <= i <= |keep|
    ensures Rank(keep, i) == Rank(keep, m) + (i - m)
  {
    if i > m { RankTail(keep, m, i - 1); }
  }

  lemma {:induction false} RangeCons(from: nat, to: nat)
    requires from < to
    ensures Range(from, to) == [from] + Range(from + 1, to)
  {}

  /** The group of the appended moves is renumbered by the second phase like the moves themselves. */
  lemma {:induction false} AppendedTail(keep: seq<bool>, m: nat, changes: seq<Change>, group: Option<Group>)
    requires TailKept(keep, m) && |keep| == m + |changes|
    ensures GroupsAfter(keep, Appended(true, changes, group, m)) == Appended(true, changes, group, Rank(keep, m))
  {
    if changes != [] && group.Some? {
      var g := group.value.(indices := Some(Range(m, m + |changes|)));
      RenumberedTail(keep, m, m + |changes|);
      RankTail(keep, m, m + |changes|);
      assert Range(m, m + |changes|)[0] == m && Alive(keep, m);
      assert [g][1..] == [];
    }
  }

  lemma {:induction false} StyleCommutes(review: Review, owned: seq<Change>, keep: seq<bool>, groups: seq<Group>)
    ensures StyledGroups(review, owned, GroupsAfter(keep, groups)) == GroupsAfter(keep, StyledGroups(review, owned, groups))
  {
    if groups != [] {
      var g := groups[0];
      StyleCommutes(review, owned, keep, groups[1..]);
      assert StyleStays(review, owned, GroupAfter(keep, g)) == StyleStays(review, owned, g);
      assert groups == [g] + groups[1..];
      hide *;
      StyledCons(review, owned, g, groups[1..]);
      GroupsCons(keep, g, groups[1..]);
      StyledCons(review, owned, GroupAfter(keep, g), GroupsAfter(keep, groups[1..]));
      GroupsCons(keep, g, StyledGroups(review, owned, groups[1..]));
    }
  }

  lemma {:induction false} StyledCons(review: Review, owned: seq<Change>, g: Group, rest: seq<Group>)
    ensures StyledGroups(review, owned, [g] + rest) ==
            if StyleStays(review, owned, g) then [g] + StyledGroups(review, owned, rest) else StyledGroups(review, owned, rest)
  {
    assert ([g] + rest)[1..] == rest;
  }

  lemma {:induction false} GroupsCons(keep: seq<bool>, g: Group, rest: seq<Group>)
    ensures GroupsAfter(keep, [g] + rest) ==
            if GroupStays(keep, g) then [GroupAfter(keep, g)] + GroupsAfter(keep, rest) else GroupsAfter(keep, rest)
  {
    assert ([g] + rest)[1..] == rest;
  }

  lemma {:induction false} StyledAppend(review: Review, owned: seq<Change>, a: seq<Group>, b: seq<Group>)
    ensures StyledGroups(review, owned, a + b) == StyledGroups(review, owned, a) + StyledGroups(review, owned, b)
  {
    hide StyleStays;
    if a == [] {
      assert a + b == b;
    } else {
      hide *;
      SplitFirst(a, b);
      StyledAppend(review, owned, a[1..], b);
      StyledCons(review, owned, a[0], a[1..]);
      StyledCons(review, owned, a[0], a[1..] + b);
      Assoc([a[0]], StyledGroups(review, owned, a[1..]), StyledGroups(review, owned, b));
    }
  }

  /** Style evidence whose sides lie one in a move and one in a rename only. */
  ghost predicate Crossed(review: Review, e: Evidence) {
    && Superseded(review, e, review.moves + review.renames)
    && !Superseded(review, e, review.moves) && !Superseded(review, e, review.renames)
  }

  lemma {:induction false} SupersededByEither(review: Review, e: Evidence)
    ensures Superseded(review, e, review.moves + review.renames) <==>
            Superseded(review, e, review.moves) || Superseded(review, e, review.renames) || Crossed(review, e)
  {
    forall oldSide, range: (nat, nat) | Covered(review, oldSide, range, review.moves) || Covered(review, oldSide, range, review.renames)
      ensures Covered(review, oldSide, range, review.moves + review.renames)
    {
      if range.0 != range.1 {
        var c :| (c in review.moves || c in review.renames) && Covers(review, oldSide, range, c);
        assert c in review.moves + review.renames;
      }
    }
    hide Covered;
  }

  /** A group of crossed style evidence that the two phases keep, and both at once drop. */
  ghost predicate CrossedGroup(review: Review, keep: seq<bool>, g: Group) {
    g.ignoredStyle && Crossed(review, g.metadata) && GroupStays(keep, g)
  }

  function InTwo(review: Review, keep: seq<bool>, groups: seq<Group>): seq<Group> {
    GroupsAfter(keep, StyledGroups(review, review.renames, StyledGroups(review, review.moves, groups)))
  }

  function AtOnce(review: Review, keep: seq<bool>, groups: seq<Group>): seq<Group> {
    GroupsAfter(keep, StyledGroups(review, review.moves + review.renames, groups))
  }

  lemma {:induction false} StyleTwice(review: Review, keep: seq<bool>, groups: seq<Group>)
    ensures |AtOnce(review, keep, groups)| <= |InTwo(review, keep, groups)|
    ensures if exists g :: g in groups && CrossedGroup(review, keep, g) then |AtOnce(review, keep, groups)| < |InTwo(review, keep, groups)|
            else AtOnce(review, keep, groups) == InTwo(review, keep, groups)
  {
    if groups == [] {
      assert InTwo(review, keep, groups) == [] && AtOnce(review, keep, groups) == [];
    } else {
      var g, rest := groups[0], groups[1..];
      StyleTwice(review, keep, rest);
      OneInTwo(review, keep, g, rest);
      assert groups == [g] + rest;
      hide CrossedGroup, InTwo, AtOnce, GroupAfter;
    }
  }

  lemma {:induction false} OneInTwo(review: Review, keep: seq<bool>, g: Group, rest: seq<Group>)
    ensures var in_, once, one := InTwo(review, keep, rest), AtOnce(review, keep, rest), [GroupAfter(keep, g)];
            if CrossedGroup(review, keep, g) then
              InTwo(review, keep, [g] + rest) == one + in_ && AtOnce(review, keep, [g] + rest) == once
            else
              (InTwo(review, keep, [g] + rest) == one + in_ && AtOnce(review, keep, [g] + rest) == one + once) ||
              (InTwo(review, keep, [g] + rest) == in_ && AtOnce(review, keep, [g] + rest) == once)
  {
    var styled := StyledGroups(review, review.moves, rest);
    OneStyledTwice(review, g);
    StyledCons(review, review.moves, g, rest);
    StyledCons(review, review.renames, g, styled);
    StyledCons(review, review.moves + review.renames, g, rest);
    GroupsCons(keep, g, StyledGroups(review, review.renames, styled));
    GroupsCons(keep, g, StyledGroups(review, review.moves + review.renames, rest));
    hide StyleStays, Crossed, StyledGroups, GroupsAfter, GroupStays, GroupAfter;
  }

  lemma {:induction false} OneStyledTwice(review: Review, g: Group)
    ensures StyleStays(review, review.moves + review.renames, g) <==>
              && StyleStays(review, review.moves, g) && StyleStays(review, review.renames, g)
              && !(g.ignoredStyle && Crossed(review, g.metadata))
    ensures g.ignoredStyle && Crossed(review, g.metadata) ==>
              StyleStays(review, review.moves, g) && StyleStays(review, review.renames, g)
  {
    SupersededByEither(review, g.metadata);
    hide Superseded;
  }

  lemma {:induction false} EvidenceSnoc(review: Review, owned: seq<Change>, es: seq<Evidence>, e: Evidence)
    ensures StyledEvidence(review, owned, es + [e]) ==
            if Superseded(review, e, owned) then StyledEvidence(review, owned, es) else StyledEvidence(review, owned, es) + [e]
  {
    hide Superseded;
    assert (es + [e])[..|es|] == es && StyledEvidence(review, owned, es) + [] == StyledEvidence(review, owned, es);
  }

  function EvidenceInTwo(review: Review, es: seq<Evidence>): seq<Evidence> {
    StyledEvidence(review, review.renames, StyledEvidence(review, review.moves, es))
  }

  function EvidenceAtOnce(review: Review, es: seq<Evidence>): seq<Evidence> {
    StyledEvidence(review, review.moves + review.renames, es)
  }

  lemma {:induction false} OneEvidenceTwice(review: Review, front: seq<Evidence>, e: Evidence)
    ensures var twice, once := EvidenceInTwo(review, front), EvidenceAtOnce(review, front);
            if Crossed(review, e) then
              EvidenceInTwo(review, front + [e]) == twice + [e] && EvidenceAtOnce(review, front + [e]) == once
            else
              (EvidenceInTwo(review, front + [e]) == twice + [e] && EvidenceAtOnce(review, front + [e]) == once + [e]) ||
              (EvidenceInTwo(review, front + [e]) == twice && EvidenceAtOnce(review, front + [e]) == once)
  {
    SupersededByEither(review, e);
    assert Crossed(review, e) ==> !Superseded(review, e, review.moves) && !Superseded(review, e, review.renames);
    hide Superseded, Crossed, StyledEvidence;
    EvidenceSnoc(review, review.moves, front, e);
    EvidenceSnoc(review, review.renames, StyledEvidence(review, review.moves, front), e);
    EvidenceSnoc(review, review.moves + review.renames, front, e);
  }

  lemma {:induction false} EvidenceTwice(review: Review, es: seq<Evidence>)
    ensures |EvidenceAtOnce(review, es)| <= |EvidenceInTwo(review, es)|
    ensures if exists e :: e in es && Crossed(review, e) then |EvidenceAtOnce(review, es)| < |EvidenceInTwo(review, es)|
            else EvidenceAtOnce(review, es) == EvidenceInTwo(review, es)
  {
    if es == [] {
      assert EvidenceAtOnce(review, es) == [] && EvidenceInTwo(review, es) == [];
    } else {
      var front, e := es[..|es| - 1], es[|es| - 1];
      hide Crossed, EvidenceInTwo, EvidenceAtOnce;
      EvidenceTwice(review, front);
      OneEvidenceTwice(review, front, e);
      assert es == front + [e];
    }
  }

  lemma {:induction false} NextLine(source: string, i: nat, n: nat)
    requires i <= n < |source| && source[n] == '\n' && '\n' !in source[i..n]
    ensures StartsFrom(source, i) == [n + 1] + StartsFrom(source, n + 1)
    decreases n - i
  {
    if i < n {
      assert source[i] in source[i..n];
      NextLine(source, i + 1, n);
    }
  }

  lemma {:induction false} LastLine(source: string, i: nat)
    requires i <= |source| && '\n' !in source[i..]
    ensures StartsFrom(source, i) == []
    decreases |source| - i
  {
    if i < |source| {
      assert source[i] in source[i..];
      LastLine(source, i + 1);
    }
  }

  lemma {:induction false} FourLines(source: string)
    requires |source| == 13 && source[3] == source[7] == source[11] == '\n'
    requires '\n' !in source[0..3] && '\n' !in source[4..7] && '\n' !in source[8..11] && '\n' !in source[12..]
    ensures LineStarts(source) == [0, 4, 8, 12]
  {
    NextLine(source, 0, 3);
    NextLine(source, 4, 7);
    NextLine(source, 8, 11);
    LastLine(source, 12);
  }

  lemma {:induction false} MovedToRenamed(review: Review, m: Change, r: Change)
    requires review.moves == [m] && m.before == Some(Span(1, 1)) && m.after == Some(Span(0, 0))
    requires review.renames == [r] && r.before == r.after == Some(Span(2, 3))
    requires |review.newSource| == 13 && LineStarts(review.oldSource) == LineStarts(review.newSource) == [0, 4, 8, 12]
    ensures Crossed(review, Evidence(Some((4, 5)), Some((8, 9))))
  {
    hide LineStarts;
    assert Covers(review, true, (4, 5), m) && !Covers(review, false, (8, 9), m);
    assert Covers(review, false, (8, 9), r) && !Covers(review, true, (4, 5), r);
    assert m in review.moves + review.renames && r in review.moves + review.renames;
    hide Covers;
  }

  lemma {:induction false} LinesOfBoth()
    ensures LineStarts("# A\n# B\n# C\ny") == [0, 4, 8, 12]
    ensures LineStarts("# B\n# A\n# D\ny") == [0, 4, 8, 12]
  {
    hide LineStarts;
    FourLines("# A\n# B\n# C\ny");
    FourLines("# B\n# A\n# D\ny");
  }

  /** Style evidence can cross: between these sources the second section moves and the third is renamed; evidence
      from the moved section to the renamed one is kept by either phase and dropped by both at once. */
  lemma {:induction false} EvidenceCanCross()
    ensures var m, r := Change(Move, Some(Span(1, 1)), Some(Span(0, 0)), ""), Change(Modification, Some(Span(2, 3)), Some(Span(2, 3)), "");
            Crossed(Review([m], [r], None, None, "# A\n# B\n# C\ny", "# B\n# A\n# D\ny"), Evidence(Some((4, 5)), Some((8, 9))))
  {
    hide LineStarts, Crossed;
    LinesOfBoth();
    var m, r := Change(Move, Some(Span(1, 1)), Some(Span(0, 0)), ""), Change(Modification, Some(Span(2, 3)), Some(Span(2, 3)), "");
    MovedToRenamed(Review([m], [r], None, None, "# A\n# B\n# C\ny", "# B\n# A\n# D\ny"), m, r);
  }

  lemma {:induction false} StaysInBoth(review: Review, c: Change)
    ensures Stays(review, All, c) <==> Stays(review, Moves, c) && Stays(review, Renames, c)
    ensures c.kind == Move ==> Stays(review, Renames, c)
  {}

  /** The flags of both phases compose, and the appended moves are kept by the second. */
  lemma {:induction false} FlagsCompose(review: Review, changes: seq<Change>)
    requires forall m :: m in review.moves ==> m.kind == Move
    ensures var first := KeepFlags(review, Moves, changes);
            var between := Filter(changes, first) + review.moves;
            var second := KeepFlags(review, Renames, between);
            && Composes(KeepFlags(review, All, changes), first, second)
            && TailKept(second, |Filter(changes, first)|)
  {
    var first, keep := KeepFlags(review, Moves, changes), KeepFlags(review, All, changes);
    var kept := Filter(changes, first);
    var between := kept + review.moves;
    var second := KeepFlags(review, Renames, between);
    FilterAt(changes, first);
    hide Filter, Rank, Stays;
    forall i | |kept| <= i < |between| ensures second[i] {
      assert between[i] in review.moves;
      StaysInBoth(review, between[i]);
    }
    forall i | 0 <= i < |changes|
      ensures keep[i] == (first[i] && Rank(first, i) < |second| && second[Rank(first, i)])
      ensures first[i] ==> Rank(first, i) < |second|
    {
      StaysInBoth(review, changes[i]);
      if first[i] { assert between[Rank(first, i)] == kept[Rank(first, i)] == changes[i]; }
    }
  }

  lemma {:induction false} ChangesCompose(review: Review, changes: seq<Change>)
    requires forall m :: m in review.moves ==> m.kind == Move
    ensures var first := KeepFlags(review, Moves, changes);
            var between := Filter(changes, first) + review.moves;
            var second := KeepFlags(review, Renames, between);
            var kept := Filter(changes, KeepFlags(review, All, changes));
            && Filter(between, second) == kept + review.moves
            && Rank(second, |Filter(changes, first)|) == |kept|
  {
    var first, keep := KeepFlags(review, Moves, changes), KeepFlags(review, All, changes);
    var between := Filter(changes, first) + review.moves;
    var second := KeepFlags(review, Renames, between);
    FlagsCompose(review, changes);
    FilterComposes(changes, keep, first, second);
    RankComposes(keep, first, second, |keep|);
    FilterAt(changes, keep);
    FilterTail(Filter(changes, first), review.moves, second);
  }

  lemma {:induction false} PhaseChanges(p: Presentation, review: Review)
    requires forall m :: m in review.moves ==> m.kind == Move
    ensures Reconciled(Reconciled(p, review, Moves), review, Renames).changes == Reconciled(p, review, All).changes
  {
    hide KeepFlags, Filter, Rank, GroupsAfter, StyledGroups, StyledEvidence, Appended;
    ChangesCompose(review, p.changes);
  }

  lemma {:induction false} PhaseEvidence(p: Presentation, review: Review)
    ensures Reconciled(Reconciled(p, review, Moves), review, Renames).ignoredStyle == Reconciled(p, review, All).ignoredStyle <==>
            forall e :: e in p.ignoredStyle ==> !Crossed(review, e)
  {
    hide KeepFlags, Filter, Rank, GroupsAfter, StyledGroups, StyledEvidence, Appended, Crossed;
    OwnedIs(review);
    EvidenceTwice(review, p.ignoredStyle);
    hide Owned;
  }

  lemma {:induction false} PhaseGroups(p: Presentation, review: Review)
    requires forall m :: m in review.moves ==> m.kind == Move
    requires review.moveGroup.Some? ==> !review.moveGroup.value.ignoredStyle
    ensures Reconciled(Reconciled(p, review, Moves), review, Renames).groups == Reconciled(p, review, All).groups <==>
            forall g :: g in p.groups ==> !CrossedGroup(review, KeepFlags(review, All, p.changes), g)
  {
    hide Filter, Rank, GroupsAfter, StyledGroups, StyledEvidence, Owned, Composes, TailKept, CrossedGroup, KeepFlags;
    var first, keep := KeepFlags(review, Moves, p.changes), KeepFlags(review, All, p.changes);
    var kept := Filter(p.changes, first);
    var second := KeepFlags(review, Renames, kept + review.moves);
    OwnedIs(review);
    StyleTwice(review, keep, p.groups);
    FlagsCompose(review, p.changes);
    ChangesCompose(review, p.changes);
    GroupsOfTwoPhases(review, p.groups, keep, first, second, |kept|);
    MovesPhase(p, review);
    RenamesPhase(Reconciled(p, review, Moves), review);
    AllPhase(p, review);
    hide Reconciled, Appended;
    SameFront(InTwo(review, keep, p.groups), AtOnce(review, keep, p.groups),
              Appended(true, review.moves, review.moveGroup, Rank(second, |kept|)),
              Appended(true, review.renames, review.renameGroup, |Filter(p.changes, keep) + review.moves|));
  }

  lemma {:induction false} SameFront(a: seq<Group>, b: seq<Group>, c: seq<Group>, d: seq<Group>)
    ensures a + c + d == b + c + d <==> a == b
  {
    if a + c + d == b + c + d {
      assert (a + c + d)[..|a|] == a && (b + c + d)[..|b|] == b && |a| == |b|;
    }
  }

  lemma {:induction false} MovesPhase(p: Presentation, review: Review)
    ensures var keep := KeepFlags(review, Moves, p.changes);
            var kept := Filter(p.changes, keep);
            && Reconciled(p, review, Moves).changes == kept + review.moves
            && Reconciled(p, review, Moves).groups == GroupsAfter(keep, StyledGroups(review, Owned(review, Moves), p.groups)) +
                                                      Appended(true, review.moves, review.moveGroup, |kept|)
  {
    hide KeepFlags, Filter, GroupsAfter, StyledGroups, StyledEvidence, Owned;
  }

  lemma {:induction false} RenamesPhase(p: Presentation, review: Review)
    ensures var keep := KeepFlags(review, Renames, p.changes);
            Reconciled(p, review, Renames).groups == GroupsAfter(keep, StyledGroups(review, Owned(review, Renames), p.groups)) +
                                                     Appended(true, review.renames, review.renameGroup, |Filter(p.changes, keep)|)
  {
    hide KeepFlags, Filter, GroupsAfter, StyledGroups, StyledEvidence, Owned;
  }

  lemma {:induction false} AllPhase(p: Presentation, review: Review)
    ensures var keep := KeepFlags(review, All, p.changes);
            var kept := Filter(p.changes, keep);
            Reconciled(p, review, All).groups == GroupsAfter(keep, StyledGroups(review, Owned(review, All), p.groups)) +
                                                 Appended(true, review.moves, review.moveGroup, |kept|) +
                                                 Appended(true, review.renames, review.renameGroup, |kept + review.moves|)
  {
    hide KeepFlags, Filter, GroupsAfter, StyledGroups, StyledEvidence, Owned;
  }

  /** Running the moves and then the renames gives the changes of doing both at once; the style evidence agrees
      exactly when none of it crosses a move and a rename, the groups exactly when no surviving group crosses. */
  lemma {:induction false} PhasesCompose(p: Presentation, review: Review)
    requires forall m :: m in review.moves ==> m.kind == Move
    requires review.moveGroup.Some? ==> !review.moveGroup.value.ignoredStyle
    ensures var twice, once := Reconciled(Reconciled(p, review, Moves), review, Renames), Reconciled(p, review, All);
            && twice.changes == once.changes
            && (twice.groups == once.groups <==>
                  forall g :: g in p.groups && g.ignoredStyle && GroupStays(KeepFlags(review, All, p.changes), g) ==>
                    !Crossed(review, g.metadata))
            && (twice.ignoredStyle == once.ignoredStyle <==> forall e :: e in p.ignoredStyle ==> !Crossed(review, e))
  {
    hide Reconciled, Crossed, GroupStays, KeepFlags;
    PhaseChanges(p, review);
    PhaseEvidence(p, review);
    PhaseGroups(p, review);
  }

  lemma {:induction false} OwnedIs(review: Review)
    ensures Owned(review, Moves) == review.moves && Owned(review, Renames) == review.renames
    ensures Owned(review, All) == review.moves + review.renames
  {}

  lemma {:induction false} GroupsOfTwoPhases(review: Review, groups: seq<Group>, keep: seq<bool>, first: seq<bool>,
                                             second: seq<bool>, m: nat)
    requires Composes(keep, first, second) && TailKept(second, m) && |second| == m + |review.moves|
    requires review.moveGroup.Some? ==> !review.moveGroup.value.ignoredStyle
    ensures GroupsAfter(second, StyledGroups(review, review.renames,
                GroupsAfter(first, StyledGroups(review, review.moves, groups)) + Appended(true, review.moves, review.moveGroup, m))) ==
            GroupsAfter(keep, StyledGroups(review, review.renames, StyledGroups(review, review.moves, groups))) +
            Appended(true, review.moves, review.moveGroup, Rank(second, m))
  {
    var styled := StyledGroups(review, review.moves, groups);
    var added := Appended(true, review.moves, review.moveGroup, m);
    StyledAppend(review, review.renames, GroupsAfter(first, styled), added);
    StyleCommutes(review, review.renames, first, styled);
    assert StyledGroups(review, review.renames, added) == added by {
      if added != [] { assert added[1..] == []; }
    }
    GroupsAppend(second, GroupsAfter(first, StyledGroups(review, review.renames, styled)), added);
    GroupsCompose(keep, first, second, StyledGroups(review, review.renames, styled));
    AppendedTail(second, m, review.moves, review.moveGroup);
    hide *;
  }

  // ---- What is dropped, by lines ----

  ghost function LinesFrom(first: nat, last: nat): (lines: set<nat>)
    ensures forall l: nat :: l in lines <==> first <= l <= last
    decreases last + 1 - first
  {
    if first > last then {} else {first} + LinesFrom(first + 1, last)
  }

  ghost function LinesOf(span: Option<Span>): set<nat> {
    if span.None? then {} else LinesFrom(span.value.first, span.value.last)
  }

  ghost function HeadingOf(span: Option<Span>): set<nat> {
    if span.None? then {} else {span.value.first}
  }

  /** A position, if there is one, with at least one line. */
  predicate Proper(span: Option<Span>) {
    span.Some? ==> span.value.first <= span.value.last
  }

  /** Every old line lies in one moved section, or on one renamed heading. */
  ghost predicate OldLinesTaken(c: Change, moves: seq<Change>, renames: seq<Change>) {
    LinesOf(c.before) != {} &&
    ((exists m :: m in moves && LinesOf(c.before) <= LinesOf(m.before)) ||
     (exists r :: r in renames && LinesOf(c.before) <= HeadingOf(r.before)))
  }

  ghost predicate NewLinesTaken(c: Change, moves: seq<Change>, renames: seq<Change>) {
    LinesOf(c.after) != {} &&
    ((exists m :: m in moves && LinesOf(c.after) <= LinesOf(m.after)) ||
     (exists r :: r in renames && LinesOf(c.after) <= HeadingOf(r.after)))
  }

  /** Both sides lie on the headings of one rename. */
  ghost predicate HeadingsTaken(c: Change, renames: seq<Change>) {
    LinesOf(c.before) != {} && LinesOf(c.after) != {} &&
    exists r :: r in renames && LinesOf(c.before) <= HeadingOf(r.before) && LinesOf(c.after) <= HeadingOf(r.after)
  }

  /** What the appended moves and renames stand for: deletions by their old lines, additions by their new ones,
      modifications by both; nothing else. */
  ghost predicate TakenByLines(c: Change, moves: seq<Change>, renames: seq<Change>) {
    match c.kind
    case Deletion => OldLinesTaken(c, moves, renames)
    case Addition => NewLinesTaken(c, moves, renames)
    case Modification => HeadingsTaken(c, renames)
    case _ => false
  }

  lemma {:induction false} WithinSection(node: Option<Span>, section: Option<Span>)
    requires Proper(node)
    ensures Contained(node, section, false) <==> LinesOf(node) != {} && LinesOf(node) <= LinesOf(section)
    ensures Contained(node, section, true) <==> LinesOf(node) != {} && LinesOf(node) <= HeadingOf(section)
  {
    hide LinesFrom;
    if node.Some? {
      assert node.value.first in LinesOf(node) && node.value.last in LinesOf(node);
    }
  }

  lemma {:induction false} OwnedMeans(c: Change, m: Change)
    requires Proper(c.before) && Proper(c.after)
    ensures OwnedByMove(c, m) <==> TakenByLines(c, [m], [])
    ensures OwnedByRename(c, m) <==> TakenByLines(c, [], [m])
  {
    WithinSection(c.before, m.before);
    WithinSection(c.after, m.after);
    assert m in [m];
    hide Contained, LinesOf, HeadingOf;
  }

  lemma {:induction false} TakenByOne(c: Change, moves: seq<Change>, renames: seq<Change>)
    ensures TakenByLines(c, moves, renames) <==>
              (exists m :: m in moves && TakenByLines(c, [m], [])) || (exists r :: r in renames && TakenByLines(c, [], [r]))
  {
    hide LinesOf, HeadingOf;
    forall m | m in moves && TakenByLines(c, [m], []) ensures TakenByLines(c, moves, renames) {}
    forall r | r in renames && TakenByLines(c, [], [r]) ensures TakenByLines(c, moves, renames) {}
    if TakenByLines(c, moves, renames) {
      match c.kind
      case Deletion =>
        if m :| m in moves && LinesOf(c.before) <= LinesOf(m.before) {
          assert m in [m] && TakenByLines(c, [m], []);
        } else {
          var r :| r in renames && LinesOf(c.before) <= HeadingOf(r.before);
          assert r in [r] && TakenByLines(c, [], [r]);
        }
      case Addition =>
        if m :| m in moves && LinesOf(c.after) <= LinesOf(m.after) {
          assert m in [m] && TakenByLines(c, [m], []);
        } else {
          var r :| r in renames && LinesOf(c.after) <= HeadingOf(r.after);
          assert r in [r] && TakenByLines(c, [], [r]);
        }
      case Modification =>
        var r :| r in renames && LinesOf(c.before) <= HeadingOf(r.before) && LinesOf(c.after) <= HeadingOf(r.after);
        assert r in [r] && TakenByLines(c, [], [r]);
      case _ =>
    }
  }

  /** A raw change with proper positions is dropped exactly when an enabled move or rename stands for its lines. */
  lemma {:induction false} DroppedByLines(review: Review, phase: Phase, changes: seq<Change>, i: nat)
    requires i < |changes| && Proper(changes[i].before) && Proper(changes[i].after)
    ensures KeepFlags(review, phase, changes)[i] <==>
            !TakenByLines(changes[i], if phase == Renames then [] else review.moves, if phase == Moves then [] else review.renames)
  {
    var c := changes[i];
    TakenByOne(c, if phase == Renames then [] else review.moves, if phase == Moves then [] else review.renames);
    forall m ensures (OwnedByMove(c, m) <==> TakenByLines(c, [m], [])) && (OwnedByRename(c, m) <==> TakenByLines(c, [], [m])) {
      OwnedMeans(c, m);
    }
    hide TakenByLines, OwnedByMove, OwnedByRename;
  }

  // ---- Which bytes a section holds ----

  /** The line of byte `b`, counted from line `n` at byte `i`. */
  ghost function LineOf(source: string, i: nat, b: nat, n: nat): nat
    requires i <= b <= |source|
    decreases b - i
  {
    if i == b then n else LineOf(source, i + 1, b, if source[i] == '\n' then n + 1 else n)
  }

  lemma {:induction false} LineFromStarts(source: string, i: nat, b: nat, n: nat, line: nat)
    requires i <= b <= |source| && n <= line
    ensures var starts := StartsFrom(source, i);
            LineOf(source, i, b, n) >= line <==> line == n || (line - n - 1 < |starts| && starts[line - n - 1] <= b)
    decreases b - i
  {
    var starts := StartsFrom(source, i);
    StartsAre(source, i);
    if i == b {
      if line > n && line - n - 1 < |starts| { assert starts[line - n - 1] in starts; }
    } else {
      var rest := StartsFrom(source, i + 1);
      var next := if source[i] == '\n' then n + 1 else n;
      assert starts == (if source[i] == '\n' then [i + 1] else []) + rest;
      if line >= next { LineFromStarts(source, i + 1, b, next, line); }
      if line < next { LineFromStarts(source, i + 1, b, next, next); }
    }
  }

  /** The byte ranges that the lines of a span hold are those that start no earlier than its first line and end no
      later than its last. */
  lemma {:induction false} InLinesMeans(source: string, span: Span, range: (nat, nat))
    requires range.0 < range.1 <= |source|
    ensures InLines(source, span, range) <==>
              LineOf(source, 0, range.0, 0) >= span.first && LineOf(source, 0, range.1 - 1, 0) <= span.last
  {
    LineFromStarts(source, 0, range.0, 0, span.first);
    LineFromStarts(source, 0, range.1 - 1, 0, span.last + 1);
    hide StartsFrom, LineOf;
  }
}
