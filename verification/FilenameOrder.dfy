/** The order in which parsers are loaded, probed and selected, told from the event log and the
    catalogue alone. */
module FilenameOrder {
  import opened Common
  import opened FilenameSelection
  import opened FilenameProtocol

  // ---- The order in plain terms ----

  /** Alphabetical order: the first difference decides, and a prefix comes before its extensions. */
  ghost predicate Smaller(a: string, b: string) {
    exists k: nat :: k <= |a| && k < |b| && a[..k] == b[..k] && (k == |a| || a[k] < b[k])
  }

  /** Generic parsers come last; otherwise the higher priority, then the smaller identity comes first. */
  ghost predicate Outranks(languagesA: seq<string>, priorityA: int, idA: string,
                           languagesB: seq<string>, priorityB: int, idB: string) {
    var genericA, genericB := "generic" in languagesA, "generic" in languagesB;
    || (genericB && !genericA)
    || (genericA == genericB && priorityA > priorityB)
    || (genericA == genericB && priorityA == priorityB && Smaller(idA, idB))
  }

  lemma {:induction false} StringLessIs(a: string, b: string)
    ensures StringLess(a, b) <==> Smaller(a, b)
  {
    if b == "" {
    } else if a == "" || a[0] < b[0] {
      assert a[..0] == b[..0];
    } else if a[0] > b[0] {
      assert forall k: nat :: 0 < k <= |a| && k < |b| ==> a[..k][0] != b[..k][0];
    } else {
      StringLessIs(a[1..], b[1..]);
      if Smaller(a[1..], b[1..]) {
        var k: nat :| k <= |a[1..]| && k < |b[1..]| && a[1..][..k] == b[1..][..k] && (k == |a[1..]| || a[1..][k] < b[1..][k]);
        assert a[..k + 1] == [a[0]] + a[1..][..k] && b[..k + 1] == [b[0]] + b[1..][..k];
      }
      if Smaller(a, b) {
        var k: nat :| k <= |a| && k < |b| && a[..k] == b[..k] && (k == |a| || a[k] < b[k]);
        assert a[1..][..k - 1] == a[..k][1..] && b[1..][..k - 1] == b[..k][1..];
      }
    }
  }

  ghost predicate EntryOutranks(a: Candidate, b: Candidate) {
    Outranks(a.languages, a.priority, a.id, b.languages, b.priority, b.id)
  }

  lemma {:induction false} CatalogueBeforeIs(entries: seq<Candidate>, a: nat, b: nat)
    requires a < |entries| && b < |entries|
    ensures CatalogueBefore(entries, a, b) <==> EntryOutranks(entries[a], entries[b])
    ensures !CatalogueBefore(entries, a, a)
  {
    StringLessIs(entries[a].id, entries[b].id);
    StringLessOrders(entries[a].id, entries[a].id, entries[a].id);
  }

  lemma {:induction false} LoadedBeforeIs(r: Request, mem: Memory, a: nat, b: nat)
    requires a in mem.loaded && b in mem.loaded && a < |r.entries| && b < |r.entries|
    ensures LoadedBefore(r, mem, a, b) <==>
            Outranks(mem.loaded[a].languages, mem.loaded[a].priority, r.entries[a].id,
                     mem.loaded[b].languages, mem.loaded[b].priority, r.entries[b].id)
    ensures !LoadedBefore(r, mem, a, a)
  {
    StringLessIs(r.entries[a].id, r.entries[b].id);
    StringLessOrders(r.entries[a].id, r.entries[a].id, r.entries[a].id);
  }

  predicate Eligible(r: Request, j: nat)
    requires j < |r.entries| && r.pluginId.Some?
  {
    r.entries[j].id == r.pluginId.value || r.pluginId.value in r.entries[j].aliases
  }

  predicate Listed(r: Request, j: nat)
    requires j < |r.entries|
  {
    r.languageHint.Some? && r.languageHint.value in r.entries[j].languages
  }

  /** 0 for a specific parser whose file name matches, 1 for any other specific one, 2 for a generic one. */
  function Tier(r: Request, j: nat): (t: nat)
    requires j < |r.entries|
    ensures t < 3
  {
    if "generic" in r.entries[j].languages then 2 else if r.entries[j].matchesFilename then 0 else 1
  }

  /** A hint puts one stage in front of the tiers. */
  function Offset(r: Request): nat {
    if r.languageHint.Some? then 1 else 0
  }

  /** One stage for a plugin; otherwise one for the hint and one for each tier. */
  function Stages(r: Request): nat {
    if r.pluginId.Some? then 1 else Offset(r) + 3
  }

  /** The stage at which a parser is loaded. */
  function LoadStage(r: Request, j: nat): (stage: nat)
    requires j < |r.entries|
    ensures stage < Stages(r)
  {
    if r.pluginId.Some? || Listed(r, j) then 0 else Offset(r) + Tier(r, j)
  }

  /** The stage at which a loaded parser is probed: last when it declares itself generic. */
  function ProbeStage(r: Request, j: nat, info: Info): (stage: nat)
    requires j < |r.entries|
    ensures stage < Stages(r)
  {
    if r.pluginId.Some? then 0
    else if "generic" in info.languages then Stages(r) - 1
    else Offset(r) + Tier(r, j)
  }

  /** An explicit plugin request admits the entries of that name only. */
  predicate Admitted(r: Request, j: nat) {
    j < |r.entries| && (r.pluginId.Some? ==> Eligible(r, j))
  }

  /** What stage `m` is for, in terms of the catalogue. */
  predicate InTurn(r: Request, m: nat, j: nat) {
    j < |r.entries| &&
    if r.pluginId.Some? then Eligible(r, j)
    else if r.languageHint.Some? && m == 0 then Listed(r, j)
    else m == Offset(r) + Tier(r, j)
  }

  ghost predicate InRank(entries: seq<Candidate>, s: seq<nat>) {
    forall i, k :: 0 <= i < k < |s| ==> !CatalogueBefore(entries, s[k], s[i])
  }

  ghost predicate PhaseIs(r: Request, ps: seq<Phase>, m: nat)
    requires m < |ps|
  {
    && ps[m].hint == (r.languageHint.Some? && m == 0)
    && (forall j: nat :: j in ps[m].indices <==> InTurn(r, m, j))
    && InRank(r.entries, ps[m].indices)
  }

  lemma {:induction false} OrderedIsRanked(entries: seq<Candidate>, xs: seq<nat>)
    requires Within(xs, |entries|)
    ensures InRank(entries, Ordered(entries, xs))
  {
    var zs := Ordered(entries, xs);
    var less := CatalogueOrder(entries);
    forall i, k | 0 <= i < k < |zs| ensures !CatalogueBefore(entries, zs[k], zs[i]) {
      assert !less(zs[k], zs[i]);
    }
  }

  lemma {:induction false} FilterRanked(entries: seq<Candidate>, s: seq<nat>, keep: nat -> bool)
    requires Within(s, |entries|) && InRank(entries, s)
    ensures InRank(entries, Filter(s, |entries|, keep))
  {
    if s != [] {
      FilterRanked(entries, s[1..], keep);
      var rest := Filter(s[1..], |entries|, keep);
      forall k | 0 <= k < |rest| ensures !CatalogueBefore(entries, rest[k], s[0]) {
        assert rest[k] in rest;
        var l :| 0 <= l < |s[1..]| && s[1..][l] == rest[k];
        assert s[l + 1] == rest[k];
      }
    }
  }

  lemma {:induction false} CandidatesAre(r: Request)
    ensures InRank(r.entries, FilenameCandidates(r.entries)) && InRank(r.entries, AllCandidates(r.entries))
    ensures forall j: nat :: j in FilenameCandidates(r.entries) <==> j < |r.entries| && r.entries[j].matchesFilename
  {
    var n := |r.entries|;
    var named, all := Select(n, (i: nat) => i < n && r.entries[i].matchesFilename), Select(n, (i: nat) => true);
    OrderedIsRanked(r.entries, named);
    OrderedIsRanked(r.entries, all);
    hide InRank, Ordered, Select;
  }

  ghost predicate PhaseOfTier(r: Request, p: Phase, t: nat) {
    !p.hint && InRank(r.entries, p.indices) && forall j: nat :: j in p.indices <==> j < |r.entries| && Tier(r, j) == t
  }

  lemma {:induction false} FirstPhaseIs(r: Request)
    ensures PhaseOfTier(r, PrimaryPhase(r.entries), 0)
  {
    CandidatesAre(r);
    hide FilenameCandidates, AllCandidates, Filter, InRank;
    FilterRanked(r.entries, FilenameCandidates(r.entries), (i: nat) => !CatalogueGeneric(r.entries, i));
  }

  lemma {:induction false} SecondPhaseIs(r: Request)
    ensures PhaseOfTier(r, OtherPhase(r.entries), 1)
  {
    CandidatesAre(r);
    var primary := FilenameCandidates(r.entries);
    hide FilenameCandidates, AllCandidates, Filter, InRank;
    FilterRanked(r.entries, AllCandidates(r.entries), (i: nat) => i !in primary && !CatalogueGeneric(r.entries, i));
  }

  lemma {:induction false} ThirdPhaseIs(r: Request)
    ensures PhaseOfTier(r, GenericPhase(r.entries), 2)
  {
    CandidatesAre(r);
    hide FilenameCandidates, AllCandidates, Filter, InRank;
    FilterRanked(r.entries, AllCandidates(r.entries), (i: nat) => CatalogueGeneric(r.entries, i));
  }

  /** The three automatic phases are the three tiers. */
  lemma {:induction false} AutomaticAre(r: Request)
    ensures var ps := AutomaticPhases(r.entries);
            PhaseOfTier(r, ps[0], 0) && PhaseOfTier(r, ps[1], 1) && PhaseOfTier(r, ps[2], 2)
  {
    FirstPhaseIs(r);
    SecondPhaseIs(r);
    ThirdPhaseIs(r);
    hide PhaseOfTier, PrimaryPhase, OtherPhase, GenericPhase;
  }

  lemma {:induction false} ShortlistsAre(r: Request)
    ensures r.pluginId.Some? ==>
              var s := PluginShortlist(r.entries, r.pluginId.value);
              InRank(r.entries, s) && forall j: nat :: j in s <==> j < |r.entries| && Eligible(r, j)
    ensures r.languageHint.Some? ==>
              var s := HintShortlist(r.entries, r.languageHint.value);
              InRank(r.entries, s) && forall j: nat :: j in s <==> j < |r.entries| && Listed(r, j)
  {
    var n := |r.entries|;
    hide InRank, Ordered, Select;
    if r.pluginId.Some? {
      var plugin := r.pluginId.value;
      OrderedIsRanked(r.entries, Select(n, (i: nat) => i < n && (r.entries[i].id == plugin || plugin in r.entries[i].aliases)));
    }
    if r.languageHint.Some? {
      OrderedIsRanked(r.entries, Select(n, (i: nat) => i < n && r.languageHint.value in r.entries[i].languages));
    }
  }

  /** The phases hold what the stages are for, each in the order of the catalogue. */
  lemma {:induction false} PhasesAre(r: Request)
    ensures var ps := Phases(r);
            && |ps| == Stages(r)
            && forall m :: 0 <= m < |ps| ==> PhaseIs(r, ps, m)
  {
    var ps := Phases(r);
    ShortlistsAre(r);
    AutomaticAre(r);
    hide InRank, AutomaticPhases, HintShortlist, PluginShortlist, Eligible, Listed, Tier;
    forall m | 0 <= m < |ps| ensures PhaseIs(r, ps, m) {
      if r.pluginId.None? && m >= Offset(r) {
        var t := m - Offset(r);
        assert ps[m] == AutomaticPhases(r.entries)[t] && PhaseOfTier(r, ps[m], t);
      }
    }
  }

  // ---- Where the machine stands ----

  predicate Tried(mem: Memory, j: nat) {
    j in mem.loaded || j in mem.failed
  }

  /** The parsers of a phase: the last one also has the generic ones put off before. */
  ghost predicate InPhase(r: Request, ps: seq<Phase>, m: nat, mem: Memory, j: nat)
    requires m < |ps|
  {
    j in ps[m].indices || (m == |ps| - 1 && r.pluginId.None? && j < |r.entries| && j in mem.deferred)
  }

  /** What a phase does with a parser that it does not select. */
  ghost predicate Dealt(r: Request, ps: seq<Phase>, m: nat, mem: Memory, j: nat)
    requires m < |ps|
  {
    j in mem.loaded && Allowed(r, mem.loaded[j]) && j < |r.entries| ==>
      if ps[m].hint then r.languageHint.Some? && !HintMatches(r, mem, j)
      else if r.pluginId.None? && m != |ps| - 1 && LoadedGeneric(mem, j) then j in mem.deferred
      else j in mem.probed
  }

  /** All phases before `phase` tried and dealt with all their parsers. */
  ghost predicate Over(r: Request, ps: seq<Phase>, phase: nat, mem: Memory)
    requires phase <= |ps|
  {
    && (forall m, j: nat :: 0 <= m < phase && InPhase(r, ps, m, mem, j) ==> Tried(mem, j) && Dealt(r, ps, m, mem, j))
    && (forall m :: 0 <= m < phase && ps[m].hint ==> r.pluginId.Some? || !r.strict)
  }

  ghost predicate DeferredAreGeneric(mem: Memory) {
    forall j :: j in mem.deferred ==> LoadedGeneric(mem, j)
  }

  /** The load loop of the last phase goes by index, those of the others by rank. */
  ghost predicate LoadsFirst(r: Request, ps: seq<Phase>, phase: nat, a: nat, b: nat) {
    if phase == |ps| - 1 && r.pluginId.None? then a < b else CatalogueBefore(r.entries, a, b)
  }

  ghost predicate Standing(r: Request, ps: seq<Phase>, c: Config, mem: Memory)
    requires WellFormed(r, ps, c, mem)
  {
    Over(r, ps, c.phase, mem) && DeferredAreGeneric(mem) &&
    match c
    case Enter(_) => true
    case Loading(phase, todo, indices) =>
      && (forall j: nat :: j in indices <==> InPhase(r, ps, phase, mem, j))
      && (forall j: nat :: j in indices ==> j in todo || Tried(mem, j))
      && (forall j: nat :: j in todo ==> j in indices)
      && (forall i, k :: 0 <= i < k < |todo| ==> !LoadsFirst(r, ps, phase, todo[k], todo[i]))
    case Ranking(phase, todo) =>
      && (forall j: nat :: InPhase(r, ps, phase, mem, j) ==> Tried(mem, j) && (j in todo || Dealt(r, ps, phase, mem, j)))
      && (forall j: nat :: j in todo ==> InPhase(r, ps, phase, mem, j))
      && (forall i, k :: 0 <= i < k < |todo| ==> !LoadedBefore(r, mem, todo[k], todo[i]))
  }

  /** Reached without an event: the phases are over, or the hint decided. */
  ghost predicate Concluded(r: Request, ps: seq<Phase>, action: Action, mem: Memory) {
    match action
    case Selected(i, language) =>
      exists phase, rest :: WellFormed(r, ps, Ranking(phase, [i] + rest), mem) && MatchedAt(r, ps, phase, i, rest, language, mem)
    case NotFound(identity) =>
      || (Over(r, ps, |ps|, mem) && DeferredAreGeneric(mem) && identity == if r.pluginId.Some? then r.pluginId.value else "unknown")
      || (exists phase :: WellFormed(r, ps, Ranking(phase, []), mem) && RefusedAt(r, ps, phase, identity, mem))
    case _ => false
  }

  ghost predicate MatchedAt(r: Request, ps: seq<Phase>, phase: nat, i: nat, rest: seq<nat>, language: string, mem: Memory)
    requires WellFormed(r, ps, Ranking(phase, [i] + rest), mem)
  {
    && Standing(r, ps, Ranking(phase, [i] + rest), mem)
    && ps[phase].hint && r.languageHint == Some(language) && i in mem.loaded && i < |r.entries|
    && Allowed(r, mem.loaded[i]) && HintMatches(r, mem, i)
  }

  ghost predicate RefusedAt(r: Request, ps: seq<Phase>, phase: nat, identity: string, mem: Memory)
    requires WellFormed(r, ps, Ranking(phase, []), mem)
  {
    && Standing(r, ps, Ranking(phase, []), mem)
    && ps[phase].hint && r.strict && r.pluginId.None? && r.languageHint == Some(identity)
  }

  function Unprobed(mem: Memory, i: nat): Memory {
    mem.(probed := mem.probed - {i})
  }

  ghost predicate StandingStatus(r: Request, ps: seq<Phase>, s: Status)
    requires WellFormedStatus(r, ps, s)
  {
    match s
    case AwaitLoad(phase, index, rest, indices, mem) =>
      WellFormed(r, ps, Loading(phase, [index] + rest, indices), mem) &&
      Standing(r, ps, Loading(phase, [index] + rest, indices), mem)
    case AwaitProbe(phase, index, rest, mem) =>
      && WellFormed(r, ps, Ranking(phase, [index] + rest), Unprobed(mem, index))
      && Standing(r, ps, Ranking(phase, [index] + rest), Unprobed(mem, index))
      && Allowed(r, mem.loaded[index]) && !ps[phase].hint
      && (r.pluginId.Some? || phase == |ps| - 1 || !LoadedGeneric(mem, index))
    case Done(action, mem) => Concluded(r, ps, action, mem)
    case Broken(_) => true
  }

  lemma {:induction false} EntersLoading(r: Request, ps: seq<Phase>, phase: nat, mem: Memory)
    requires ValidPhases(r, ps) && phase < |ps| && WellFormed(r, ps, Enter(phase), mem) && Standing(r, ps, Enter(phase), mem)
    requires forall m :: 0 <= m < |ps| ==> PhaseIs(r, ps, m)
    ensures var indices := PhaseIndices(r, ps, phase, mem);
            Standing(r, ps, Loading(phase, indices, indices), mem)
  {
    assert PhaseIs(r, ps, phase);
    hide Over, Dealt;
  }

  lemma {:induction false} EntersRanking(r: Request, ps: seq<Phase>, phase: nat, indices: seq<nat>, mem: Memory)
    requires ValidPhases(r, ps) && WellFormed(r, ps, Loading(phase, [], indices), mem)
    requires Standing(r, ps, Loading(phase, [], indices), mem)
    ensures Standing(r, ps, Ranking(phase, Ranked(r, mem, indices)), mem)
  {
    var zs, less := Ranked(r, mem, indices), LoadedOrder(r, mem);
    hide Over, Ranked;
    forall i, k | 0 <= i < k < |zs| ensures !LoadedBefore(r, mem, zs[k], zs[i]) {
      assert !less(zs[k], zs[i]);
    }
  }

  /** One parser of the load loop is done: it was tried before, or has just been. */
  lemma {:induction false} LoadsOn(r: Request, ps: seq<Phase>, phase: nat, index: nat, rest: seq<nat>, indices: seq<nat>, mem: Memory)
    requires WellFormed(r, ps, Loading(phase, [index] + rest, indices), mem)
    requires Standing(r, ps, Loading(phase, [index] + rest, indices), mem) && Tried(mem, index)
    ensures WellFormed(r, ps, Loading(phase, rest, indices), mem) && Standing(r, ps, Loading(phase, rest, indices), mem)
  {
    hide Over, InPhase, LoadsFirst;
    var todo := [index] + rest;
    assert forall k :: 0 <= k < |rest| ==> rest[k] == todo[k + 1];
  }

  /** One parser of the ranking is done. */
  lemma {:induction false} RanksOn(r: Request, ps: seq<Phase>, phase: nat, index: nat, rest: seq<nat>, mem: Memory)
    requires WellFormed(r, ps, Ranking(phase, [index] + rest), mem)
    requires Standing(r, ps, Ranking(phase, [index] + rest), mem) && Dealt(r, ps, phase, mem, index)
    ensures WellFormed(r, ps, Ranking(phase, rest), mem) && Standing(r, ps, Ranking(phase, rest), mem)
  {
    hide Over, InPhase, Dealt, LoadedBefore;
    var todo := [index] + rest;
    assert forall k :: 0 <= k < |rest| ==> rest[k] == todo[k + 1];
  }

  lemma {:induction false} LeavesPhase(r: Request, ps: seq<Phase>, phase: nat, mem: Memory)
    requires WellFormed(r, ps, Ranking(phase, []), mem) && Standing(r, ps, Ranking(phase, []), mem)
    requires ps[phase].hint ==> r.pluginId.Some? || !r.strict
    ensures Standing(r, ps, Enter(phase + 1), mem)
  {
    hide InPhase, Dealt;
  }

  /** Putting off a generic parser. */
  lemma {:induction false} Defers(r: Request, ps: seq<Phase>, phase: nat, todo: seq<nat>, mem: Memory, index: nat)
    requires WellFormed(r, ps, Ranking(phase, todo), mem) && Standing(r, ps, Ranking(phase, todo), mem)
    requires phase < |ps| - 1 && LoadedGeneric(mem, index)
    ensures var later := mem.(deferred := mem.deferred + {index});
            WellFormed(r, ps, Ranking(phase, todo), later) && Standing(r, ps, Ranking(phase, todo), later)
  {
    var later := mem.(deferred := mem.deferred + {index});
    assert forall m, j: nat :: 0 <= m <= phase ==> (InPhase(r, ps, m, later, j) <==> InPhase(r, ps, m, mem, j));
    assert forall m, j: nat :: 0 <= m <= phase && Dealt(r, ps, m, mem, j) ==> Dealt(r, ps, m, later, j);
    assert forall a, b :: LoadedBefore(r, later, a, b) <==> LoadedBefore(r, mem, a, b);
    hide InPhase, Dealt, LoadedBefore;
  }

  lemma {:induction false} SettleStands(r: Request, ps: seq<Phase>, c: Config, mem: Memory)
    requires ValidPhases(r, ps) && WellFormed(r, ps, c, mem) && Standing(r, ps, c, mem)
    requires forall m :: 0 <= m < |ps| ==> PhaseIs(r, ps, m)
    ensures StandingStatus(r, ps, Settle(r, ps, c, mem))
    decreases |ps| - c.phase, (match c case Enter(_) => 2 case Loading(_, _, _) => 1 case Ranking(_, _) => 0),
              if c.Enter? then 0 else |c.todo|, 1
  {
    hide PhaseIs;
    match c
    case Enter(phase) =>
      if phase < |ps| {
        var indices := PhaseIndices(r, ps, phase, mem);
        EntersLoading(r, ps, phase, mem);
        hide Standing, PhaseIndices;
        SettleStands(r, ps, Loading(phase, indices, indices), mem);
      }
    case Loading(phase, todo, indices) =>
      hide Standing, Ranked;
      if todo == [] {
        EntersRanking(r, ps, phase, indices, mem);
        SettleStands(r, ps, Ranking(phase, Ranked(r, mem, indices)), mem);
      } else {
        assert todo == [todo[0]] + todo[1..];
        if Tried(mem, todo[0]) {
          LoadsOn(r, ps, phase, todo[0], todo[1..], indices, mem);
          SettleStands(r, ps, Loading(phase, todo[1..], indices), mem);
        }
      }
    case Ranking(phase, todo) =>
      hide Standing;
      if todo != [] {
        RankedStands(r, ps, phase, todo, mem);
      } else if ps[phase].hint && r.strict && r.pluginId.None? {
        assert RefusedAt(r, ps, phase, r.languageHint.value, mem);
      } else {
        LeavesPhase(r, ps, phase, mem);
        SettleStands(r, ps, Enter(phase + 1), mem);
      }
  }

  lemma {:induction false} RankedStands(r: Request, ps: seq<Phase>, phase: nat, todo: seq<nat>, mem: Memory)
    requires ValidPhases(r, ps) && WellFormed(r, ps, Ranking(phase, todo), mem) && Standing(r, ps, Ranking(phase, todo), mem)
    requires todo != [] && forall m :: 0 <= m < |ps| ==> PhaseIs(r, ps, m)
    ensures StandingStatus(r, ps, Settle(r, ps, Ranking(phase, todo), mem))
    decreases |ps| - phase, 0, |todo|, 0
  {
    hide PhaseIs, Standing;
    var index, rest := todo[0], todo[1..];
    assert todo == [index] + rest;
    if Allowed(r, mem.loaded[index]) && ps[phase].hint && HintMatches(r, mem, index) {
      assert MatchedAt(r, ps, phase, index, rest, r.languageHint.value, mem);
    } else if Allowed(r, mem.loaded[index]) && !ps[phase].hint && r.pluginId.None? && phase != |ps| - 1 && LoadedGeneric(mem, index) {
      var later := mem.(deferred := mem.deferred + {index});
      Defers(r, ps, phase, todo, mem, index);
      assert Dealt(r, ps, phase, later, index);
      RanksOn(r, ps, phase, index, rest, later);
      SettleStands(r, ps, Ranking(phase, rest), later);
    } else if Allowed(r, mem.loaded[index]) && !ps[phase].hint && index !in mem.probed {
      assert Unprobed(mem.(probed := mem.probed + {index}), index) == mem;
    } else {
      assert Dealt(r, ps, phase, mem, index);
      RanksOn(r, ps, phase, index, rest, mem);
      SettleStands(r, ps, Ranking(phase, rest), mem);
    }
  }

  /** What an event adds to the memory leaves the past as it was. */
  ghost predicate Grows(mem: Memory, later: Memory) {
    && (forall j :: j in mem.loaded ==> j in later.loaded && later.loaded[j] == mem.loaded[j])
    && (forall j :: j in later.loaded && Tried(mem, j) ==> j in mem.loaded)
    && mem.failed <= later.failed && mem.probed <= later.probed && mem.deferred == later.deferred
  }

  lemma {:induction false} OverGrows(r: Request, ps: seq<Phase>, phase: nat, mem: Memory, later: Memory)
    requires phase <= |ps| && Grows(mem, later) && Over(r, ps, phase, mem) && DeferredAreGeneric(mem)
    ensures Over(r, ps, phase, later) && DeferredAreGeneric(later)
  {
    forall m, j: nat | 0 <= m < phase && InPhase(r, ps, m, later, j) ensures Tried(later, j) && Dealt(r, ps, m, later, j) {
      assert InPhase(r, ps, m, mem, j);
    }
  }

  lemma {:induction false} LoadingGrows(r: Request, ps: seq<Phase>, phase: nat, todo: seq<nat>, indices: seq<nat>, mem: Memory, later: Memory)
    requires WellFormed(r, ps, Loading(phase, todo, indices), mem) && Standing(r, ps, Loading(phase, todo, indices), mem)
    requires Grows(mem, later)
    ensures WellFormed(r, ps, Loading(phase, todo, indices), later) && Standing(r, ps, Loading(phase, todo, indices), later)
  {
    OverGrows(r, ps, phase, mem, later);
    assert forall j: nat :: InPhase(r, ps, phase, mem, j) <==> InPhase(r, ps, phase, later, j);
    hide Over, InPhase, LoadsFirst;
  }

  lemma {:induction false} RankingGrows(r: Request, ps: seq<Phase>, phase: nat, todo: seq<nat>, mem: Memory, later: Memory)
    requires WellFormed(r, ps, Ranking(phase, todo), mem) && Standing(r, ps, Ranking(phase, todo), mem)
    requires Grows(mem, later) && later.loaded == mem.loaded
    ensures WellFormed(r, ps, Ranking(phase, todo), later) && Standing(r, ps, Ranking(phase, todo), later)
  {
    OverGrows(r, ps, phase, mem, later);
    assert forall j: nat :: InPhase(r, ps, phase, mem, j) <==> InPhase(r, ps, phase, later, j);
    assert forall j: nat :: Dealt(r, ps, phase, mem, j) ==> Dealt(r, ps, phase, later, j);
    assert forall a, b :: LoadedBefore(r, mem, a, b) <==> LoadedBefore(r, later, a, b);
    hide Over, InPhase, Dealt, LoadedBefore;
  }

  lemma {:induction false} LoadAnswered(r: Request, ps: seq<Phase>, s: Status, e: Event)
    requires ValidPhases(r, ps) && WellFormedStatus(r, ps, s) && StandingStatus(r, ps, s) && s.AwaitLoad?
    requires forall m :: 0 <= m < |ps| ==> PhaseIs(r, ps, m)
    requires !Closing(e) && !Answer(r, ps, s, e).Broken?
    ensures StandingStatus(r, ps, Answer(r, ps, s, e))
  {
    hide Settle, PhaseIs, Standing;
    var later := if e.Loaded? then s.mem.(loaded := s.mem.loaded[s.index := e.info], cursor := s.mem.cursor + 1)
                 else s.mem.(failed := s.mem.failed + {s.index}, cursor := s.mem.cursor + 1);
    assert Grows(s.mem, later);
    LoadingGrows(r, ps, s.phase, [s.index] + s.rest, s.indices, s.mem, later);
    LoadsOn(r, ps, s.phase, s.index, s.rest, s.indices, later);
    SettleStands(r, ps, Loading(s.phase, s.rest, s.indices), later);
  }

  lemma {:induction false} ProbeAnswered(r: Request, ps: seq<Phase>, s: Status, e: Event)
    requires ValidPhases(r, ps) && WellFormedStatus(r, ps, s) && StandingStatus(r, ps, s) && s.AwaitProbe?
    requires forall m :: 0 <= m < |ps| ==> PhaseIs(r, ps, m)
    requires !Closing(e) && !Answer(r, ps, s, e).Broken?
    ensures StandingStatus(r, ps, Answer(r, ps, s, e))
  {
    hide Settle, PhaseIs, Standing;
    var later := s.mem.(cursor := s.mem.cursor + 1);
    assert Grows(Unprobed(s.mem, s.index), later);
    RankingGrows(r, ps, s.phase, [s.index] + s.rest, Unprobed(s.mem, s.index), later);
    assert Dealt(r, ps, s.phase, later, s.index);
    RanksOn(r, ps, s.phase, s.index, s.rest, later);
    SettleStands(r, ps, Ranking(s.phase, s.rest), later);
  }

  /** A log whose status still waits does not end in a closing event. */
  lemma {:induction false} WaitingIsOpen(r: Request, log: seq<Event>)
    requires !StatusAfter(r, log).Broken? && !StatusAfter(r, log).Done?
    ensures Open(log)
  {
    if log != [] {
      hide Settle, Phases;
      var n := |log| - 1;
      assert log == log[..n] + [log[n]];
      StatusSnoc(r, log[..n], log[n]);
      AnswerAdvances(r, Phases(r), StatusAfter(r, log[..n]), log[n]);
    }
  }

  lemma {:induction false} AnswerStands(r: Request, ps: seq<Phase>, s: Status, e: Event)
    requires ValidPhases(r, ps) && WellFormedStatus(r, ps, s) && StandingStatus(r, ps, s)
    requires forall m :: 0 <= m < |ps| ==> PhaseIs(r, ps, m)
    requires !Closing(e) && !Answer(r, ps, s, e).Broken?
    ensures StandingStatus(r, ps, Answer(r, ps, s, e))
  {
    hide StandingStatus, Settle, PhaseIs;
    if s.AwaitLoad? {
      LoadAnswered(r, ps, s, e);
    } else {
      ProbeAnswered(r, ps, s, e);
    }
  }

  lemma {:induction false} StandsAll(r: Request, log: seq<Event>)
    requires !StatusAfter(r, log).Broken? && Open(log)
    ensures StandingStatus(r, Phases(r), StatusAfter(r, log))
    decreases |log|
  {
    hide Phases, Settle, StandingStatus, PhaseIs;
    var ps := Phases(r);
    PhasesAre(r);
    if log == [] {
      SettleStands(r, ps, Enter(0), START);
    } else {
      var n := |log| - 1;
      assert log == log[..n] + [log[n]];
      StatusSnoc(r, log[..n], log[n]);
      WaitingIsOpen(r, log[..n]);
      StandsAll(r, log[..n]);
      AnswerStands(r, ps, StatusAfter(r, log[..n]), log[n]);
    }
  }

  // ---- What the log says ----

  ghost predicate Attempted(log: seq<Event>, j: nat) {
    exists k :: 0 <= k < |log| && IsLoadEvent(log[k]) && log[k].index == j
  }

  ghost predicate LoadedAs(log: seq<Event>, j: nat, info: Info) {
    exists k :: 0 <= k < |log| && log[k] == Loaded(j, info)
  }

  ghost predicate HasDeclined(log: seq<Event>, j: nat) {
    exists k :: 0 <= k < |log| && Declined(log[k]) && log[k].index == j
  }

  predicate Permitted(r: Request, info: Info) {
    r.allowedPlugins.None? || info.grammar in r.allowedPlugins.value
  }

  ghost predicate Records(log: seq<Event>, s: Status)
    requires !s.Broken?
  {
    && (forall j: nat :: Attempted(log, j) <==> Tried(s.mem, j))
    && (forall j: nat, info :: LoadedAs(log, j, info) <==> j in s.mem.loaded && s.mem.loaded[j] == info)
    && (forall j: nat :: HasDeclined(log, j) <==> j in Answered(s))
  }

  lemma {:induction false} LogRecords(r: Request, log: seq<Event>)
    requires !StatusAfter(r, log).Broken? && Open(log)
    ensures Records(log, StatusAfter(r, log))
  {
    hide Settle, Phases, StatusAfter;
    ExplainsAll(r, log);
    var s := StatusAfter(r, log);
    forall j: nat ensures Attempted(log, j) <==> Tried(s.mem, j) {
      assert Attempted(log, j) <==> j in LoadsOf(log);
    }
    forall j: nat, info ensures LoadedAs(log, j, info) <==> j in s.mem.loaded && s.mem.loaded[j] == info {}
    forall j: nat ensures HasDeclined(log, j) <==> j in Answered(s) {
      assert HasDeclined(log, j) <==> j in ProbesOf(log);
    }
  }

  /** Everything known about a log that was not refused and is not closed by its last event. */
  lemma {:induction false} LogStands(r: Request, log: seq<Event>)
    requires Outcome(r, log).Ok? && (Open(log) || !IsTerminal(Outcome(r, log).action))
    ensures var ps, s := Phases(r), StatusAfter(r, log);
            && !s.Broken? && StandingStatus(r, ps, s) && Records(log, s)
            && StagesAre(r, ps)
  {
    hide Settle, Phases, StatusAfter, StandingStatus, PhaseIs, Records;
    PhasesAre(r);
    if !Open(log) { WaitingIsOpen(r, log); }
    StandsAll(r, log);
    LogRecords(r, log);
  }

  // ---- Loads ----

  ghost predicate StagesAre(r: Request, ps: seq<Phase>) {
    |ps| == Stages(r) && forall m :: 0 <= m < |ps| ==> PhaseIs(r, ps, m)
  }

  lemma {:induction false} InLoadStage(r: Request, ps: seq<Phase>, mem: Memory, j: nat)
    requires StagesAre(r, ps) && Admitted(r, j)
    ensures InPhase(r, ps, LoadStage(r, j), mem, j)
  {
    assert PhaseIs(r, ps, LoadStage(r, j));
    hide InRank;
  }

  lemma {:induction false} AwaitsOwnStage(r: Request, ps: seq<Phase>, s: Status)
    requires s.AwaitLoad? && WellFormedStatus(r, ps, s) && StandingStatus(r, ps, s) && StagesAre(r, ps)
    ensures Admitted(r, s.index) && s.phase == LoadStage(r, s.index)
  {
    var i := s.index;
    assert ([i] + s.rest)[0] == i;
    assert PhaseIs(r, ps, s.phase) && InPhase(r, ps, s.phase, s.mem, i);
    hide InRank, Dealt, StagesAre;
    assert i in ps[s.phase].indices;
    InLoadStage(r, ps, s.mem, i);
    assert LoadStage(r, i) >= s.phase;
  }

  lemma {:induction false} StageTried(r: Request, ps: seq<Phase>, s: Status, j: nat)
    requires s.AwaitLoad? && WellFormedStatus(r, ps, s) && StandingStatus(r, ps, s) && StagesAre(r, ps)
    requires Admitted(r, j) && LoadStage(r, j) <= s.phase && !Tried(s.mem, j)
    ensures LoadStage(r, j) == s.phase && (j == s.index || !LoadsFirst(r, ps, s.phase, j, s.index))
  {
    var todo := [s.index] + s.rest;
    InLoadStage(r, ps, s.mem, j);
    hide InPhase, Dealt, LoadsFirst, PhaseIs;
    if j != s.index {
      var k :| 0 <= k < |todo| && todo[k] == j;
      assert todo[0] == s.index;
    }
  }

  /** The stage whose parsers are loaded by index instead of by rank. */
  predicate ByIndex(r: Request, stage: nat) {
    r.pluginId.None? && stage == Stages(r) - 1
  }

  /** A parser is asked for only when all admitted parsers of earlier stages, and those of its own stage
      that come before it, have been tried. */
  lemma {:induction false} LoadsInOrder(r: Request, log: seq<Event>, i: nat, j: nat)
    requires Outcome(r, log) == Ok(Load(i)) && Admitted(r, j)
    ensures Admitted(r, i) && !Attempted(log, i)
    ensures LoadStage(r, j) < LoadStage(r, i) ==> Attempted(log, j)
    ensures LoadStage(r, j) == LoadStage(r, i) && !ByIndex(r, LoadStage(r, i)) && EntryOutranks(r.entries[j], r.entries[i]) ==>
              Attempted(log, j)
    ensures LoadStage(r, j) == LoadStage(r, i) && ByIndex(r, LoadStage(r, i)) && j < i ==> Attempted(log, j)
  {
    hide Phases, StatusAfter, Settle, StandingStatus, PhaseIs;
    LogStands(r, log);
    var ps, s := Phases(r), StatusAfter(r, log);
    AwaitsOwnStage(r, ps, s);
    if LoadStage(r, j) <= s.phase && !Tried(s.mem, j) {
      StageTried(r, ps, s, j);
    }
    CatalogueBeforeIs(r.entries, j, i);
    hide EntryOutranks, LoadStage, CatalogueBefore, Eligible;
  }

  /** Before a parser of a later stage is asked for, every loaded and permitted parser whose probing
      stage is earlier has declined. */
  lemma {:induction false} DeclineBeforeNextLoad(r: Request, log: seq<Event>, i: nat, j: nat, info: Info)
    requires Outcome(r, log) == Ok(Load(i)) && i < |r.entries| && j < |r.entries|
    requires LoadedAs(log, j, info) && Permitted(r, info) && ProbeStage(r, j, info) < LoadStage(r, i)
    ensures HasDeclined(log, j)
  {
    hide Phases, StatusAfter, Settle, StandingStatus, StagesAre;
    LogStands(r, log);
    var ps, s := Phases(r), StatusAfter(r, log);
    AwaitsOwnStage(r, ps, s);
    DealtBefore(r, ps, s, j);
  }

  lemma {:induction false} DealtBefore(r: Request, ps: seq<Phase>, s: Status, j: nat)
    requires s.AwaitLoad? && WellFormedStatus(r, ps, s) && StandingStatus(r, ps, s) && StagesAre(r, ps)
    requires j < |r.entries| && j in s.mem.loaded && Allowed(r, s.mem.loaded[j])
    requires r.pluginId.None? && ProbeStage(r, j, s.mem.loaded[j]) < s.phase
    ensures j in s.mem.probed
  {
    var m := Offset(r) + Tier(r, j);
    assert PhaseIs(r, ps, m) && InTurn(r, m, j);
    assert InPhase(r, ps, m, s.mem, j);
    hide InRank;
  }

  // ---- Probes ----

  lemma {:induction false} ProbesOwnStage(r: Request, ps: seq<Phase>, s: Status)
    requires s.AwaitProbe? && WellFormedStatus(r, ps, s) && StandingStatus(r, ps, s) && StagesAre(r, ps)
    ensures s.phase == ProbeStage(r, s.index, s.mem.loaded[s.index]) && Admitted(r, s.index)
    ensures r.pluginId.None? || r.languageHint.None?
  {
    var i := s.index;
    assert ([i] + s.rest)[0] == i;
    assert InPhase(r, ps, s.phase, Unprobed(s.mem, i), i);
    assert PhaseIs(r, ps, s.phase);
    hide InRank, Dealt, Over;
  }

  lemma {:induction false} EarlierProbed(r: Request, ps: seq<Phase>, s: Status, j: nat)
    requires s.AwaitProbe? && WellFormedStatus(r, ps, s) && StandingStatus(r, ps, s) && StagesAre(r, ps)
    requires s.phase == ProbeStage(r, s.index, s.mem.loaded[s.index])
    requires Admitted(r, j) && j in s.mem.loaded && Allowed(r, s.mem.loaded[j])
    requires var stage := ProbeStage(r, j, s.mem.loaded[j]);
             stage < s.phase || (stage == s.phase && LoadedBefore(r, s.mem, j, s.index))
    ensures j in Answered(s)
  {
    var mem, todo := Unprobed(s.mem, s.index), [s.index] + s.rest;
    var m := if r.pluginId.Some? then 0 else Offset(r) + Tier(r, j);
    assert PhaseIs(r, ps, m) && InTurn(r, m, j);
    assert InPhase(r, ps, m, mem, j);
    assert LoadedBefore(r, mem, j, s.index) <==> LoadedBefore(r, s.mem, j, s.index);
    LoadedBeforeIs(r, s.mem, s.index, s.index);
    hide InRank, LoadedBefore, Outranks, InTurn;
    if m < s.phase {
      assert Dealt(r, ps, m, mem, j);
    }
    if j in todo {
      var k :| 0 <= k < |todo| && todo[k] == j;
      assert todo[0] == s.index;
    }
  }

  lemma {:induction false} StageLoaded(r: Request, ps: seq<Phase>, s: Status, j: nat)
    requires s.AwaitProbe? && WellFormedStatus(r, ps, s) && StandingStatus(r, ps, s) && StagesAre(r, ps)
    requires Admitted(r, j) && LoadStage(r, j) <= s.phase
    ensures Tried(s.mem, j)
  {
    InLoadStage(r, ps, Unprobed(s.mem, s.index), j);
    hide InPhase, Dealt, PhaseIs;
  }

  /** What is probed has been loaded, is admitted and permitted, and has not declined; an explicit plugin
      request with a hint never probes. */
  lemma {:induction false} ProbedWasLoaded(r: Request, log: seq<Event>, i: nat, sample: seq<Byte>) returns (info: Info)
    requires Outcome(r, log) == Ok(Probe(i, sample))
    ensures Admitted(r, i) && LoadedAs(log, i, info) && Permitted(r, info) && !HasDeclined(log, i)
    ensures r.pluginId.None? || r.languageHint.None?
  {
    hide Phases, StatusAfter, Settle, StagesAre;
    LogStands(r, log);
    var s := StatusAfter(r, log);
    ProbesOwnStage(r, Phases(r), s);
    info := s.mem.loaded[i];
    hide Standing;
  }

  /** A parser is probed only when all admitted parsers loaded at earlier stages or its own have been
      tried, and every permitted one that comes before it, in an earlier stage or by rank in its own,
      has declined. */
  lemma {:induction false} ProbesInOrder(r: Request, log: seq<Event>, i: nat, sample: seq<Byte>, info: Info, j: nat)
    requires Outcome(r, log) == Ok(Probe(i, sample)) && Admitted(r, i) && LoadedAs(log, i, info) && Admitted(r, j)
    ensures LoadStage(r, j) <= ProbeStage(r, i, info) ==> Attempted(log, j)
    ensures forall other :: LoadedAs(log, j, other) && Permitted(r, other) &&
                            (ProbeStage(r, j, other) < ProbeStage(r, i, info) ||
                             (ProbeStage(r, j, other) == ProbeStage(r, i, info) &&
                              Outranks(other.languages, other.priority, r.entries[j].id,
                                       info.languages, info.priority, r.entries[i].id)))
                            ==> HasDeclined(log, j)
  {
    hide Phases, StatusAfter, Settle, StandingStatus, StagesAre, Outranks, LoadStage, ProbeStage;
    LogStands(r, log);
    var ps, s := Phases(r), StatusAfter(r, log);
    ProbesOwnStage(r, ps, s);
    if LoadStage(r, j) <= s.phase { StageLoaded(r, ps, s, j); }
    forall other | LoadedAs(log, j, other) && Permitted(r, other) &&
                   (ProbeStage(r, j, other) < ProbeStage(r, i, info) ||
                    (ProbeStage(r, j, other) == ProbeStage(r, i, info) &&
                     Outranks(other.languages, other.priority, r.entries[j].id,
                              info.languages, info.priority, r.entries[i].id)))
      ensures HasDeclined(log, j)
    {
      LoadedBeforeIs(r, s.mem, j, i);
      EarlierProbed(r, ps, s, j);
    }
  }

  // ---- The hint ----

  /** The parsers of the hint stage. */
  predicate Hinted(r: Request, j: nat) {
    r.languageHint.Some? && j < |r.entries| && if r.pluginId.Some? then Eligible(r, j) else Listed(r, j)
  }

  /** A permitted parser speaks the hinted language: it declares it, or, without a plugin, it declares
      itself generic and the catalogue lists the language for it. */
  predicate Speaks(r: Request, j: nat, info: Info) {
    r.languageHint.Some? && Permitted(r, info) && j < |r.entries| &&
    (r.languageHint.value in info.languages ||
     (r.pluginId.None? && "generic" in info.languages && r.languageHint.value in r.entries[j].languages))
  }

  lemma {:induction false} InHintPhase(r: Request, ps: seq<Phase>, mem: Memory, j: nat)
    requires StagesAre(r, ps) && r.languageHint.Some?
    ensures ps[0].hint && (InPhase(r, ps, 0, mem, j) <==> Hinted(r, j))
    ensures forall m :: 0 < m < |ps| ==> !ps[m].hint
  {
    assert PhaseIs(r, ps, 0);
    hide InRank;
    forall m | 0 < m < |ps| ensures !ps[m].hint {
      assert PhaseIs(r, ps, m);
    }
  }

  /** The hint stage has been left: all its parsers were tried, and none spoke the hint. */
  ghost predicate HintPassed(r: Request, mem: Memory) {
    && r.pluginId.None? && !r.strict
    && forall j: nat :: Hinted(r, j) ==> Tried(mem, j) && (j in mem.loaded ==> !Speaks(r, j, mem.loaded[j]))
  }

  lemma {:induction false} OverPassesHint(r: Request, ps: seq<Phase>, phase: nat, mem: Memory, j: nat)
    requires r.languageHint.Some? && StagesAre(r, ps) && 0 < phase <= |ps| && Over(r, ps, phase, mem) && Hinted(r, j)
    ensures Tried(mem, j) && (j in mem.loaded ==> !Speaks(r, j, mem.loaded[j]))
  {
    InHintPhase(r, ps, mem, j);
    assert Dealt(r, ps, 0, mem, j);
  }

  lemma {:induction false} HintStage(r: Request, ps: seq<Phase>, s: Status)
    requires r.languageHint.Some? && (s.AwaitLoad? || s.AwaitProbe?)
    requires WellFormedStatus(r, ps, s) && StandingStatus(r, ps, s) && StagesAre(r, ps)
    ensures HintPassed(r, s.mem) || (s.AwaitLoad? && s.phase == 0 && Hinted(r, s.index) && !Tried(s.mem, s.index))
  {
    var mem := if s.AwaitProbe? then Unprobed(s.mem, s.index) else s.mem;
    InHintPhase(r, ps, mem, s.index);
    assert s.AwaitLoad? ==> ([s.index] + s.rest)[0] == s.index;
    assert Over(r, ps, s.phase, mem);
    assert s.phase > 0 ==> r.pluginId.None? && !r.strict;
    hide Over, Dealt, InPhase, LoadedBefore, LoadsFirst, InRank;
    if s.phase > 0 {
      forall j: nat | Hinted(r, j) ensures Tried(mem, j) && (j in mem.loaded ==> !Speaks(r, j, mem.loaded[j])) {
        OverPassesHint(r, ps, s.phase, mem, j);
      }
    }
  }

  /** The first speaker: hinted, loaded, speaking the hint, and outranked by no other such parser. */
  ghost predicate FirstSpeaker(r: Request, loaded: map<nat, Info>, i: nat) {
    && Hinted(r, i) && i in loaded && Speaks(r, i, loaded[i])
    && forall j: nat :: Hinted(r, j) && j in loaded && Speaks(r, j, loaded[j]) ==>
         !Outranks(loaded[j].languages, loaded[j].priority, r.entries[j].id,
                   loaded[i].languages, loaded[i].priority, r.entries[i].id)
  }

  lemma {:induction false} MatchIsFirst(r: Request, ps: seq<Phase>, phase: nat, i: nat, rest: seq<nat>, language: string, mem: Memory)
    requires WellFormed(r, ps, Ranking(phase, [i] + rest), mem) && StagesAre(r, ps)
    requires MatchedAt(r, ps, phase, i, rest, language, mem)
    ensures FirstSpeaker(r, mem.loaded, i) && r.languageHint == Some(language)
    ensures forall j: nat :: Hinted(r, j) ==> Tried(mem, j)
  {
    var todo := [i] + rest;
    assert todo[0] == i;
    InHintPhase(r, ps, mem, i);
    forall j: nat | Hinted(r, j)
      ensures Tried(mem, j)
      ensures j in mem.loaded && Speaks(r, j, mem.loaded[j]) ==> !LoadedBefore(r, mem, j, i)
    {
      InHintPhase(r, ps, mem, j);
      LoadedBeforeIs(r, mem, i, i);
      hide LoadedBefore, Outranks, InPhase;
      if j in todo {
        var k :| 0 <= k < |todo| && todo[k] == j;
      }
    }
    forall j: nat | Hinted(r, j) && j in mem.loaded { LoadedBeforeIs(r, mem, j, i); }
    hide LoadedBefore, Outranks, Standing;
  }

  lemma {:induction false} NotFoundHinted(r: Request, ps: seq<Phase>, identity: string, mem: Memory)
    requires r.languageHint.Some? && StagesAre(r, ps) && Concluded(r, ps, NotFound(identity), mem)
    ensures forall j: nat :: Hinted(r, j) ==> Tried(mem, j) && (j in mem.loaded ==> !Speaks(r, j, mem.loaded[j]))
    ensures identity == if r.pluginId.Some? then r.pluginId.value else if r.strict then r.languageHint.value else "unknown"
  {
    InHintPhase(r, ps, mem, 0);
    if phase: nat :| WellFormed(r, ps, Ranking(phase, []), mem) && RefusedAt(r, ps, phase, identity, mem) {
      forall j: nat | Hinted(r, j) ensures Tried(mem, j) && (j in mem.loaded ==> !Speaks(r, j, mem.loaded[j])) {
        InHintPhase(r, ps, mem, j);
        assert Dealt(r, ps, 0, mem, j);
      }
    } else {
      forall j: nat | Hinted(r, j) ensures Tried(mem, j) && (j in mem.loaded ==> !Speaks(r, j, mem.loaded[j])) {
        OverPassesHint(r, ps, |ps|, mem, j);
      }
    }
  }

  /** The first parser of the hint stage that speaks the hint, told from the log. */
  ghost predicate FirstInLog(r: Request, log: seq<Event>, i: nat) {
    Hinted(r, i) && exists info :: LoadedAs(log, i, info) && Speaks(r, i, info) && NoneOutranks(r, log, i, info)
  }

  ghost predicate NoneOutranks(r: Request, log: seq<Event>, i: nat, info: Info)
    requires i < |r.entries|
  {
    forall j: nat, other :: Hinted(r, j) && LoadedAs(log, j, other) && Speaks(r, j, other) ==>
      !Outranks(other.languages, other.priority, r.entries[j].id, info.languages, info.priority, r.entries[i].id)
  }

  ghost predicate SomeSpeaks(r: Request, log: seq<Event>) {
    exists j: nat, info :: Hinted(r, j) && LoadedAs(log, j, info) && Speaks(r, j, info)
  }

  /** A hint is decided before anything else. As long as a parser of the hint stage is untried, such a
      parser is asked for. Once all are tried, the first one that speaks the hint is selected; if none
      does, an explicit plugin or a strict request ends there, and any other goes on. */
  lemma {:induction false} HintDecides(r: Request, log: seq<Event>)
    requires r.languageHint.Some? && Outcome(r, log).Ok? && Open(log)
    ensures var a := Outcome(r, log).action;
            if exists j: nat :: Hinted(r, j) && !Attempted(log, j) then a.Load? && Hinted(r, a.index) && !Attempted(log, a.index)
            else if SomeSpeaks(r, log) then a.Selected? && a.language == r.languageHint.value && FirstInLog(r, log, a.index)
            else if r.pluginId.Some? then a == NotFound(r.pluginId.value)
            else if r.strict then a == NotFound(r.languageHint.value)
            else !a.Selected? && (a.NotFound? ==> a.identity == "unknown")
  {
    hide Phases, StatusAfter, Settle, StagesAre, Hinted, Speaks, Standing, Attempted, LoadedAs;
    LogStands(r, log);
    var ps, s := Phases(r), StatusAfter(r, log);
    if s.AwaitLoad? || s.AwaitProbe? {
      HintStage(r, ps, s);
      hide StandingStatus, WellFormedStatus;
    } else {
      match s.action
      case NotFound(identity) =>
        NotFoundHinted(r, ps, identity, s.mem);
        hide StandingStatus, WellFormedStatus;
      case Selected(i, language) =>
        var phase, rest :| WellFormed(r, ps, Ranking(phase, [i] + rest), s.mem) && MatchedAt(r, ps, phase, i, rest, language, s.mem);
        MatchIsFirst(r, ps, phase, i, rest, language, s.mem);
        hide StandingStatus, WellFormedStatus, Concluded, MatchedAt;
        assert FirstInLog(r, log, i) by { FirstSpeakerInLog(r, log, s, i); }
    }
  }

  lemma {:induction false} FirstSpeakerInLog(r: Request, log: seq<Event>, s: Status, i: nat)
    requires !s.Broken? && Records(log, s) && FirstSpeaker(r, s.mem.loaded, i)
    ensures FirstInLog(r, log, i)
  {
    hide Speaks, Outranks, Attempted, LoadedAs, HasDeclined;
    var info := s.mem.loaded[i];
    assert LoadedAs(log, i, info);
    forall j: nat, other | Hinted(r, j) && LoadedAs(log, j, other) && Speaks(r, j, other)
      ensures !Outranks(other.languages, other.priority, r.entries[j].id, info.languages, info.priority, r.entries[i].id)
    {}
    assert NoneOutranks(r, log, i, info);
  }

  // ---- The other outcomes ----

  /** Nothing was found: the request was strict and its hint found no parser, or every admitted parser
      was tried, and every permitted one that was loaded was probed and declined. */
  lemma {:induction false} NotFoundMeans(r: Request, log: seq<Event>, identity: string, j: nat)
    requires Outcome(r, log) == Ok(NotFound(identity)) && Open(log) && Admitted(r, j)
    ensures r.languageHint.None? || (!r.strict && r.pluginId.None?) ==>
              Attempted(log, j) && forall info :: LoadedAs(log, j, info) && Permitted(r, info) ==> HasDeclined(log, j)
    ensures identity == if r.pluginId.Some? then r.pluginId.value
                        else if r.languageHint.Some? && r.strict then r.languageHint.value
                        else "unknown"
  {
    hide Phases, StatusAfter, Settle, StagesAre;
    LogStands(r, log);
    var ps, s := Phases(r), StatusAfter(r, log);
    if r.languageHint.Some? {
      NotFoundHinted(r, ps, identity, s.mem);
    }
    if r.languageHint.None? || (!r.strict && r.pluginId.None?) {
      assert Over(r, ps, |ps|, s.mem) && DeferredAreGeneric(s.mem);
      AllDealt(r, ps, s.mem, j);
    }
  }

  lemma {:induction false} AllDealt(r: Request, ps: seq<Phase>, mem: Memory, j: nat)
    requires StagesAre(r, ps) && Over(r, ps, |ps|, mem) && Admitted(r, j)
    requires r.languageHint.Some? ==> r.pluginId.None?
    ensures Tried(mem, j) && (j in mem.loaded && Allowed(r, mem.loaded[j]) ==> j in mem.probed)
  {
    InLoadStage(r, ps, mem, j);
    var m := if r.pluginId.Some? then 0 else Offset(r) + Tier(r, j);
    assert PhaseIs(r, ps, m) && InTurn(r, m, j);
    assert InPhase(r, ps, m, mem, j) && Dealt(r, ps, m, mem, j);
    hide InRank, InTurn;
    if r.pluginId.None? && j in mem.deferred {
      assert PhaseIs(r, ps, |ps| - 1);
      assert InPhase(r, ps, |ps| - 1, mem, j) && Dealt(r, ps, |ps| - 1, mem, j);
    }
  }

  lemma {:induction false} ClosedAnswer(r: Request, ps: seq<Phase>, s: Status, e: Event)
    requires ValidPhases(r, ps) && WellFormedStatus(r, ps, s) && Closing(e) && !s.Broken? && !Answer(r, ps, s, e).Broken?
    ensures Answer(r, ps, s, e).Done?
    ensures Answer(r, ps, s, e).action == if e.Probed? then Selected(e.index, e.language.value) else Failure(s.mem.cursor)
  {
    hide Settle;
  }

  /** The outcome of a log that its last event closes, and only of such a log: a claimed language is
      selected, a failed probe or fatal failure to load is handed back. */
  lemma {:induction false} ClosedOutcome(r: Request, log: seq<Event>)
    requires Outcome(r, log).Ok?
    ensures var a := Outcome(r, log).action;
            if Open(log) then !a.Failure?
            else if log[|log| - 1].Probed? then a == Selected(log[|log| - 1].index, log[|log| - 1].language.value)
            else a == Failure(|log| - 1)
  {
    hide Phases, Settle, StatusAfter, WellFormedStatus;
    if Open(log) {
      hide StagesAre, Records;
      LogStands(r, log);
    } else {
      var n := |log| - 1;
      assert log == log[..n] + [log[n]];
      StatusSnoc(r, log[..n], log[n]);
      ExplainsAll(r, log[..n]);
      hide Answer;
      ClosedAnswer(r, Phases(r), StatusAfter(r, log[..n]), log[n]);
    }
  }

  // ---- Refusals ----

  lemma {:induction false} NextStatus(r: Request, ps: seq<Phase>, log: seq<Event>, s: Status, e: Event)
    requires ValidPhases(r, ps) && WellFormedStatus(r, ps, s) && !s.Broken? && (s.Done? || Told(log, s.mem.loaded))
    ensures var t := Answer(r, ps, s, e);
            if s.Done? then t == Broken(Unsolicited)
            else if s.index != e.index || s.AwaitLoad? != IsLoadEvent(e) then t == Broken(if s.AwaitLoad? then OutOfOrderLoad else OutOfOrderProbe)
            else if HonestReply(log, e) then !t.Broken?
            else t == Broken(if e.Loaded? then EmptyIdentity else UndeclaredLanguage(e.index, e.language.value))
  {
    hide Settle;
  }

  /** How the next event of an accepted log is received: only an honest reply to what was asked is taken, and every
      other event has its own error. */
  lemma {:induction false} NextEvent(r: Request, log: seq<Event>, e: Event)
    requires Outcome(r, log).Ok?
    ensures var a, next := Outcome(r, log).action, Outcome(r, log + [e]);
            if IsTerminal(a) then next == Err(if |log| == 2 * |r.entries| then TooManyEvents else Unsolicited)
            else if !Matches(a, e) then next == Err(if a.Load? then OutOfOrderLoad else OutOfOrderProbe)
            else if HonestReply(log, e) then next.Ok?
            else next == Err(if e.Loaded? then EmptyIdentity else UndeclaredLanguage(e.index, e.language.value))
  {
    var s := StatusAfter(r, log);
    hide Settle, Phases, StatusAfter, Answer, HonestReply;
    StatusSnoc(r, log, e);
    if !s.Done? {
      WaitingLogHasRoom(r, log);
      ExplainsAll(r, log);
    }
    NextStatus(r, Phases(r), log, s, e);
    hide Explains;
  }

  lemma {:induction false} BrokenBy(r: Request, log: seq<Event>)
    ensures StatusAfter(r, log).Broken? ==> StatusAfter(r, log).error !in {TooManyEvents, InvalidCatalogue}
  {
    hide Settle, Phases;
    if log != [] {
      var n := |log| - 1;
      assert log == log[..n] + [log[n]];
      StatusSnoc(r, log[..n], log[n]);
      BrokenBy(r, log[..n]);
    }
  }

  ghost predicate ProperIdentities(entries: seq<Candidate>) {
    && (forall i :: 0 <= i < |entries| ==> entries[i].id != "")
    && (forall i, j :: 0 <= i < |entries| && 0 <= j < |entries| && entries[i].id == entries[j].id ==> i == j)
  }

  /** A log that is too long, or a catalogue with an empty or repeated identity, is refused whatever was reported. */
  lemma {:induction false} RefusedUnread(r: Request, log: seq<Event>)
    ensures Outcome(r, log) == Err(TooManyEvents) <==> |log| > 2 * |r.entries|
    ensures Outcome(r, log) == Err(InvalidCatalogue) <==> |log| <= 2 * |r.entries| && !ProperIdentities(r.entries)
  {
    hide StatusAfter, Phases;
    BrokenBy(r, log);
  }

  // ---- Two readings of the order ----

  /** Without plugin and hint, when a specific parser whose file name does not match is loaded, every
      specific one whose file name matches has been tried, and has declined if it was loaded, is
      permitted and does not declare itself generic. */
  lemma {:induction false} FileNamesFirst(r: Request, log: seq<Event>, k: nat, j: nat)
    requires r.pluginId.None? && r.languageHint.None? && Outcome(r, log).Ok?
    requires k < |log| && IsLoadEvent(log[k]) && log[k].index < |r.entries| && j < |r.entries|
    requires var e := r.entries[log[k].index]; "generic" !in e.languages && !e.matchesFilename
    requires "generic" !in r.entries[j].languages && r.entries[j].matchesFilename
    ensures Attempted(log[..k], j)
    ensures forall info :: LoadedAs(log[..k], j, info) && Permitted(r, info) && "generic" !in info.languages ==> HasDeclined(log[..k], j)
  {
    hide Outcome;
    var i := log[k].index;
    PrefixAsksForNext(r, log, k);
    LoadsInOrder(r, log[..k], i, j);
    forall info | LoadedAs(log[..k], j, info) && Permitted(r, info) && "generic" !in info.languages ensures HasDeclined(log[..k], j) {
      DeclineBeforeNextLoad(r, log[..k], i, j, info);
    }
  }

  /** Without a plugin, a parser that loaded as generic is probed only after every specific parser that
      was loaded and is permitted has been probed and has declined. */
  lemma {:induction false} GenericProbedLast(r: Request, log: seq<Event>, g: nat, s: nat)
    requires r.pluginId.None? && Outcome(r, log).Ok? && Outcome(r, log).action.Probe?
    requires g < |log| && log[g].Loaded? && log[g].index == Outcome(r, log).action.index && "generic" in log[g].info.languages
    requires s < |log| && log[s].Loaded? && Permitted(r, log[s].info) && "generic" !in log[s].info.languages
    ensures exists k :: 0 <= k < |log| && Declined(log[k]) && log[k].index == log[s].index
  {
    hide Outcome;
    var a := Outcome(r, log).action;
    EachParserOnce(r, log);
    assert LoadedAs(log, log[g].index, log[g].info) && LoadedAs(log, log[s].index, log[s].info);
    var info := ProbedWasLoaded(r, log, a.index, a.sample);
    ProbesInOrder(r, log, a.index, a.sample, log[g].info, log[s].index);
  }
}
