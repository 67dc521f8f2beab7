/** Replayable parser selection. The engine keeps no state between calls: it re-derives everything
    from the event log each time. The reference is a state machine that consumes one event at a
    time; `NextAction` replays a whole log and must agree with it. */
module FilenameSelection {
  import opened Common

  /** `matchesFilename` is the verdict of the file-name matcher for this entry. */
  datatype Candidate = Candidate(id: string, aliases: seq<string>, languages: seq<string>, priority: int,
                                 matchesFilename: bool)

  type Byte = b: nat | b < 256

  datatype Request = Request(entries: seq<Candidate>, content: seq<Byte>, oldContent: seq<Byte>,
                             languageHint: Option<string>, pluginId: Option<string>, strict: bool,
                             allowedPlugins: Option<seq<string>>)

  datatype Event =
    | Loaded(index: nat, info: Info)
    | LoadFailed(index: nat, terminal: bool)
    | Probed(index: nat, language: Option<string>)
    | ProbeFailed(index: nat)

  /** What a loaded parser declares about itself. */
  datatype Info = Info(grammar: string, languages: seq<string>, priority: int)

  datatype Action =
    | Load(index: nat)
    | Probe(index: nat, sample: seq<Byte>)
    | Selected(index: nat, language: string)
    | NotFound(identity: string)
    | Failure(event: nat)

  predicate IsTerminal(a: Action) {
    a.Selected? || a.NotFound? || a.Failure?
  }

  datatype Error =
    | TooManyEvents | InvalidCatalogue | EmptyIdentity | OutOfOrderLoad | OutOfOrderProbe
    | UndeclaredLanguage(index: nat, language: string) | Unsolicited

  datatype Result = Ok(action: Action) | Err(error: Error)

  const GENERIC := "generic"

  predicate Within(s: seq<nat>, n: nat) {
    forall k :: 0 <= k < |s| ==> s[k] < n
  }

  // ---- Candidate planning (parser_routing) ----

  /** Nonempty, pairwise different identities. */
  predicate ValidCatalogue(entries: seq<Candidate>) {
    forall i :: 0 <= i < |entries| ==> entries[i].id != "" && (forall j :: 0 <= j < i ==> entries[j].id != entries[i].id)
  }

  predicate StringLess(a: string, b: string) {
    b != "" && (a == "" || a[0] < b[0] || (a[0] == b[0] && StringLess(a[1..], b[1..])))
  }

  /** Ranking: generic last, then higher priority, then smaller identity. */
  predicate Before(genericA: bool, priorityA: int, idA: string, genericB: bool, priorityB: int, idB: string) {
    (!genericA && genericB) ||
    (genericA == genericB && (priorityA > priorityB || (priorityA == priorityB && StringLess(idA, idB))))
  }

  predicate CatalogueBefore(entries: seq<Candidate>, a: nat, b: nat) {
    a < |entries| && b < |entries| &&
    Before(GENERIC in entries[a].languages, entries[a].priority, entries[a].id,
           GENERIC in entries[b].languages, entries[b].priority, entries[b].id)
  }

  function CatalogueOrder(entries: seq<Candidate>): (nat, nat) -> bool {
    (a: nat, b: nat) => CatalogueBefore(entries, a, b)
  }

  /** Stable sorting by a ranking. */
  function InsertBy(less: (nat, nat) -> bool, x: nat, ys: seq<nat>): (zs: seq<nat>)
    ensures forall z: nat :: z in zs <==> z == x || z in ys
    ensures |zs| == |ys| + 1
  {
    if ys == [] || !less(ys[0], x) then [x] + ys else [ys[0]] + InsertBy(less, x, ys[1..])
  }

  function SortBy(less: (nat, nat) -> bool, xs: seq<nat>): (zs: seq<nat>)
    ensures forall z: nat :: z in zs <==> z in xs
    ensures |zs| == |xs|
  {
    if xs == [] then [] else InsertBy(less, xs[0], SortBy(less, xs[1..]))
  }

  ghost predicate SortedBy(less: (nat, nat) -> bool, s: seq<nat>) {
    forall i, j :: 0 <= i < j < |s| ==> !less(s[j], s[i])
  }

  /** A ranking never puts `c` before `a` without `b` noticing. */
  ghost predicate Ranks(less: (nat, nat) -> bool, s: seq<nat>) {
    && (forall a, b, c :: a in s && b in s && c in s && less(a, c) ==> less(a, b) || less(b, c))
    && (forall a, b :: a in s && b in s && less(a, b) ==> !less(b, a))
  }

  lemma {:induction false} InsertBySorted(less: (nat, nat) -> bool, x: nat, ys: seq<nat>)
    requires Ranks(less, [x] + ys) && SortedBy(less, ys)
    ensures SortedBy(less, InsertBy(less, x, ys))
  {
    var all := [x] + ys;
    assert x == all[0] && forall y :: y in ys ==> y in all;
    if ys == [] {
    } else if !less(ys[0], x) {
      forall j | 0 <= j < |ys| ensures !less(ys[j], x) {
        assert ys[j] in all && ys[0] in all;
        assert j > 0 ==> !less(ys[j], ys[0]);
      }
    } else {
      assert forall y :: y in [x] + ys[1..] ==> y in all;
      InsertBySorted(less, x, ys[1..]);
      var zs := InsertBy(less, x, ys[1..]);
      forall j | 0 <= j < |zs| ensures !less(zs[j], ys[0]) {
        assert zs[j] in zs;
        if zs[j] != x {
          var k :| 0 <= k < |ys[1..]| && ys[1..][k] == zs[j];
          assert ys[k + 1] == zs[j];
        } else {
          assert ys[0] in all;
        }
      }
    }
  }

  lemma {:induction false} SortBySorted(less: (nat, nat) -> bool, xs: seq<nat>)
    requires Ranks(less, xs)
    ensures SortedBy(less, SortBy(less, xs))
  {
    if xs != [] {
      SortBySorted(less, xs[1..]);
      assert forall y :: y in [xs[0]] + SortBy(less, xs[1..]) ==> y in xs;
      InsertBySorted(less, xs[0], SortBy(less, xs[1..]));
    }
  }

  lemma {:induction false} StringLessOrders(a: string, b: string, c: string)
    ensures StringLess(a, c) ==> StringLess(a, b) || StringLess(b, c)
    ensures StringLess(a, b) ==> !StringLess(b, a)
  {
    if a != [] && b != [] {
      StringLessOrders(a[1..], b[1..], if c == "" then "" else c[1..]);
    }
  }

  function Ordered(entries: seq<Candidate>, xs: seq<nat>): (zs: seq<nat>)
    requires Within(xs, |entries|)
    ensures Within(zs, |entries|)
    ensures forall z: nat :: z in zs <==> z in xs
    ensures SortedBy(CatalogueOrder(entries), zs)
  {
    var less := CatalogueOrder(entries);
    CatalogueRanks(entries, xs);
    SortBySorted(less, xs);
    var zs := SortBy(less, xs);
    assert forall z :: z in zs ==> z in xs;
    assert forall k :: 0 <= k < |zs| ==> zs[k] in zs;
    zs
  }

  lemma {:induction false} CatalogueRanks(entries: seq<Candidate>, xs: seq<nat>)
    requires Within(xs, |entries|)
    ensures Ranks(CatalogueOrder(entries), xs)
  {
    forall a, b, c | a in xs && b in xs && c in xs
      ensures CatalogueBefore(entries, a, c) ==> CatalogueBefore(entries, a, b) || CatalogueBefore(entries, b, c)
      ensures CatalogueBefore(entries, a, b) ==> !CatalogueBefore(entries, b, a)
    {
      StringLessOrders(entries[a].id, entries[b].id, entries[c].id);
    }
  }

  /** The indices below `n` that satisfy `keep`, ascending. */
  function Select(n: nat, keep: nat -> bool): (s: seq<nat>)
    ensures Within(s, n)
    ensures forall i: nat :: i in s <==> i < n && keep(i)
    ensures forall i, j :: 0 <= i < j < |s| ==> s[i] < s[j]
  {
    if n == 0 then [] else Select(n - 1, keep) + (if keep(n - 1) then [n - 1] else [])
  }

  function Filter(s: seq<nat>, n: nat, keep: nat -> bool): (t: seq<nat>)
    requires Within(s, n)
    ensures Within(t, n)
    ensures forall i: nat :: i in t <==> i in s && keep(i)
  {
    if s == [] then [] else (if keep(s[0]) then [s[0]] else []) + Filter(s[1..], n, keep)
  }

  function FilenameCandidates(entries: seq<Candidate>): (s: seq<nat>)
    ensures Within(s, |entries|)
  {
    Ordered(entries, Select(|entries|, (i: nat) => i < |entries| && entries[i].matchesFilename))
  }

  function PluginShortlist(entries: seq<Candidate>, plugin: string): (s: seq<nat>)
    ensures Within(s, |entries|)
  {
    Ordered(entries, Select(|entries|, (i: nat) => i < |entries| && (entries[i].id == plugin || plugin in entries[i].aliases)))
  }

  function HintShortlist(entries: seq<Candidate>, hint: string): (s: seq<nat>)
    ensures Within(s, |entries|)
  {
    Ordered(entries, Select(|entries|, (i: nat) => i < |entries| && hint in entries[i].languages))
  }

  /** The empty query: every entry. */
  function AllCandidates(entries: seq<Candidate>): (s: seq<nat>)
    ensures Within(s, |entries|)
    ensures forall i: nat :: i in s <==> i < |entries|
  {
    Ordered(entries, Select(|entries|, (i: nat) => true))
  }

  datatype Phase = Phase(hint: bool, indices: seq<nat>)

  predicate CatalogueGeneric(entries: seq<Candidate>, i: nat) {
    i < |entries| && GENERIC in entries[i].languages
  }

  /** Specific parsers whose file name matches. */
  function PrimaryPhase(entries: seq<Candidate>): (p: Phase)
    ensures Within(p.indices, |entries|)
  {
    Phase(false, Filter(FilenameCandidates(entries), |entries|, (i: nat) => !CatalogueGeneric(entries, i)))
  }

  /** The other specific parsers. */
  function OtherPhase(entries: seq<Candidate>): (p: Phase)
    ensures Within(p.indices, |entries|)
  {
    var primary := FilenameCandidates(entries);
    Phase(false, Filter(AllCandidates(entries), |entries|, (i: nat) => i !in primary && !CatalogueGeneric(entries, i)))
  }

  function GenericPhase(entries: seq<Candidate>): (p: Phase)
    ensures Within(p.indices, |entries|)
  {
    Phase(false, Filter(AllCandidates(entries), |entries|, (i: nat) => CatalogueGeneric(entries, i)))
  }

  function AutomaticPhases(entries: seq<Candidate>): (ps: seq<Phase>)
    ensures |ps| == 3
    ensures Within(ps[0].indices, |entries|) && Within(ps[1].indices, |entries|) && Within(ps[2].indices, |entries|)
    ensures !ps[0].hint && !ps[1].hint && !ps[2].hint
  {
    [PrimaryPhase(entries), OtherPhase(entries), GenericPhase(entries)]
  }

  function Prepend(r: Request, first: Phase, ps: seq<Phase>): (all: seq<Phase>)
    requires ValidPhases(r, ps) && Within(first.indices, |r.entries|) && (first.hint ==> r.languageHint.Some?)
    ensures ValidPhases(r, all)
  {
    [first] + ps
  }

  function Phases(r: Request): (ps: seq<Phase>)
    ensures ValidPhases(r, ps)
  {
    hide Ordered, AutomaticPhases, PluginShortlist, HintShortlist, Prepend;
    if r.pluginId.Some? then [Phase(r.languageHint.Some?, PluginShortlist(r.entries, r.pluginId.value))]
    else if r.languageHint.None? then AutomaticPhases(r.entries)
    else Prepend(r, Phase(true, HintShortlist(r.entries, r.languageHint.value)), AutomaticPhases(r.entries))
  }

  predicate ValidPhases(r: Request, ps: seq<Phase>) {
    && |ps| > 0
    && forall k :: 0 <= k < |ps| ==> Within(ps[k].indices, |r.entries|) && (ps[k].hint ==> r.languageHint.Some?)
  }

  // ---- Probe sample ----

  /** A UTF-8 character boundary: not in front of a continuation byte. */
  predicate IsBoundary(content: seq<Byte>, i: nat) {
    i == 0 || i == |content| || (i < |content| && !(128 <= content[i] < 192))
  }

  ghost predicate IsSample(content: seq<Byte>, limit: nat, sample: seq<Byte>) {
    && sample <= content && |sample| <= limit && IsBoundary(content, |sample|)
    && forall j :: |sample| < j <= limit && j <= |content| ==> !IsBoundary(content, j)
  }

  function SampleEnd(content: seq<Byte>, end: nat): (e: nat)
    requires end <= |content|
    ensures e <= end && IsBoundary(content, e)
    ensures forall j :: e < j <= end ==> !IsBoundary(content, j)
  {
    if IsBoundary(content, end) then end else SampleEnd(content, end - 1)
  }

  /** The source text offered to a probe: the new content, or the old one when the new is empty,
      cut to at most 2048 bytes at a character boundary. */
  function Sample(r: Request): (s: seq<Byte>)
    ensures IsSample(if r.content == [] then r.oldContent else r.content, 2048, s)
  {
    var content := if r.content == [] then r.oldContent else r.content;
    content[..SampleEnd(content, if |content| < 2048 then |content| else 2048)]
  }

  /** Short content is offered whole; a longer one up to the last character that begins within 2048 bytes, of
      which only continuation bytes 0x80 to 0xBF are left out. */
  lemma {:induction false} SampleMeans(r: Request)
    ensures var content, s := if r.content == [] then r.oldContent else r.content, Sample(r);
            && s <= content && |s| <= 2048 && (|content| <= 2048 ==> s == content)
            && (0 < |s| < |content| ==> !(0x80 <= content[|s|] < 0xC0))
            && forall j :: |s| < j <= 2048 && j < |content| ==> 0x80 <= content[j] < 0xC0
  {
    var content, s := if r.content == [] then r.oldContent else r.content, Sample(r);
    forall j | |s| < j <= 2048 && j < |content| ensures 0x80 <= content[j] < 0xC0 {
      assert !IsBoundary(content, j);
    }
    assert |content| <= 2048 ==> IsBoundary(content, |content|);
  }

  // ---- The reference machine ----

  /** Everything learned so far; `cursor` counts the events consumed. */
  datatype Memory = Memory(loaded: map<nat, Info>, failed: set<nat>, probed: set<nat>, deferred: set<nat>, cursor: nat)

  const START := Memory(map[], {}, {}, {}, 0)

  datatype Config =
    | Enter(phase: nat)
    | Loading(phase: nat, todo: seq<nat>, indices: seq<nat>)
    | Ranking(phase: nat, todo: seq<nat>)

  datatype Status =
    | AwaitLoad(phase: nat, index: nat, rest: seq<nat>, indices: seq<nat>, mem: Memory)
    | AwaitProbe(phase: nat, index: nat, rest: seq<nat>, mem: Memory)
    | Done(action: Action, mem: Memory)
    | Broken(error: Error)

  predicate LoadedGeneric(mem: Memory, i: nat) {
    i in mem.loaded && GENERIC in mem.loaded[i].languages
  }

  predicate Allowed(r: Request, info: Info) {
    r.allowedPlugins.Some? ==> info.grammar in r.allowedPlugins.value
  }

  predicate LoadedBefore(r: Request, mem: Memory, a: nat, b: nat) {
    a in mem.loaded && b in mem.loaded && a < |r.entries| && b < |r.entries| &&
    Before(LoadedGeneric(mem, a), mem.loaded[a].priority, r.entries[a].id,
           LoadedGeneric(mem, b), mem.loaded[b].priority, r.entries[b].id)
  }

  function LoadedOrder(r: Request, mem: Memory): (nat, nat) -> bool {
    (a: nat, b: nat) => LoadedBefore(r, mem, a, b)
  }

  /** Generic parsers come after all specific ones. */
  ghost predicate GenericLast(mem: Memory, s: seq<nat>) {
    forall i, j :: 0 <= i < j < |s| && LoadedGeneric(mem, s[i]) ==> LoadedGeneric(mem, s[j])
  }

  lemma {:induction false} LoadedRanks(r: Request, mem: Memory, xs: seq<nat>)
    requires Within(xs, |r.entries|) && forall k :: 0 <= k < |xs| ==> xs[k] in mem.loaded
    ensures Ranks(LoadedOrder(r, mem), xs)
  {
    forall a, b, c | a in xs && b in xs && c in xs
      ensures LoadedBefore(r, mem, a, c) ==> LoadedBefore(r, mem, a, b) || LoadedBefore(r, mem, b, c)
      ensures LoadedBefore(r, mem, a, b) ==> !LoadedBefore(r, mem, b, a)
    {
      StringLessOrders(r.entries[a].id, r.entries[b].id, r.entries[c].id);
    }
  }

  /** The loaded ones among `indices`, in probing order: specific first, then by priority and identity. */
  function Ranked(r: Request, mem: Memory, indices: seq<nat>): (zs: seq<nat>)
    requires Within(indices, |r.entries|)
    ensures Within(zs, |r.entries|) && forall k :: 0 <= k < |zs| ==> zs[k] in mem.loaded
    ensures forall z: nat :: z in zs <==> z in indices && z in mem.loaded
    ensures SortedBy(LoadedOrder(r, mem), zs)
    ensures GenericLast(mem, zs)
  {
    var less := LoadedOrder(r, mem);
    var kept := Filter(indices, |r.entries|, (i: nat) => i in mem.loaded);
    assert forall k :: 0 <= k < |kept| ==> kept[k] in kept;
    LoadedRanks(r, mem, kept);
    SortBySorted(less, kept);
    var zs := SortBy(less, kept);
    assert forall k :: 0 <= k < |zs| ==> zs[k] in zs && zs[k] in kept;
    zs
  }

  /** The indices of a phase when it starts: the last one also takes the deferred generics. */
  function PhaseIndices(r: Request, ps: seq<Phase>, phase: nat, mem: Memory): (s: seq<nat>)
    requires ValidPhases(r, ps) && phase < |ps|
    ensures Within(s, |r.entries|)
  {
    var own := ps[phase].indices;
    if phase == |ps| - 1 && r.pluginId.None? then Select(|r.entries|, (i: nat) => i in own || i in mem.deferred)
    else own
  }

  predicate HintMatches(r: Request, mem: Memory, i: nat)
    requires r.languageHint.Some? && i in mem.loaded && i < |r.entries|
  {
    r.languageHint.value in mem.loaded[i].languages ||
    (r.pluginId.None? && LoadedGeneric(mem, i) && r.languageHint.value in r.entries[i].languages)
  }

  predicate WellFormed(r: Request, ps: seq<Phase>, c: Config, mem: Memory) {
    match c
    case Enter(phase) => phase <= |ps|
    case Loading(phase, todo, indices) =>
      phase < |ps| && Within(todo, |r.entries|) && Within(indices, |r.entries|)
    case Ranking(phase, todo) =>
      phase < |ps| && Within(todo, |r.entries|) && forall k :: 0 <= k < |todo| ==> todo[k] in mem.loaded
  }

  /** Running on learns nothing; it may only pick a fresh parser to probe. */
  predicate Unchanged(mem: Memory, s: Status)
    requires !s.Broken?
  {
    && s.mem.loaded == mem.loaded && s.mem.failed == mem.failed && s.mem.cursor == mem.cursor
    && (if s.AwaitProbe? then s.index !in mem.probed && s.mem.probed == mem.probed + {s.index}
        else s.mem.probed == mem.probed)
  }

  /** Runs on without events until one is needed or the outcome is known. */
  function Settle(r: Request, ps: seq<Phase>, c: Config, mem: Memory): (s: Status)
    requires ValidPhases(r, ps) && WellFormed(r, ps, c, mem)
    ensures !s.Broken? && WellFormedStatus(r, ps, s) && Unchanged(mem, s)
    decreases |ps| - c.phase, (match c case Enter(_) => 2 case Loading(_, _, _) => 1 case Ranking(_, _) => 0),
              if c.Enter? then 0 else |c.todo|
  {
    match c
    case Enter(phase) =>
      if phase == |ps| then Done(NotFound(if r.pluginId.Some? then r.pluginId.value else "unknown"), mem)
      else
        var indices := PhaseIndices(r, ps, phase, mem);
        Settle(r, ps, Loading(phase, indices, indices), mem)
    case Loading(phase, todo, indices) =>
      if todo == [] then Settle(r, ps, Ranking(phase, Ranked(r, mem, indices)), mem)
      else if todo[0] in mem.loaded || todo[0] in mem.failed then Settle(r, ps, Loading(phase, todo[1..], indices), mem)
      else AwaitLoad(phase, todo[0], todo[1..], indices, mem)
    case Ranking(phase, todo) =>
      var hint := ps[phase].hint;
      if todo == [] then
        if hint && r.strict && r.pluginId.None? then Done(NotFound(r.languageHint.value), mem)
        else Settle(r, ps, Enter(phase + 1), mem)
      else
        var index := todo[0];
        var next := Ranking(phase, todo[1..]);
        if !Allowed(r, mem.loaded[index]) then Settle(r, ps, next, mem)
        else if hint then
          if HintMatches(r, mem, index) then Done(Selected(index, r.languageHint.value), mem) else Settle(r, ps, next, mem)
        else if r.pluginId.None? && phase != |ps| - 1 && LoadedGeneric(mem, index) then
          Settle(r, ps, next, mem.(deferred := mem.deferred + {index}))
        else if index in mem.probed then Settle(r, ps, next, mem)
        else AwaitProbe(phase, index, todo[1..], mem.(probed := mem.probed + {index}))
  }

  predicate WellFormedStatus(r: Request, ps: seq<Phase>, s: Status) {
    match s
    case AwaitLoad(phase, index, rest, indices, mem) =>
      && WellFormed(r, ps, Loading(phase, rest, indices), mem)
      && index < |r.entries| && index !in mem.loaded && index !in mem.failed
    case AwaitProbe(phase, index, rest, mem) =>
      && WellFormed(r, ps, Ranking(phase, rest), mem)
      && index < |r.entries| && index in mem.loaded && index in mem.probed
    case Done(action, _) => IsTerminal(action)
    case Broken(_) => true
  }

  /** A host event, answered. Events after the outcome are unsolicited; an error is final. */
  function Answer(r: Request, ps: seq<Phase>, s: Status, e: Event): (t: Status)
    requires ValidPhases(r, ps) && WellFormedStatus(r, ps, s)
    ensures WellFormedStatus(r, ps, t)
  {
    match s
    case AwaitLoad(phase, index, rest, indices, mem) =>
      if e.Loaded? && e.index == index then
        if e.info.grammar == "" || "" in e.info.languages then Broken(EmptyIdentity)
        else Settle(r, ps, Loading(phase, rest, indices),
                    mem.(loaded := mem.loaded[index := e.info], cursor := mem.cursor + 1))
      else if e.LoadFailed? && e.index == index then
        if e.terminal then Done(Failure(mem.cursor), mem.(cursor := mem.cursor + 1))
        else Settle(r, ps, Loading(phase, rest, indices), mem.(failed := mem.failed + {index}, cursor := mem.cursor + 1))
      else Broken(OutOfOrderLoad)
    case AwaitProbe(phase, index, rest, mem) =>
      if e.Probed? && e.index == index then
        if e.language.Some? && e.language.value != "" then
          if e.language.value !in mem.loaded[index].languages then Broken(UndeclaredLanguage(index, e.language.value))
          else Done(Selected(index, e.language.value), mem.(cursor := mem.cursor + 1))
        else Settle(r, ps, Ranking(phase, rest), mem.(cursor := mem.cursor + 1))
      else if e.ProbeFailed? && e.index == index then Done(Failure(mem.cursor), mem.(cursor := mem.cursor + 1))
      else Broken(OutOfOrderProbe)
    case Done(_, _) => Broken(Unsolicited)
    case Broken(error) => Broken(error)
  }

  function Replay(r: Request, ps: seq<Phase>, s: Status, events: seq<Event>): (t: Status)
    requires ValidPhases(r, ps) && WellFormedStatus(r, ps, s)
    ensures WellFormedStatus(r, ps, t)
    decreases |events|
  {
    if events == [] then s else Replay(r, ps, Answer(r, ps, s, events[0]), events[1..])
  }

  function ToResult(r: Request, s: Status): Result {
    match s
    case AwaitLoad(_, index, _, _, _) => Ok(Load(index))
    case AwaitProbe(_, index, _, _) => Ok(Probe(index, Sample(r)))
    case Done(action, _) => Ok(action)
    case Broken(error) => Err(error)
  }

  /** The machine's status after a whole log. */
  function StatusAfter(r: Request, events: seq<Event>): (s: Status)
    ensures WellFormedStatus(r, Phases(r), s)
  {
    Replay(r, Phases(r), Settle(r, Phases(r), Enter(0), START), events)
  }

  /** What the engine must answer to a log. */
  function Outcome(r: Request, events: seq<Event>): Result {
    if |events| > 2 * |r.entries| then Err(TooManyEvents)
    else if !ValidCatalogue(r.entries) then Err(InvalidCatalogue)
    else ToResult(r, StatusAfter(r, events))
  }

  // ---- next_action ----

  /** The outcome known at `cursor`: accepted only when the log ends there. */
  function Terminal(action: Action, cursor: nat, events: seq<Event>): Result {
    if cursor != |events| then Err(Unsolicited) else Ok(action)
  }

  lemma {:induction false} AfterDone(r: Request, ps: seq<Phase>, action: Action, mem: Memory, events: seq<Event>)
    requires ValidPhases(r, ps) && IsTerminal(action)
    ensures ToResult(r, Replay(r, ps, Done(action, mem), events)) == if events == [] then Ok(action) else Err(Unsolicited)
  {
    if events != [] { AfterBroken(r, ps, Unsolicited, events[1..]); }
  }

  lemma {:induction false} AfterBroken(r: Request, ps: seq<Phase>, error: Error, events: seq<Event>)
    requires ValidPhases(r, ps)
    ensures Replay(r, ps, Broken(error), events) == Broken(error)
  {
    if events != [] { AfterBroken(r, ps, error, events[1..]); }
  }

  /** What the rest of the log leads to from a configuration. */
  ghost function Onward(r: Request, ps: seq<Phase>, c: Config, mem: Memory, events: seq<Event>): Result
    requires ValidPhases(r, ps) && WellFormed(r, ps, c, mem) && mem.cursor <= |events|
  {
    ToResult(r, Replay(r, ps, Settle(r, ps, c, mem), events[mem.cursor..]))
  }

  lemma {:induction false} OnwardStops(r: Request, ps: seq<Phase>, c: Config, mem: Memory, events: seq<Event>)
    requires ValidPhases(r, ps) && WellFormed(r, ps, c, mem) && mem.cursor <= |events|
    ensures Settle(r, ps, c, mem).Done? ==>
              Onward(r, ps, c, mem, events) == Terminal(Settle(r, ps, c, mem).action, mem.cursor, events)
    ensures mem.cursor == |events| ==> Onward(r, ps, c, mem, events) == ToResult(r, Settle(r, ps, c, mem))
  {
    var s := Settle(r, ps, c, mem);
    if s.Done? { AfterDone(r, ps, s.action, s.mem, events[mem.cursor..]); }
  }

  lemma {:induction false} OnwardAnswers(r: Request, ps: seq<Phase>, c: Config, mem: Memory, events: seq<Event>)
    requires ValidPhases(r, ps) && WellFormed(r, ps, c, mem) && mem.cursor < |events|
    ensures var t := Answer(r, ps, Settle(r, ps, c, mem), events[mem.cursor]);
            && (t.Broken? ==> Onward(r, ps, c, mem, events) == Err(t.error))
            && (t.Done? ==> Onward(r, ps, c, mem, events) == Terminal(t.action, mem.cursor + 1, events))
            && Onward(r, ps, c, mem, events) == ToResult(r, Replay(r, ps, t, events[mem.cursor + 1..]))
  {
    var rest := events[mem.cursor..];
    assert rest[0] == events[mem.cursor] && rest[1..] == events[mem.cursor + 1..];
    var t := Answer(r, ps, Settle(r, ps, c, mem), rest[0]);
    if t.Broken? { AfterBroken(r, ps, t.error, rest[1..]); }
    if t.Done? { AfterDone(r, ps, t.action, t.mem, rest[1..]); }
  }

  method NextAction(r: Request, events: seq<Event>) returns (result: Result)
    ensures result == Outcome(r, events)
  {
    hide SortedBy, GenericLast, Phases, PhaseIndices, Ranked;
    if |events| > 2 * |r.entries| {
      return Err(TooManyEvents);
    }
    if !ValidCatalogue(r.entries) {
      return Err(InvalidCatalogue);
    }
    var ps := Phases(r);
    var mem := START;
    var phase := 0;
    while phase < |ps|
      invariant phase <= |ps| && mem.cursor <= |events|
      invariant Outcome(r, events) == Onward(r, ps, Enter(phase), mem, events)
    {
      var indices := PhaseIndices(r, ps, phase, mem);
      var stop;
      mem, stop := LoadPhase(r, ps, phase, indices, mem, events);
      if stop.Some? {
        return stop.value;
      }
      var ranked := Ranked(r, mem, indices);
      mem, stop := ProbePhase(r, ps, phase, ranked, mem, events);
      if stop.Some? {
        return stop.value;
      }
      if ps[phase].hint && r.strict && r.pluginId.None? {
        OnwardStops(r, ps, Ranking(phase, []), mem, events);
        return Terminal(NotFound(r.languageHint.value), mem.cursor, events);
      }
      phase := phase + 1;
    }
    OnwardStops(r, ps, Enter(phase), mem, events);
    return Terminal(NotFound(if r.pluginId.Some? then r.pluginId.value else "unknown"), mem.cursor, events);
  }

  /** Loads the metadata of every parser of the phase not yet seen. */
  method LoadPhase(r: Request, ps: seq<Phase>, phase: nat, indices: seq<nat>, start: Memory, events: seq<Event>)
    returns (mem: Memory, stop: Option<Result>)
    requires ValidPhases(r, ps) && phase < |ps| && Within(indices, |r.entries|) && start.cursor <= |events|
    ensures stop.Some? ==> stop.value == Onward(r, ps, Loading(phase, indices, indices), start, events)
    ensures stop.None? ==>
              (mem.cursor <= |events| &&
               Onward(r, ps, Loading(phase, indices, indices), start, events) ==
               Onward(r, ps, Ranking(phase, Ranked(r, mem, indices)), mem, events))
  {
    mem, stop := start, None;
    ghost var goal := Onward(r, ps, Loading(phase, indices, indices), start, events);
    assert indices[0..] == indices;
    for i := 0 to |indices|
      invariant mem.cursor <= |events|
      invariant goal == Onward(r, ps, Loading(phase, indices[i..], indices), mem, events)
    {
      var index := indices[i];
      ghost var todo := indices[i..];
      assert todo[0] == index && todo[1..] == indices[i + 1..];
      if index in mem.loaded || index in mem.failed {
        continue;
      }
      ghost var here := Loading(phase, todo, indices);
      if mem.cursor == |events| {
        OnwardStops(r, ps, here, mem, events);
        return mem, Some(Ok(Load(index)));
      }
      OnwardAnswers(r, ps, here, mem, events);
      var e := events[mem.cursor];
      if e.Loaded? && e.index == index {
        if e.info.grammar == "" || "" in e.info.languages {
          return mem, Some(Err(EmptyIdentity));
        }
        mem := mem.(loaded := mem.loaded[index := e.info]);
      } else if e.LoadFailed? && e.index == index {
        if e.terminal {
          return mem, Some(Terminal(Failure(mem.cursor), mem.cursor + 1, events));
        }
        mem := mem.(failed := mem.failed + {index});
      } else {
        return mem, Some(Err(OutOfOrderLoad));
      }
      mem := mem.(cursor := mem.cursor + 1);
    }
  }

  /** Walks the ranked parsers of the phase: hint matching, deferral of generics, probing. */
  method ProbePhase(r: Request, ps: seq<Phase>, phase: nat, ranked: seq<nat>, start: Memory, events: seq<Event>)
    returns (mem: Memory, stop: Option<Result>)
    requires ValidPhases(r, ps) && WellFormed(r, ps, Ranking(phase, ranked), start) && start.cursor <= |events|
    ensures stop.Some? ==> stop.value == Onward(r, ps, Ranking(phase, ranked), start, events)
    ensures stop.None? ==>
              (mem.cursor <= |events| &&
               Onward(r, ps, Ranking(phase, ranked), start, events) == Onward(r, ps, Ranking(phase, []), mem, events))
  {
    mem, stop := start, None;
    ghost var goal := Onward(r, ps, Ranking(phase, ranked), start, events);
    assert ranked[0..] == ranked;
    for i := 0 to |ranked|
      invariant mem.cursor <= |events| && mem.loaded == start.loaded
      invariant goal == Onward(r, ps, Ranking(phase, ranked[i..]), mem, events)
    {
      var index := ranked[i];
      ghost var todo := ranked[i..];
      assert todo[0] == index && todo[1..] == ranked[i + 1..];
      ghost var here := Ranking(phase, todo);
      if !Allowed(r, mem.loaded[index]) {
        continue;
      }
      if ps[phase].hint {
        if HintMatches(r, mem, index) {
          OnwardStops(r, ps, here, mem, events);
          return mem, Some(Terminal(Selected(index, r.languageHint.value), mem.cursor, events));
        }
        continue;
      }
      if r.pluginId.None? && phase != |ps| - 1 && LoadedGeneric(mem, index) {
        mem := mem.(deferred := mem.deferred + {index});
        continue;
      }
      if index in mem.probed {
        continue;
      }
      if mem.cursor == |events| {
        OnwardStops(r, ps, here, mem, events);
        return mem, Some(Ok(Probe(index, Sample(r))));
      }
      OnwardAnswers(r, ps, here, mem, events);
      mem := mem.(probed := mem.probed + {index});
      var e := events[mem.cursor];
      if e.Probed? && e.index == index {
        if e.language.Some? && e.language.value != "" {
          if e.language.value !in mem.loaded[index].languages {
            return mem, Some(Err(UndeclaredLanguage(index, e.language.value)));
          }
          return mem, Some(Terminal(Selected(index, e.language.value), mem.cursor + 1, events));
        }
      } else if e.ProbeFailed? && e.index == index {
        return mem, Some(Terminal(Failure(mem.cursor), mem.cursor + 1, events));
      } else {
        return mem, Some(Err(OutOfOrderProbe));
      }
      mem := mem.(cursor := mem.cursor + 1);
    }
  }
}
