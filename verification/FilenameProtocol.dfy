/** What the replayed log guarantees over whole conversations between engine and host. */
module FilenameProtocol {
  import opened Common
  import opened FilenameSelection

  predicate IsLoadEvent(e: Event) {
    e.Loaded? || e.LoadFailed?
  }

  /** The event has the kind and index the action asked for. */
  predicate Matches(a: Action, e: Event) {
    (a.Load? && IsLoadEvent(e) && e.index == a.index) || (a.Probe? && !IsLoadEvent(e) && e.index == a.index)
  }

  /** A parser's honest reply: nonempty identities, and no claim beyond what it declared when loaded. */
  predicate HonestReply(log: seq<Event>, e: Event) {
    match e
    case Loaded(_, info) => info.grammar != "" && "" !in info.languages
    case Probed(i, language) =>
      language.Some? && language.value != "" ==>
        exists k :: 0 <= k < |log| && log[k].Loaded? && log[k].index == i && language.value in log[k].info.languages
    case _ => true
  }

  predicate Declined(e: Event) {
    e.Probed? && (e.language.None? || e.language.value == "")
  }

  /** A claim, a failed probe, or a failure to load that ends the search: the outcome follows at once. */
  predicate Closing(e: Event) {
    e.ProbeFailed? || (e.LoadFailed? && e.terminal) || (e.Probed? && !Declined(e))
  }

  predicate Open(log: seq<Event>) {
    log != [] ==> !Closing(log[|log| - 1])
  }

  // ---- The replay is a fold ----

  lemma {:induction false} ReplayAppend(r: Request, ps: seq<Phase>, s: Status, a: seq<Event>, b: seq<Event>)
    requires ValidPhases(r, ps) && WellFormedStatus(r, ps, s)
    ensures Replay(r, ps, s, a + b) == Replay(r, ps, Replay(r, ps, s, a), b)
    decreases |a|
  {
    if a == [] {
      assert a + b == b;
    } else {
      assert (a + b)[0] == a[0] && (a + b)[1..] == a[1..] + b;
      ReplayAppend(r, ps, Answer(r, ps, s, a[0]), a[1..], b);
    }
  }

  lemma {:induction false} StatusSnoc(r: Request, log: seq<Event>, e: Event)
    ensures StatusAfter(r, log + [e]) == Answer(r, Phases(r), StatusAfter(r, log), e)
  {
    var ps := Phases(r);
    ReplayAppend(r, ps, Settle(r, ps, Enter(0), START), log, [e]);
    var s := StatusAfter(r, log);
    assert Replay(r, ps, s, [e]) == Replay(r, ps, Answer(r, ps, s, e), []);
  }

  lemma {:induction false} BrokenStays(r: Request, log: seq<Event>, more: seq<Event>)
    requires StatusAfter(r, log).Broken?
    ensures StatusAfter(r, log + more).Broken?
  {
    var ps := Phases(r);
    ReplayAppend(r, ps, Settle(r, ps, Enter(0), START), log, more);
    AfterBroken(r, ps, StatusAfter(r, log).error, more);
  }

  /** Every proper prefix of a log that was not refused asks for exactly the event that comes next. */
  lemma {:induction false} PrefixAsksForNext(r: Request, log: seq<Event>, k: nat)
    requires Outcome(r, log).Ok? && k < |log|
    ensures Outcome(r, log[..k]).Ok? && Matches(Outcome(r, log[..k]).action, log[k])
  {
    hide Settle, Phases;
    assert log == log[..k + 1] + log[k + 1..] && log[..k + 1] == log[..k] + [log[k]];
    if StatusAfter(r, log[..k + 1]).Broken? {
      BrokenStays(r, log[..k + 1], log[k + 1..]);
    }
    StatusSnoc(r, log[..k], log[k]);
  }

  /** Nothing may follow an outcome. */
  lemma {:induction false} OutcomeIsFinal(r: Request, log: seq<Event>, more: seq<Event>)
    requires Outcome(r, log).Ok? && IsTerminal(Outcome(r, log).action) && more != []
    ensures Outcome(r, log + more).Err?
  {
    hide Settle, Phases;
    var s := StatusAfter(r, log);
    StatusSnoc(r, log, more[0]);
    BrokenStays(r, log + [more[0]], more[1..]);
    assert log + more == log + [more[0]] + more[1..];
  }

  // ---- What the memory says about the log ----

  ghost function LoadsOf(log: seq<Event>): (s: set<nat>) {
    set k | 0 <= k < |log| && IsLoadEvent(log[k]) :: log[k].index
  }

  ghost function ProbesOf(log: seq<Event>): (s: set<nat>) {
    set k | 0 <= k < |log| && !IsLoadEvent(log[k]) :: log[k].index
  }

  /** No parser is loaded twice, none is probed twice. */
  ghost predicate OncePerParser(log: seq<Event>) {
    forall j, k :: 0 <= j < k < |log| && IsLoadEvent(log[j]) == IsLoadEvent(log[k]) ==> log[j].index != log[k].index
  }

  ghost function Answered(s: Status): set<nat>
    requires !s.Broken?
  {
    if s.AwaitProbe? then s.mem.probed - {s.index} else s.mem.probed
  }

  /** The metadata remembered is exactly what the load events reported. */
  ghost predicate Told(log: seq<Event>, loaded: map<nat, Info>) {
    && (forall k :: 0 <= k < |log| && log[k].Loaded? ==> log[k].index in loaded && loaded[log[k].index] == log[k].info)
    && (forall i :: i in loaded ==> exists k :: 0 <= k < |log| && log[k].Loaded? && log[k].index == i)
  }

  ghost predicate AllDeclined(log: seq<Event>) {
    forall k :: 0 <= k < |log| && !IsLoadEvent(log[k]) ==> Declined(log[k])
  }

  /** The log behind a status: what is loaded, failed and probed is what the events say. */
  ghost predicate Explains(r: Request, log: seq<Event>, s: Status)
    requires !s.Broken?
  {
    && s.mem.cursor == |log|
    && OncePerParser(log)
    && (forall k :: 0 <= k < |log| ==> log[k].index < |r.entries|)
    && (!s.Done? || Open(log) ==>
          && s.mem.loaded.Keys !! s.mem.failed
          && LoadsOf(log) == s.mem.loaded.Keys + s.mem.failed
          && ProbesOf(log) == Answered(s)
          && (s.AwaitProbe? ==> s.index in s.mem.probed)
          && Told(log, s.mem.loaded)
          && AllDeclined(log))
  }

  lemma {:induction false} SnocSets(log: seq<Event>, e: Event)
    ensures LoadsOf(log + [e]) == LoadsOf(log) + (if IsLoadEvent(e) then {e.index} else {})
    ensures ProbesOf(log + [e]) == ProbesOf(log) + (if IsLoadEvent(e) then {} else {e.index})
  {
    var all := log + [e];
    assert all[|log|] == e;
    assert forall k :: 0 <= k < |log| ==> all[k] == log[k];
    forall i | i in LoadsOf(log) ensures i in LoadsOf(all) {
      var k :| 0 <= k < |log| && IsLoadEvent(log[k]) && log[k].index == i;
      assert IsLoadEvent(all[k]);
    }
    forall i | i in ProbesOf(log) ensures i in ProbesOf(all) {
      var k :| 0 <= k < |log| && !IsLoadEvent(log[k]) && log[k].index == i;
      assert !IsLoadEvent(all[k]);
    }
    if IsLoadEvent(e) { assert IsLoadEvent(all[|log|]); }
  }

  lemma {:induction false} OnceSnoc(log: seq<Event>, e: Event)
    requires OncePerParser(log)
    requires e.index !in (if IsLoadEvent(e) then LoadsOf(log) else ProbesOf(log))
    ensures OncePerParser(log + [e])
  {
    var all := log + [e];
    forall j, k | 0 <= j < k < |all| && IsLoadEvent(all[j]) == IsLoadEvent(all[k]) ensures all[j].index != all[k].index {
      if k == |log| {
        assert log[j].index in (if IsLoadEvent(e) then LoadsOf(log) else ProbesOf(log));
      }
    }
  }

  lemma {:induction false} ToldSnoc(log: seq<Event>, e: Event, loaded: map<nat, Info>)
    requires Told(log, loaded)
    requires e.Loaded? ==> e.index !in LoadsOf(log)
    ensures Told(log + [e], if e.Loaded? then loaded[e.index := e.info] else loaded)
  {
    var all := log + [e];
    var after := if e.Loaded? then loaded[e.index := e.info] else loaded;
    assert all[|log|] == e && forall k :: 0 <= k < |log| ==> all[k] == log[k];
    forall k | 0 <= k < |all| && all[k].Loaded? ensures all[k].index in after && after[all[k].index] == all[k].info {
      if k < |log| { assert log[k].index in LoadsOf(log); }
    }
    forall i | i in after ensures exists k :: 0 <= k < |all| && all[k].Loaded? && all[k].index == i {
      if e.Loaded? && i == e.index {
        assert all[|log|].Loaded?;
      } else {
        var k :| 0 <= k < |log| && log[k].Loaded? && log[k].index == i;
        assert all[k].Loaded?;
      }
    }
  }

  /** What one accepted event changes in the memory. */
  ghost predicate Advances(s: Status, e: Event, t: Status)
    requires !s.Broken? && !t.Broken?
  {
    && !s.Done?
    && s.index == e.index && s.AwaitLoad? == IsLoadEvent(e)
    && t.mem.cursor == s.mem.cursor + 1
    && (Closing(e) ==> t.Done?)
    && (!Closing(e) ==>
          && t.mem.loaded == (if e.Loaded? then s.mem.loaded[e.index := e.info] else s.mem.loaded)
          && t.mem.failed == (if e.LoadFailed? then s.mem.failed + {e.index} else s.mem.failed)
          && Answered(t) == s.mem.probed && (t.AwaitProbe? ==> t.index in t.mem.probed)
          && (IsLoadEvent(e) || Declined(e)))
  }

  lemma {:induction false} AnswerAdvances(r: Request, ps: seq<Phase>, s: Status, e: Event)
    requires ValidPhases(r, ps) && WellFormedStatus(r, ps, s)
    requires !s.Broken? && !Answer(r, ps, s, e).Broken?
    ensures Advances(s, e, Answer(r, ps, s, e))
  {
    hide Settle;
  }

  lemma {:induction false} ExplainsSnoc(r: Request, log: seq<Event>, s: Status, e: Event, t: Status)
    requires !s.Broken? && !t.Broken? && Explains(r, log, s) && Advances(s, e, t)
    requires s.index < |r.entries|
    requires s.AwaitLoad? ==> s.index !in s.mem.loaded && s.index !in s.mem.failed
    ensures Explains(r, log + [e], t)
  {
    SnocSets(log, e);
    OnceSnoc(log, e);
    ToldSnoc(log, e, s.mem.loaded);
    var all := log + [e];
    assert all[|log|] == e && forall k :: 0 <= k < |log| ==> all[k] == log[k];
    if !Closing(e) {
      assert AllDeclined(all);
      assert LoadsOf(all) == t.mem.loaded.Keys + t.mem.failed;
    }
  }

  lemma {:induction false} ExplainsAll(r: Request, log: seq<Event>)
    requires !StatusAfter(r, log).Broken?
    ensures Explains(r, log, StatusAfter(r, log))
    decreases |log|
  {
    hide Settle, Phases;
    if log == [] {
      assert LoadsOf(log) == {} && ProbesOf(log) == {};
    } else {
      var n := |log| - 1;
      assert log == log[..n] + [log[n]];
      StatusSnoc(r, log[..n], log[n]);
      var s := StatusAfter(r, log[..n]);
      ExplainsAll(r, log[..n]);
      var t := Answer(r, Phases(r), s, log[n]);
      AnswerAdvances(r, Phases(r), s, log[n]);
      ExplainsSnoc(r, log[..n], s, log[n], t);
    }
  }

  // ---- Loads and probes happen once; the log stays short ----

  /** In every log that is not refused, each parser is loaded at most once and probed at most once. */
  lemma {:induction false} EachParserOnce(r: Request, log: seq<Event>)
    requires Outcome(r, log).Ok?
    ensures OncePerParser(log)
    ensures forall k :: 0 <= k < |log| ==> log[k].index < |r.entries|
  {
    ExplainsAll(r, log);
  }

  lemma {:induction false} NewIndex(log: seq<Event>)
    requires log != [] && OncePerParser(log)
    ensures var e, rest := log[|log| - 1], log[..|log| - 1];
            e.index !in (if IsLoadEvent(e) then LoadsOf(rest) else ProbesOf(rest))
  {}

  lemma {:induction false} LogSize(log: seq<Event>)
    requires OncePerParser(log)
    ensures |log| == |LoadsOf(log)| + |ProbesOf(log)|
  {
    if log != [] {
      var n := |log| - 1;
      assert log == log[..n] + [log[n]];
      LogSize(log[..n]);
      SnocSets(log[..n], log[n]);
      NewIndex(log);
    }
  }

  /** A log still waiting for an answer has room for it: the bound on the log never gets in the way. */
  lemma {:induction false} WaitingLogHasRoom(r: Request, log: seq<Event>)
    requires StatusAfter(r, log).AwaitLoad? || StatusAfter(r, log).AwaitProbe?
    ensures |log| < 2 * |r.entries|
  {
    hide Settle, Phases, StatusAfter;
    ExplainsAll(r, log);
    RoomLeft(r, log, StatusAfter(r, log));
  }

  lemma {:induction false} RoomLeft(r: Request, log: seq<Event>, s: Status)
    requires (s.AwaitLoad? || s.AwaitProbe?) && Explains(r, log, s)
    requires s.AwaitLoad? ==> s.index < |r.entries| && s.index !in s.mem.loaded && s.index !in s.mem.failed
    requires s.AwaitProbe? ==> s.index < |r.entries|
    ensures |log| < 2 * |r.entries|
  {
    LogSize(log);
    var all := Below(|r.entries|);
    SubsetSize(LoadsOf(log), all);
    SubsetSize(ProbesOf(log), all);
    if s.AwaitLoad? {
      SubsetSize(LoadsOf(log) + {s.index}, all);
    } else {
      SubsetSize(ProbesOf(log) + {s.index}, all);
    }
  }

  // ---- Conversations ----

  /** An honest answer to what was asked is accepted. */
  lemma {:induction false} HonestReplyAccepted(r: Request, log: seq<Event>, e: Event)
    requires Outcome(r, log).Ok? && Matches(Outcome(r, log).action, e) && HonestReply(log, e)
    ensures Outcome(r, log + [e]).Ok?
  {
    hide Settle, Phases;
    StatusSnoc(r, log, e);
    WaitingLogHasRoom(r, log);
    ExplainsAll(r, log);
  }

  type Host = (seq<Event>, Action) -> Event

  /** A host that answers each request with a matching, honest event. */
  ghost predicate GoodHost(host: Host) {
    forall log: seq<Event>, a: Action {:trigger host(log, a)} :: !IsTerminal(a) ==>
      Matches(a, host(log, a)) && HonestReply(log, host(log, a))
  }

  /** The log after the host has answered at most `n` requests. */
  function Converse(r: Request, host: Host, n: nat): seq<Event> {
    if n == 0 then []
    else
      var log := Converse(r, host, n - 1);
      var next := Outcome(r, log);
      if next.Err? || IsTerminal(next.action) then log else log + [host(log, next.action)]
  }

  lemma {:induction false} ConversationProgress(r: Request, host: Host, n: nat)
    requires ValidCatalogue(r.entries) && GoodHost(host)
    ensures var log := Converse(r, host, n);
            Outcome(r, log).Ok? && (|log| == n || IsTerminal(Outcome(r, log).action))
  {
    hide Settle, Phases;
    if n > 0 {
      ConversationProgress(r, host, n - 1);
      var log := Converse(r, host, n - 1);
      var a := Outcome(r, log).action;
      if !IsTerminal(a) {
        HonestReplyAccepted(r, log, host(log, a));
      }
    }
  }

  /** Every conversation with a good host, over every catalogue, reaches an outcome within two events
      per parser and is never refused on the way. */
  lemma {:induction false} ConversationTerminates(r: Request, host: Host)
    requires ValidCatalogue(r.entries) && GoodHost(host)
    ensures forall n: nat :: Outcome(r, Converse(r, host, n)).Ok?
    ensures Outcome(r, Converse(r, host, 2 * |r.entries|)).Ok?
            && IsTerminal(Outcome(r, Converse(r, host, 2 * |r.entries|)).action)
  {
    forall n: nat ensures Outcome(r, Converse(r, host, n)).Ok? {
      ConversationProgress(r, host, n);
    }
    var n := 2 * |r.entries|;
    var log := Converse(r, host, n);
    ConversationProgress(r, host, n);
    if !IsTerminal(Outcome(r, log).action) {
      WaitingLogHasRoom(r, log);
    }
  }

  // ---- Every parser has its turn ----

  /** The parser appears in some phase that probes. */
  ghost predicate HasTurn(ps: seq<Phase>, j: nat) {
    exists m :: 0 <= m < |ps| && !ps[m].hint && j in ps[m].indices
  }

  lemma {:induction false} AutomaticPhasesCover(entries: seq<Candidate>, j: nat)
    requires j < |entries|
    ensures HasTurn(AutomaticPhases(entries), j)
  {
    hide Ordered, Select, Filter, FilenameCandidates;
    var ps := AutomaticPhases(entries);
    if CatalogueGeneric(entries, j) {
      assert j in ps[2].indices;
    } else if j in FilenameCandidates(entries) {
      assert j in ps[0].indices;
    } else {
      assert j in ps[1].indices;
    }
  }

  /** Without an explicit plugin every parser has its turn in a phase that probes. */
  lemma {:induction false} PhasesCover(r: Request, j: nat)
    requires r.pluginId.None? && j < |r.entries|
    ensures HasTurn(Phases(r), j)
  {
    AutomaticPhasesCover(r.entries, j);
    hide AutomaticPhases, HintShortlist, HasTurn;
    if r.languageHint.Some? {
      HasTurnLater(Phase(true, HintShortlist(r.entries, r.languageHint.value)), AutomaticPhases(r.entries), j);
    }
  }

  lemma {:induction false} HasTurnLater(first: Phase, ps: seq<Phase>, j: nat)
    requires HasTurn(ps, j)
    ensures HasTurn([first] + ps, j)
  {
    var m :| 0 <= m < |ps| && !ps[m].hint && j in ps[m].indices;
    assert ([first] + ps)[m + 1] == ps[m];
  }

  // ---- Selections are declared ----

  /** A selected parser was loaded and is allowed, and it declares the selected language; the one
      exception is a parser loaded as generic whose catalogue entry lists the hinted language. */
  ghost predicate Declared(r: Request, loaded: map<nat, Info>, i: nat, language: string) {
    && i < |r.entries| && i in loaded && Allowed(r, loaded[i])
    && (language in loaded[i].languages ||
        (r.pluginId.None? && r.languageHint == Some(language) &&
         GENERIC in loaded[i].languages && language in r.entries[i].languages))
  }

  ghost predicate SoundStatus(r: Request, s: Status) {
    match s
    case AwaitProbe(_, index, _, mem) => index in mem.loaded && Allowed(r, mem.loaded[index])
    case Done(Selected(i, language), mem) => Declared(r, mem.loaded, i, language)
    case _ => true
  }

  lemma {:induction false} SettleSound(r: Request, ps: seq<Phase>, c: Config, mem: Memory)
    requires ValidPhases(r, ps) && WellFormed(r, ps, c, mem)
    ensures SoundStatus(r, Settle(r, ps, c, mem))
    decreases |ps| - c.phase, (match c case Enter(_) => 2 case Loading(_, _, _) => 1 case Ranking(_, _) => 0),
              if c.Enter? then 0 else |c.todo|
  {
    match c
    case Enter(phase) =>
      if phase < |ps| {
        var indices := PhaseIndices(r, ps, phase, mem);
        SettleSound(r, ps, Loading(phase, indices, indices), mem);
      }
    case Loading(phase, todo, indices) =>
      if todo == [] {
        SettleSound(r, ps, Ranking(phase, Ranked(r, mem, indices)), mem);
      } else if todo[0] in mem.loaded || todo[0] in mem.failed {
        SettleSound(r, ps, Loading(phase, todo[1..], indices), mem);
      }
    case Ranking(phase, todo) =>
      if todo == [] {
        SettleSound(r, ps, Enter(phase + 1), mem);
      } else {
        var index, next := todo[0], Ranking(phase, todo[1..]);
        if Allowed(r, mem.loaded[index]) && !ps[phase].hint && r.pluginId.None? && phase != |ps| - 1 && LoadedGeneric(mem, index) {
          SettleSound(r, ps, next, mem.(deferred := mem.deferred + {index}));
        } else {
          SettleSound(r, ps, next, mem);
        }
      }
  }

  /** What a selection in an accepted log rests on. */
  lemma {:induction false} SelectionIsDeclared(r: Request, log: seq<Event>)
    requires Outcome(r, log).Ok? && Outcome(r, log).action.Selected?
    ensures var a := Outcome(r, log).action;
            exists k :: 0 <= k < |log| && log[k].Loaded? && log[k].index == a.index &&
                        Declared(r, map[a.index := log[k].info], a.index, a.language)
  {
    hide Phases, Settle, WellFormedStatus, StatusAfter;
    var t := StatusAfter(r, log);
    SoundAfter(r, log);
    ToldAfter(r, log);
    var i := t.action.index;
    var k :| 0 <= k < |log| && log[k].Loaded? && log[k].index == i;
    assert t.mem.loaded[i] == log[k].info;
  }

  lemma {:induction false} ToldAfter(r: Request, log: seq<Event>)
    requires !StatusAfter(r, log).Broken?
    ensures Told(log, StatusAfter(r, log).mem.loaded)
  {
    hide Phases, Settle, StatusAfter;
    if log == [] {
      assert StatusAfter(r, log) == Settle(r, Phases(r), Enter(0), START) by { EmptyLog(r); }
    } else {
      var n := |log| - 1;
      assert log == log[..n] + [log[n]];
      StatusSnoc(r, log[..n], log[n]);
      var s := StatusAfter(r, log[..n]);
      ExplainsAll(r, log[..n]);
      AnswerAdvances(r, Phases(r), s, log[n]);
      AnswerLoaded(r, Phases(r), s, log[n]);
      ToldSnoc(log[..n], log[n], s.mem.loaded);
    }
  }

  lemma {:induction false} EmptyLog(r: Request)
    ensures StatusAfter(r, []) == Settle(r, Phases(r), Enter(0), START)
  {}

  lemma {:induction false} AnswerLoaded(r: Request, ps: seq<Phase>, s: Status, e: Event)
    requires ValidPhases(r, ps) && WellFormedStatus(r, ps, s)
    requires !s.Broken? && !Answer(r, ps, s, e).Broken?
    ensures Answer(r, ps, s, e).mem.loaded == if e.Loaded? then s.mem.loaded[e.index := e.info] else s.mem.loaded
  {
    hide Settle;
  }

  lemma {:induction false} SoundAfter(r: Request, log: seq<Event>)
    ensures SoundStatus(r, StatusAfter(r, log))
    decreases |log|
  {
    hide Phases, Settle;
    var ps := Phases(r);
    if log == [] {
      SettleSound(r, ps, Enter(0), START);
    } else {
      var n := |log| - 1;
      assert log == log[..n] + [log[n]];
      StatusSnoc(r, log[..n], log[n]);
      SoundAfter(r, log[..n]);
      AnswerSound(r, ps, StatusAfter(r, log[..n]), log[n]);
    }
  }

  lemma {:induction false} AnswerSound(r: Request, ps: seq<Phase>, s: Status, e: Event)
    requires ValidPhases(r, ps) && WellFormedStatus(r, ps, s) && SoundStatus(r, s)
    ensures SoundStatus(r, Answer(r, ps, s, e))
  {
    hide Settle;
    match s
    case AwaitLoad(phase, index, rest, indices, mem) =>
      if e.Loaded? && e.index == index {
        SettleSound(r, ps, Loading(phase, rest, indices), mem.(loaded := mem.loaded[index := e.info], cursor := mem.cursor + 1));
      } else if e.LoadFailed? && e.index == index {
        SettleSound(r, ps, Loading(phase, rest, indices), mem.(failed := mem.failed + {index}, cursor := mem.cursor + 1));
      }
    case AwaitProbe(phase, index, rest, mem) =>
      SettleSound(r, ps, Ranking(phase, rest), mem.(cursor := mem.cursor + 1));
    case _ =>
  }
}
