/** The cache tables: what get, put and clear do to rows and counters, and what eviction removes. */
module CacheStore {
  import opened Common
  import opened CacheKeys

  datatype Table = ParseTable | DiffTable | IndexTable | HoverTable

  /** A stored result, compressed. */
  datatype Row = Row(blob: Bytes, createdAt: int)

  datatype Reply = Found(value: Bytes) | Absent | Corrupt

  /** gzip, as far as the cache needs it. */
  datatype Codec = Codec(compress: Bytes -> Bytes, decompress: Bytes -> Option<Bytes>)

  ghost predicate Invertible(codec: Codec) {
    forall v :: codec.decompress(codec.compress(v)) == Some(v)
  }

  datatype Db = Db(rows: map<(Table, Bytes), Row>, hits: map<Table, nat>, misses: map<Table, nat>)

  const EMPTY := Db(map[], map[], map[])

  function Count(counters: map<Table, nat>, table: Table): nat {
    if table in counters then counters[table] else 0
  }

  function Bumped(counters: map<Table, nat>, table: Table): map<Table, nat> {
    counters[table := Count(counters, table) + 1]
  }

  function Fetched(codec: Codec, db: Db, table: Table, key: Bytes): Reply {
    if (table, key) !in db.rows then Absent
    else
      match codec.decompress(db.rows[(table, key)].blob)
      case Some(value) => Found(value)
      case None => Corrupt
  }

  function AfterGet(db: Db, table: Table, key: Bytes): Db {
    if (table, key) in db.rows then db.(hits := Bumped(db.hits, table)) else db.(misses := Bumped(db.misses, table))
  }

  function AfterPut(codec: Codec, db: Db, table: Table, key: Bytes, value: Bytes, now: int): Db {
    db.(rows := db.rows[(table, key) := Row(codec.compress(value), now)])
  }

  function Without<T>(rows: map<(Table, Bytes), T>, tables: set<Table>): map<(Table, Bytes), T> {
    map k | k in rows && k.0 !in tables :: rows[k]
  }

  function AfterClear(db: Db, tables: set<Table>): Db {
    db.(rows := Without(db.rows, tables))
  }

  function One(table: Table, flag: bool): set<Table> {
    if flag then {table} else {}
  }

  lemma {:induction false} WithoutTwice<T>(rows: map<(Table, Bytes), T>, a: set<Table>, b: set<Table>)
    ensures Without(Without(rows, a), b) == Without(rows, a + b)
  {}

  class SqliteStore {
    var rows: map<(Table, Bytes), Row>
    var hits: map<Table, nat>
    var misses: map<Table, nat>

    constructor ()
      ensures Contents() == EMPTY
    {
      rows, hits, misses := map[], map[], map[];
    }

    function Contents(): Db
      reads this
    {
      Db(rows, hits, misses)
    }

    method BumpMetric(table: Table, hit: bool)
      modifies this
      ensures Contents() == old(if hit then Db(rows, Bumped(hits, table), misses) else Db(rows, hits, Bumped(misses, table)))
    {
      if hit {
        hits := hits[table := Count(hits, table) + 1];
      } else {
        misses := misses[table := Count(misses, table) + 1];
      }
    }

    method Get(codec: Codec, table: Table, key: Bytes) returns (reply: Reply)
      modifies this
      ensures reply == Fetched(codec, old(Contents()), table, key)
      ensures Contents() == AfterGet(old(Contents()), table, key)
    {
      if (table, key) in rows {
        var blob := rows[(table, key)].blob;
        BumpMetric(table, true);
        var value := codec.decompress(blob);
        reply := if value.Some? then Found(value.value) else Corrupt;
      } else {
        BumpMetric(table, false);
        reply := Absent;
      }
    }

    method Put(codec: Codec, table: Table, key: Bytes, value: Bytes, now: int)
      modifies this
      ensures Contents() == AfterPut(codec, old(Contents()), table, key, value, now)
    {
      rows := rows[(table, key) := Row(codec.compress(value), now)];
    }

    method Clear(parse: bool, diff: bool, index: bool, hover: bool)
      modifies this
      ensures Contents() == AfterClear(old(Contents()), One(ParseTable, parse) + One(DiffTable, diff) +
                                                        One(IndexTable, index) + One(HoverTable, hover))
    {
      ghost var before := rows;
      WithoutTwice(before, One(ParseTable, parse), One(DiffTable, diff));
      WithoutTwice(before, One(ParseTable, parse) + One(DiffTable, diff), One(IndexTable, index));
      WithoutTwice(before, One(ParseTable, parse) + One(DiffTable, diff) + One(IndexTable, index), One(HoverTable, hover));
      WithoutNone(before, One(ParseTable, parse));
      WithoutNone(before, One(ParseTable, parse) + One(DiffTable, diff));
      WithoutNone(before, One(ParseTable, parse) + One(DiffTable, diff) + One(IndexTable, index));
      WithoutNone(before, {});
      hide Without;
      if parse { rows := Without(rows, {ParseTable}); }
      if diff { rows := Without(rows, {DiffTable}); }
      if index { rows := Without(rows, {IndexTable}); }
      if hover { rows := Without(rows, {HoverTable}); }
    }
  }

  lemma {:induction false} WithoutNone<T>(rows: map<(Table, Bytes), T>, a: set<Table>)
    ensures a + {} == a && Without(rows, {}) == rows
  {}

  // ---- Against a plain map keyed by the arguments ----

  /** A call, with the parts its key is made of. `Drop` stands for eviction and expiry: some rows go. */
  datatype Call =
    | GetCall(table: Table, parts: seq<Bytes>)
    | PutCall(table: Table, parts: seq<Bytes>, value: Bytes, now: int)
    | ClearCall(tables: set<Table>)
    | DropCall(keys: set<(Table, Bytes)>)

  datatype Setup = Setup(codec: Codec, digest: Bytes -> Bytes)

  ghost predicate SetupOk(u: Setup) {
    Invertible(u.codec) && forall a, b :: u.digest(a) == u.digest(b) ==> a == b
  }

  function KeyOf(u: Setup, parts: seq<Bytes>): Bytes {
    u.digest(Encode(parts))
  }

  function Do(u: Setup, db: Db, call: Call): Db {
    match call
    case GetCall(table, parts) => AfterGet(db, table, KeyOf(u, parts))
    case PutCall(table, parts, value, now) => AfterPut(u.codec, db, table, KeyOf(u, parts), value, now)
    case ClearCall(tables) => AfterClear(db, tables)
    case DropCall(keys) => db.(rows := db.rows - keys)
  }

  function Run(u: Setup, calls: seq<Call>): Db {
    if calls == [] then EMPTY else Do(u, Run(u, calls[..|calls| - 1]), calls[|calls| - 1])
  }

  /** The plain map; eviction does not concern it. */
  function Remembered(calls: seq<Call>): map<(Table, seq<Bytes>), Bytes> {
    if calls == [] then map[]
    else
      var before := Remembered(calls[..|calls| - 1]);
      match calls[|calls| - 1]
      case GetCall(_, _) => before
      case PutCall(table, parts, value, _) => before[(table, parts) := value]
      case ClearCall(tables) => map k | k in before && k.0 !in tables :: before[k]
      case DropCall(_) => before
  }

  ghost predicate CallOk(call: Call) {
    (call.GetCall? || call.PutCall?) ==> Short(call.parts)
  }

  /** What the store holds for arguments is what the plain map holds; without drops nothing is missing. */
  ghost predicate Agrees(u: Setup, rows: map<(Table, Bytes), Row>, plain: map<(Table, seq<Bytes>), Bytes>, complete: bool) {
    forall table, parts :: Short(parts) ==> AgreesAt(u, rows, plain, complete, table, parts)
  }

  ghost predicate AgreesAt(u: Setup, rows: map<(Table, Bytes), Row>, plain: map<(Table, seq<Bytes>), Bytes>, complete: bool,
                           table: Table, parts: seq<Bytes>) {
    && ((table, KeyOf(u, parts)) in rows ==>
          (table, parts) in plain && u.codec.decompress(rows[(table, KeyOf(u, parts))].blob) == Some(plain[(table, parts)]))
    && (complete && (table, parts) in plain ==> (table, KeyOf(u, parts)) in rows)
  }

  lemma {:induction false} KeysDiffer(u: Setup, a: seq<Bytes>, b: seq<Bytes>)
    requires SetupOk(u) && Short(a) && Short(b)
    ensures KeyOf(u, a) == KeyOf(u, b) <==> a == b
  {
    EncodeInjective(a, b);
    hide Encode, Short;
  }

  ghost predicate NoDrops(calls: seq<Call>) {
    forall i :: 0 <= i < |calls| ==> !calls[i].DropCall?
  }

  lemma {:induction false} StepAgrees(u: Setup, db: Db, plain: map<(Table, seq<Bytes>), Bytes>, complete: bool, call: Call,
                                      after: map<(Table, seq<Bytes>), Bytes>)
    requires SetupOk(u) && CallOk(call) && Agrees(u, db.rows, plain, complete) && (complete ==> !call.DropCall?)
    requires after == match call {
      case GetCall(_, _) => plain
      case PutCall(table, parts, value, _) => plain[(table, parts) := value]
      case ClearCall(tables) => (map k | k in plain && k.0 !in tables :: plain[k])
      case DropCall(_) => plain
    }
    ensures Agrees(u, Do(u, db, call).rows, after, complete)
  {
    forall table, parts | Short(parts) ensures AgreesAt(u, Do(u, db, call).rows, after, complete, table, parts) {
      assert AgreesAt(u, db.rows, plain, complete, table, parts);
      if call.PutCall? { KeysDiffer(u, parts, call.parts); }
      hide KeyOf, Short;
    }
  }

  lemma {:induction false} Weaker(u: Setup, rows: map<(Table, Bytes), Row>, plain: map<(Table, seq<Bytes>), Bytes>,
                                  complete: bool, less: bool)
    requires Agrees(u, rows, plain, complete) && (less ==> complete)
    ensures Agrees(u, rows, plain, less)
  {
    forall table, parts | Short(parts) ensures AgreesAt(u, rows, plain, less, table, parts) {
      assert AgreesAt(u, rows, plain, complete, table, parts);
      hide KeyOf, Short;
    }
  }

  lemma {:induction false} RunAgrees(u: Setup, calls: seq<Call>)
    requires SetupOk(u) && forall i :: 0 <= i < |calls| ==> CallOk(calls[i])
    ensures Agrees(u, Run(u, calls).rows, Remembered(calls), NoDrops(calls))
  {
    if calls != [] {
      var n := |calls| - 1;
      var complete := NoDrops(calls[..n]);
      RunAgrees(u, calls[..n]);
      assert NoDrops(calls) ==> complete && !calls[n].DropCall?;
      Weaker(u, Run(u, calls[..n]).rows, Remembered(calls[..n]), complete, NoDrops(calls));
      hide NoDrops, Agrees, SetupOk, CallOk;
      StepAgrees(u, Run(u, calls[..n]), Remembered(calls[..n]), NoDrops(calls), calls[n], Remembered(calls));
    }
  }

  /** After any calls, a get finds the value last put for its arguments since the last clear, or nothing; and it
      finds it whenever nothing was evicted. */
  lemma {:induction false} GetFindsLastPut(u: Setup, calls: seq<Call>, table: Table, parts: seq<Bytes>)
    requires SetupOk(u) && Short(parts) && forall i :: 0 <= i < |calls| ==> CallOk(calls[i])
    ensures var reply, plain := Fetched(u.codec, Run(u, calls), table, KeyOf(u, parts)), Remembered(calls);
            && (reply == Absent || ((table, parts) in plain && reply == Found(plain[(table, parts)])))
            && (NoDrops(calls) ==> (reply == Absent <==> (table, parts) !in plain))
  {
    RunAgrees(u, calls);
    assert AgreesAt(u, Run(u, calls).rows, Remembered(calls), NoDrops(calls), table, parts);
    hide Run, Remembered, KeyOf, SetupOk, Short;
  }

  function Gets(calls: seq<Call>, table: Table): nat {
    if calls == [] then 0
    else
      var last := calls[|calls| - 1];
      Gets(calls[..|calls| - 1], table) + if last.GetCall? && last.table == table then 1 else 0
  }

  /** Hits and misses of a table add up to its gets; clearing and eviction do not reset them. */
  lemma {:induction false} MetricsCountGets(u: Setup, calls: seq<Call>, table: Table)
    ensures Count(Run(u, calls).hits, table) + Count(Run(u, calls).misses, table) == Gets(calls, table)
  {
    if calls != [] {
      MetricsCountGets(u, calls[..|calls| - 1], table);
      hide KeyOf;
    }
  }

  // ---- Eviction ----

  /** A row of a listing by age. */
  datatype Entry = Entry(key: Bytes, size: nat, createdAt: int)

  function Total(rows: seq<Entry>): nat {
    if rows == [] then 0 else Total(rows[..|rows| - 1]) + rows[|rows| - 1].size
  }

  ghost predicate OldestFirst(rows: seq<Entry>) {
    forall i, j :: 0 <= i < j < |rows| ==> rows[i].createdAt <= rows[j].createdAt
  }

  /** Deleting `n` rows is enough to free `target` bytes, and one less is not; or everything goes. */
  ghost predicate FewestToFree(rows: seq<Entry>, target: nat, n: nat) {
    && n <= |rows|
    && (Total(rows[..n]) >= target || n == |rows|)
    && (n > 0 ==> Total(rows[..n - 1]) < target)
  }

  method EvictTable(rows: seq<Entry>, target: nat) returns (n: nat, removed: nat)
    ensures FewestToFree(rows, target, n) && removed == Total(rows[..n])
  {
    n, removed := 0, 0;
    while n < |rows| && removed < target
      invariant n <= |rows| && removed == Total(rows[..n])
      invariant n > 0 ==> Total(rows[..n - 1]) < target
    {
      assert rows[..n + 1][..n] == rows[..n];
      removed := removed + rows[n].size;
      n := n + 1;
    }
  }

  lemma {:induction false} TotalSplit(rows: seq<Entry>, n: nat)
    requires n <= |rows|
    ensures Total(rows) == Total(rows[..n]) + Total(rows[n..])
  {
    if n == |rows| {
      assert rows[..n] == rows;
    } else {
      var last := |rows| - 1;
      TotalSplit(rows[..last], n);
      assert rows[..last][..n] == rows[..n] && rows[n..][..last - n] == rows[..last][n..];
    }
  }

  /** A table loses its oldest rows, at least the target or everything, and no more than it must. */
  lemma {:induction false} TableEviction(rows: seq<Entry>, target: nat, n: nat)
    requires FewestToFree(rows, target, n)
    ensures Total(rows) - Total(rows[n..]) >= (if target < Total(rows) then target else Total(rows))
    ensures n > 0 ==> Total(rows) - Total(rows[n..]) < target + rows[n - 1].size
  {
    TotalSplit(rows, n);
    if n > 0 { assert rows[..n][..n - 1] == rows[..n - 1]; }
    if n == |rows| { assert rows[..n] == rows; }
  }

  lemma {:induction false} OldestGoFirst(rows: seq<Entry>, n: nat, lost: Entry, kept: Entry)
    requires n <= |rows| && OldestFirst(rows) && lost in rows[..n] && kept in rows[n..]
    ensures lost.createdAt <= kept.createdAt
  {
    var i :| 0 <= i < n && rows[i] == lost;
    var j :| 0 <= j < |rows| - n && rows[n..][j] == kept;
    assert rows[n + j] == kept;
  }

  /** Which rows go is determined by the listing and the target, and no kept row is older than a lost one. */
  lemma {:induction false} EvictionIsDetermined(rows: seq<Entry>, target: nat, m: nat, n: nat)
    requires FewestToFree(rows, target, m) && FewestToFree(rows, target, n)
    ensures m == n
    ensures OldestFirst(rows) ==> forall lost, kept :: lost in rows[..n] && kept in rows[n..] ==> lost.createdAt <= kept.createdAt
  {
    hide Total, OldestFirst;
    if m < n {
      TotalGrows(rows, m, n - 1);
    } else if n < m {
      TotalGrows(rows, n, m - 1);
    }
    hide FewestToFree;
    forall lost, kept | OldestFirst(rows) && lost in rows[..n] && kept in rows[n..] ensures lost.createdAt <= kept.createdAt {
      OldestGoFirst(rows, n, lost, kept);
    }
  }

  lemma {:induction false} TotalGrows(rows: seq<Entry>, m: nat, n: nat)
    requires m <= n <= |rows|
    ensures Total(rows[..m]) <= Total(rows[..n])
  {
    if m < n {
      assert rows[..n][..n - 1] == rows[..n - 1];
      TotalGrows(rows, m, n - 1);
    }
  }

  function Fresh(rows: seq<Entry>, cutoff: int): seq<Entry> {
    if rows == [] then []
    else
      var last := rows[|rows| - 1];
      Fresh(rows[..|rows| - 1], cutoff) + (if last.createdAt < cutoff then [] else [last])
  }

  lemma {:induction false} FreshAre(rows: seq<Entry>, cutoff: int)
    ensures forall r :: r in Fresh(rows, cutoff) <==> r in rows && r.createdAt >= cutoff
  {
    if rows != [] {
      var n := |rows| - 1;
      FreshAre(rows[..n], cutoff);
      assert rows == rows[..n] + [rows[n]];
    }
  }

  lemma {:induction false} FreshIsOrdered(rows: seq<Entry>, cutoff: int)
    requires OldestFirst(rows)
    ensures OldestFirst(Fresh(rows, cutoff))
  {
    if rows != [] {
      var n := |rows| - 1;
      var front := Fresh(rows[..n], cutoff);
      FreshIsOrdered(rows[..n], cutoff);
      FreshAre(rows[..n], cutoff);
      forall r | r in front ensures r.createdAt <= rows[n].createdAt {
        var k :| 0 <= k < n && rows[..n][k] == r;
        assert rows[k] == r;
      }
      assert forall i :: 0 <= i < |front| ==> front[i] in front;
    }
  }

  /** The three sized tables, as listed oldest first. */
  datatype Sized = Sized(parse: seq<Entry>, diff: seq<Entry>, hover: seq<Entry>)

  function Size(s: Sized): nat {
    Total(s.parse) + Total(s.diff) + Total(s.hover)
  }

  /** Some table holds a third of the total, and so can give up a tenth of it. */
  lemma {:induction false} Thirds(a: nat, b: nat, c: nat, a': nat, b': nat, c': nat)
    requires var target := (a + b + c) / 10;
             && a - a' >= (if target < a then target else a)
             && b - b' >= (if target < b then target else b)
             && c - c' >= (if target < c then target else c)
    ensures a' + b' + c' <= (a + b + c) - (a + b + c) / 10
  {}

  function Live(tables: Sized, cutoff: int): Sized {
    Sized(Fresh(tables.parse, cutoff), Fresh(tables.diff, cutoff), Fresh(tables.hover, cutoff))
  }

  /** Over the cap, each table loses its oldest `a`, `b` and `c` rows, as few as free a tenth of the total. */
  ghost predicate IsEviction(live: Sized, maxBytes: int, a: nat, b: nat, c: nat, kept: Sized) {
    && (if Size(live) > maxBytes
        then FewestToFree(live.parse, Size(live) / 10, a) && FewestToFree(live.diff, Size(live) / 10, b) &&
             FewestToFree(live.hover, Size(live) / 10, c)
        else a == b == c == 0)
    && a <= |live.parse| && b <= |live.diff| && c <= |live.hover|
    && kept == Sized(live.parse[a..], live.diff[b..], live.hover[c..])
  }

  /** Expired rows go; then, over the cap, the oldest of the others. */
  ghost predicate Evicted(tables: Sized, now: int, ttlSeconds: int, maxBytes: int, a: nat, b: nat, c: nat, kept: Sized) {
    IsEviction(Live(tables, now - ttlSeconds), maxBytes, a, b, c, kept)
  }

  method Evict(tables: Sized, now: int, ttlSeconds: int, maxBytes: int) returns (kept: Sized)
    ensures exists a, b, c :: Evicted(tables, now, ttlSeconds, maxBytes, a, b, c, kept)
  {
    hide Fresh, Total, FewestToFree;
    var live := Live(tables, now - ttlSeconds);
    var total := Size(live);
    var a, b, c := 0, 0, 0;
    if total > maxBytes {
      var target := total / 10;
      var freed: nat;
      a, freed := EvictTable(live.parse, target);
      b, freed := EvictTable(live.diff, target);
      c, freed := EvictTable(live.hover, target);
      WithinTable(live.parse, target, a);
      WithinTable(live.diff, target, b);
      WithinTable(live.hover, target, c);
    }
    kept := Sized(live.parse[a..], live.diff[b..], live.hover[c..]);
    assert Evicted(tables, now, ttlSeconds, maxBytes, a, b, c, kept);
  }

  lemma {:induction false} WithinTable(rows: seq<Entry>, target: nat, n: nat)
    requires FewestToFree(rows, target, n)
    ensures n <= |rows|
  {}

  /** Over the cap, the three tables together fall by at least a tenth of their total. */
  lemma {:induction false} EvictionFreesATenth(live: Sized, maxBytes: int, a: nat, b: nat, c: nat, kept: Sized)
    requires IsEviction(live, maxBytes, a, b, c, kept)
    ensures if Size(live) > maxBytes then Size(kept) <= Size(live) - Size(live) / 10 else kept == live
  {
    if Size(live) > maxBytes {
      var target := Size(live) / 10;
      TableEviction(live.parse, target, a);
      TableEviction(live.diff, target, b);
      TableEviction(live.hover, target, c);
      hide Total, FewestToFree;
      Thirds(Total(live.parse), Total(live.diff), Total(live.hover), Total(kept.parse), Total(kept.diff), Total(kept.hover));
    }
  }

  // ---- When the cap is met ----

  /** What a listing gives up for a target: row by row, oldest first, until enough is gone. */
  function Freed(rows: seq<Entry>, target: int): nat {
    if rows == [] || target <= 0 then 0 else rows[0].size + Freed(rows[1..], target - rows[0].size)
  }

  lemma {:induction false} FirstAndTotal(rows: seq<Entry>)
    requires rows != []
    ensures Total(rows) == rows[0].size + Total(rows[1..])
  {
    TotalSplit(rows, 1);
    assert rows[..1][..0] == [];
    assert Total(rows[..1]) == Total(rows[..1][..0]) + rows[0].size;
  }

  lemma {:induction false} FewestFreed(rows: seq<Entry>, target: nat, n: nat)
    requires FewestToFree(rows, target, n)
    ensures Total(rows[..n]) == Freed(rows, target)
  {
    if n > 0 {
      var rest, left := rows[1..], target - rows[0].size;
      assert rows[..0] == [] && rest[..n - 1] == rows[..n][1..];
      FirstAndTotal(rows[..n]);
      if n > 1 {
        assert rest[..n - 2] == rows[..n - 1][1..];
        FirstAndTotal(rows[..n - 1]);
        hide Total;
        assert rows[..n - 1][0] == rows[0];
        FewestFreed(rest, left, n - 1);
      } else {
        assert rows[..1][1..] == [];
      }
    }
  }

  /** Over the cap, one eviction meets it exactly when the three listings give up the excess between them; they do
      whenever the excess is at most a tenth of the total. */
  lemma {:induction false} CapMetIff(tables: Sized, now: int, ttlSeconds: int, maxBytes: int, a: nat, b: nat, c: nat, kept: Sized)
    requires Evicted(tables, now, ttlSeconds, maxBytes, a, b, c, kept)
    ensures var live := Live(tables, now - ttlSeconds);
            var total, target := Size(live), Size(live) / 10;
            && (Size(kept) <= maxBytes <==>
                  total <= maxBytes ||
                  Freed(live.parse, target) + Freed(live.diff, target) + Freed(live.hover, target) >= total - maxBytes)
            && (total - total / 10 <= maxBytes ==> Size(kept) <= maxBytes)
  {
    var live := Live(tables, now - ttlSeconds);
    hide Live;
    if Size(live) > maxBytes {
      var target := Size(live) / 10;
      FewestFreed(live.parse, target, a);
      FewestFreed(live.diff, target, b);
      FewestFreed(live.hover, target, c);
      TotalSplit(live.parse, a);
      TotalSplit(live.diff, b);
      TotalSplit(live.hover, c);
      EvictionFreesATenth(live, maxBytes, a, b, c, kept);
      hide Total, Freed, FewestToFree;
    } else {
      EvictionFreesATenth(live, maxBytes, a, b, c, kept);
    }
  }

  lemma {:induction false} TwoRows(oldest: Entry, newest: Entry)
    ensures Total([]) == 0 && Total([newest]) == newest.size && Total([oldest, newest]) == oldest.size + newest.size
    ensures FewestToFree([], oldest.size, 0) && (oldest.size > 0 ==> FewestToFree([oldest, newest], oldest.size, 1))
  {
    FirstAndTotal([newest]);
    FirstAndTotal([oldest]);
    FirstAndTotal([oldest, newest]);
    var rows := [oldest, newest];
    assert rows[1..] == [newest] && [newest][1..] == [] && [oldest][1..] == [] && rows[..1] == [oldest] && rows[..0] == [];
  }

  lemma {:induction false} AllFresh(oldest: Entry, newest: Entry, cutoff: int)
    requires cutoff <= oldest.createdAt && cutoff <= newest.createdAt
    ensures Fresh([], cutoff) == [] && Fresh([oldest, newest], cutoff) == [oldest, newest]
  {
    assert [oldest, newest][..1] == [oldest] && [oldest][..0] == [];
    assert Fresh([oldest], cutoff) == [oldest];
  }

  /** One eviction can leave the tables over the cap: of 100 bytes with a cap of 50, the oldest ten are a tenth. */
  lemma {:induction false} CapCanStayExceeded(oldest: Entry, newest: Entry, now: int, ttlSeconds: int)
    requires oldest.size == 10 && newest.size == 90 && now - ttlSeconds <= oldest.createdAt <= newest.createdAt
    ensures Evicted(Sized([oldest, newest], [], []), now, ttlSeconds, 50, 1, 0, 0, Sized([newest], [], []))
    ensures Size(Sized([newest], [], [])) > 50
  {
    var rows, none: seq<Entry> := [oldest, newest], [];
    AllFresh(oldest, newest, now - ttlSeconds);
    TwoRows(oldest, newest);
    hide Total, Fresh, FewestToFree;
    assert rows[1..] == [newest];
    assert none[0..] == none;
  }
}
