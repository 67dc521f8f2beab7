/** Git's NUL-separated `diff --name-status -z` inventories, read strictly and leniently. */
module GitInventory {
  import opened Common

  newtype Byte = x: int | 0 <= x < 256

  type Bytes = seq<Byte>

  /** Which byte strings are UTF-8, what replaces the invalid parts of the others, and the first character. */
  datatype Utf8 = Utf8(valid: Bytes -> bool, lossy: Bytes -> Bytes, first: Bytes -> Bytes)

  ghost predicate IsUtf8(u: Utf8) {
    && (forall b :: (forall i :: 0 <= i < |b| ==> b[i] < 128) ==> u.valid(b))
    && (forall b :: u.valid(b) ==> u.lossy(b) == b)
    && (forall b :: b != [] && b[0] < 128 ==> u.first(b) == [b[0]])
  }

  /** One change: its letter, and the paths on both sides. */
  datatype Entry = Entry(code: Bytes, oldPath: Bytes, newPath: Bytes)

  datatype Error = MissingNul | InvalidUtf8 | BadStatus | Truncated | EmptyPath

  datatype Result<+T> = Ok(value: T) | Err(error: Error)

  // ---- Splitting at NUL ----

  function Split(data: Bytes): (tokens: seq<Bytes>)
    ensures |tokens| >= 1
  {
    if data == [] then [[]]
    else
      var rest := Split(data[1..]);
      if data[0] == 0 then [[]] + rest else [[data[0]] + rest[0]] + rest[1..]
  }

  /** Each token followed by a NUL. */
  function Terminated(tokens: seq<Bytes>): Bytes {
    if tokens == [] then [] else tokens[0] + [0] + Terminated(tokens[1..])
  }

  ghost predicate NulFree(tokens: seq<Bytes>) {
    forall i :: 0 <= i < |tokens| ==> 0 !in tokens[i]
  }

  lemma {:induction false} SplitToken(token: Bytes, rest: Bytes)
    requires 0 !in token
    ensures Split(token + [0] + rest) == [token] + Split(rest)
  {
    var data := token + [0] + rest;
    if token == [] {
      assert data[1..] == rest;
    } else {
      assert data[1..] == token[1..] + [0] + rest;
      SplitToken(token[1..], rest);
      assert [token[0]] + token[1..] == token;
    }
  }

  /** Splitting undoes terminating; the text after the last NUL is an empty token. */
  lemma {:induction false} SplitTerminated(tokens: seq<Bytes>)
    requires NulFree(tokens)
    ensures Split(Terminated(tokens)) == tokens + [[]]
  {
    if tokens != [] {
      SplitTerminated(tokens[1..]);
      SplitToken(tokens[0], Terminated(tokens[1..]));
      assert [tokens[0]] + (tokens[1..] + [[]]) == tokens + [[]];
    }
  }

  lemma {:induction false} TerminatedSplit(data: Bytes)
    ensures Terminated(Split(data)) == data + [0] && NulFree(Split(data))
  {
    if data != [] {
      TerminatedSplit(data[1..]);
      var rest := Split(data[1..]);
      var tokens := Split(data);
      assert tokens[1..] == if data[0] == 0 then rest else rest[1..];
      assert Terminated(rest) == rest[0] + [0] + Terminated(rest[1..]);
      assert [data[0]] + (data[1..] + [0]) == data + [0];
      if data[0] == 0 {
        assert Terminated(tokens) == [] + [0] + Terminated(rest);
      } else {
        assert Terminated(tokens) == [data[0]] + rest[0] + [0] + Terminated(rest[1..]);
        assert [data[0]] + rest[0] + [0] + Terminated(rest[1..]) == [data[0]] + (rest[0] + [0] + Terminated(rest[1..]));
      }
    }
  }

  // ---- Statuses ----

  const A: Byte := 65
  const C: Byte := 67
  const D: Byte := 68
  const M: Byte := 77
  const R: Byte := 82

  predicate IsDigit(b: Byte) {
    48 <= b <= 57
  }

  predicate AllDigits(bs: Bytes) {
    forall i :: 0 <= i < |bs| ==> IsDigit(bs[i])
  }

  predicate PairCode(code: Bytes) {
    code == [R] || code == [C]
  }

  predicate SingleCode(code: Bytes) {
    code == [A] || code == [D] || code == [M]
  }

  predicate StatusOk(status: Bytes) {
    SingleCode(status) || (|status| > 1 && PairCode(status[..1]) && AllDigits(status[1..]))
  }

  ghost predicate Spells(bs: Bytes, s: string) {
    |bs| == |s| && forall i :: 0 <= i < |bs| ==> bs[i] as int == s[i] as int
  }

  /** A letter with a similarity: at least one decimal digit behind it. */
  ghost predicate Scored(bs: Bytes, letter: char) {
    exists digits: string :: digits != "" && (forall c :: c in digits ==> '0' <= c <= '9') && Spells(bs, [letter] + digits)
  }

  lemma {:induction false} DigitsAre(bs: Bytes, letter: char)
    ensures Scored(bs, letter) <==> |bs| > 1 && bs[0] as int == letter as int && AllDigits(bs[1..])
  {
    if digits: string :| digits != "" && (forall c :: c in digits ==> '0' <= c <= '9') && Spells(bs, [letter] + digits) {
      forall i | 0 <= i < |bs[1..]| ensures IsDigit(bs[1..][i]) {
        assert bs[i + 1] as int == ([letter] + digits)[i + 1] as int && digits[i] in digits;
      }
    }
    if |bs| > 1 && bs[0] as int == letter as int && AllDigits(bs[1..]) {
      var digits: string := seq(|bs| - 1, i requires 0 <= i < |bs| - 1 => bs[i + 1] as int as char);
      forall c | c in digits ensures '0' <= c <= '9' {
        var i :| 0 <= i < |digits| && digits[i] == c;
        assert IsDigit(bs[1..][i]);
      }
      assert Spells(bs, [letter] + digits);
    }
  }

  /** The statuses are `A`, `D`, `M`, and `R` or `C` with a similarity; the latter two carry a pair of paths. */
  lemma {:induction false} StatusesAre(status: Bytes)
    ensures StatusOk(status) <==>
              || Spells(status, "A") || Spells(status, "D") || Spells(status, "M")
              || Scored(status, 'R') || Scored(status, 'C')
    ensures StatusOk(status) ==> (PairCode(status[..1]) <==> Scored(status, 'R') || Scored(status, 'C'))
  {
    DigitsAre(status, 'R');
    DigitsAre(status, 'C');
    hide Scored, AllDigits;
    if status != [] { assert status[..1] == [status[0]]; }
    if |status| == 1 { assert status == [status[0]]; }
  }

  // ---- The strict reader ----

  function ReadPath(u: Utf8, token: Bytes): Result<Bytes> {
    if !u.valid(token) then Err(InvalidUtf8) else if token == [] then Err(EmptyPath) else Ok(token)
  }

  /** The first record and how many tokens it takes. */
  function FirstRecord(u: Utf8, tokens: seq<Bytes>): (r: Result<(Entry, nat)>)
    requires tokens != []
    ensures r.Ok? ==> 2 <= r.value.1 <= |tokens|
  {
    var status := tokens[0];
    if !u.valid(status) then Err(InvalidUtf8)
    else if !StatusOk(status) then Err(BadStatus)
    else
      var count := if PairCode(status[..1]) then 2 else 1;
      if 1 + count > |tokens| then Err(Truncated)
      else
        match ReadPath(u, tokens[1])
        case Err(e) => Err(e)
        case Ok(old_) =>
          if count == 1 then Ok((Entry(status[..1], old_, old_), 2))
          else
            match ReadPath(u, tokens[2])
            case Err(e) => Err(e)
            case Ok(new_) => Ok((Entry(status[..1], old_, new_), 3))
  }

  function Records(u: Utf8, tokens: seq<Bytes>): Result<seq<Entry>> {
    if tokens == [] then Ok([])
    else
      match FirstRecord(u, tokens)
      case Err(e) => Err(e)
      case Ok((entry, n)) =>
        match Records(u, tokens[n..])
        case Err(e) => Err(e)
        case Ok(rest) => Ok([entry] + rest)
  }

  function Strict(u: Utf8, data: Bytes): Result<seq<Entry>> {
    if data == [] then Ok([])
    else if data[|data| - 1] != 0 then Err(MissingNul)
    else Records(u, Split(data[..|data| - 1]))
  }

  /** Prefixing what was read so far. */
  function After(entries: seq<Entry>, rest: Result<seq<Entry>>): Result<seq<Entry>> {
    if rest.Err? then rest else Ok(entries + rest.value)
  }

  method ParseNameStatus(u: Utf8, data: Bytes) returns (result: Result<seq<Entry>>)
    ensures result == Strict(u, data)
  {
    if data == [] { return Ok([]); }
    if data[|data| - 1] != 0 { return Err(MissingNul); }
    var tokens := Split(data[..|data| - 1]);
    var entries: seq<Entry> := [];
    var index := 0;
    assert tokens[0..] == tokens;
    NoneRead(Records(u, tokens));
    while index < |tokens|
      invariant index <= |tokens|
      invariant After(entries, Records(u, tokens[index..])) == Records(u, tokens)
    {
      ghost var from := tokens[index..];
      var status := tokens[index];
      if !u.valid(status) { return Err(InvalidUtf8); }
      if !StatusOk(status) { return Err(BadStatus); }
      var count := if PairCode(status[..1]) then 2 else 1;
      index := index + 1;
      if index + count > |tokens| { return Err(Truncated); }
      var oldPath := ReadPath(u, tokens[index]);
      if oldPath.Err? { return Err(oldPath.error); }
      index := index + 1;
      var newPath := oldPath;
      if count == 2 {
        newPath := ReadPath(u, tokens[index]);
        if newPath.Err? { return Err(newPath.error); }
        index := index + 1;
      }
      var entry := Entry(status[..1], oldPath.value, newPath.value);
      assert FirstRecord(u, from) == Ok((entry, count + 1));
      assert from[count + 1..] == tokens[index..];
      hide FirstRecord, StatusOk;
      OneMore(entries, entry, Records(u, tokens[index..]));
      entries := entries + [entry];
    }
    assert Records(u, tokens[index..]) == Ok([]) && entries + [] == entries;
    return Ok(entries);
  }

  lemma {:induction false} NoneRead(rest: Result<seq<Entry>>)
    ensures After([], rest) == rest
  {
    if rest.Ok? { assert [] + rest.value == rest.value; }
  }

  lemma {:induction false} OneMore(entries: seq<Entry>, entry: Entry, rest: Result<seq<Entry>>)
    ensures After(entries + [entry], rest) == After(entries, After([entry], rest))
  {
    if rest.Ok? { assert entries + [entry] + rest.value == entries + ([entry] + rest.value); }
  }

  // ---- The writer ----

  /** An entry as Git writes it; renames and copies carry a similarity. */
  function RecordTokens(e: Entry, score: Bytes): seq<Bytes> {
    if PairCode(e.code) then [e.code + score, e.oldPath, e.newPath] else [e.code, e.oldPath]
  }

  predicate PathOk(u: Utf8, path: Bytes) {
    u.valid(path) && path != [] && 0 !in path
  }

  predicate Writable(u: Utf8, e: Entry, score: Bytes) {
    && PathOk(u, e.oldPath) && PathOk(u, e.newPath)
    && AllDigits(score)
    && if PairCode(e.code) then score != [] else SingleCode(e.code) && score == [] && e.newPath == e.oldPath
  }

  ghost predicate AllWritable(u: Utf8, es: seq<Entry>, scores: seq<Bytes>) {
    |es| == |scores| && forall i :: 0 <= i < |es| ==> Writable(u, es[i], scores[i])
  }

  function AllTokens(es: seq<Entry>, scores: seq<Bytes>): seq<Bytes>
    requires |es| == |scores|
  {
    if es == [] then [] else RecordTokens(es[0], scores[0]) + AllTokens(es[1..], scores[1..])
  }

  function Written(es: seq<Entry>, scores: seq<Bytes>): Bytes
    requires |es| == |scores|
  {
    Terminated(AllTokens(es, scores))
  }

  ghost predicate Tokens(tokens: seq<Bytes>) {
    forall i :: 0 <= i < |tokens| ==> 0 !in tokens[i] && tokens[i] != []
  }

  lemma {:induction false} FirstWritten(u: Utf8, e: Entry, score: Bytes, rest: seq<Bytes>)
    requires IsUtf8(u) && Writable(u, e, score)
    ensures var tokens := RecordTokens(e, score) + rest;
            && FirstRecord(u, tokens) == Ok((e, |RecordTokens(e, score)|))
            && Tokens(RecordTokens(e, score)) && |RecordTokens(e, score)| > 0
  {
    var status := e.code + score;
    assert status[..1] == e.code && status[1..] == score;
    assert forall i :: 0 <= i < |status| ==> status[i] < 128 && status[i] != 0;
    assert u.valid(status);
    assert e.code + [] == e.code;
  }

  lemma {:induction false} WrittenIsRead(u: Utf8, es: seq<Entry>, scores: seq<Bytes>)
    requires IsUtf8(u) && AllWritable(u, es, scores)
    ensures Records(u, AllTokens(es, scores)) == Ok(es)
  {
    if es != [] {
      HeadAndTail(u, es, scores);
      hide *;
      var first, rest := RecordTokens(es[0], scores[0]), AllTokens(es[1..], scores[1..]);
      FirstWritten(u, es[0], scores[0], rest);
      WrittenIsRead(u, es[1..], scores[1..]);
      FirstThenRest(u, es[0], first, rest);
    }
  }

  lemma {:induction false} HeadAndTail(u: Utf8, es: seq<Entry>, scores: seq<Bytes>)
    requires AllWritable(u, es, scores) && es != []
    ensures Writable(u, es[0], scores[0]) && AllWritable(u, es[1..], scores[1..])
    ensures AllTokens(es, scores) == RecordTokens(es[0], scores[0]) + AllTokens(es[1..], scores[1..])
    ensures [es[0]] + es[1..] == es
  {
    hide Writable;
  }

  lemma {:induction false} FirstThenRest(u: Utf8, e: Entry, first: seq<Bytes>, rest: seq<Bytes>)
    requires first != [] && FirstRecord(u, first + rest) == Ok((e, |first|)) && Records(u, rest).Ok?
    ensures Records(u, first + rest) == Ok([e] + Records(u, rest).value)
  {
    hide FirstRecord;
    assert (first + rest)[|first|..] == rest;
  }

  lemma {:induction false} TokensAppend(a: seq<Bytes>, b: seq<Bytes>)
    requires Tokens(a) && Tokens(b)
    ensures Tokens(a + b)
  {}

  lemma {:induction false} WrittenTokens(u: Utf8, es: seq<Entry>, scores: seq<Bytes>)
    requires IsUtf8(u) && AllWritable(u, es, scores)
    ensures Tokens(AllTokens(es, scores)) && |AllTokens(es, scores)| >= |es|
  {
    if es != [] {
      hide IsUtf8, FirstRecord, Writable;
      FirstWritten(u, es[0], scores[0], []);
      var first, rest := RecordTokens(es[0], scores[0]), AllTokens(es[1..], scores[1..]);
      assert AllTokens(es, scores) == first + rest;
      WrittenTokens(u, es[1..], scores[1..]);
      hide *;
      TokensAppend(first, rest);
    }
  }

  /** The similarity of the first record, if it carries one. */
  function ScoreOf(tokens: seq<Bytes>): Bytes
    requires tokens != [] && tokens[0] != []
  {
    if PairCode(tokens[0][..1]) then tokens[0][1..] else []
  }

  lemma {:induction false} FirstReadIsWritten(u: Utf8, tokens: seq<Bytes>)
    requires tokens != [] && NulFree(tokens) && FirstRecord(u, tokens).Ok?
    ensures tokens[0] != []
    ensures var (e, n) := FirstRecord(u, tokens).value;
            Writable(u, e, ScoreOf(tokens)) && RecordTokens(e, ScoreOf(tokens)) == tokens[..n]
  {
    var (e, n) := FirstRecord(u, tokens).value;
    assert tokens[0] == tokens[0][..1] + tokens[0][1..];
    assert SingleCode(tokens[0]) ==> tokens[0] == tokens[0][..1];
    if n == 3 {
      assert tokens[..3] == [tokens[0], tokens[1], tokens[2]];
    } else {
      assert tokens[..2] == [tokens[0], tokens[1]];
    }
  }

  lemma {:induction false} RecordsSplit(u: Utf8, tokens: seq<Bytes>)
    requires tokens != [] && Records(u, tokens).Ok?
    ensures FirstRecord(u, tokens).Ok? && Records(u, tokens[FirstRecord(u, tokens).value.1..]).Ok?
    ensures var (e, n) := FirstRecord(u, tokens).value;
            Records(u, tokens).value == [e] + Records(u, tokens[n..]).value
  {
    hide FirstRecord;
  }

  lemma {:induction false} OneMoreWritable(u: Utf8, e: Entry, score: Bytes, es: seq<Entry>, scores: seq<Bytes>)
    requires Writable(u, e, score) && AllWritable(u, es, scores)
    ensures AllWritable(u, [e] + es, [score] + scores)
    ensures AllTokens([e] + es, [score] + scores) == RecordTokens(e, score) + AllTokens(es, scores)
  {
    hide Writable, RecordTokens;
    assert ([e] + es)[1..] == es && ([score] + scores)[1..] == scores;
  }

  lemma {:induction false} ReadIsWritten(u: Utf8, tokens: seq<Bytes>) returns (scores: seq<Bytes>)
    requires NulFree(tokens) && Records(u, tokens).Ok?
    ensures AllWritable(u, Records(u, tokens).value, scores) && AllTokens(Records(u, tokens).value, scores) == tokens
    decreases |tokens|
  {
    if tokens == [] {
      scores := [];
    } else {
      RecordsSplit(u, tokens);
      FirstReadIsWritten(u, tokens);
      var (e, n) := FirstRecord(u, tokens).value;
      assert NulFree(tokens[n..]);
      hide *;
      var rest := ReadIsWritten(u, tokens[n..]);
      var score, es := ScoreOf(tokens), Records(u, tokens[n..]).value;
      scores := [score] + rest;
      OneMoreWritable(u, e, score, es, rest);
      assert tokens[..n] + tokens[n..] == tokens;
    }
  }

  lemma {:induction false} LastIsNul(tokens: seq<Bytes>)
    requires tokens != []
    ensures Terminated(tokens) != [] && Terminated(tokens)[|Terminated(tokens)| - 1] == 0
  {
    if |tokens| > 1 { LastIsNul(tokens[1..]); }
  }

  /** The strict reader accepts exactly what the writer can produce, and reads back what was written. */
  lemma {:induction false} StrictInvertsWritten(u: Utf8, data: Bytes, es: seq<Entry>)
    requires IsUtf8(u)
    ensures Strict(u, data) == Ok(es) <==> exists scores :: AllWritable(u, es, scores) && data == Written(es, scores)
  {
    if Strict(u, data) == Ok(es) {
      if data == [] {
        assert AllWritable(u, es, []) && data == Written(es, []);
      } else {
        var body := data[..|data| - 1];
        assert data == body + [0];
        TerminatedSplit(body);
        var scores := ReadIsWritten(u, Split(body));
        assert data == Written(es, scores);
      }
    }
    forall scores | AllWritable(u, es, scores) && data == Written(es, scores) ensures Strict(u, data) == Ok(es) {
      StrictReadsWritten(u, es, scores);
    }
  }

  lemma {:induction false} StrictReadsWritten(u: Utf8, es: seq<Entry>, scores: seq<Bytes>)
    requires IsUtf8(u) && AllWritable(u, es, scores)
    ensures Strict(u, Written(es, scores)) == Ok(es)
  {
    hide IsUtf8, Writable;
    var tokens := AllTokens(es, scores);
    WrittenIsRead(u, es, scores);
    WrittenTokens(u, es, scores);
    if es != [] {
      hide Split, Terminated, Records, AllTokens;
      var data := Terminated(tokens);
      LastIsNul(tokens);
      var body := data[..|data| - 1];
      assert data == body + [0];
      TerminatedSplit(body);
      TerminatedInjective(Split(body), tokens);
    }
  }

  lemma {:induction false} TerminatedInjective(a: seq<Bytes>, b: seq<Bytes>)
    requires NulFree(a) && NulFree(b) && Terminated(a) == Terminated(b)
    ensures a == b
  {
    SplitTerminated(a);
    SplitTerminated(b);
    hide Split, Terminated;
    assert (a + [[]])[..|a|] == a && (b + [[]])[..|b|] == b;
  }

  // ---- The lenient reader ----

  function NonEmpty(tokens: seq<Bytes>): seq<Bytes> {
    if tokens == [] then [] else (if tokens[0] == [] then [] else [tokens[0]]) + NonEmpty(tokens[1..])
  }

  /** Anything but `R` and `C` takes one path; a truncated end is dropped. */
  function LenientRecords(u: Utf8, tokens: seq<Bytes>): seq<Entry> {
    if tokens == [] then []
    else
      var code := u.first(u.lossy(tokens[0]));
      if PairCode(code) then
        if |tokens| < 3 then []
        else [Entry(code, u.lossy(tokens[1]), u.lossy(tokens[2]))] + LenientRecords(u, tokens[3..])
      else if |tokens| < 2 then []
      else [Entry(code, u.lossy(tokens[1]), u.lossy(tokens[1]))] + LenientRecords(u, tokens[2..])
  }

  lemma {:induction false} NonEmptyAre(tokens: seq<Bytes>)
    ensures forall i :: 0 <= i < |NonEmpty(tokens)| ==> NonEmpty(tokens)[i] != []
    ensures (forall i :: 0 <= i < |tokens| ==> tokens[i] != []) ==> NonEmpty(tokens + [[]]) == tokens
  {
    if tokens == [] {
      assert NonEmpty([[]]) == [] + NonEmpty([[]][1..]);
    } else {
      NonEmptyAre(tokens[1..]);
      assert (tokens + [[]])[1..] == tokens[1..] + [[]];
    }
  }

  function Lenient(u: Utf8, data: Bytes): seq<Entry> {
    LenientRecords(u, NonEmpty(Split(data)))
  }

  method ParseLeniently(u: Utf8, data: Bytes) returns (entries: seq<Entry>)
    ensures entries == Lenient(u, data)
  {
    hide Split, NonEmpty;
    var tokens := NonEmpty(Split(data));
    entries := [];
    var index := 0;
    assert tokens[0..] == tokens;
    while index < |tokens|
      invariant index <= |tokens|
      invariant entries + LenientRecords(u, tokens[index..]) == LenientRecords(u, tokens)
    {
      var code := u.first(u.lossy(tokens[index]));
      ghost var from := index;
      index := index + 1;
      var entry: Entry;
      if PairCode(code) {
        if index + 1 >= |tokens| { break; }
        entry := Entry(code, u.lossy(tokens[index]), u.lossy(tokens[index + 1]));
        index := index + 2;
      } else {
        if index >= |tokens| { break; }
        var path := u.lossy(tokens[index]);
        index := index + 1;
        entry := Entry(code, path, path);
      }
      LenientStep(u, tokens, from, index, entry);
      ghost var rest := LenientRecords(u, tokens[index..]);
      hide LenientRecords;
      assert entries + ([entry] + rest) == entries + [entry] + rest;
      entries := entries + [entry];
    }
  }

  lemma {:induction false} LenientStep(u: Utf8, tokens: seq<Bytes>, from: nat, to: nat, entry: Entry)
    requires from + 1 < to <= |tokens| && entry.code == u.first(u.lossy(tokens[from]))
    requires to == from + (if PairCode(entry.code) then 3 else 2)
    requires entry.oldPath == u.lossy(tokens[from + 1]) && entry.newPath == u.lossy(tokens[to - 1])
    ensures LenientRecords(u, tokens[from..]) == [entry] + LenientRecords(u, tokens[to..])
  {
    assert tokens[from..][to - from..] == tokens[to..];
  }

  lemma {:induction false} LenientReadsWritten(u: Utf8, es: seq<Entry>, scores: seq<Bytes>)
    requires IsUtf8(u) && AllWritable(u, es, scores)
    ensures LenientRecords(u, AllTokens(es, scores)) == es
  {
    if es != [] {
      LenientReadsWritten(u, es[1..], scores[1..]);
      LenientFirst(u, es[0], scores[0], AllTokens(es[1..], scores[1..]));
      hide LenientRecords, RecordTokens, Writable;
      assert [es[0]] + es[1..] == es;
    }
  }

  lemma {:induction false} LenientFirst(u: Utf8, e: Entry, score: Bytes, rest: seq<Bytes>)
    requires IsUtf8(u) && Writable(u, e, score)
    ensures LenientRecords(u, RecordTokens(e, score) + rest) == [e] + LenientRecords(u, rest)
  {
    var first := RecordTokens(e, score);
    var tokens := first + rest;
    assert tokens[0..] == tokens && tokens[|first|..] == rest;
    var status := e.code + score;
    assert status[..1] == e.code && e.code + [] == e.code;
    assert forall i :: 0 <= i < |status| ==> status[i] < 128;
    assert u.valid(status) && u.first(u.lossy(tokens[0])) == e.code;
    LenientStep(u, tokens, 0, |first|, e);
  }

  /** On every inventory the strict reader accepts, the lenient one reads the same entries. */
  lemma {:induction false} LenientAgrees(u: Utf8, data: Bytes)
    requires IsUtf8(u) && Strict(u, data).Ok?
    ensures Lenient(u, data) == Strict(u, data).value
  {
    var es := Strict(u, data).value;
    StrictInvertsWritten(u, data, es);
    var scores :| AllWritable(u, es, scores) && data == Written(es, scores);
    WrittenTokens(u, es, scores);
    SplitTerminated(AllTokens(es, scores));
    NonEmptyAre(AllTokens(es, scores));
    LenientReadsWritten(u, es, scores);
  }

  /** They part on malformed inventories: a lone NUL is refused by the one and read as no change by the other. */
  lemma {:induction false} LenientReadsMalformed(u: Utf8)
    requires IsUtf8(u)
    ensures Strict(u, [0]) == Err(BadStatus) && Lenient(u, [0]) == []
  {
    var data: Bytes := [0];
    assert data[..0] == [] && data[1..] == [];
    assert Split([]) == [[]] && Split(data) == [[]] + [[]];
    assert u.valid([]);
    var tokens: seq<Bytes> := [[], []];
    assert tokens[1..] == [[]] && tokens[1..][1..] == [];
    assert Split(data) == tokens;
    assert NonEmpty(tokens[1..]) == [] + NonEmpty([]);
    assert NonEmpty(tokens) == [] + NonEmpty(tokens[1..]);
  }
}
