/** Length-framed output of `git cat-file --batch`: one header line, as many bytes as it announces, one newline. */
module GitBatch {
  import opened Common
  import opened GitInventory

  datatype BatchError =
    IncompleteHeader | HeaderNotUtf8 | Missing | BadHeader | TooLarge | IncompleteRecord | PayloadNotUtf8 | Surplus | BadPath

  datatype Reply<+T> = Done(value: T) | Failed(error: BatchError)

  const NEWLINE: Byte := 10
  const SPACE: Byte := 32
  const BLOB: Bytes := [98, 108, 111, 98]
  const MISSING: Bytes := [109, 105, 115, 115, 105, 110, 103]

  // ---- Headers ----

  predicate IsBlank(b: Byte) {
    b == 9 || b == 10 || b == 12 || b == 13 || b == 32
  }

  function Flushed(word: Bytes): seq<Bytes> {
    if word == [] then [] else [word]
  }

  /** The words between ASCII white space; `word` is what was read of the first. */
  function Fields(bs: Bytes, word: Bytes): seq<Bytes> {
    if bs == [] then Flushed(word)
    else if IsBlank(bs[0]) then Flushed(word) + Fields(bs[1..], [])
    else Fields(bs[1..], word + [bs[0]])
  }

  function Number(digits: Bytes): nat
    requires AllDigits(digits)
  {
    if digits == [] then 0
    else Number(digits[..|digits| - 1]) * 10 + (digits[|digits| - 1] as int - 48)
  }

  /** An unsigned 64-bit decimal, with an optional plus sign. */
  function ParseSize(bs: Bytes): Option<nat> {
    var digits := if bs != [] && bs[0] == 43 then bs[1..] else bs;
    if digits != [] && AllDigits(digits) && Number(digits) < 0x1_0000_0000_0000_0000 then Some(Number(digits)) else None
  }

  predicate IsHexByte(b: Byte) {
    IsDigit(b) || 65 <= b <= 70 || 97 <= b <= 102
  }

  predicate IsObjectId(id: Bytes) {
    (|id| == 40 || |id| == 64) && forall i :: 0 <= i < |id| ==> IsHexByte(id[i])
  }

  /** The announced size, when the header is that of a blob. */
  function SizeOf(header: Bytes): Option<nat> {
    var fields := Fields(header, []);
    if |fields| == 3 && IsObjectId(fields[0]) && fields[1] == BLOB then ParseSize(fields[2]) else None
  }

  // ---- Reading ----

  function LineEnd(bs: Bytes): (end: Option<nat>)
    ensures end.Some? ==> end.value < |bs| && bs[end.value] == NEWLINE && NEWLINE !in bs[..end.value]
    ensures end.None? ==> NEWLINE !in bs
  {
    if bs == [] then None
    else if bs[0] == NEWLINE then Some(0)
    else
      match LineEnd(bs[1..])
      case None => None
      case Some(n) =>
        assert bs[..n + 1] == [bs[0]] + bs[1..][..n];
        Some(n + 1)
  }

  /** The first payload and the length of its record. `missing` is the line Git answers for an absent path. */
  function ReadOne(u: Utf8, missing: Bytes, limit: nat, output: Bytes): (r: Reply<(Bytes, nat)>)
    ensures r.Done? ==> 0 < r.value.1 <= |output|
  {
    match LineEnd(output)
    case None => Failed(IncompleteHeader)
    case Some(n) =>
      var header := output[..n];
      if !u.valid(header) then Failed(HeaderNotUtf8)
      else if header == missing then Failed(Missing)
      else
        match SizeOf(header)
        case None => Failed(BadHeader)
        case Some(size) =>
          var end := n + 1 + size;
          if size > limit then Failed(TooLarge)
          else if end >= |output| || output[end] != NEWLINE then Failed(IncompleteRecord)
          else if !u.valid(output[n + 1..end]) then Failed(PayloadNotUtf8)
          else Done((output[n + 1..end], end + 1))
  }

  function ReadAll(u: Utf8, missing: seq<Bytes>, limit: nat, output: Bytes): Reply<seq<Bytes>>
    decreases |missing|
  {
    if missing == [] then if output == [] then Done([]) else Failed(Surplus)
    else
      match ReadOne(u, missing[0], limit, output)
      case Failed(e) => Failed(e)
      case Done((payload, n)) =>
        match ReadAll(u, missing[1..], limit, output[n..])
        case Failed(e) => Failed(e)
        case Done(rest) => Done([payload] + rest)
  }

  // ---- Frames ----

  function Frame(header: Bytes, payload: Bytes): Bytes {
    header + [10] + (payload + [10]) // 10 is the newline
  }

  function Frames(headers: seq<Bytes>, payloads: seq<Bytes>): Bytes
    requires |headers| == |payloads|
  {
    if headers == [] then [] else Frame(headers[0], payloads[0]) + Frames(headers[1..], payloads[1..])
  }

  predicate FrameOk(u: Utf8, missing: Bytes, limit: nat, header: Bytes, payload: Bytes) {
    && NEWLINE !in header && u.valid(header) && header != missing
    && SizeOf(header) == Some(|payload|) && |payload| <= limit && u.valid(payload)
  }

  ghost predicate AllFramesOk(u: Utf8, missing: seq<Bytes>, limit: nat, headers: seq<Bytes>, payloads: seq<Bytes>) {
    && |headers| == |payloads| == |missing|
    && forall i :: 0 <= i < |headers| ==> FrameOk(u, missing[i], limit, headers[i], payloads[i])
  }

  lemma {:induction false} FrameIsRead(u: Utf8, missing: Bytes, limit: nat, header: Bytes, payload: Bytes, rest: Bytes)
    requires FrameOk(u, missing, limit, header, payload)
    ensures ReadOne(u, missing, limit, Frame(header, payload) + rest) == Done((payload, |Frame(header, payload)|))
    ensures (Frame(header, payload) + rest)[|Frame(header, payload)|..] == rest
  {
    hide SizeOf;
    var output := Frame(header, payload) + rest;
    LineEndAfter(header, payload + [NEWLINE] + rest);
    assert output == header + [NEWLINE] + (payload + [NEWLINE] + rest);
    assert output[..|header|] == header;
    assert output[|header| + 1..|header| + 1 + |payload|] == payload;
  }

  lemma {:induction false} LineEndAfter(header: Bytes, rest: Bytes)
    requires NEWLINE !in header
    ensures LineEnd(header + [NEWLINE] + rest) == Some(|header|)
  {
    if header != [] {
      assert (header + [NEWLINE] + rest)[1..] == header[1..] + [NEWLINE] + rest;
      LineEndAfter(header[1..], rest);
    }
  }

  lemma {:induction false} ReadIsFrame(u: Utf8, missing: Bytes, limit: nat, output: Bytes) returns (header: Bytes)
    requires ReadOne(u, missing, limit, output).Done?
    ensures var (payload, n) := ReadOne(u, missing, limit, output).value;
            FrameOk(u, missing, limit, header, payload) && output == Frame(header, payload) + output[n..]
  {
    hide SizeOf;
    var (payload, n) := ReadOne(u, missing, limit, output).value;
    var k := LineEnd(output).value;
    header := output[..k];
    assert output[..k + 1] == header + [NEWLINE];
    assert output[k + 1..n - 1] == payload && output[n - 1] == NEWLINE;
    assert output[k + 1..n] == payload + [NEWLINE];
    assert output == output[..k + 1] + output[k + 1..n] + output[n..];
  }

  lemma {:induction false} FramesAreRead(u: Utf8, missing: seq<Bytes>, limit: nat, headers: seq<Bytes>, payloads: seq<Bytes>)
    requires AllFramesOk(u, missing, limit, headers, payloads)
    ensures ReadAll(u, missing, limit, Frames(headers, payloads)) == Done(payloads)
    decreases |missing|
  {
    if headers != [] {
      FirstFrame(u, missing, limit, headers, payloads);
      FramesAreRead(u, missing[1..], limit, headers[1..], payloads[1..]);
      FrameThenRest(u, missing, limit, Frame(headers[0], payloads[0]), Frames(headers[1..], payloads[1..]), payloads[0]);
      hide *;
    }
  }

  lemma {:induction false} FirstFrame(u: Utf8, missing: seq<Bytes>, limit: nat, headers: seq<Bytes>, payloads: seq<Bytes>)
    requires AllFramesOk(u, missing, limit, headers, payloads) && headers != []
    ensures var first, rest := Frame(headers[0], payloads[0]), Frames(headers[1..], payloads[1..]);
            && Frames(headers, payloads) == first + rest
            && ReadOne(u, missing[0], limit, first + rest) == Done((payloads[0], |first|))
    ensures AllFramesOk(u, missing[1..], limit, headers[1..], payloads[1..]) && [payloads[0]] + payloads[1..] == payloads
  {
    hide FrameOk, ReadOne, Frame;
    FrameIsRead(u, missing[0], limit, headers[0], payloads[0], Frames(headers[1..], payloads[1..]));
  }

  lemma {:induction false} FrameThenRest(u: Utf8, missing: seq<Bytes>, limit: nat, first: Bytes, rest: Bytes, payload: Bytes)
    requires missing != [] && ReadOne(u, missing[0], limit, first + rest) == Done((payload, |first|))
    requires ReadAll(u, missing[1..], limit, rest).Done?
    ensures ReadAll(u, missing, limit, first + rest) == Done([payload] + ReadAll(u, missing[1..], limit, rest).value)
  {
    hide ReadOne;
    assert (first + rest)[|first|..] == rest;
  }

  lemma {:induction false} ReadAreFrames(u: Utf8, missing: seq<Bytes>, limit: nat,
                                         output: Bytes) returns (headers: seq<Bytes>)
    requires ReadAll(u, missing, limit, output).Done?
    ensures AllFramesOk(u, missing, limit, headers, ReadAll(u, missing, limit, output).value)
    ensures output == Frames(headers, ReadAll(u, missing, limit, output).value)
    decreases |missing|
  {
    if missing == [] {
      headers := [];
    } else {
      var first := ReadIsFrame(u, missing[0], limit, output);
      var n := ReadOne(u, missing[0], limit, output).value.1;
      var rest := ReadAreFrames(u, missing[1..], limit, output[n..]);
      headers := [first] + rest;
      hide FrameOk, ReadOne, Frame;
      var payloads := ReadAll(u, missing, limit, output).value;
      assert headers[1..] == rest && payloads[1..] == ReadAll(u, missing[1..], limit, output[n..]).value;
    }
  }

  /** Accepted output is exactly one well-formed frame per requested path: nothing truncated, nothing surplus, and
      payloads are taken by length, whatever they look like. */
  lemma {:induction false} BatchIsExactlyFrames(u: Utf8, missing: seq<Bytes>, limit: nat, output: Bytes,
                                                payloads: seq<Bytes>)
    ensures ReadAll(u, missing, limit, output) == Done(payloads) <==>
            exists headers :: AllFramesOk(u, missing, limit, headers, payloads) && output == Frames(headers, payloads)
  {
    if ReadAll(u, missing, limit, output) == Done(payloads) {
      var headers := ReadAreFrames(u, missing, limit, output);
    }
    forall headers | AllFramesOk(u, missing, limit, headers, payloads) && output == Frames(headers, payloads)
      ensures ReadAll(u, missing, limit, output) == Done(payloads)
    {
      FramesAreRead(u, missing, limit, headers, payloads);
    }
  }

  // ---- The headers Git writes ----

  function Decimal(n: nat): Bytes {
    (if n < 10 then [] else Decimal(n / 10)) + [(48 + n % 10) as Byte]
  }

  lemma {:induction false} DecimalIsRead(n: nat)
    ensures Decimal(n) != [] && AllDigits(Decimal(n)) && Number(Decimal(n)) == n
  {
    var last := (48 + n % 10) as Byte;
    if n < 10 {
      assert Decimal(n) == [last] && [last][..0] == [];
    } else {
      DecimalIsRead(n / 10);
      assert Decimal(n)[..|Decimal(n)| - 1] == Decimal(n / 10);
    }
  }

  function BlobHeader(id: Bytes, size: nat): Bytes {
    id + [SPACE] + BLOB + [SPACE] + Decimal(size)
  }

  lemma {:induction false} LastField(front: Bytes, word: Bytes, token: Bytes)
    requires token != [] && forall i :: 0 <= i < |token| ==> !IsBlank(token[i])
    ensures Fields(front + [SPACE] + token, word) == Fields(front, word) + [token]
    decreases |front|
  {
    var bs := front + [SPACE] + token;
    if front == [] {
      assert bs[1..] == token;
      OneField(token, []);
      assert [] + token == token;
    } else {
      assert bs[1..] == front[1..] + [SPACE] + token;
      if IsBlank(front[0]) {
        LastField(front[1..], [], token);
        assert Flushed(word) + (Fields(front[1..], []) + [token]) == Flushed(word) + Fields(front[1..], []) + [token];
      } else {
        LastField(front[1..], word + [front[0]], token);
      }
    }
  }

  lemma {:induction false} OneField(token: Bytes, word: Bytes)
    requires forall i :: 0 <= i < |token| ==> !IsBlank(token[i])
    ensures Fields(token, word) == Flushed(word + token)
  {
    if token == [] {
      assert word + token == word;
    } else {
      OneField(token[1..], word + [token[0]]);
      assert word + [token[0]] + token[1..] == word + token;
    }
  }

  /** A blob header announces its size, and is never the line for a missing path. */
  lemma {:induction false} BlobHeaderSize(id: Bytes, size: nat)
    requires IsObjectId(id) && size < 0x1_0000_0000_0000_0000
    ensures SizeOf(BlobHeader(id, size)) == Some(size)
  {
    DecimalIsRead(size);
    LastField(id + [SPACE] + BLOB, [], Decimal(size));
    LastField(id, [], BLOB);
    OneField(id, []);
    assert [] + id == id;
    hide Fields, Number, Decimal;
    assert Fields(BlobHeader(id, size), []) == [id] + [BLOB] + [Decimal(size)];
  }

  // ---- What a header announces, in plain terms ----

  /** Tab, newline, form feed, carriage return and space. */
  predicate Blank(b: Byte) {
    b as int in {9, 10, 12, 13, 32}
  }

  /** Three laws that determine the words of a line: leading blanks do not matter, and a run of other bytes up to a
      blank or the end is the first word. */
  lemma {:induction false} WordsAre(bs: Bytes, word: Bytes, rest: Bytes)
    ensures Fields([], []) == []
    ensures bs != [] && Blank(bs[0]) ==> Fields(bs, []) == Fields(bs[1..], [])
    ensures word != [] && (forall b :: b in word ==> !Blank(b)) && (rest == [] || Blank(rest[0])) ==>
              Fields(word + rest, []) == [word] + Fields(rest, [])
  {
    if word != [] && (forall b :: b in word ==> !Blank(b)) && (rest == [] || Blank(rest[0])) {
      WordThenRest(word, [], rest);
      assert [] + word == word;
    }
  }

  lemma {:induction false} WordThenRest(word: Bytes, sofar: Bytes, rest: Bytes)
    requires (forall b :: b in word ==> !Blank(b)) && (rest == [] || Blank(rest[0])) && sofar + word != []
    ensures Fields(word + rest, sofar) == [sofar + word] + Fields(rest, [])
  {
    if word == [] {
      assert word + rest == rest && sofar + word == sofar;
    } else {
      assert (word + rest)[1..] == word[1..] + rest;
      assert word[0] in word;
      WordThenRest(word[1..], sofar + [word[0]], rest);
      assert sofar + [word[0]] + word[1..] == sofar + word;
    }
  }

  function Zeros(k: nat): Bytes {
    if k == 0 then [] else Zeros(k - 1) + [48]
  }

  /** The bytes spell the number in decimal, with any zeros in front. */
  ghost predicate SpellsNumber(bs: Bytes, n: nat) {
    exists k: nat :: bs == Zeros(k) + Decimal(n)
  }

  lemma {:induction false} ZerosAreDigits(k: nat)
    ensures AllDigits(Zeros(k)) && Number(Zeros(k)) == 0
  {
    if k > 0 {
      ZerosAreDigits(k - 1);
      assert Zeros(k)[..|Zeros(k)| - 1] == Zeros(k - 1);
    }
  }

  lemma {:induction false} NumberOfSpelled(k: nat, n: nat)
    ensures AllDigits(Zeros(k) + Decimal(n)) && Number(Zeros(k) + Decimal(n)) == n
  {
    DecimalIsRead(n);
    ZerosAreDigits(k);
    var last := (48 + n % 10) as Byte;
    var all := Zeros(k) + Decimal(n);
    if n < 10 {
      assert Decimal(n) == [last] && all[..|all| - 1] == Zeros(k);
    } else {
      NumberOfSpelled(k, n / 10);
      assert Decimal(n) == Decimal(n / 10) + [last];
      assert all[..|all| - 1] == Zeros(k) + Decimal(n / 10);
    }
  }

  /** One more digit. */
  lemma {:induction false} SpelledSnoc(front: Bytes, n: nat, last: Byte)
    requires SpellsNumber(front, n) && IsDigit(last)
    ensures SpellsNumber(front + [last], n * 10 + (last as int - 48))
  {
    var d := last as int - 48;
    var k: nat :| front == Zeros(k) + Decimal(n);
    assert (48 + d) as Byte == last;
    if n == 0 {
      assert Decimal(0) == [48] && Zeros(k + 1) == front && Decimal(d) == [last];
      assert front + [last] == Zeros(k + 1) + Decimal(0 * 10 + d);
    } else {
      assert (n * 10 + d) / 10 == n && (n * 10 + d) % 10 == d;
      assert Decimal(n * 10 + d) == Decimal(n) + [last];
      assert front + [last] == Zeros(k) + Decimal(n * 10 + d);
    }
  }

  lemma {:induction false} NumberIsSpelled(bs: Bytes)
    requires bs != [] && AllDigits(bs)
    ensures SpellsNumber(bs, Number(bs))
  {
    var front, last := bs[..|bs| - 1], bs[|bs| - 1];
    assert IsDigit(last) && bs == front + [last];
    if front == [] {
      var d := last as int - 48;
      assert Number(bs) == d && (48 + d) as Byte == last && Decimal(d) == [last];
      assert bs == Zeros(0) + Decimal(d);
    } else {
      NumberIsSpelled(front);
      SpelledSnoc(front, Number(front), last);
      hide SpellsNumber;
    }
  }

  ghost predicate IsHexDigit(b: Byte) {
    b as int as char in "0123456789abcdefABCDEF"
  }

  ghost predicate HexDigits(bs: Bytes) {
    forall b :: b in bs ==> IsHexDigit(b)
  }

  /** A size: an optional plus sign and a decimal below 2^64. */
  ghost predicate SpellsSize(bs: Bytes, size: nat) {
    size < 0x1_0000_0000_0000_0000 && (SpellsNumber(bs, size) || (bs != [] && bs[0] as int as char == '+' && SpellsNumber(bs[1..], size)))
  }

  lemma {:induction false} SpelledIsRead(bs: Bytes, n: nat)
    ensures SpellsNumber(bs, n) <==> bs != [] && AllDigits(bs) && Number(bs) == n
  {
    if bs != [] && AllDigits(bs) { NumberIsSpelled(bs); }
    if SpellsNumber(bs, n) {
      var k: nat :| bs == Zeros(k) + Decimal(n);
      NumberOfSpelled(k, n);
      DecimalIsRead(n);
    }
    hide Decimal, Number, Zeros;
  }

  lemma {:induction false} SizesAre(bs: Bytes, size: nat)
    ensures ParseSize(bs) == Some(size) <==> SpellsSize(bs, size)
  {
    SpelledIsRead(bs, size);
    if bs != [] {
      SpelledIsRead(bs[1..], size);
      assert bs[0] == 43 ==> !IsDigit(bs[0]) && !AllDigits(bs);
    }
    hide SpellsNumber, Number;
  }

  lemma {:induction false} ObjectIdsAre(id: Bytes)
    ensures IsObjectId(id) <==> |id| in {40, 64} && HexDigits(id)
  {
    forall b ensures IsHexByte(b) <==> IsHexDigit(b) { HexBytesAre(b); }
    hide IsHexByte, IsHexDigit;
    assert forall i :: 0 <= i < |id| ==> id[i] in id;
  }

  lemma {:induction false} HexBytesAre(b: Byte)
    ensures IsHexByte(b) <==> IsHexDigit(b)
  {}

  /** A header announces a size exactly when its words are a hexadecimal id of 40 or 64 digits, `blob`, and that size. */
  lemma {:induction false} HeadersAre(header: Bytes, size: nat)
    ensures SizeOf(header) == Some(size) <==>
              var words := Fields(header, []);
              |words| == 3 && |words[0]| in {40, 64} && HexDigits(words[0]) && Spells(words[1], "blob") && SpellsSize(words[2], size)
  {
    var words := Fields(header, []);
    if |words| == 3 {
      ObjectIdsAre(words[0]);
      SizesAre(words[2], size);
      assert Spells(words[1], "blob") <==> words[1] == BLOB;
    }
    hide Fields, IsObjectId, HexDigits, ParseSize, SpellsSize;
  }

  /** A path can be asked for unless it holds a newline, a carriage return or a NUL. */
  lemma {:induction false} CleanPathsAre(path: Bytes)
    ensures PathClean(path) <==> forall b :: b in path ==> b as int as char !in "\n\r\0"
  {
    assert forall c: char :: c in "\n\r\0" <==> c == '\n' || c == '\r' || c == '\0';
  }

  function MissingLine(ref: Bytes, path: Bytes): Bytes {
    ref + [58] + path + [SPACE] + MISSING
  }

  lemma {:induction false} MissingLinesAre(ref: Bytes, path: Bytes)
    ensures var line, n := MissingLine(ref, path), |ref| + 1 + |path|;
            |line| > n && line[..|ref|] == ref && Spells(line[|ref|..|ref| + 1], ":") && line[|ref| + 1..n] == path && Spells(line[n..], " missing")
  {
    var line := MissingLine(ref, path);
    assert line[|ref| + 1 + |path|..] == [SPACE] + MISSING;
  }

  lemma {:induction false} MissingHasNoSize(ref: Bytes, path: Bytes)
    ensures SizeOf(MissingLine(ref, path)) == None
  {
    LastField(ref + [58] + path, [], MISSING);
    hide Fields, IsObjectId;
    assert !IsDigit(MISSING[0]) && MISSING[0] != 43;
  }

  /** Whatever the blobs contain, Git's frames for them are read back. */
  lemma {:induction false} BlobsRoundTrip(u: Utf8, ref: Bytes, paths: seq<Bytes>, limit: nat, ids: seq<Bytes>,
                                          payloads: seq<Bytes>, headers: seq<Bytes>)
    requires IsUtf8(u) && |paths| == |ids| == |payloads| == |headers|
    requires forall i :: 0 <= i < |ids| ==> IsObjectId(ids[i]) && headers[i] == BlobHeader(ids[i], |payloads[i]|)
    requires forall i :: 0 <= i < |payloads| ==> u.valid(payloads[i]) && |payloads[i]| <= limit && limit < 0x1_0000_0000_0000_0000
    ensures ReadAll(u, MissingLines(ref, paths), limit, Frames(headers, payloads)) == Done(payloads)
  {
    forall i | 0 <= i < |headers| ensures FrameOk(u, MissingLine(ref, paths[i]), limit, headers[i], payloads[i]) {
      BlobHeaderSize(ids[i], |payloads[i]|);
      MissingHasNoSize(ref, paths[i]);
      HeaderIsAscii(u, ids[i], |payloads[i]|);
    }
    hide FrameOk, IsUtf8;
    FramesAreRead(u, MissingLines(ref, paths), limit, headers, payloads);
  }

  lemma {:induction false} HeaderIsAscii(u: Utf8, id: Bytes, size: nat)
    requires IsUtf8(u) && IsObjectId(id)
    ensures NEWLINE !in BlobHeader(id, size) && u.valid(BlobHeader(id, size))
  {
    hide IsUtf8;
    DigitsAreAscii(size);
    LineAppend(id, [SPACE]);
    LineAppend(id + [SPACE], BLOB);
    LineAppend(id + [SPACE] + BLOB, [SPACE]);
    LineAppend(id + [SPACE] + BLOB + [SPACE], Decimal(size));
    AsciiIsValid(u, BlobHeader(id, size));
    hide *;
  }

  lemma {:induction false} DigitsAreAscii(n: nat)
    ensures AsciiLine(Decimal(n))
  {
    DecimalIsRead(n);
    hide Decimal, Number;
  }

  lemma {:induction false} AsciiIsValid(u: Utf8, bs: Bytes)
    requires IsUtf8(u) && AsciiLine(bs)
    ensures u.valid(bs) && NEWLINE !in bs
  {}

  /** ASCII without a newline. */
  predicate AsciiLine(bs: Bytes) {
    forall i :: 0 <= i < |bs| ==> bs[i] < 128 && bs[i] != NEWLINE
  }

  lemma {:induction false} LineAppend(a: Bytes, b: Bytes)
    requires AsciiLine(a) && AsciiLine(b)
    ensures AsciiLine(a + b)
  {}

  function MissingLines(ref: Bytes, paths: seq<Bytes>): seq<Bytes> {
    seq(|paths|, i requires 0 <= i < |paths| => MissingLine(ref, paths[i]))
  }

  // ---- The request ----

  predicate PathClean(path: Bytes) {
    NEWLINE !in path && 13 !in path && 0 !in path
  }

  /** First occurrences only. */
  function Unique(paths: seq<Bytes>): seq<Bytes> {
    if paths == [] then []
    else
      var front, last := Unique(paths[..|paths| - 1]), paths[|paths| - 1];
      if last in front then front else front + [last]
  }

  lemma {:induction false} UniqueStep(paths: seq<Bytes>, k: nat)
    requires k < |paths|
    ensures var front := Unique(paths[..k]); Unique(paths[..k + 1]) == if paths[k] in front then front else front + [paths[k]]
  {
    assert paths[..k + 1][..k] == paths[..k];
  }

  lemma {:induction false} UniqueAre(paths: seq<Bytes>)
    ensures forall p :: p in Unique(paths) <==> p in paths
    ensures forall i, j :: 0 <= i < j < |Unique(paths)| ==> Unique(paths)[i] != Unique(paths)[j]
  {
    if paths != [] {
      UniqueAre(paths[..|paths| - 1]);
      assert paths == paths[..|paths| - 1] + [paths[|paths| - 1]];
    }
  }

  function Request(ref: Bytes, paths: seq<Bytes>): Bytes {
    if paths == [] then []
    else Request(ref, paths[..|paths| - 1]) + (ref + [58] + paths[|paths| - 1] + [10])
  }

  lemma {:induction false} RequestStep(ref: Bytes, paths: seq<Bytes>, path: Bytes)
    ensures Request(ref, paths + [path]) == Request(ref, paths) + (ref + [58] + path + [NEWLINE])
  {
    assert (paths + [path])[..|paths|] == paths;
  }

  method BuildRequest(ref: Bytes, paths: seq<Bytes>) returns (ok: bool, request: Bytes, unique: seq<Bytes>)
    ensures ok <==> forall i :: 0 <= i < |paths| ==> PathClean(paths[i])
    ensures ok ==> unique == Unique(paths) && request == Request(ref, unique)
  {
    ok, request, unique := true, [], [];
    var seen: set<Bytes> := {};
    assert Unique(paths[..0]) == [] && Request(ref, []) == [];
    hide Request, PathClean, Unique;
    for k := 0 to |paths|
      invariant forall i :: 0 <= i < k ==> PathClean(paths[i])
      invariant unique == Unique(paths[..k]) && request == Request(ref, unique)
      invariant forall p :: p in seen <==> p in unique
    {
      if !PathClean(paths[k]) { return false, [], []; }
      UniqueStep(paths, k);
      if paths[k] !in seen {
        RequestStep(ref, unique, paths[k]);
        seen := seen + {paths[k]};
        unique := unique + [paths[k]];
        request := request + (ref + [58] + paths[k] + [NEWLINE]);
      }
    }
    assert paths[..|paths|] == paths;
  }

  ghost predicate Holds(table: map<Bytes, Bytes>, paths: seq<Bytes>, payloads: seq<Bytes>) {
    && |paths| == |payloads|
    && (forall p :: p in table <==> p in paths)
    && forall i :: 0 <= i < |paths| ==> paths[i] in table && table[paths[i]] == payloads[i]
  }

  function Prepended(read: seq<Bytes>, rest: Reply<seq<Bytes>>): Reply<seq<Bytes>> {
    if rest.Failed? then rest else Done(read + rest.value)
  }

  /** The records of the paths, in the order of the request. */
  method ReadPayloads(u: Utf8, ref: Bytes, unique: seq<Bytes>, limit: nat,
                      output: Bytes) returns (result: Reply<map<Bytes, Bytes>>)
    requires forall i, j :: 0 <= i < j < |unique| ==> unique[i] != unique[j]
    ensures var read := ReadAll(u, MissingLines(ref, unique), limit, output);
            if read.Failed? then result == Failed(read.error) else result.Done? && Holds(result.value, unique, read.value)
  {
    hide ReadAll, ReadOne;
    var table: map<Bytes, Bytes> := map[];
    var pos: nat := 0;
    ghost var read: seq<Bytes> := [];
    ghost var lines := MissingLines(ref, unique);
    ghost var all := ReadAll(u, lines, limit, output);
    assert output[0..] == output && lines[0..] == lines && unique[..0] == [];
    PrependNone(all);
    for k := 0 to |unique|
      invariant pos <= |output|
      invariant Holds(table, unique[..k], read)
      invariant Prepended(read, ReadAll(u, lines[k..], limit, output[pos..])) == all
    {
      ReadStep(u, lines, k, limit, output, pos);
      var record := ReadOne(u, MissingLine(ref, unique[k]), limit, output[pos..]);
      if record.Failed? { return Failed(record.error); }
      var payload, size := record.value.0, record.value.1;
      PrependMore(read, payload, ReadAll(u, lines[k + 1..], limit, output[pos + size..]));
      InsertHolds(table, unique, read, k, payload);
      hide Holds, Prepended;
      pos := pos + size;
      table := table[unique[k] := payload];
      read := read + [payload];
    }
    ReadEnd(u, limit, output[pos..]);
    assert unique[..|unique|] == unique && lines[|unique|..] == [];
    if pos != |output| { return Failed(Surplus); }
    assert read + [] == read;
    return Done(table);
  }

  lemma {:induction false} ReadStep(u: Utf8, lines: seq<Bytes>, k: nat, limit: nat, output: Bytes, pos: nat)
    requires k < |lines| && pos <= |output|
    ensures ReadAll(u, lines[k..], limit, output[pos..]) ==
      match ReadOne(u, lines[k], limit, output[pos..]) {
        case Failed(e) => Failed(e)
        case Done((payload, n)) => Prepended([payload], ReadAll(u, lines[k + 1..], limit, output[pos + n..]))
      }
  {
    var record := ReadOne(u, lines[k], limit, output[pos..]);
    assert lines[k..][1..] == lines[k + 1..];
    if record.Done? {
      assert output[pos..][record.value.1..] == output[pos + record.value.1..];
    }
    hide ReadOne;
  }

  lemma {:induction false} ReadEnd(u: Utf8, limit: nat, output: Bytes)
    ensures ReadAll(u, [], limit, output) == if output == [] then Done([]) else Failed(Surplus)
  {}

  lemma {:induction false} PrependNone(rest: Reply<seq<Bytes>>)
    ensures Prepended([], rest) == rest
  {
    if rest.Done? { assert [] + rest.value == rest.value; }
  }

  lemma {:induction false} PrependMore(read: seq<Bytes>, payload: Bytes, rest: Reply<seq<Bytes>>)
    ensures Prepended(read, Prepended([payload], rest)) == Prepended(read + [payload], rest)
  {
    if rest.Done? { assert read + ([payload] + rest.value) == read + [payload] + rest.value; }
  }

  /** `git` stands for the subprocess: what it writes for what it is sent. */
  method ReadCommitPaths(u: Utf8, git: Bytes -> Bytes, ref: Bytes, paths: seq<Bytes>,
                         limit: nat) returns (result: Reply<map<Bytes, Bytes>>)
    ensures paths == [] ==> result == Done(map[])
    ensures paths != [] && (exists i :: 0 <= i < |paths| && !PathClean(paths[i])) ==> result == Failed(BadPath)
    ensures paths != [] && (forall i :: 0 <= i < |paths| ==> PathClean(paths[i])) ==>
      var unique := Unique(paths);
      var read := ReadAll(u, MissingLines(ref, unique), limit, git(Request(ref, unique)));
      if read.Failed? then result == Failed(read.error) else result.Done? && Holds(result.value, unique, read.value)
  {
    if paths == [] { return Done(map[]); }
    var ok, request, unique := BuildRequest(ref, paths);
    if !ok { return Failed(BadPath); }
    UniqueAre(paths);
    hide ReadAll, MissingLines;
    result := ReadPayloads(u, ref, unique, limit, git(request));
  }

  lemma {:induction false} InsertHolds(table: map<Bytes, Bytes>, unique: seq<Bytes>, read: seq<Bytes>, k: nat,
                                       payload: Bytes)
    requires k < |unique| && forall i, j :: 0 <= i < j < |unique| ==> unique[i] != unique[j]
    requires Holds(table, unique[..k], read)
    ensures Holds(table[unique[k] := payload], unique[..k + 1], read + [payload])
  {
    assert unique[..k + 1] == unique[..k] + [unique[k]];
  }
}
