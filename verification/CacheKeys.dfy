/** Cache keys: the digest of length-prefixed parts. */
module CacheKeys {
  import opened Common

  newtype Byte = x: int | 0 <= x < 256

  type Bytes = seq<Byte>

  const WORD: int := 0x1_0000_0000

  /** The length as a 32-bit little-endian word; longer lengths wrap around. */
  function Le32(n: nat): (w: Bytes)
    ensures |w| == 4
  {
    var m := n % WORD;
    [(m % 256) as Byte, (m / 256 % 256) as Byte, (m / 256 / 256 % 256) as Byte, (m / 256 / 256 / 256 % 256) as Byte]
  }

  function Word(w: Bytes): nat
    requires |w| == 4
  {
    w[0] as int + 256 * (w[1] as int + 256 * (w[2] as int + 256 * w[3] as int))
  }

  function Encode(parts: seq<Bytes>): Bytes {
    if parts == [] then [] else Le32(|parts[0]|) + parts[0] + Encode(parts[1..])
  }

  /** The encoding as it is fed to the hasher, one part after the other. */
  method FeedParts(parts: seq<Bytes>) returns (fed: Bytes)
    ensures fed == Encode(parts)
  {
    fed := [];
    for i := 0 to |parts|
      invariant fed + Encode(parts[i..]) == Encode(parts)
    {
      assert parts[i..][0] == parts[i] && parts[i..][1..] == parts[i + 1..];
      Assoc(fed, Le32(|parts[i]|) + parts[i], Encode(parts[i + 1..]));
      Assoc(fed, Le32(|parts[i]|), parts[i]);
      fed := fed + Le32(|parts[i]|) + parts[i];
    }
    assert parts[|parts|..] == [] && fed + [] == fed;
  }

  /** Reads a length and that many bytes, until nothing is left. */
  function Decode(bs: Bytes): Option<seq<Bytes>>
    decreases |bs|
  {
    if bs == [] then Some([])
    else if |bs| < 4 || |bs| < 4 + Word(bs[..4]) then None
    else
      var end := 4 + Word(bs[..4]);
      match Decode(bs[end..])
      case None => None
      case Some(rest) => Some([bs[4..end]] + rest)
  }

  lemma {:induction false} LowByte(n: nat, k: nat)
    requires n < 256 * k
    ensures n / 256 < k && n == 256 * (n / 256) + n % 256
  {}

  lemma {:induction false} Digits(n: nat, a: nat, b: nat, c: nat, x: nat, y: nat, z: nat)
    requires n == 256 * a + x && a == 256 * b + y && b == 256 * c + z
    ensures x + 256 * (y + 256 * (z + 256 * c)) == n
  {}

  lemma {:induction false} BytesOfLe32(n: nat)
    requires n < WORD
    ensures var w := Le32(n);
            && w[0] as int == n % 256 && w[1] as int == n / 256 % 256
            && w[2] as int == n / 256 / 256 % 256 && w[3] as int == n / 256 / 256 / 256 % 256
  {
    assert n % WORD == n;
  }

  lemma {:induction false} WordOfLe32(n: nat)
    requires n < WORD
    ensures Word(Le32(n)) == n
  {
    BytesOfLe32(n);
    hide Le32;
    var a := n / 256;
    LowByte(n, 0x100_0000);
    var b := a / 256;
    LowByte(a, 0x1_0000);
    var c := b / 256;
    LowByte(b, 0x100);
    LowByte(c, 1);
    Digits(n, a, b, c, n % 256, a % 256, b % 256);
  }

  /** Every part fits its length word. */
  predicate Short(parts: seq<Bytes>) {
    forall i :: 0 <= i < |parts| ==> |parts[i]| < WORD
  }

  lemma {:induction false} DecodeEncode(parts: seq<Bytes>)
    requires Short(parts)
    ensures Decode(Encode(parts)) == Some(parts)
  {
    if parts != [] {
      DecodeEncode(parts[1..]);
      DecodeFirst(parts[0], Encode(parts[1..]));
      hide Decode, Le32;
      assert [parts[0]] + parts[1..] == parts;
    }
  }

  lemma {:induction false} DecodeFirst(part: Bytes, rest: Bytes)
    requires |part| < WORD
    ensures Decode(Le32(|part|) + part + rest) ==
            match Decode(rest) { case None => None case Some(parts) => Some([part] + parts) }
  {
    WordOfLe32(|part|);
    var bs := Le32(|part|) + part + rest;
    hide Le32, Word;
    assert bs[..4] == Le32(|part|) && bs[4..4 + |part|] == part && bs[4 + |part|..] == rest;
  }

  /** Different part lists have different encodings, whatever bytes the parts hold. */
  lemma {:induction false} EncodeInjective(a: seq<Bytes>, b: seq<Bytes>)
    requires Short(a) && Short(b)
    ensures Encode(a) == Encode(b) <==> a == b
  {
    DecodeEncode(a);
    DecodeEncode(b);
  }

  function Zeros(n: nat): Bytes {
    seq(n, (i: nat) => 0 as Byte)
  }

  function Empties(n: nat): seq<Bytes> {
    seq(n, (i: nat) => [])
  }

  lemma {:induction false} EncodeCons(part: Bytes, rest: seq<Bytes>)
    ensures Encode([part] + rest) == Le32(|part|) + part + Encode(rest)
  {
    hide Le32;
    assert ([part] + rest)[1..] == rest;
  }

  lemma {:induction false} ZerosJoin(m: nat, n: nat)
    ensures Zeros(m) + [] + Zeros(n) == Zeros(m + n)
  {}

  lemma {:induction false} ZeroWord()
    ensures Le32(0) == Zeros(4)
  {}

  lemma {:induction false} EmptiesCons(n: nat)
    requires n > 0
    ensures Empties(n) == [[]] + Empties(n - 1)
  {}

  lemma {:induction false} EmptiesEncode(n: nat)
    ensures Encode(Empties(n)) == Zeros(4 * n)
  {
    if n > 0 {
      ZeroWord();
      EmptiesCons(n);
      hide Encode, Le32, Zeros, Empties;
      EmptiesEncode(n - 1);
      EncodeCons([], Empties(n - 1));
      ZerosJoin(4, 4 * (n - 1));
    } else {
      assert Empties(0) == [] && Zeros(0) == [];
    }
  }

  /** At 2^32 bytes the length wraps: one part of that many zero bytes encodes like empty parts. */
  lemma {:induction false} LongPartCollides()
    ensures Encode([Zeros(0x1_0000_0000)]) == Encode(Empties(0x4000_0001))
    ensures [Zeros(0x1_0000_0000)] != Empties(0x4000_0001)
  {
    EmptiesEncode(0x4000_0001);
    LongPart(0x1_0000_0000);
    hide Encode;
    assert |[Zeros(0x1_0000_0000)]| == 1 && |Empties(0x4000_0001)| == 0x4000_0001;
  }

  lemma {:induction false} LongPart(n: nat)
    requires n == WORD
    ensures Encode([Zeros(n)]) == Zeros(4 + n)
  {
    assert [Zeros(n)][1..] == [];
    assert Le32(n) == Zeros(4);
    assert Encode([Zeros(n)]) == Zeros(4) + Zeros(n) + [];
    assert Zeros(4) + Zeros(n) + [] == Zeros(4 + n);
  }
}
