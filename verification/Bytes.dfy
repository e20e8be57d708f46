/**
 Bytes and fixed-width integers, with the big-endian, hexadecimal and ASCII forms that reach
 a hash, a signature or a file. A string is its UTF-8 bytes, so `as_bytes` is the identity.
 */
module Bytes {
  import opened Wrappers

  const U64_LIMIT: int := 0x1_0000_0000_0000_0000
  const STR_LIMIT: int := 0x100_0000_0000_0000
  const I64_LIMIT: int := 0x8000_0000_0000_0000

  type byte = b: int | 0 <= b < 256
  type u64 = n: int | 0 <= n < U64_LIMIT
  type i64 = n: int | -I64_LIMIT <= n < I64_LIMIT

  /** A string. No machine holds one longer than this. */
  type Str = s: seq<byte> | |s| < STR_LIMIT

  /** Bytes whose length fits in a `u64`, so that it can be written before them. */
  type Slice = s: seq<byte> | |s| < U64_LIMIT

  type Digest = d: seq<byte> | |d| == 32 witness seq(32, i => 0)

  function ZeroDigest(): Digest {
    seq(32, i => 0)
  }

  /** BLAKE3 is any function to 32 bytes. Every theorem holds for each choice of it. */
  type HashFn = seq<byte> -> Digest

  /** Two inputs on which a hash function is seen to fail. */
  datatype Collision = Collision(x: seq<byte>, y: seq<byte>)

  predicate Collides(h: HashFn, c: Collision) {
    c.x != c.y && h(c.x) == h(c.y)
  }

  /** The hash keeps these inputs apart. The set is always finite and always named. */
  ghost predicate InjectiveOn(h: HashFn, inputs: set<seq<byte>>) {
    forall x, y :: x in inputs && y in inputs && h(x) == h(y) ==> x == y
  }

  /** `u64` addition in a release build: it wraps. */
  function Succ(n: u64): u64 {
    (n + 1) % U64_LIMIT
  }

  lemma SuccOfCount(n: nat)
    ensures Succ(n % U64_LIMIT) == (n + 1) % U64_LIMIT
  {
    var q, r := n / U64_LIMIT, n % U64_LIMIT;
    if r + 1 == U64_LIMIT {
      assert n + 1 == (q + 1) * U64_LIMIT;
    } else {
      assert n + 1 == q * U64_LIMIT + (r + 1);
    }
  }

  lemma CountsAdd(m: nat, n: nat)
    ensures (m + n) % U64_LIMIT == (m % U64_LIMIT + n % U64_LIMIT) % U64_LIMIT
  {
    var q, r := m / U64_LIMIT + n / U64_LIMIT, m % U64_LIMIT + n % U64_LIMIT;
    assert m + n == q * U64_LIMIT + r;
  }

  // ---------- Big-endian integers ----------

  function Pow256(width: nat): nat {
    if width == 0 then 1 else 256 * Pow256(width - 1)
  }

  function BigEndian(n: nat, width: nat): (s: seq<byte>)
    ensures |s| == width
  {
    if width == 0 then [] else BigEndian(n / 256, width - 1) + [n % 256]
  }

  function Value(s: seq<byte>): nat {
    if s == [] then 0 else 256 * Value(s[..|s| - 1]) + s[|s| - 1]
  }

  lemma {:induction false} ValueOfBigEndian(n: nat, width: nat)
    requires n < Pow256(width)
    ensures Value(BigEndian(n, width)) == n
  {
    if width > 0 {
      ValueOfBigEndian(n / 256, width - 1);
      assert BigEndian(n, width)[..width - 1] == BigEndian(n / 256, width - 1);
    }
  }

  lemma {:induction false} BigEndianOfValue(s: seq<byte>)
    ensures BigEndian(Value(s), |s|) == s
    ensures Value(s) < Pow256(|s|)
  {
    if s != [] {
      BigEndianOfValue(s[..|s| - 1]);
    }
  }

  lemma Pow256Is64Bits()
    ensures Pow256(8) == U64_LIMIT
  {
    assert Pow256(4) == 0x1_0000_0000;
  }

  /** `u64::to_be_bytes`. */
  function U64Bytes(n: u64): (s: Str)
    ensures |s| == 8
  {
    BigEndian(n, 8)
  }

  /** `i64::to_be_bytes`: two's complement. */
  function I64Bytes(n: i64): (s: Str)
    ensures |s| == 8
  {
    BigEndian(if n < 0 then n + U64_LIMIT else n, 8)
  }

  lemma LastByte(n: nat, width: nat)
    ensures BigEndian(n, width + 1) == BigEndian(n / 256, width) + [n % 256]
  {
  }

  /** These eight bytes spell this number, the most significant byte first. */
  predicate Spells(b: seq<byte>, n: int) {
    && |b| == 8
    && n == 0x100_0000_0000_0000 * b[0] as int + 0x1_0000_0000_0000 * b[1] as int
            + 0x100_0000_0000 * b[2] as int + 0x1_0000_0000 * b[3] as int
            + 0x100_0000 * b[4] as int + 0x1_0000 * b[5] as int + 0x100 * b[6] as int + b[7] as int
  }

  lemma U64BytesSpelled(n: u64)
    ensures Spells(U64Bytes(n), n)
  {
    hide BigEndian;
    var q1 := n / 256;
    var q2 := q1 / 256;
    var q3 := q2 / 256;
    var q4 := q3 / 256;
    var q5 := q4 / 256;
    var q6 := q5 / 256;
    var q7 := q6 / 256;
    LastByte(n, 7);
    LastByte(q1, 6);
    LastByte(q2, 5);
    LastByte(q3, 4);
    LastByte(q4, 3);
    LastByte(q5, 2);
    LastByte(q6, 1);
    LastByte(q7, 0);
    assert q7 / 256 == 0;
  }

  /** Two's complement: a negative number is spelled by the word 2^64 above it. */
  lemma I64BytesSpelled(n: i64)
    ensures Spells(I64Bytes(n), if n < 0 then n + 0x1_0000_0000_0000_0000 else n)
  {
    U64BytesSpelled(if n < 0 then n + U64_LIMIT else n);
  }

  lemma U64BytesInjective(m: u64, n: u64)
    requires U64Bytes(m) == U64Bytes(n)
    ensures m == n
  {
    Pow256Is64Bits();
    ValueOfBigEndian(m, 8);
    ValueOfBigEndian(n, 8);
  }

  lemma I64BytesInjective(m: i64, n: i64)
    requires I64Bytes(m) == I64Bytes(n)
    ensures m == n
  {
    Pow256Is64Bits();
    ValueOfBigEndian(if m < 0 then m + U64_LIMIT else m, 8);
    ValueOfBigEndian(if n < 0 then n + U64_LIMIT else n, 8);
  }

  // ---------- Hexadecimal digests ----------

  function HexDigit(v: int): byte
    requires 0 <= v < 16
  {
    if v < 10 then 48 + v else 87 + v
  }

  /** Both cases are read, only the lower case is written. */
  function HexValue(b: byte): Option<int> {
    if 48 <= b <= 57 then Some(b - 48)
    else if 97 <= b <= 102 then Some(b - 87)
    else if 65 <= b <= 70 then Some(b - 55)
    else None
  }

  function ToHex(d: Digest): (s: Str)
    ensures |s| == 64
  {
    seq(64, i requires 0 <= i < 64 => HexDigit(if i % 2 == 0 then d[i / 2] / 16 else d[i / 2] % 16))
  }

  predicate IsHex(s: seq<byte>) {
    |s| == 64 && forall i :: 0 <= i < |s| ==> HexValue(s[i]).Some?
  }

  function HexPair(hi: byte, lo: byte): byte
    requires HexValue(hi).Some? && HexValue(lo).Some?
  {
    16 * HexValue(hi).value + HexValue(lo).value
  }

  /** `blake3::Hash::from_hex`: 64 hexadecimal digits, anything else is an error. */
  function FromHex(s: seq<byte>): Result<Digest> {
    if IsHex(s) then Ok(seq(32, i requires 0 <= i < 32 && IsHex(s) => HexPair(s[2 * i], s[2 * i + 1])))
    else Err(Crypto)
  }

  /** Digests print in lower case, the high half of each byte first. */
  lemma ToHexSpelled(d: Digest, i: nat)
    requires i < 32
    ensures var hi, lo := d[i] / 16, d[i] % 16;
            && ToHex(d)[2 * i] == (if hi <= 9 then '0' as int + hi else 'a' as int + (hi - 10))
            && ToHex(d)[2 * i + 1] == (if lo <= 9 then '0' as int + lo else 'a' as int + (lo - 10))
  {
    HexDigitsAt(d, i);
  }

  /** Reading takes 64 digits of either case, and nothing else. */
  lemma FromHexSpelled(s: seq<byte>)
    ensures FromHex(s).Ok? <==>
              && |s| == 64
              && forall i :: 0 <= i < 64 ==> || '0' as int <= s[i] <= '9' as int
                                             || 'a' as int <= s[i] <= 'f' as int
                                             || 'A' as int <= s[i] <= 'F' as int
  {
    assert FromHex(s).Ok? <==> IsHex(s);
  }

  lemma HexPairOfDigits(v: byte)
    ensures HexValue(HexDigit(v / 16)) == Some(v / 16)
    ensures HexValue(HexDigit(v % 16)) == Some(v % 16)
    ensures HexPair(HexDigit(v / 16), HexDigit(v % 16)) == v
  {
  }

  lemma HexDigitsAt(d: Digest, i: int)
    requires 0 <= i < 32
    ensures ToHex(d)[2 * i] == HexDigit(d[i] / 16)
    ensures ToHex(d)[2 * i + 1] == HexDigit(d[i] % 16)
  {
    assert (2 * i) / 2 == i && (2 * i) % 2 == 0;
    assert (2 * i + 1) / 2 == i && (2 * i + 1) % 2 == 1;
  }

  lemma HexOfDigest(d: Digest)
    ensures IsHex(ToHex(d))
  {
    forall k | 0 <= k < 64
      ensures HexValue(ToHex(d)[k]).Some?
    {
      HexDigitsAt(d, k / 2);
      HexPairOfDigits(d[k / 2]);
      assert k == 2 * (k / 2) || k == 2 * (k / 2) + 1;
    }
  }

  lemma HexRoundTrip(d: Digest)
    ensures FromHex(ToHex(d)) == Ok(d)
  {
    HexOfDigest(d);
    var back := FromHex(ToHex(d)).value;
    forall i | 0 <= i < 32
      ensures back[i] == d[i]
    {
      HexDigitsAt(d, i);
      HexPairOfDigits(d[i]);
    }
    assert back == d;
  }

  lemma ToHexInjective(c: Digest, d: Digest)
    requires ToHex(c) == ToHex(d)
    ensures c == d
  {
    HexRoundTrip(c);
    HexRoundTrip(d);
  }

  // ---------- ASCII literals ----------

  predicate IsAscii(s: string) {
    |s| < STR_LIMIT && forall i :: 0 <= i < |s| ==> s[i] as int < 128
  }

  /** The bytes of an ASCII string literal. */
  function Ascii(s: string): (b: Str)
    requires IsAscii(s)
    ensures |b| == |s| && forall i :: 0 <= i < |s| ==> b[i] == s[i] as int
  {
    seq(|s|, i requires 0 <= i < |s| && IsAscii(s) => s[i] as int)
  }
}
