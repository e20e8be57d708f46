/** Segment file names: `seg-`, the first sequence number in twenty digits, `.jsonl`. */
module SegmentNames {
  import opened Bytes
  import opened Wrappers

  const SEG_PREFIX: Str := Ascii("seg-")
  const SEG_SUFFIX: Str := Ascii(".jsonl")
  const DIGITS := 20

  function Pow10(width: nat): nat {
    if width == 0 then 1 else 10 * Pow10(width - 1)
  }

  /** `n` in `width` decimal digits, padded with zeros. */
  function Decimal(n: nat, width: nat): (s: seq<byte>)
    ensures |s| == width
  {
    if width == 0 then [] else Decimal(n / 10, width - 1) + [48 + n % 10]
  }

  function SegmentName(first: u64): (name: seq<byte>)
    ensures |name| == 30
  {
    SEG_PREFIX + Decimal(first, DIGITS) + SEG_SUFFIX
  }

  predicate IsDigit(b: byte) {
    48 <= b <= 57
  }

  predicate OnlyDigits(s: seq<byte>) {
    forall i :: 0 <= i < |s| ==> IsDigit(s[i])
  }

  function DecimalValue(s: seq<byte>): nat
    requires OnlyDigits(s)
  {
    if s == [] then 0 else assert IsDigit(s[|s| - 1]); 10 * DecimalValue(s[..|s| - 1]) + (s[|s| - 1] as int - 48)
  }

  /** `str::parse::<u64>`: an optional plus sign, at least one digit, and no overflow. */
  function ParseU64(s: seq<byte>): Option<u64> {
    var digits := if |s| > 1 && s[0] == 43 then s[1..] else s;
    if digits == [] || !OnlyDigits(digits) then None
    else if DecimalValue(digits) < U64_LIMIT then Some(DecimalValue(digits))
    else None
  }

  function ParseSegmentName(name: seq<byte>): Option<u64> {
    if !(SEG_PREFIX <= name) then None
    else
      var rest := name[|SEG_PREFIX|..];
      if |rest| < |SEG_SUFFIX| || rest[|rest| - |SEG_SUFFIX|..] != SEG_SUFFIX then None
      else ParseU64(rest[..|rest| - |SEG_SUFFIX|])
  }

  lemma {:induction false} DecimalRoundTrip(n: nat, width: nat)
    requires n < Pow10(width)
    ensures OnlyDigits(Decimal(n, width))
    ensures DecimalValue(Decimal(n, width)) == n
  {
    if width > 0 {
      DecimalRoundTrip(n / 10, width - 1);
      assert Decimal(n, width)[..width - 1] == Decimal(n / 10, width - 1);
    }
  }

  lemma TwentyDigitsHoldU64()
    ensures U64_LIMIT <= Pow10(DIGITS)
  {
    assert Pow10(5) == 100_000;
    assert Pow10(10) == 10_000_000_000;
    assert Pow10(15) == 1_000_000_000_000_000;
  }

  lemma NameInParts(a: seq<byte>, b: seq<byte>, c: seq<byte>)
    ensures a <= a + b + c
    ensures (a + b + c)[|a|..] == b + c
    ensures (b + c)[|b|..] == c && (b + c)[..|b|] == b
  {
  }

  /** Reading a name gives back its number, for every `u64`. */
  lemma NameRoundTrip(first: u64)
    ensures ParseSegmentName(SegmentName(first)) == Some(first)
  {
    hide Decimal, DecimalValue;
    TwentyDigitsHoldU64();
    DecimalRoundTrip(first, DIGITS);
    var name, digits := SegmentName(first), Decimal(first, DIGITS);
    NameInParts(SEG_PREFIX, digits, SEG_SUFFIX);
    assert IsDigit(digits[0]);
  }

  /** `seg-`, twenty decimal digits with the last in front of `.jsonl`, and a tenth of the number before that. */
  lemma NameSpelled(first: u64)
    ensures var name := SegmentName(first);
            && |name| == 30 && name[..4] == Ascii("seg-") && name[24..] == Ascii(".jsonl")
            && name[23] == '0' as int + first % 10
            && SegmentName(first / 10)[4] == '0' as int
            && name[4..23] == SegmentName(first / 10)[5..24]
  {
    hide Decimal;
    var a, b := Decimal(first, 20), Decimal(first / 10, 20);
    NameInParts(SEG_PREFIX, a, SEG_SUFFIX);
    NameInParts(SEG_PREFIX, b, SEG_SUFFIX);
    LastDigit(first, 19);
    TwentyDigitsHoldU64();
    assert Pow10(20) == 10 * Pow10(19);
    FirstDigitIsZero(first / 10, 19);
    assert SegmentName(first)[4..23] == a[..19];
    assert SegmentName(first / 10)[5..24] == b[1..];
  }

  lemma LastDigit(n: nat, width: nat)
    ensures Decimal(n, width + 1) == Decimal(n / 10, width) + ['0' as int + n % 10]
  {
  }

  /** A number that fits into fewer digits gets a zero in front. */
  lemma {:induction false} FirstDigitIsZero(n: nat, width: nat)
    requires n < Pow10(width)
    ensures Decimal(n, width + 1) == ['0' as int] + Decimal(n, width)
  {
    if width > 0 {
      FirstDigitIsZero(n / 10, width - 1);
    }
  }

  /** Only the number's digits, or a plus sign and its digits. */
  ghost predicate Writes(s: seq<byte>, digits: seq<byte>, n: u64) {
    && digits != [] && OnlyDigits(digits) && (forall i :: 0 <= i < |digits| ==> '0' as int <= digits[i] <= '9' as int)
    && DecimalValue(digits) == n && (s == digits || s == [43] + digits)
  }

  lemma ParseU64Spelled(s: seq<byte>, n: u64)
    ensures ParseU64(s) == Some(n) <==> exists digits :: Writes(s, digits, n)
  {
    hide DecimalValue;
    if ParseU64(s) == Some(n) {
      var digits := if |s| > 1 && s[0] == 43 then s[1..] else s;
      assert s == digits || s == [43] + digits;
      assert Writes(s, digits, n);
    }
    if digits :| Writes(s, digits, n) {
      if s == [43] + digits {
        assert s[1..] == digits;
      } else {
        assert s[0] != 43;
      }
    }
  }

  lemma NameBetween(name: seq<byte>, core: seq<byte>)
    requires name == SEG_PREFIX + core + SEG_SUFFIX
    ensures ParseSegmentName(name) == ParseU64(core)
  {
    hide ParseU64;
    NameInParts(SEG_PREFIX, core, SEG_SUFFIX);
  }

  lemma CoreOf(name: seq<byte>) returns (core: seq<byte>)
    requires ParseSegmentName(name).Some?
    ensures name == SEG_PREFIX + core + SEG_SUFFIX
  {
    hide ParseU64;
    var rest := name[|SEG_PREFIX|..];
    core := rest[..|rest| - |SEG_SUFFIX|];
    assert rest == core + SEG_SUFFIX;
  }

  /** What a name stands for is written between its prefix and its suffix. */
  lemma ParseSpelled(name: seq<byte>, n: u64)
    ensures ParseSegmentName(name) == Some(n) <==>
            exists core, digits :: name == Ascii("seg-") + core + Ascii(".jsonl") && Writes(core, digits, n)
  {
    hide ParseSegmentName, ParseU64, Writes;
    if ParseSegmentName(name) == Some(n) {
      var core := CoreOf(name);
      NameBetween(name, core);
      ParseU64Spelled(core, n);
    }
    if core, digits :| name == Ascii("seg-") + core + Ascii(".jsonl") && Writes(core, digits, n) {
      NameBetween(name, core);
      ParseU64Spelled(core, n);
    }
  }

  // ---------- Name order is numeric order ----------

  predicate LexBelow(a: seq<byte>, b: seq<byte>) {
    b != [] && (a == [] || a[0] < b[0] || (a[0] == b[0] && LexBelow(a[1..], b[1..])))
  }

  lemma {:induction false} LexSamePrefix(p: seq<byte>, a: seq<byte>, b: seq<byte>)
    ensures LexBelow(p + a, p + b) <==> LexBelow(a, b)
  {
    if p == [] {
      assert p + a == a && p + b == b;
    } else {
      LexSamePrefix(p[1..], a, b);
      assert (p + a)[1..] == p[1..] + a && (p + b)[1..] == p[1..] + b;
    }
  }

  /** Over parts of equal length, the first parts decide unless they are equal. */
  lemma {:induction false} LexByParts(a: seq<byte>, b: seq<byte>, c: seq<byte>, d: seq<byte>)
    requires |a| == |b|
    ensures LexBelow(a + c, b + d) <==> LexBelow(a, b) || (a == b && LexBelow(c, d))
  {
    if a == [] {
      assert a + c == c && b + d == d;
    } else {
      LexByParts(a[1..], b[1..], c, d);
      assert (a + c)[1..] == a[1..] + c && (b + d)[1..] == b[1..] + d;
      assert a == [a[0]] + a[1..] && b == [b[0]] + b[1..];
    }
  }

  lemma {:induction false} DecimalOrder(m: nat, n: nat, width: nat)
    requires m < Pow10(width) && n < Pow10(width)
    ensures LexBelow(Decimal(m, width), Decimal(n, width)) <==> m < n
  {
    if width > 0 {
      var c, d := 48 + m % 10, 48 + n % 10;
      DecimalOrder(m / 10, n / 10, width - 1);
      DecimalRoundTrip(m / 10, width - 1);
      DecimalRoundTrip(n / 10, width - 1);
      LexByParts(Decimal(m / 10, width - 1), Decimal(n / 10, width - 1), [c], [d]);
    }
  }

  /** Sorting names as text is sorting segments by their first number. */
  lemma NameOrderIsChainOrder(m: u64, n: u64)
    ensures LexBelow(SegmentName(m), SegmentName(n)) <==> m < n
  {
    hide Decimal, LexBelow;
    TwentyDigitsHoldU64();
    DecimalOrder(m, n, DIGITS);
    var a, b := Decimal(m, DIGITS), Decimal(n, DIGITS);
    LexByParts(a, b, SEG_SUFFIX, SEG_SUFFIX);
    LexIrreflexive(SEG_SUFFIX);
    LexSamePrefix(SEG_PREFIX, a + SEG_SUFFIX, b + SEG_SUFFIX);
    assert SegmentName(m) == SEG_PREFIX + (a + SEG_SUFFIX);
    assert SegmentName(n) == SEG_PREFIX + (b + SEG_SUFFIX);
  }

  lemma {:induction false} LexIrreflexive(a: seq<byte>)
    ensures !LexBelow(a, a)
  {
    if a != [] {
      LexIrreflexive(a[1..]);
    }
  }
}
