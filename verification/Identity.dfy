/** Generated deployment name prefixes: FNV-1a (32 bits) over a NUL-separated seed, printed as eight
    hexadecimal digits (src/apply.rs). 32-bit words are integers below 2^32 with explicit wrap-around. */
module Identity {
  import opened Wrappers
  import opened Text
  import opened Json
  import opened Normalizer

  const WORD: nat := 0x1_0000_0000

  type Byte = n: nat | n < 256
  type Word = n: nat | n < 0x1_0000_0000

  // ---------- FNV-1a, section 2 of draft-eastlake-fnv ----------

  const OFFSET: Word := 0x811c9dc5
  const PRIME: nat := 0x01000193
  const PRIME_INVERSE: nat := 899433627

  /** Exclusive or of the lowest n bits. */
  function XorBits(a: nat, b: nat, n: nat): nat {
    if n == 0 then 0 else 2 * XorBits(a / 2, b / 2, n - 1) + (if a % 2 == b % 2 then 0 else 1)
  }

  function Pow2(n: nat): nat { if n == 0 then 1 else 2 * Pow2(n - 1) }

  lemma {:induction false} XorBitsBound(a: nat, b: nat, n: nat)
    ensures XorBits(a, b, n) < Pow2(n)
  {
    if n > 0 { XorBitsBound(a / 2, b / 2, n - 1); }
  }

  /** Exclusive or with the same bits twice gives the first operand back. */
  lemma {:induction false} XorBitsInvolution(a: nat, b: nat, n: nat)
    requires a < Pow2(n)
    ensures XorBits(XorBits(a, b, n), b, n) == a
  {
    if n > 0 {
      var x, h := XorBits(a, b, n), XorBits(a / 2, b / 2, n - 1);
      assert x / 2 == h && x % 2 == Differ(a, b);
      XorBitsInvolution(a / 2, b / 2, n - 1);
      hide XorBits;
      XorNext(x, b, n);
    }
  }

  function Differ(a: nat, b: nat): nat { if a % 2 == b % 2 then 0 else 1 }

  lemma XorNext(a: nat, b: nat, n: nat)
    requires n > 0
    ensures XorBits(a, b, n) == 2 * XorBits(a / 2, b / 2, n - 1) + Differ(a, b)
  {
  }

  lemma {:induction false} XorBitsCommutes(a: nat, b: nat, n: nat)
    ensures XorBits(a, b, n) == XorBits(b, a, n)
  {
    if n > 0 { XorBitsCommutes(a / 2, b / 2, n - 1); }
  }

  lemma Pow2Of8()
    ensures Pow2(8) == 256
  {
    assert Pow2(4) == 16;
  }

  lemma XorByteBound(h: Word, b: Byte)
    ensures h / 256 * 256 + XorBits(h % 256, b, 8) < WORD
  {
    hide XorBits, Pow2;
    XorBitsBound(h % 256, b, 8);
    Pow2Of8();
  }

  /** A byte only meets the lowest eight bits of a word. */
  function XorByte(h: Word, b: Byte): (r: Word) {
    XorByteBound(h, b);
    h / 256 * 256 + XorBits(h % 256, b, 8)
  }

  function WrappingMul(h: Word, m: nat): Word { h * m % WORD }

  function Step(h: Word, b: Byte): Word { WrappingMul(XorByte(h, b), PRIME) }

  /** The hash after the bytes, starting from state h. */
  function Absorb(h: Word, bytes: seq<Byte>): Word {
    if bytes == [] then h else Step(Absorb(h, bytes[..|bytes| - 1]), bytes[|bytes| - 1])
  }

  function Hash(bytes: seq<Byte>): Word { Absorb(OFFSET, bytes) }

  method Fnv1a32(bytes: seq<Byte>) returns (hash: Word)
    ensures hash == Hash(bytes)
  {
    hash := OFFSET;
    for i := 0 to |bytes|
      invariant hash == Absorb(OFFSET, bytes[..i])
    {
      assert bytes[..i + 1][..i] == bytes[..i];
      hash := XorByte(hash, bytes[i]);
      hash := WrappingMul(hash, PRIME);
    }
    assert bytes[..|bytes|] == bytes;
  }

  /** The values published for the empty text and for "a". */
  lemma PublishedHashes()
    ensures Hash([]) == 0x811c9dc5 && Hash([0x61]) == 0xe40c292c
  {
    hide Step;
    assert [0x61][..0] == [];
    PublishedStep();
  }

  /** One step in numbers: the byte's bits are in the last byte of the word, and the product wraps around. */
  lemma PublishedStep()
    ensures Step(0x811c9dc5, 0x61) == 0xe40c292c
  {
    hide XorBits, Differ;
    assert XorBits(0xc5, 0x61, 8) == 0xa4 by { PublishedBits(); }
    RemainderUnique(0x811c9da4 * PRIME, 0x811d68, 0xe40c292c);
  }

  lemma PublishedBits()
    ensures XorBits(0xc5, 0x61, 8) == 0xa4
  {
    hide XorBits;
    XorFour(0xc5, 0x61, 8);
    XorFour(0xc, 6, 4);
  }

  lemma Halves(a: nat)
    ensures a / 2 / 2 == a / 4 && a / 4 / 2 == a / 8 && a / 8 / 2 == a / 16
  {
  }

  /** The bits of a byte in two halves, or of one half. */
  lemma XorFour(a: nat, b: nat, n: nat)
    requires n == 4 || n == 8
    ensures XorBits(a, b, n) == (if n == 4 then 0 else 16 * XorBits(a / 16, b / 16, 4)) +
            8 * Differ(a / 8, b / 8) + 4 * Differ(a / 4, b / 4) + 2 * Differ(a / 2, b / 2) + Differ(a, b)
  {
    hide XorBits, Differ;
    Halves(a);
    Halves(b);
    XorNext(a, b, n);
    XorNext(a / 2, b / 2, n - 1);
    XorNext(a / 4, b / 4, n - 2);
    XorNext(a / 8, b / 8, n - 3);
    NoBits(a / 16, b / 16);
  }

  lemma NoBits(a: nat, b: nat)
    ensures XorBits(a, b, 0) == 0
  {
  }

  /** Multiplication by the odd prime is undone by multiplication with its inverse modulo 2^32. */
  lemma PrimeInvertible(h: Word)
    ensures WrappingMul(WrappingMul(h, PRIME), PRIME_INVERSE) == h
  {
    var q, r := h * PRIME / WORD, h * PRIME % WORD;
    var k := (PRIME * PRIME_INVERSE - 1) / WORD;
    assert PRIME * PRIME_INVERSE == 1 + k * WORD;
    var z := h * k - q * PRIME_INVERSE;
    assert r * PRIME_INVERSE == h + z * WORD;
    RemainderUnique(r * PRIME_INVERSE, z, h);
  }

  lemma RemainderUnique(n: int, z: int, r: Word)
    requires n == r + z * WORD
    ensures n % WORD == r
  {
  }

  lemma XorByteUndo(h: Word, b: Byte)
    ensures XorByte(XorByte(h, b), b) == h
  {
    hide XorBits, Pow2;
    var low := h % 256;
    Pow2Of8();
    XorBitsBound(low, b, 8);
    XorBitsInvolution(low, b, 8);
    var x := XorByte(h, b);
    assert x % 256 == XorBits(low, b, 8) && x / 256 == h / 256;
  }

  /** From the state after a step and the byte, the state before it can be computed. */
  lemma StepInjectiveInState(h1: Word, h2: Word, b: Byte)
    requires h1 != h2
    ensures Step(h1, b) != Step(h2, b)
  {
    hide XorByte, WrappingMul;
    PrimeInvertible(XorByte(h1, b));
    PrimeInvertible(XorByte(h2, b));
    XorByteUndo(h1, b);
    XorByteUndo(h2, b);
  }

  lemma XorByteInjective(h: Word, b1: Byte, b2: Byte)
    requires XorByte(h, b1) == XorByte(h, b2)
    ensures b1 == b2
  {
    hide XorBits;
    var low := h % 256;
    Pow2Of8();
    XorBitsCommutes(low, b1, 8);
    XorBitsCommutes(low, b2, 8);
    XorBitsInvolution(b1, low, 8);
    XorBitsInvolution(b2, low, 8);
  }

  lemma StepInjectiveInByte(h: Word, b1: Byte, b2: Byte)
    requires b1 != b2
    ensures Step(h, b1) != Step(h, b2)
  {
    hide XorByte, WrappingMul;
    PrimeInvertible(XorByte(h, b1));
    PrimeInvertible(XorByte(h, b2));
    if XorByte(h, b1) == XorByte(h, b2) { XorByteInjective(h, b1, b2); }
  }

  /** Different states stay different while the same bytes are absorbed. */
  lemma {:induction false} AbsorbInjectiveInState(h1: Word, h2: Word, bytes: seq<Byte>)
    requires h1 != h2
    ensures Absorb(h1, bytes) != Absorb(h2, bytes)
  {
    hide Step;
    if bytes != [] {
      var n := |bytes| - 1;
      AbsorbInjectiveInState(h1, h2, bytes[..n]);
      StepInjectiveInState(Absorb(h1, bytes[..n]), Absorb(h2, bytes[..n]), bytes[n]);
    }
  }

  lemma {:induction false} AbsorbConcat(h: Word, a: seq<Byte>, b: seq<Byte>)
    ensures Absorb(h, a + b) == Absorb(Absorb(h, a), b)
  {
    hide Step;
    if b == [] {
      assert a + b == a;
    } else {
      assert (a + b)[..|a + b| - 1] == a + b[..|b| - 1];
      AbsorbConcat(h, a, b[..|b| - 1]);
    }
  }

  /** Two inputs that differ in exactly one byte never collide. */
  lemma NoSingleByteCollision(a: seq<Byte>, x: Byte, y: Byte, b: seq<Byte>)
    requires x != y
    ensures Hash(a + [x] + b) != Hash(a + [y] + b)
  {
    hide Step;
    AbsorbConcat(OFFSET, a + [x], b);
    AbsorbConcat(OFFSET, a + [y], b);
    var h := Absorb(OFFSET, a);
    assert (a + [x])[..|a|] == a && (a + [y])[..|a|] == a;
    StepInjectiveInByte(h, x, y);
    AbsorbInjectiveInState(Step(h, x), Step(h, y), b);
  }

  // ---------- text to bytes ----------

  function Utf8Char(c: char): (r: seq<Byte>)
    ensures IsAscii(c) ==> r == [c as int]
  {
    var n := c as int;
    if n < 0x80 then [n]
    else if n < 0x800 then [0xC0 + n / 0x40, 0x80 + n % 0x40]
    else if n < 0x10000 then [0xE0 + n / 0x1000, 0x80 + n / 0x40 % 0x40, 0x80 + n % 0x40]
    else [0xF0 + n / 0x40000, 0x80 + n / 0x1000 % 0x40, 0x80 + n / 0x40 % 0x40, 0x80 + n % 0x40]
  }

  /** The code point in an encoded character, and whether its first byte announces its length. */
  function CodePoint(r: seq<Byte>): nat
    requires 1 <= |r| <= 4
  {
    if |r| == 1 then r[0]
    else if |r| == 2 then Low(r[0], 0x20) * 0x40 + Low(r[1], 0x40)
    else if |r| == 3 then Low(r[0], 0x10) * 0x1000 + Low(r[1], 0x40) * 0x40 + Low(r[2], 0x40)
    else Low(r[0], 8) * 0x40000 + Low(r[1], 0x40) * 0x1000 + Low(r[2], 0x40) * 0x40 + Low(r[3], 0x40)
  }

  function Low(b: Byte, m: nat): nat
    requires m > 0
  {
    b % m
  }

  predicate IsLead(b: Byte, n: nat) {
    if n == 1 then b < 0x80 else if n == 2 then b / 0x20 == 6 else if n == 3 then b / 0x10 == 14 else b / 8 == 30
  }

  /** Section 3 of RFC 3629: the length is in the first byte, the others are continuation bytes, and
      no shorter form is possible. */
  lemma Utf8Shape(c: char)
    ensures var r, n := Utf8Char(c), c as int;
            1 <= |r| <= 4 && IsLead(r[0], |r|) && (forall i | 1 <= i < |r| :: 0x80 <= r[i] < 0xC0) &&
            |r| == if n < 0x80 then 1 else if n < 0x800 then 2 else if n < 0x10000 then 3 else 4
  {
  }

  /** Together the bytes hold the code point. */
  lemma Utf8Decodes(c: char)
    ensures 1 <= |Utf8Char(c)| <= 4 && CodePoint(Utf8Char(c)) == c as int
  {
    var n, r := c as int, Utf8Char(c);
    if |r| == 2 { DecodesTwo(n); }
    if |r| == 3 { DecodesThree(n); }
    if |r| == 4 { DecodesFour(n); }
  }

  lemma DecodesTwo(n: nat)
    requires n < 0x800
    ensures CodePoint([0xC0 + n / 0x40, 0x80 + n % 0x40]) == n
  {
    hide Low;
    SixBits(n);
    LowOf(0xC0, n / 0x40, 0x20);
  }

  lemma DecodesThree(n: nat)
    requires n < 0x10000
    ensures CodePoint([0xE0 + n / 0x1000, 0x80 + n / 0x40 % 0x40, 0x80 + n % 0x40]) == n
  {
    hide Low;
    SixBits(n);
    SixBits(n / 0x40);
    LowOf(0xE0, n / 0x1000, 0x10);
    assert n / 0x40 / 0x40 == n / 0x1000;
  }

  lemma DecodesFour(n: nat)
    requires n < 0x110000
    ensures CodePoint([0xF0 + n / 0x40000, 0x80 + n / 0x1000 % 0x40, 0x80 + n / 0x40 % 0x40, 0x80 + n % 0x40]) == n
  {
    hide Low;
    SixBits(n);
    SixBits(n / 0x40);
    SixBits(n / 0x1000);
    LowOf(0xF0, n / 0x40000, 8);
    assert n / 0x40 / 0x40 == n / 0x1000 && n / 0x1000 / 0x40 == n / 0x40000;
  }

  lemma SixBits(n: nat)
    ensures n == n / 0x40 * 0x40 + n % 0x40 && Low(0x80 + n % 0x40, 0x40) == n % 0x40
  {
  }

  lemma LowOf(lead: nat, n: nat, m: nat)
    requires m in {8, 0x10, 0x20} && lead in {0xC0, 0xE0, 0xF0} && lead + m <= 256
    ensures n < m ==> Low(lead + n, m) == n
  {
  }

  function Utf8(s: string): seq<Byte> {
    if s == [] then [] else Utf8Char(s[0]) + Utf8(s[1..])
  }

  predicate IsAscii(c: char) { c as int < 0x80 }

  lemma {:induction false} Utf8Concat(a: string, b: string)
    ensures Utf8(a + b) == Utf8(a) + Utf8(b)
  {
    hide Utf8Char;
    if a == [] {
      assert a + b == b;
    } else {
      assert (a + b)[1..] == a[1..] + b;
      Utf8Concat(a[1..], b);
    }
  }

  // ---------- printing ----------

  /** The lowest n hexadecimal digits of h, in lower case. */
  function Hex(h: nat, n: nat): (r: string)
    ensures |r| == n
    ensures forall c | c in r :: '0' <= c <= '9' || 'a' <= c <= 'f'
  {
    if n == 0 then "" else Hex(h / 16, n - 1) + [HexDigit(h % 16)]
  }

  /** The number that hexadecimal digits stand for, the first digit being the highest. */
  function HexNumber(s: string): Option<nat> {
    if s == [] then Some(0)
    else
      match (HexNumber(s[..|s| - 1]), HexValue(s[|s| - 1]))
      case (Some(n), Some(d)) => Some(16 * n + d)
      case _ => None
  }

  lemma {:induction false} HexReadBack(h: nat, n: nat)
    requires h < Pow16(n)
    ensures HexNumber(Hex(h, n)) == Some(h)
  {
    hide HexDigit, HexValue;
    if n > 0 {
      HexReadBack(h / 16, n - 1);
      HexDigitValue(h % 16);
      assert Hex(h, n)[..n - 1] == Hex(h / 16, n - 1);
    }
  }

  /** What follows the fixed part of a generated prefix are eight digits that stand for the hash. */
  lemma PrefixIsHash(seed: string)
    ensures var p := GeneratedPrefix(seed);
            |p| == 17 && p[..9] == "greentic-" && HexNumber(p[9..]) == Some(Hash(Utf8(seed)))
  {
    hide Hex, Hash, Utf8, Pow16, HexNumber;
    Pow16Of8();
    var h := Hex(Hash(Utf8(seed)), 8);
    HexReadBack(Hash(Utf8(seed)), 8);
    assert NAME_PREFIX == "greentic-" && (NAME_PREFIX + h)[9..] == h && (NAME_PREFIX + h)[..9] == NAME_PREFIX;
  }

  function Pow16(n: nat): nat { if n == 0 then 1 else 16 * Pow16(n - 1) }

  lemma HexDigitInjective(a: nat, b: nat)
    requires a < 16 && b < 16 && HexDigit(a) == HexDigit(b)
    ensures a == b
  {
  }

  lemma {:induction false} HexInjective(a: nat, b: nat, n: nat)
    requires a < Pow16(n) && b < Pow16(n) && Hex(a, n) == Hex(b, n)
    ensures a == b
  {
    hide HexDigit;
    if n > 0 {
      var x, y := Hex(a, n), Hex(b, n);
      assert x[n - 1] == HexDigit(a % 16) && y[n - 1] == HexDigit(b % 16);
      assert x[..n - 1] == Hex(a / 16, n - 1) && y[..n - 1] == Hex(b / 16, n - 1);
      HexDigitInjective(a % 16, b % 16);
      HexInjective(a / 16, b / 16, n - 1);
    }
  }

  lemma Pow16Of8()
    ensures Pow16(8) == WORD
  {
    assert Pow16(4) == 0x10000;
  }

  // ---------- prefixes ----------

  /** `format!("greentic-{:08x}", fnv1a32(seed.as_bytes()))` */
  function GeneratedPrefix(seed: string): string { NAME_PREFIX + Hex(Hash(Utf8(seed)), 8) }

  const NUL: string := ['\0']

  function LegacySeed(provider: string, tenant: string, environment: string): string {
    provider + NUL + tenant + NUL + environment
  }

  /** The prefix every deployment of a tenant used to share. */
  function LegacyPrefix(provider: string, tenant: string, environment: string): string {
    GeneratedPrefix(LegacySeed(provider, tenant, environment))
  }

  /** The prefix generated for one local identity (owner and workspace, or a deployment id). */
  function StablePrefix(provider: string, tenant: string, environment: string, local: string): string {
    GeneratedPrefix(LegacySeed(provider, tenant, environment) + NUL + local)
  }

  predicate NulFree(s: string) { '\0' !in s }

  lemma SplitAtNul(a: string, b: string, x: string, y: string)
    requires NulFree(a) && NulFree(b) && a + NUL + x == b + NUL + y
    ensures a == b && x == y
  {
    var s := a + NUL + x;
    assert forall i | 0 <= i < |a| :: s[i] == a[i];
    assert forall i | 0 <= i < |b| :: s[i] == b[i];
    IndexOfIs(s, '\0', |a|);
    IndexOfIs(s, '\0', |b|);
    assert s[..|a|] == a && s[..|b|] == b;
    assert s[|a| + 1..] == x && s[|b| + 1..] == y;
  }

  /** No two identities share a seed, as long as the separator does not occur in their parts. */
  lemma SeedInjective(p1: string, t1: string, e1: string, l1: string, p2: string, t2: string, e2: string, l2: string)
    requires NulFree(p1) && NulFree(t1) && NulFree(e1) && NulFree(p2) && NulFree(t2) && NulFree(e2)
    requires LegacySeed(p1, t1, e1) + NUL + l1 == LegacySeed(p2, t2, e2) + NUL + l2
    ensures p1 == p2 && t1 == t2 && e1 == e2 && l1 == l2
  {
    hide NulFree;
    assert LegacySeed(p1, t1, e1) + NUL + l1 == p1 + NUL + (t1 + NUL + (e1 + NUL + l1));
    assert LegacySeed(p2, t2, e2) + NUL + l2 == p2 + NUL + (t2 + NUL + (e2 + NUL + l2));
    SplitAtNul(p1, p2, t1 + NUL + (e1 + NUL + l1), t2 + NUL + (e2 + NUL + l2));
    SplitAtNul(t1, t2, e1 + NUL + l1, e2 + NUL + l2);
    SplitAtNul(e1, e2, l1, l2);
  }

  /** Seeds that differ in one ASCII character give different prefixes. */
  lemma OneCharacterApart(a: string, c: char, d: char, b: string)
    requires IsAscii(c) && IsAscii(d) && c != d
    ensures GeneratedPrefix(a + [c] + b) != GeneratedPrefix(a + [d] + b)
  {
    hide Hex, Hash, Utf8Char;
    assert Utf8(a + [c] + b) == Utf8(a) + [c as int] + Utf8(b) by { Utf8Middle(a, c, b); }
    assert Utf8(a + [d] + b) == Utf8(a) + [d as int] + Utf8(b) by { Utf8Middle(a, d, b); }
    NoSingleByteCollision(Utf8(a), c as int, d as int, Utf8(b));
    var x, y := Hash(Utf8(a + [c] + b)), Hash(Utf8(a + [d] + b));
    Pow16Of8();
    if Hex(x, 8) == Hex(y, 8) { HexInjective(x, y, 8); }
    assert (NAME_PREFIX + Hex(x, 8))[9..] == Hex(x, 8) && (NAME_PREFIX + Hex(y, 8))[9..] == Hex(y, 8);
  }

  lemma Utf8Middle(a: string, c: char, b: string)
    requires IsAscii(c)
    ensures Utf8(a + [c] + b) == Utf8(a) + [c as int] + Utf8(b)
  {
    hide Utf8;
    Utf8Concat(a + [c], b);
    Utf8Concat(a, [c]);
    Utf8One(c);
  }

  lemma Utf8One(c: char)
    ensures Utf8([c]) == Utf8Char(c)
  {
    hide Utf8Char;
    assert [c][1..] == [];
  }

  /** Tenants of one provider and environment whose names differ in one ASCII character never share a
      generated prefix, old or new. */
  lemma TenantsOneCharacterApart(provider: string, a: string, c: char, d: char, b: string, environment: string,
      local: string)
    requires IsAscii(c) && IsAscii(d) && c != d
    ensures LegacyPrefix(provider, a + [c] + b, environment) != LegacyPrefix(provider, a + [d] + b, environment)
    ensures StablePrefix(provider, a + [c] + b, environment, local) !=
            StablePrefix(provider, a + [d] + b, environment, local)
  {
    hide GeneratedPrefix;
    var u := provider + NUL + a;
    var w := b + NUL + environment;
    assert LegacySeed(provider, a + [c] + b, environment) == u + [c] + w;
    assert LegacySeed(provider, a + [d] + b, environment) == u + [d] + w;
    OneCharacterApart(u, c, d, w);
    assert u + [c] + w + NUL + local == u + [c] + (w + NUL + local);
    assert u + [d] + w + NUL + local == u + [d] + (w + NUL + local);
    OneCharacterApart(u, c, d, w + NUL + local);
  }

  /** Of two local identities one ASCII character apart at most one can collide with the legacy prefix
      of its deployment, which would keep its prefix from sticking. */
  lemma LegacyCollisionIsAvoidable(provider: string, tenant: string, environment: string, a: string, c: char,
      d: char, b: string)
    requires IsAscii(c) && IsAscii(d) && c != d
    ensures var legacy := LegacyPrefix(provider, tenant, environment);
            StablePrefix(provider, tenant, environment, a + [c] + b) != legacy ||
            StablePrefix(provider, tenant, environment, a + [d] + b) != legacy
  {
    hide GeneratedPrefix;
    var u := LegacySeed(provider, tenant, environment) + NUL + a;
    OneCharacterApart(u, c, d, b);
    assert LegacySeed(provider, tenant, environment) + NUL + (a + [c] + b) == u + [c] + b;
    assert LegacySeed(provider, tenant, environment) + NUL + (a + [d] + b) == u + [d] + b;
  }

  /** Generated prefixes are names, so the normaliser leaves them as they are. */
  lemma GeneratedPrefixIsName(seed: string)
    ensures IsName(GeneratedPrefix(seed)) && Normalize(GeneratedPrefix(seed)) == GeneratedPrefix(seed)
  {
    hide Hex, Hash, Utf8, Normalize;
    var h := Hex(Hash(Utf8(seed)), 8);
    var p := GeneratedPrefix(seed);
    assert h[0] in h && h[7] in h;
    assert !HasDoubleDash(h) by {
      forall i | 0 <= i < |h| - 1 ensures h[i] != '-' { assert h[i] in h; }
    }
    PrefixedName(h);
    assert p[0] == 'g';
    NormalizeName(p);
  }
}
