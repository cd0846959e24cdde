/** The 64-bit file fingerprint that decides whether an update package changed
    (src/api.rs:2473-2504), also used as the etag of a Compose file (src/paths.rs:208-215). */
module Fingerprint {
  import opened LogLines

  const MODULUS: nat := 0x1_0000_0000_0000_0000
  type Word = n: nat | n < MODULUS

  const OFFSET_BASIS: Word := 0xcbf29ce484222325
  const PRIME: Word := 0x100000001b3
  // PRIME * INVERSE leaves 1 modulo 2^64, which is why multiplying loses nothing.
  const INVERSE: Word := 0xce965057aff6957b
  const BUFFER: nat := 64 * 1024

  function Pow2(n: nat): nat
  {
    if n == 0 then 1 else 2 * Pow2(n - 1)
  }

  /** Exclusive or of the low `width` bits. */
  function Xor(width: nat, a: nat, b: nat): (x: nat)
    ensures x < Pow2(width)
  {
    if width == 0 then 0 else 2 * Xor(width - 1, a / 2, b / 2) + (a + b) % 2
  }

  /** Bit `k` of a number, the lowest first. */
  function Bit(n: nat, k: nat): nat
  {
    if k == 0 then n % 2 else Bit(n / 2, k - 1)
  }

  /** Bit by bit, and so it is exclusive or: set where exactly one of the two is. */
  lemma {:induction false} XorBits(width: nat, a: nat, b: nat, k: nat)
    requires k < width
    ensures Bit(Xor(width, a, b), k) == 1 <==> Bit(a, k) != Bit(b, k)
  {
    XorHalves(width, a, b);
    if k > 0 {
      XorBits(width - 1, a / 2, b / 2, k - 1);
    }
  }

  lemma XorHalves(width: nat, a: nat, b: nat)
    requires width > 0
    ensures Xor(width, a, b) / 2 == Xor(width - 1, a / 2, b / 2)
    ensures Xor(width, a, b) % 2 == 1 <==> a % 2 != b % 2
  {
    DoubleAndBit(Xor(width - 1, a / 2, b / 2), a + b);
    ParityOfSum(a, b);
  }

  lemma DoubleAndBit(rest: nat, sum: nat)
    ensures (2 * rest + sum % 2) / 2 == rest && (2 * rest + sum % 2) % 2 == sum % 2
  {
  }

  lemma ParityOfSum(a: nat, b: nat)
    ensures (a + b) % 2 == 1 <==> a % 2 != b % 2
  {
  }

  lemma {:induction false} Pow2Of64()
    ensures Pow2(64) == MODULUS
  {
    assert Pow2(8) == 256;
    assert Pow2(16) == 65536 by { Pow2Adds(8, 8); }
    assert Pow2(32) == 65536 * 65536 by { Pow2Adds(16, 16); }
    Pow2Adds(32, 32);
  }

  lemma {:induction false} Pow2Adds(m: nat, n: nat)
    ensures Pow2(m + n) == Pow2(m) * Pow2(n)
  {
    if n > 0 {
      Pow2Adds(m, n - 1);
      assert Pow2(m + n) == 2 * Pow2(m + (n - 1));
      TwiceProduct(Pow2(m), Pow2(n - 1));
    }
  }

  lemma TwiceProduct(x: nat, y: nat)
    ensures 2 * (x * y) == x * (2 * y)
  {
  }

  /** One iteration: xor the byte in, multiply, keep 64 bits. */
  function Step(h: Word, b: Byte): Word
  {
    Pow2Of64();
    Xor(64, h, b) * PRIME % MODULUS
  }

  ghost predicate IsXor(x: nat, a: nat, b: nat)
  {
    forall k | 0 <= k < 64 :: Bit(x, k) == 1 <==> Bit(a, k) != Bit(b, k)
  }

  /** First the exclusive or, then the product, of which 64 bits stay. */
  lemma StepIs(h: Word, b: Byte)
    ensures exists x: Word :: IsXor(x, h, b) && Step(h, b) == x * 0x100000001b3 % 0x1_0000_0000_0000_0000
  {
    Pow2Of64();
    var x := Xor(64, h, b);
    forall k | 0 <= k < 64 ensures Bit(x, k) == 1 <==> Bit(h, k) != Bit(b, k) {
      XorBits(64, h, b, k);
    }
    assert IsXor(x, h, b);
  }

  /** Reference: the state after a whole text. */
  function Hash(h: Word, text: seq<Byte>): Word
    decreases |text|
  {
    if text == [] then h else Hash(Step(h, text[0]), text[1..])
  }

  /** Feeding a text in pieces gives the same state: the fingerprint does not depend on the buffer size. */
  lemma {:induction false} HashConcat(h: Word, a: seq<Byte>, b: seq<Byte>)
    ensures Hash(h, a + b) == Hash(Hash(h, a), b)
    decreases |a|
  {
    if a == [] {
      assert a + b == b;
    } else {
      assert (a + b)[1..] == a[1..] + b;
      HashConcat(Step(h, a[0]), a[1..], b);
    }
  }

  lemma {:induction false} XorIsInjective(width: nat, a: nat, b: nat, c: nat, d: nat)
    requires a < Pow2(width) && b < Pow2(width) && c < Pow2(width) && d < Pow2(width)
    requires Xor(width, a, b) == Xor(width, c, d)
    ensures a == c <==> b == d
  {
    if width > 0 {
      var x, y := Xor(width - 1, a / 2, b / 2), Xor(width - 1, c / 2, d / 2);
      assert 2 * x + (a + b) % 2 == 2 * y + (c + d) % 2;
      assert x == y;
      XorIsInjective(width - 1, a / 2, b / 2, c / 2, d / 2);
      HalvesAndParity(a, b, c, d);
    }
  }

  lemma HalvesAndParity(a: nat, b: nat, c: nat, d: nat)
    requires (a + b) % 2 == (c + d) % 2 && (a / 2 == c / 2 <==> b / 2 == d / 2)
    ensures a == c <==> b == d
  {
    assert a == c ==> b % 2 == d % 2;
    assert b == d ==> a % 2 == c % 2;
  }

  lemma MultiplyIsInjective(x: Word, y: Word)
    requires x * PRIME % MODULUS == y * PRIME % MODULUS
    ensures x == y
  {
    var k := x * PRIME / MODULUS - y * PRIME / MODULUS;
    assert (x - y) * PRIME == MODULUS * k;
    var t := (PRIME * INVERSE - 1) / MODULUS;
    assert PRIME * INVERSE == MODULUS * t + 1;
    assert x - y == MODULUS * (k * INVERSE - (x - y) * t);
  }

  /** A step is injective in the state for every byte and in the byte for every state. */
  lemma StepIsInjective(g: Word, b: Byte, h: Word, c: Byte)
    requires Step(g, b) == Step(h, c)
    ensures g == h <==> b == c
  {
    Pow2Of64();
    MultiplyIsInjective(Xor(64, g, b), Xor(64, h, c));
    XorIsInjective(64, g, b, h, c);
  }

  /** Exclusive or with the same value twice is none. */
  lemma {:induction false} XorTwice(width: nat, a: nat, b: nat)
    requires a < Pow2(width) && b < Pow2(width)
    ensures Xor(width, Xor(width, a, b), b) == a
  {
    if width > 0 {
      var x, rest := Xor(width, a, b), Xor(width - 1, a / 2, b / 2);
      DoubleAndBit(rest, a + b);
      HalfFits(width, a);
      HalfFits(width, b);
      XorTwice(width - 1, a / 2, b / 2);
      ParityTwice(a, b, x);
      BackTogether(width, a, b, x);
    }
  }

  lemma BackTogether(width: nat, a: nat, b: nat, x: nat)
    requires width > 0 && Xor(width - 1, x / 2, b / 2) == a / 2 && (x + b) % 2 == a % 2
    ensures Xor(width, x, b) == a
  {
  }

  lemma HalfFits(width: nat, a: nat)
    requires width > 0 && a < Pow2(width)
    ensures a / 2 < Pow2(width - 1)
  {
  }

  lemma ParityTwice(a: nat, b: nat, x: nat)
    requires x % 2 == (a + b) % 2
    ensures (x + b) % 2 == a % 2
  {
  }

  lemma InverseUndoes(h: Word)
    ensures (h * INVERSE % MODULUS) * PRIME % MODULUS == h
  {
    var q, t := h * INVERSE / MODULUS, (PRIME * INVERSE - 1) / MODULUS;
    assert PRIME * INVERSE == MODULUS * t + 1;
    var x := h * INVERSE % MODULUS;
    assert x == h * INVERSE - MODULUS * q;
    assert x * PRIME == h * (PRIME * INVERSE) - MODULUS * (q * PRIME);
    assert x * PRIME == h + MODULUS * (h * t - q * PRIME);
    RemainderOf(x * PRIME, h, h * t - q * PRIME);
  }

  lemma RemainderOf(n: nat, h: Word, k: int)
    requires n == h + MODULUS * k
    ensures n % MODULUS == h
  {
  }

  /** The state before a step, from the state after it. */
  function StepBack(h: Word, b: Byte): Word
  {
    Pow2Of64();
    Xor(64, h * INVERSE % MODULUS, b)
  }

  /** Every state is reached from exactly one by every byte: with StepIsInjective, a step is a bijection. */
  lemma StepIsOnto(h: Word, b: Byte)
    ensures Step(StepBack(h, b), b) == h
    ensures forall g: Word :: Step(g, b) == h <==> g == StepBack(h, b)
  {
    Pow2Of64();
    XorTwice(64, h * INVERSE % MODULUS, b);
    InverseUndoes(h);
    forall g: Word | Step(g, b) == h ensures g == StepBack(h, b) {
      StepIsInjective(g, b, StepBack(h, b), b);
    }
  }

  lemma {:induction false} HashIsInjective(g: Word, h: Word, text: seq<Byte>)
    requires Hash(g, text) == Hash(h, text)
    ensures g == h
    decreases |text|
  {
    if text != [] {
      HashIsInjective(Step(g, text[0]), Step(h, text[0]), text[1..]);
      StepIsInjective(g, text[0], h, text[0]);
    }
  }

  /** A change of exactly one byte is always noticed. */
  lemma OneByteIsNoticed(before: seq<Byte>, b: Byte, c: Byte, after: seq<Byte>)
    requires b != c
    ensures Hash(OFFSET_BASIS, before + [b] + after) != Hash(OFFSET_BASIS, before + [c] + after)
  {
    var h := Hash(OFFSET_BASIS, before);
    HashConcat(OFFSET_BASIS, before, [b]);
    HashConcat(OFFSET_BASIS, before, [c]);
    HashConcat(OFFSET_BASIS, before + [b], after);
    HashConcat(OFFSET_BASIS, before + [c], after);
    if Hash(Step(h, b), after) == Hash(Step(h, c), after) {
      HashIsInjective(Step(h, b), Step(h, c), after);
      StepIsInjective(h, b, h, c);
    }
  }

  /** More generally: two texts that end alike have the same fingerprint exactly when the parts
      before the common end have. */
  lemma CommonEndIsIrrelevant(a: seq<Byte>, b: seq<Byte>, end: seq<Byte>)
    ensures Hash(OFFSET_BASIS, a + end) == Hash(OFFSET_BASIS, b + end) <==> Hash(OFFSET_BASIS, a) == Hash(OFFSET_BASIS, b)
  {
    HashConcat(OFFSET_BASIS, a, end);
    HashConcat(OFFSET_BASIS, b, end);
    if Hash(OFFSET_BASIS, a + end) == Hash(OFFSET_BASIS, b + end) {
      HashIsInjective(Hash(OFFSET_BASIS, a), Hash(OFFSET_BASIS, b), end);
    }
  }

  /** The read loop over one file; every read returns between 1 byte and a full buffer. */
  method Stamp(content: seq<Byte>) returns (bytes: nat, fingerprint: Word)
    ensures bytes == |content| && fingerprint == Hash(0xcbf29ce484222325, content)
  {
    bytes, fingerprint := 0, OFFSET_BASIS;
    while bytes < |content|
      invariant bytes <= |content| && fingerprint == Hash(OFFSET_BASIS, content[..bytes])
    {
      var count :| 0 < count <= |content| - bytes && count <= BUFFER;
      var buffer := content[bytes..bytes + count];
      ghost var h := fingerprint;
      for i := 0 to count
        invariant fingerprint == Hash(h, buffer[..i])
      {
        HashConcat(h, buffer[..i], [buffer[i]]);
        assert buffer[..i + 1] == buffer[..i] + [buffer[i]];
        fingerprint := Step(fingerprint, buffer[i]);
      }
      assert buffer[..count] == buffer;
      HashConcat(OFFSET_BASIS, content[..bytes], buffer);
      assert content[..bytes + count] == content[..bytes] + buffer;
      bytes := bytes + count;
    }
    assert content[..bytes] == content;
  }
}
