/** The Blum Blum Shub generator of blumshub.cpp, and its random access by Seek. */
module BlumBlumShubGenerator {
  import opened Arithmetic
  import opened Bytes
  import opened NumberTheory
  import opened WindowSliders

  // ---- The stream -------------------------------------------------------------------

  /** x0 squared s times. */
  function Residue(x0: nat, n: nat, s: nat): (r: int)
    requires n > 0
    ensures 0 <= r < n
  {
    PowerMod(x0, Pow2(s), n)
  }

  /** Bit t of the stream: maxBits bits of each successive square, most significant first. */
  function StreamBit(x0: nat, n: nat, maxBits: nat, t: nat): bool
    requires n > 0 && maxBits > 0
  {
    DivMod(t, maxBits);
    GetBit(Residue(x0, n, t / maxBits + 1), maxBits - 1 - t % maxBits)
  }

  /** The number that k bits of the stream from position t spell. */
  function StreamBits(x0: nat, n: nat, maxBits: nat, t: nat, k: nat): (v: nat)
    requires n > 0 && maxBits > 0
    ensures v < Pow2(k)
  {
    if k == 0 then 0
    else 2 * StreamBits(x0, n, maxBits, t, k - 1) + if StreamBit(x0, n, maxBits, t + k - 1) then 1 else 0
  }

  function StreamByte(x0: nat, n: nat, maxBits: nat, index: nat): byte
    requires n > 0 && maxBits > 0
  {
    Pow2Values();
    StreamBits(x0, n, maxBits, 8 * index, 8)
  }

  lemma NextResidue(x0: nat, n: nat, s: nat)
    requires n > 0
    ensures Residue(x0, n, s + 1) == Residue(x0, n, s) * Residue(x0, n, s) % n
  {
    var p := Power(x0, Pow2(s));
    PowerAdd(x0, Pow2(s), Pow2(s));
    CongruentMod(p, n);
    CongruentMul(p % n, p, p % n, p, n);
  }

  /** If x0 to the phi is 1 then exponents of x0 count modulo phi only. */
  lemma ReducedExponent(x0: nat, n: nat, phi: nat, e: nat)
    requires n > 0 && phi > 0 && PowerMod(x0, phi, n) == 1 % n
    ensures PowerMod(x0, e % phi, n) == PowerMod(x0, e, n)
  {
    var q, r := e / phi, e % phi;
    DivMod(e, phi);
    assert q * phi == phi * q;
    PowerAdd(x0, phi * q, r);
    PowerMul(x0, phi, q);
    CongruentPower(Power(x0, phi), 1, q, n);
    PowerOne(q);
    CongruentMul(Power(Power(x0, phi), q), 1, Power(x0, r), Power(x0, r), n);
  }

  /** The first k bits given of a square are the upper ones of its low maxBits bits. */
  lemma {:induction false} SquareGives(x0: nat, n: nat, maxBits: nat, s: nat, k: nat)
    requires n > 0 && k <= maxBits && maxBits > 0
    ensures StreamBits(x0, n, maxBits, s * maxBits, k) == Shr(Residue(x0, n, s + 1), maxBits - k) % Pow2(k)
  {
    hide Residue, Shr, StreamBit;
    if k > 0 {
      SquareGives(x0, n, maxBits, s, k - 1);
      BitOfSquare(x0, n, maxBits, s, k - 1);
      NextBitDown(Residue(x0, n, s + 1), maxBits - k, k - 1);
    }
  }

  lemma BitOfSquare(x0: nat, n: nat, maxBits: nat, s: nat, i: nat)
    requires n > 0 && i < maxBits
    ensures StreamBit(x0, n, maxBits, s * maxBits + i) == GetBit(Residue(x0, n, s + 1), maxBits - 1 - i)
  {
    DivModUnique(s * maxBits + i, maxBits, s, i);
  }

  lemma NextBitDown(v: nat, u: nat, k: nat)
    ensures Shr(v, u) % Pow2(k + 1) == 2 * (Shr(v, u + 1) % Pow2(k)) + (if GetBit(v, u) then 1 else 0)
  {
    var w := Shr(v, u);
    assert Shr(v, u + 1) == w / 2;
    hide Shr, Pow2;
    Pow2Step(k);
    HalfRemainder(w, Pow2(k));
  }

  lemma HalfRemainder(w: nat, p: nat)
    requires p >= 1
    ensures w % (2 * p) == 2 * (w / 2 % p) + w % 2
  {
    DivDiv(w, 2, p);
  }

  /** The bits of one square, in the order in which they are given, spell its low maxBits bits. */
  lemma SquareSpells(x0: nat, n: nat, maxBits: nat, s: nat)
    requires n > 0 && maxBits > 0
    ensures StreamBits(x0, n, maxBits, s * maxBits, maxBits) == Residue(x0, n, s + 1) % Pow2(maxBits)
  {
    hide Residue;
    SquareGives(x0, n, maxBits, s, maxBits);
  }

  /** Bits that follow are lower digits. */
  lemma {:induction false} StreamBitsFollow(x0: nat, n: nat, maxBits: nat, t: nat, j: nat, k: nat)
    requires n > 0 && maxBits > 0
    ensures StreamBits(x0, n, maxBits, t, j + k)
         == StreamBits(x0, n, maxBits, t, j) * Pow2(k) + StreamBits(x0, n, maxBits, t + j, k)
  {
    hide StreamBit, StreamBits, Pow2;
    var a := StreamBits(x0, n, maxBits, t, j);
    Pow2Step(if k == 0 then 0 else k - 1);
    if k == 0 {
      NoBits(x0, n, maxBits, t + j);
    } else {
      StreamBitsFollow(x0, n, maxBits, t, j, k - 1);
      OneBitMore(x0, n, maxBits, t, j + k);
      OneBitMore(x0, n, maxBits, t + j, k);
      DoubledFactor(a, Pow2(k - 1));
    }
  }

  lemma OneBitMore(x0: nat, n: nat, maxBits: nat, t: nat, k: nat)
    requires n > 0 && maxBits > 0 && k > 0
    ensures StreamBits(x0, n, maxBits, t, k)
         == 2 * StreamBits(x0, n, maxBits, t, k - 1) + (if StreamBit(x0, n, maxBits, t + k - 1) then 1 else 0)
  {}

  lemma DoubledFactor(a: nat, p: nat)
    ensures a * (2 * p) == 2 * (a * p)
  {}

  /** A run of bytes of the stream spells the bits in their order, the first one on top. */
  lemma {:induction false} BytesSpell(x0: nat, n: nat, maxBits: nat, index: nat, bytes: seq<byte>)
    requires n > 0 && maxBits > 0
    requires forall k :: 0 <= k < |bytes| ==> bytes[k] == StreamByte(x0, n, maxBits, index + k)
    ensures Value(bytes) == StreamBits(x0, n, maxBits, 8 * index, 8 * |bytes|)
  {
    hide StreamBits;
    if bytes == [] {
      NoBits(x0, n, maxBits, 8 * index);
    } else {
      var k := |bytes| - 1;
      BytesSpell(x0, n, maxBits, index, bytes[..k]);
      StreamBitsFollow(x0, n, maxBits, 8 * index, 8 * k, 8);
      Pow2Values();
    }
  }

  lemma NoBits(x0: nat, n: nat, maxBits: nat, t: nat)
    requires n > 0 && maxBits > 0
    ensures StreamBits(x0, n, maxBits, t, 0) == 0 && Pow2(0) == 1
  {}

  /** The stream is the low bits of the successive squares, one after another. */
  lemma StreamOfSquares(x0: nat, n: nat, maxBits: nat, s: nat)
    requires n > 0 && maxBits > 0
    ensures StreamBits(x0, n, maxBits, 0, (s + 1) * maxBits)
         == StreamBits(x0, n, maxBits, 0, s * maxBits) * Pow2(maxBits) + Residue(x0, n, s + 1) % Pow2(maxBits)
  {
    hide Residue, StreamBits, Pow2;
    SquareSpells(x0, n, maxBits, s);
    StreamBitsFollow(x0, n, maxBits, 0, s * maxBits, maxBits);
    OneFactorMore(s, maxBits);
  }

  lemma OneFactorMore(s: nat, m: nat)
    ensures (s + 1) * m == s * m + m
  {}

  /** Which squares these are. */
  lemma SuccessiveSquares(x0: nat, n: nat, s: nat)
    requires n > 0
    ensures Residue(x0, n, 1) == x0 * x0 % n && Residue(x0, n, s + 1) == Residue(x0, n, s) * Residue(x0, n, s) % n
  {
    FirstResidue(x0, n);
    NextResidue(x0, n, s);
  }

  // ---- The generator ------------------------------------------------------------------

  class BlumBlumShub {
    const p: nat
    const q: nat
    const n: nat
    const maxBits: nat
    const x0: nat
    var current: nat
    var bitsLeft: nat

    /** Ready to give bit t: in the middle of a square, or at the end of the one before. */
    ghost predicate At(t: nat)
      reads this
    {
      && n > 1 && maxBits > 0
      && if bitsLeft > 0
         then bitsLeft == maxBits - t % maxBits && current == Residue(x0, n, t / maxBits + 1)
         else t % maxBits == 0 && t > 0 && current == Residue(x0, n, t / maxBits)
    }

    constructor (p: nat, q: nat, seed: nat)
      requires p * q > 1
      ensures this.p == p && this.q == q && n == p * q && x0 == seed * seed % n
      ensures At(0) && Pow2(maxBits) <= BitCount(n) < Pow2(maxBits + 1)
    {
      var m := p * q;
      this.p, this.q, this.n := p, q, m;
      var bits := BitCount(BitCount(m)) - 1;
      MaxBitsPositive(m);
      BitCountBound(BitCount(m), bits);
      BitCountBound(BitCount(m), bits + 1);
      var x := seed * seed % m;
      this.x0 := x;
      maxBits := bits;
      current := x * x % m;
      bitsLeft := bits;
      new;
      DivModUnique(0, maxBits, 0, 0);
      FirstResidue(x0, n);
    }

    method GenerateBit(ghost t: nat) returns (bit: bool)
      requires At(t)
      modifies this
      ensures At(t + 1) && bit == StreamBit(x0, n, maxBits, t)
    {
      ghost var s := t / maxBits;
      DivMod(t, maxBits);
      if bitsLeft == 0 {
        NextResidue(x0, n, s);
        current := current * current % n;
        bitsLeft := maxBits;
      }
      bitsLeft := bitsLeft - 1;
      bit := GetBit(current, bitsLeft);
      if bitsLeft > 0 {
        DivModUnique(t + 1, maxBits, s, t % maxBits + 1);
      } else {
        assert (s + 1) * maxBits == s * maxBits + maxBits;
        DivModUnique(t + 1, maxBits, s + 1, 0);
      }
    }

    method GenerateByte(ghost index: nat) returns (b: byte)
      requires At(8 * index)
      modifies this
      ensures At(8 * (index + 1)) && b == StreamByte(x0, n, maxBits, index)
    {
      hide At, StreamBit;
      var v := 0;
      assert n > 0 && maxBits > 0 by { Positive(8 * index); }
      for i := 0 to 8
        invariant At(8 * index + i)
        invariant v == StreamBits(x0, n, maxBits, 8 * index, i)
      {
        var bit := GenerateBit(8 * index + i);
        v := 2 * v + if bit then 1 else 0;
      }
      Pow2Values();
      b := v;
    }

    lemma Positive(t: nat)
      requires At(t)
      ensures n > 0 && maxBits > 0
    {
    }

    method GenerateBlock(ghost index: nat, size: nat) returns (output: seq<byte>)
      requires At(8 * index)
      modifies this
      ensures At(8 * (index + size)) && n > 0 && maxBits > 0
      ensures |output| == size && forall k :: 0 <= k < size ==> output[k] == StreamByte(x0, n, maxBits, index + k)
    {
      Positive(8 * index);
      hide At, StreamByte;
      output := [];
      for i := 0 to size
        invariant At(8 * (index + i)) && |output| == i
        invariant forall k :: 0 <= k < i ==> output[k] == StreamByte(x0, n, maxBits, index + k)
      {
        var b := GenerateByte(index + i);
        output := output + [b];
      }
    }

    /** Random access: the generator is then ready for byte index, wherever it was before. */
    method Seek(index: nat)
      requires n > 1 && maxBits > 0 && p > 1 && q > 1
      requires PowerMod(x0, Phi(p, q), n) == 1
      modifies this
      ensures At(8 * index)
    {
      hide PowerMod, Residue, Phi;
      var i := index * 8;
      var e := PowerMod(2, i / maxBits + 1, Phi(p, q));
      SeekExponent(x0, n, Phi(p, q), i / maxBits + 1);
      current := PowerMod(x0, e, n);
      bitsLeft := maxBits - Remainder(i, maxBits);
    }
  }

  /** (p - 1)(q - 1). */
  function Phi(p: nat, q: nat): (phi: nat)
    requires p > 1 && q > 1
    ensures phi > 0 && phi + p + q == p * q + 1
  {
    MulMono(1, p - 1, q - 1);
    assert (p - 1) * (q - 1) == p * q - p - q + 1;
    (p - 1) * (q - 1)
  }

  function Remainder(i: nat, m: nat): (r: nat)
    requires m > 0
    ensures r < m && r == i % m
  {
    DivMod(i, m);
    i % m
  }

  lemma SeekExponent(x0: nat, n: nat, phi: nat, s: nat)
    requires n > 1 && phi > 0 && PowerMod(x0, phi, n) == 1
    ensures PowerMod(x0, PowerMod(2, s, phi), n) == Residue(x0, n, s)
  {
    TwoPower(s);
    ReducedExponent(x0, n, phi, Pow2(s));
  }

  lemma {:induction false} TwoPower(k: nat)
    ensures Power(2, k) == Pow2(k)
  {
    if k > 0 { TwoPower(k - 1); }
  }

  lemma MaxBitsPositive(m: nat)
    requires m > 1
    ensures BitCount(BitCount(m)) >= 2
  {
    assert BitCount(m) >= 2;
  }

  lemma FirstResidue(x0: nat, n: nat)
    requires n > 0
    ensures Residue(x0, n, 1) == x0 * x0 % n
  {
    assert Pow2(1) == 2 && Power(x0, 2) == x0 * Power(x0, 1) && Power(x0, 1) == x0 * Power(x0, 0);
  }

  /** Seeking to a byte and discarding the bytes before it lead to the same output. */
  method SeekOrDiscard(a: BlumBlumShub, b: BlumBlumShub, index: nat, size: nat) returns (x: seq<byte>, y: seq<byte>)
    requires a != b && a.p == b.p && a.q == b.q && a.n == b.n && a.x0 == b.x0 && a.maxBits == b.maxBits
    requires a.n > 1 && a.maxBits > 0 && a.p > 1 && a.q > 1
    requires PowerMod(a.x0, Phi(a.p, a.q), a.n) == 1
    requires b.At(0)
    modifies a, b
    ensures x == y && |x| == size
  {
    a.Seek(index);
    x := a.GenerateBlock(index, size);
    var discarded := b.GenerateBlock(0, index);
    y := b.GenerateBlock(index, size);
  }
}
