/** The bit packing of basecode.cpp: bytes into digits of 1 to 7 bits, and digits into bytes. */
module BasePacking {
  import opened Arithmetic
  import opened Bytes
  import opened BitStrings
  import opened Sequences

  /** a | b. */
  function Or(a: nat, b: nat): nat
    decreases a + b
  {
    if a == 0 then b else if b == 0 then a
    else 2 * Or(a / 2, b / 2) + (if a % 2 == 1 || b % 2 == 1 then 1 else 0)
  }

  /** Where no bits meet, | adds. */
  lemma {:induction false} OrAdds(a: nat, b: nat, t: nat)
    requires b < Pow2(t)
    ensures Or(a * Pow2(t), b) == a * Pow2(t) + b
  {
    if t > 0 && a > 0 && b > 0 {
      var p := Pow2(t - 1);
      assert a * Pow2(t) == 2 * (a * p);
      OrAdds(a, b / 2, t - 1);
      OrStep(a * p, b);
    }
  }

  lemma OrStep(h: nat, b: nat)
    requires h > 0 && b > 0
    ensures Or(2 * h, b) == 2 * Or(h, b / 2) + b % 2
  {}

  // ---- Splitting and joining -----------------------------------------------------------------

  /** The low u bits of s. */
  function Low(s: nat, u: nat): nat { s % Pow2(u) }

  lemma HighLow(s: nat, u: nat)
    ensures s == Join(Shr(s, u), Low(s, u), u) && Low(s, u) < Pow2(u)
  {
    ShrIsDivision(s, u);
    DivMod(s, Pow2(u));
  }

  /** v with l bits s behind it. */
  function Join(v: nat, s: nat, l: nat): nat {
    v * Pow2(l) + s
  }

  /** A digit is completed by the top bits of s: the bits stay the same. */
  lemma FillDigit(part: nat, n: nat, s: nat, l: nat, w: nat)
    requires n <= w && w - n <= l && part < Pow2(n) && s < Pow2(l)
    ensures var t := w - n;
            var digit, rest := Join(part, Shr(s, l - t), t), Low(s, l - t);
            && Shr(s, l - t) < Pow2(t) && digit < Pow2(w) && rest < Pow2(l - t)
            && ToBits(part, n) + ToBits(s, l) == ToBits(digit, w) + ToBits(rest, l - t)
  {
    hide *;
    var t := w - n;
    HighLow(s, l - t);
    TopBound(s, l, t);
    JoinBound(part, n, Shr(s, l - t), t);
    MoveBits(part, n, Shr(s, l - t), t, Low(s, l - t), l - t);
  }

  lemma MoveBits(part: nat, n: nat, hi: nat, t: nat, lo: nat, u: nat)
    requires hi < Pow2(t) && lo < Pow2(u)
    ensures ToBits(part, n) + ToBits(Join(hi, lo, u), t + u) == ToBits(Join(part, hi, t), n + t) + ToBits(lo, u)
  {
    hide ToBits, Pow2;
    ToBitsConcat(hi, lo, t, u);
    ToBitsConcat(part, hi, n, t);
    AppendAssociative(ToBits(part, n), ToBits(hi, t), ToBits(lo, u));
  }

  lemma TopBound(s: nat, l: nat, t: nat)
    requires t <= l && s < Pow2(l)
    ensures Shr(s, l - t) < Pow2(t)
  {
    hide Pow2, Shr;
    var p := Pow2(l - t);
    ShrIsDivision(s, l - t);
    DivMod(s, p);
    Pow2Add(t, l - t);
    if s / p >= Pow2(t) { MulMono(Pow2(t), s / p, p); }
  }

  lemma JoinBound(hi: nat, n: nat, lo: nat, t: nat)
    requires hi < Pow2(n) && lo < Pow2(t)
    ensures Join(hi, lo, t) < Pow2(n + t)
  {
    Pow2Add(n, t);
    MulMono(hi + 1, Pow2(n), Pow2(t));
  }

  /** n bits v at the top of w bits. */
  function Align(v: nat, n: nat, w: nat): nat
    requires n <= w
  {
    v * Pow2(w - n)
  }

  /** An incomplete digit takes up all of s and stays incomplete. */
  lemma ExtendPartial(part: nat, n: nat, s: nat, l: nat, w: nat)
    requires part < Pow2(n) && s < Pow2(l) && n + l <= w
    ensures Join(part, s, l) < Pow2(n + l) && ToBits(part, n) + ToBits(s, l) == ToBits(Join(part, s, l), n + l)
    ensures Or(Align(part, n, w), Align(s, l, w - n)) == Align(Join(part, s, l), n + l, w) < Pow2(w)
  {
    JoinBound(part, n, s, l);
    ToBitsConcat(part, s, n, l);
    OrAligned(part, n, s, l, w);
    Fits(Join(part, s, l), n + l, w);
    hide ToBits, Or;
  }

  lemma OrAligned(part: nat, n: nat, s: nat, l: nat, w: nat)
    requires s < Pow2(l) && n + l <= w
    ensures Or(Align(part, n, w), Align(s, l, w - n)) == Align(Join(part, s, l), n + l, w)
  {
    hide Or, Pow2;
    var t := w - n;
    Pow2Add(l, t - l);
    Distribute(part, Pow2(l), s, Pow2(t - l));
    Fits(s, l, t);
    OrAdds(part, s * Pow2(t - l), t);
  }

  lemma Distribute(a: nat, b: nat, c: nat, d: nat)
    ensures (a * b + c) * d == a * (b * d) + c * d
  {
    assert (a * b + c) * d == a * b * d + c * d;
  }

  // ---- The shifts of the encoder -----------------------------------------------------------------

  /** b >> (8 - t) and (b << t) & 0xff, for l bits s at the top of the byte b. */
  lemma TopBits(s: nat, l: nat, t: nat)
    requires 1 <= t <= l <= 8
    ensures var b := s * Pow2(8 - l);
            Shr(b, 8 - t) == Shr(s, l - t) && b * Pow2(t) % 256 == Low(s, l - t) * Pow2(8 - (l - t))
  {
    hide Pow2, Shr;
    ShrIsDivision(s, l - t);
    ShrIsDivision(s * Pow2(8 - l), 8 - t);
    Pow2Add(l - t, 8 - l);
    ScaledDivMod(s, Pow2(l - t), Pow2(8 - l));
    MaskedShift(s, l, t);
  }

  lemma ScaledDivMod(s: nat, p: nat, q: nat)
    requires p >= 1 && q >= 1
    ensures p * q >= 1 && s * q / (p * q) == s / p && s * q % (p * q) == s % p * q
  {
    var h, r := s / p, s % p;
    DivMod(s, p);
    Distribute(h, p, r, q);
    MulMono(r + 1, p, q);
    MulMono(1, p, q);
    DivModUnique(s * q, p * q, h, r * q);
  }

  lemma MaskedShift(s: nat, l: nat, t: nat)
    requires 1 <= t <= l <= 8
    ensures s * Pow2(8 - l) * Pow2(t) % 256 == s % Pow2(l - t) * Pow2(8 - (l - t))
  {
    hide Pow2;
    var p, q := Pow2(l - t), Pow2(8 - (l - t));
    Pow2Add(8 - l, t);
    Associate(s, Pow2(8 - l), Pow2(t));
    Pow2Add(l - t, 8 - (l - t));
    Pow2Values();
    assert p * q == 256;
    ScaledDivMod(s, p, q);
  }

  lemma Associate(a: nat, b: nat, c: nat)
    ensures a * b * c == a * (b * c)
  {}

  lemma LowBits(s: nat, l: nat, t: nat)
    requires l < t <= 8
    ensures Shr(Align(s, l, 8), 8 - t) == Align(s, l, t)
  {
    hide Pow2, Shr;
    ShrIsDivision(s * Pow2(8 - l), 8 - t);
    Pow2Add(t - l, 8 - t);
    Associate(s, Pow2(t - l), Pow2(8 - t));
    DivModUnique(s * Pow2(8 - l), Pow2(8 - t), s * Pow2(t - l), 0);
  }

  /** The digits of the block so far, the incomplete one at the top of its place, and zeros. */
  ghost predicate Holds(buf: seq<byte>, digits: seq<nat>, part: nat, n: nat, w: nat)
    requires n <= w
  {
    && |digits| <= |buf|
    && (forall j :: 0 <= j < |digits| ==> buf[j] == digits[j])
    && (|digits| < |buf| ==> buf[|digits|] == Align(part, n, w))
    && (forall j :: |digits| < j < |buf| ==> buf[j] == 0)
  }

  /** One turn of the encoder's loop that completes a digit. */
  lemma FillStep(part: nat, n: nat, s: nat, l: nat, w: nat)
    requires n < w <= 8 && w - n <= l <= 8 && part < Pow2(n) && s < Pow2(l)
    ensures var t := w - n;
            var b := Align(s, l, 8);
            var digit, rest := Or(Align(part, n, w), Shr(b, 8 - t)), Low(s, l - t);
            && digit < Pow2(w) <= 256 && rest < Pow2(l - t) && Shl(b, t) % 256 == Align(rest, l - t, 8)
            && ToBits(part, n) + ToBits(s, l) == ToBits(digit, w) + ToBits(rest, l - t)
  {
    hide Pow2, Shr, Shl, ToBits, Low, Or, Align, Join;
    var t := w - n;
    AlignedTop(s, l, t);
    FillDigit(part, n, s, l, w);
    OrJoins(part, n, w, Shr(s, l - t));
    Pow2Monotone(w, 8);
    Pow2Values();
  }

  /** The top t bits of the byte in which s is aligned, and the byte without them. */
  lemma AlignedTop(s: nat, l: nat, t: nat)
    requires 1 <= t <= l <= 8
    ensures Shr(Align(s, l, 8), 8 - t) == Shr(s, l - t) && Shl(Align(s, l, 8), t) % 256 == Align(Low(s, l - t), l - t, 8)
  {
    hide Pow2, Shr, Shl, Low;
    TopBits(s, l, t);
    ShlIsMultiplication(Align(s, l, 8), t);
  }

  lemma OrJoins(part: nat, n: nat, w: nat, v: nat)
    requires n <= w && v < Pow2(w - n)
    ensures Or(Align(part, n, w), v) == Join(part, v, w - n)
  {
    hide Pow2, Or;
    OrAdds(part, v, w - n);
  }

  /** The last turn of the encoder's loop, when the digit stays incomplete. */
  lemma ExtendStep(part: nat, n: nat, s: nat, l: nat, w: nat)
    requires l < w - n && n < w <= 8 && part < Pow2(n) && s < Pow2(l)
    ensures var place, joined := Or(Align(part, n, w), Shr(Align(s, l, 8), 8 - (w - n))), Join(part, s, l);
            && joined < Pow2(n + l) && place == Align(joined, n + l, w) && place < 256
            && ToBits(part, n) + ToBits(s, l) == ToBits(joined, n + l)
  {
    hide *;
    LowBits(s, l, w - n);
    ExtendPartial(part, n, s, l, w);
    Pow2Monotone(w, 8);
    Pow2Values();
  }

  /** The bits used of the block, at w bits to a place. */
  function Used(w: nat, bytePos: nat, bitPos: nat): nat {
    w * bytePos + bitPos
  }

  /** While bits are left to place, there is a place for them. */
  lemma InRange(w: nat, bytePos: nat, bitPos: nat, left: nat, size: nat)
    requires left >= 1 && Used(w, bytePos, bitPos) + left <= Used(w, size, 0)
    ensures bytePos < size
  {
    if bytePos >= size { MulMono(size, bytePos, w); }
  }

  lemma UsedFill(w: nat, bytePos: nat, bitPos: nat)
    requires bitPos <= w
    ensures Used(w, bytePos + 1, 0) == Used(w, bytePos, bitPos) + (w - bitPos)
  {}

  lemma UsedExtend(w: nat, bytePos: nat, bitPos: nat, l: nat)
    ensures Used(w, bytePos, bitPos + l) == Used(w, bytePos, bitPos) + l
  {}

  lemma SpellSnoc(digits: seq<nat>, d: nat, w: nat)
    ensures Spell(digits + [d], w) == Spell(digits, w) + ToBits(d, w)
  {
    assert (digits + [d])[..|digits|] == digits;
  }

  /** All bits placed so far, of the block. */
  ghost function Placed(digits: seq<nat>, part: nat, n: nat, w: nat): seq<bool> {
    Spell(digits, w) + ToBits(part, n)
  }

  lemma PlacedFill(digits: seq<nat>, part: nat, n: nat, s: nat, l: nat, w: nat, d: nat, rest: nat, m: nat)
    requires ToBits(part, n) + ToBits(s, l) == ToBits(d, w) + ToBits(rest, m)
    ensures Placed(digits, part, n, w) + ToBits(s, l) == Placed(digits + [d], 0, 0, w) + ToBits(rest, m)
  {
    SpellSnoc(digits, d, w);
    assert ToBits(0, 0) == [];
    hide Spell, ToBits;
    Reassociate(Spell(digits, w), ToBits(part, n), ToBits(s, l), ToBits(d, w), ToBits(rest, m));
  }

  lemma Reassociate(a: seq<bool>, b: seq<bool>, c: seq<bool>, d: seq<bool>, e: seq<bool>)
    requires b + c == d + e
    ensures (a + b) + c == ((a + d) + []) + e
  {
    assert (a + b) + c == a + (b + c);
    assert ((a + d) + []) + e == a + (d + e);
  }

  lemma PlacedExtend(digits: seq<nat>, part: nat, n: nat, s: nat, l: nat, w: nat, joined: nat)
    requires ToBits(part, n) + ToBits(s, l) == ToBits(joined, n + l)
    ensures Placed(digits, part, n, w) + ToBits(s, l) == Placed(digits, joined, n + l, w)
  {
    hide Spell, ToBits;
  }

  lemma BelowSnoc(digits: seq<nat>, d: nat, bound: nat)
    requires Below(digits, bound) && d < bound
    ensures Below(digits + [d], bound)
  {}

  lemma HoldsFill(buf: seq<byte>, digits: seq<nat>, part: nat, n: nat, w: nat, d: byte)
    requires n <= w && Holds(buf, digits, part, n, w) && |digits| < |buf|
    ensures Holds(buf[|digits| := d], digits + [d], 0, 0, w)
  {
    assert Align(0, 0, w) == 0;
  }

  lemma HoldsExtend(buf: seq<byte>, digits: seq<nat>, part: nat, n: nat, w: nat, place: byte, part': nat, n': nat)
    requires n <= w && n' <= w && Holds(buf, digits, part, n, w) && |digits| < |buf| && place == Align(part', n', w)
    ensures Holds(buf[|digits| := place], digits, part', n', w)
  {}

  /** The buffer and the positions in it. */
  ghost predicate Packed(buf: seq<byte>, w: nat, bytePos: nat, bitPos: nat, digits: seq<nat>, part: nat) {
    && bitPos < w && part < Pow2(bitPos) && |digits| == bytePos <= |buf| && Below(digits, Pow2(w))
    && Holds(buf, digits, part, bitPos, w)
  }

  lemma PackedFill(buf: seq<byte>, w: nat, bytePos: nat, bitPos: nat, digits: seq<nat>, part: nat, d: byte)
    requires Packed(buf, w, bytePos, bitPos, digits, part) && bytePos < |buf| && d < Pow2(w)
    ensures Packed(buf[bytePos := d], w, bytePos + 1, 0, digits + [d], 0)
  {
    HoldsFill(buf, digits, part, bitPos, w, d);
    BelowSnoc(digits, d, Pow2(w));
    hide Below, Holds;
  }

  lemma PackedExtend(buf: seq<byte>, w: nat, bytePos: nat, bitPos: nat, digits: seq<nat>, part: nat, place: byte, joined: nat, l: nat)
    requires Packed(buf, w, bytePos, bitPos, digits, part) && bytePos < |buf|
    requires bitPos + l < w && joined < Pow2(bitPos + l) && place == Align(joined, bitPos + l, w)
    ensures Packed(buf[bytePos := place], w, bytePos, bitPos + l, digits, joined)
  {
    HoldsExtend(buf, digits, part, bitPos, w, place, joined, bitPos + l);
    hide Below, Holds;
  }

  lemma PackedAt(buf: seq<byte>, w: nat, bytePos: nat, bitPos: nat, digits: seq<nat>, part: nat)
    requires Packed(buf, w, bytePos, bitPos, digits, part)
    ensures bitPos < w && part < Pow2(bitPos) && |digits| == bytePos <= |buf|
    ensures bytePos < |buf| ==> buf[bytePos] == Align(part, bitPos, w)
  {}

  /** The bits placed so far, and l bits s still to come. */
  ghost function Stream(digits: seq<nat>, part: nat, n: nat, w: nat, s: nat, l: nat): seq<bool> {
    Placed(digits, part, n, w) + ToBits(s, l)
  }

  lemma StreamFill(digits: seq<nat>, part: nat, n: nat, s: nat, l: nat, w: nat, d: nat, rest: nat, m: nat)
    requires ToBits(part, n) + ToBits(s, l) == ToBits(d, w) + ToBits(rest, m)
    ensures Stream(digits, part, n, w, s, l) == Stream(digits + [d], 0, 0, w, rest, m)
  {
    hide Placed, ToBits;
    PlacedFill(digits, part, n, s, l, w, d, rest, m);
  }

  lemma StreamExtend(digits: seq<nat>, part: nat, n: nat, s: nat, l: nat, w: nat, joined: nat)
    requires ToBits(part, n) + ToBits(s, l) == ToBits(joined, n + l)
    ensures Stream(digits, part, n, w, s, l) == Stream(digits, joined, n + l, w, 0, 0)
  {
    PlacedExtend(digits, part, n, s, l, w, joined);
    StreamEnd(digits, joined, n + l, w, 0);
    hide Placed, ToBits;
  }

  lemma StreamEnd(digits: seq<nat>, part: nat, n: nat, w: nat, s: nat)
    ensures Stream(digits, part, n, w, s, 0) == Placed(digits, part, n, w)
  {
    hide Placed;
  }

  lemma StreamStart(digits: seq<nat>, part: nat, n: nat, w: nat, b: nat)
    ensures Stream(digits, part, n, w, b, 8) == Placed(digits, part, n, w) + ToBits(b, 8)
  {}

  /** The place is completed with the top bits of the source; the others move up. */
  method FillPlace(buf: array<byte>, k: nat, source: nat, left: nat, bytePos: nat, bitPos: nat,
                   ghost digits: seq<nat>, ghost part: nat, ghost s: nat)
      returns (next: nat, ghost d: nat, ghost rest: nat)
    requires 1 <= k <= 7 && Packed(buf[..], k, bytePos, bitPos, digits, part) && bytePos < buf.Length
    requires bitPos < k && k - bitPos <= left <= 8 && s < Pow2(left) && source == Align(s, left, 8)
    modifies buf
    ensures Packed(buf[..], k, bytePos + 1, 0, digits + [d], 0)
    ensures var l := left - (k - bitPos);
            && rest < Pow2(l) && next == Align(rest, l, 8)
            && Stream(digits, part, bitPos, k, s, left) == Stream(digits + [d], 0, 0, k, rest, l)
  {
    hide *;
    var target := k - bitPos;
    PackedAt(buf[..], k, bytePos, bitPos, digits, part);
    FillStep(part, bitPos, s, left, k);
    var place := Or(buf[bytePos], Shr(source, 8 - target));
    d, rest := place, Low(s, left - target);
    PackedFill(buf[..], k, bytePos, bitPos, digits, part, place);
    StreamFill(digits, part, bitPos, s, left, k, d, rest, left - target);
    buf[bytePos] := place;
    next := Shl(source, target) % 256;
  }

  /** The place takes up all of the source and stays incomplete. */
  method ExtendPlace(buf: array<byte>, k: nat, source: nat, left: nat, bytePos: nat, bitPos: nat,
                     ghost digits: seq<nat>, ghost part: nat, ghost s: nat)
      returns (ghost joined: nat)
    requires 1 <= k <= 7 && Packed(buf[..], k, bytePos, bitPos, digits, part) && bytePos < buf.Length
    requires left < k - bitPos && s < Pow2(left) && source == Align(s, left, 8)
    modifies buf
    ensures Packed(buf[..], k, bytePos, bitPos + left, digits, joined)
    ensures Stream(digits, part, bitPos, k, s, left) == Stream(digits, joined, bitPos + left, k, 0, 0)
  {
    hide *;
    PackedAt(buf[..], k, bytePos, bitPos, digits, part);
    ExtendStep(part, bitPos, s, left, k);
    var place := Or(buf[bytePos], Shr(source, 8 - (k - bitPos)));
    joined := Join(part, s, left);
    PackedExtend(buf[..], k, bytePos, bitPos, digits, part, place, joined, left);
    StreamExtend(digits, part, bitPos, s, left, k, joined);
    buf[bytePos] := place;
  }

  /** The state of the encoder's inner loop: left bits of the source are still to be placed. */
  ghost predicate Placing(buf: seq<byte>, k: nat, source: nat, left: nat, bytePos: nat, bitPos: nat,
                          digits: seq<nat>, part: nat, s: nat, used: nat, stream: seq<bool>)
  {
    && left <= 8 && bitPos < k && Packed(buf, k, bytePos, bitPos, digits, part)
    && s < Pow2(left) && source == Align(s, left, 8)
    && Used(k, bytePos, bitPos) + left == used && Stream(digits, part, bitPos, k, s, left) == stream
  }

  /** One turn of the loop. */
  method PlaceBits(buf: array<byte>, k: nat, source0: nat, left0: nat, bytePos0: nat, bitPos0: nat,
                   ghost digits0: seq<nat>, ghost part0: nat, ghost s0: nat, ghost used: nat, ghost stream: seq<bool>)
      returns (source: nat, left: nat, bytePos: nat, bitPos: nat, ghost digits: seq<nat>, ghost part: nat, ghost s: nat)
    requires 1 <= k <= 7 && left0 >= 1 && used <= Used(k, buf.Length, 0)
    requires Placing(buf[..], k, source0, left0, bytePos0, bitPos0, digits0, part0, s0, used, stream)
    modifies buf
    ensures left < left0
    ensures Placing(buf[..], k, source, left, bytePos, bitPos, digits, part, s, used, stream)
  {
    hide Packed, Pow2, Align, Used, Stream;
    var target := k - bitPos0;
    InRange(k, bytePos0, bitPos0, left0, buf.Length);
    if left0 >= target {
      ghost var d;
      UsedFill(k, bytePos0, bitPos0);
      source, d, s := FillPlace(buf, k, source0, left0, bytePos0, bitPos0, digits0, part0, s0);
      bytePos, bitPos, left := bytePos0 + 1, 0, left0 - target;
      digits, part := digits0 + [d], 0;
    } else {
      UsedExtend(k, bytePos0, bitPos0, left0);
      NothingLeft();
      part := ExtendPlace(buf, k, source0, left0, bytePos0, bitPos0, digits0, part0, s0);
      bytePos, bitPos, left := bytePos0, bitPos0 + left0, 0;
      digits, s, source := digits0, 0, 0;
    }
  }

  /** The inner loop of the encoder: the bits of b go into the places of the buffer. */
  method PackByte(buf: array<byte>, k: nat, b: byte, bytePos0: nat, bitPos0: nat, ghost digits0: seq<nat>, ghost part0: nat)
      returns (bytePos: nat, bitPos: nat, ghost digits: seq<nat>, ghost part: nat)
    requires 1 <= k <= 7 && Packed(buf[..], k, bytePos0, bitPos0, digits0, part0)
    requires Used(k, bytePos0, bitPos0) + 8 <= Used(k, buf.Length, 0)
    modifies buf
    ensures Packed(buf[..], k, bytePos, bitPos, digits, part)
    ensures Used(k, bytePos, bitPos) == Used(k, bytePos0, bitPos0) + 8
    ensures Placed(digits, part, bitPos, k) == Placed(digits0, part0, bitPos0, k) + ToBits(b, 8)
  {
    hide *;
    bytePos, bitPos, digits, part := bytePos0, bitPos0, digits0, part0;
    var source: nat, left: nat := b, 8;
    ghost var s: nat := b;
    ghost var used, stream := Used(k, bytePos, bitPos) + 8, Stream(digits, part, bitPos, k, b, 8);
    PlacingStart(buf[..], k, b, bytePos, bitPos, digits, part);
    while left > 0
      invariant Placing(buf[..], k, source, left, bytePos, bitPos, digits, part, s, used, stream)
    {
      source, left, bytePos, bitPos, digits, part, s :=
        PlaceBits(buf, k, source, left, bytePos, bitPos, digits, part, s, used, stream);
    }
    PlacingEnd(buf[..], k, source, bytePos, bitPos, digits, part, s, used, stream);
    StreamStart(digits0, part0, bitPos0, k, b);
  }

  lemma PlacingStart(buf: seq<byte>, k: nat, b: byte, bytePos: nat, bitPos: nat, digits: seq<nat>, part: nat)
    requires Packed(buf, k, bytePos, bitPos, digits, part)
    ensures Placing(buf, k, b, 8, bytePos, bitPos, digits, part, b, Used(k, bytePos, bitPos) + 8,
                    Stream(digits, part, bitPos, k, b, 8))
  {
    PackedAt(buf, k, bytePos, bitPos, digits, part);
    WholeByte(b);
    hide Packed, Pow2, Align, Used, Stream;
  }

  lemma PlacingEnd(buf: seq<byte>, k: nat, source: nat, bytePos: nat, bitPos: nat, digits: seq<nat>, part: nat, s: nat,
                   used: nat, stream: seq<bool>)
    requires Placing(buf, k, source, 0, bytePos, bitPos, digits, part, s, used, stream)
    ensures Packed(buf, k, bytePos, bitPos, digits, part)
    ensures Used(k, bytePos, bitPos) == used && Placed(digits, part, bitPos, k) == stream
  {
    StreamEnd(digits, part, bitPos, k, s);
    hide Packed, Pow2, Align, Used, Stream;
  }

  lemma WholeByte(b: byte)
    ensures b < Pow2(8) && Align(b, 8, 8) == b
  {
    Pow2Values();
  }

  lemma NothingLeft()
    ensures 0 < Pow2(0) && Align(0, 0, 8) == 0
  {}

  // ---- Digits into bytes -----------------------------------------------------------------------

  /** A digit that does not complete the byte. */
  lemma DigitExtends(part: nat, n: nat, v: nat, k: nat)
    requires n + k < 8 && part < Pow2(n) && v < Pow2(k)
    ensures var place, joined := Or(Align(part, n, 8), Shl(v, 8 - (n + k))), Join(part, v, k);
            && joined < Pow2(n + k) && place == Align(joined, n + k, 8) && 0 <= place < 256
            && ToBits(part, n) + ToBits(v, k) == ToBits(joined, n + k)
  {
    ShlAligns(v, k, 8 - n);
    hide *;
    ExtendPartial(part, n, v, k, 8);
    Pow2Values();
  }

  lemma ShlAligns(v: nat, k: nat, t: nat)
    requires k <= t
    ensures Shl(v, t - k) == Align(v, k, t)
  {
    ShlIsMultiplication(v, t - k);
  }

  /** A digit that completes the byte, with n + k - 8 bits left over. */
  lemma DigitFills(part: nat, n: nat, v: nat, k: nat)
    requires n < 8 <= n + k <= 16 && part < Pow2(n) && v < Pow2(k)
    ensures var u := n + k - 8;
            var place, rest := Or(Align(part, n, 8), Shr(v, u)), Low(v, u);
            && place < 256 == Pow2(8) && rest < Pow2(u) && Shl(v, 16 - (n + k)) % 256 == Align(rest, u, 8)
            && ToBits(part, n) + ToBits(v, k) == ToBits(place, 8) + ToBits(rest, u)
  {
    hide Pow2, Shl, Shr, ToBits, Or;
    var u := n + k - 8;
    FillDigit(part, n, v, k, 8);
    OrAdds(part, Shr(v, u), 8 - n);
    ShlIsMultiplication(v, 8 - u);
    ScaledDivMod(v, Pow2(u), Pow2(8 - u));
    Pow2Add(u, 8 - u);
    Pow2Values();
  }

  lemma OrNothing(part: nat, v: nat)
    ensures Align(0, 0, 8) == 0 && Or(0, v) == v && Shl(v, 0) == v && Shr(v, 0) == v
  {}

  /** The digit is placed in this byte, all of it. */
  method PlaceInByte(buf: array<byte>, k: nat, v: nat, bytePos: nat, bitPos: nat, ghost digits: seq<nat>, ghost part: nat)
      returns (ghost joined: nat)
    requires Packed(buf[..], 8, bytePos, bitPos, digits, part) && bytePos < buf.Length
    requires v < Pow2(k) && bitPos + k < 8
    modifies buf
    ensures Packed(buf[..], 8, bytePos, bitPos + k, digits, joined)
    ensures Placed(digits, part, bitPos, 8) + ToBits(v, k) == Placed(digits, joined, bitPos + k, 8)
  {
    hide *;
    PackedAt(buf[..], 8, bytePos, bitPos, digits, part);
    DigitExtends(part, bitPos, v, k);
    var place := Or(buf[bytePos], Shl(v, 8 - (bitPos + k)));
    joined := Join(part, v, k);
    PackedExtend(buf[..], 8, bytePos, bitPos, digits, part, place, joined, k);
    PlacedExtend(digits, part, bitPos, v, k, 8, joined);
    buf[bytePos] := place;
  }

  /** The digit completes this byte, and what is left of it starts the next. */
  method PlaceAcross(buf: array<byte>, k: nat, v: nat, bytePos: nat, bitPos: nat, ghost digits: seq<nat>, ghost part: nat)
      returns (ghost d: nat, ghost rest: nat)
    requires Packed(buf[..], 8, bytePos, bitPos, digits, part) && bytePos < buf.Length
    requires v < Pow2(k) && k <= 7 && bitPos < 8 <= bitPos + k
    requires bitPos + k > 8 ==> bytePos + 1 < buf.Length
    modifies buf
    ensures Packed(buf[..], 8, bytePos + 1, bitPos + k - 8, digits + [d], rest)
    ensures Placed(digits, part, bitPos, 8) + ToBits(v, k) == Placed(digits + [d], rest, bitPos + k - 8, 8)
  {
    hide *;
    PackedAt(buf[..], 8, bytePos, bitPos, digits, part);
    DigitFills(part, bitPos, v, k);
    OrNothing(part, v);
    ghost var u := bitPos + k - 8;
    var place := if bitPos + k <= 8 then Or(buf[bytePos], Shl(v, 8 - (bitPos + k))) else Or(buf[bytePos], Shr(v, bitPos + k - 8));
    d, rest := place, Low(v, u);
    PackedFill(buf[..], 8, bytePos, bitPos, digits, part, place);
    PlacedFill(digits, part, bitPos, v, k, 8, d, rest, u);
    PlacedMove(digits + [d], rest, u);
    buf[bytePos] := place;
    if bitPos + k > 8 {
      PackedAt(buf[..], 8, bytePos + 1, 0, digits + [d], 0);
      var carry := Shl(v, 16 - (bitPos + k)) % 256;
      OrNothing(part, carry);
      PackedExtend(buf[..], 8, bytePos + 1, 0, digits + [d], 0, carry, rest, u);
      buf[bytePos + 1] := Or(buf[bytePos + 1], carry);
    } else {
      BelowOne(rest);
    }
  }

  lemma BelowOne(v: nat)
    requires v < Pow2(0)
    ensures v == 0
  {}

  lemma PlacedMove(digits: seq<nat>, rest: nat, u: nat)
    ensures Placed(digits, 0, 0, 8) + ToBits(rest, u) == Placed(digits, rest, u, 8)
  {
    assert ToBits(0, 0) == [];
    hide Spell;
    assert Spell(digits, 8) + [] == Spell(digits, 8);
  }

  /** The decoder's step for one digit. */
  method PackDigit(buf: array<byte>, k: nat, v: nat, bytePos0: nat, bitPos0: nat, ghost digits0: seq<nat>, ghost part0: nat)
      returns (bytePos: nat, bitPos: nat, ghost digits: seq<nat>, ghost part: nat)
    requires 1 <= k <= 7 && v < Pow2(k) && Packed(buf[..], 8, bytePos0, bitPos0, digits0, part0)
    requires Used(8, bytePos0, bitPos0) + k <= Used(8, buf.Length, 0)
    modifies buf
    ensures Packed(buf[..], 8, bytePos, bitPos, digits, part)
    ensures Used(8, bytePos, bitPos) == Used(8, bytePos0, bitPos0) + k
    ensures Placed(digits, part, bitPos, 8) == Placed(digits0, part0, bitPos0, 8) + ToBits(v, k)
  {
    hide *;
    PackedAt(buf[..], 8, bytePos0, bitPos0, digits0, part0);
    InRange(8, bytePos0, bitPos0, k, buf.Length);
    var newBitPos := bitPos0 + k;
    bytePos, bitPos := bytePos0, newBitPos;
    if newBitPos < 8 {
      UsedExtend(8, bytePos0, bitPos0, k);
      digits := digits0;
      part := PlaceInByte(buf, k, v, bytePos0, bitPos0, digits0, part0);
    } else {
      UsedFill(8, bytePos0, bitPos0);
      UsedExtend(8, bytePos0 + 1, 0, newBitPos - 8);
      if newBitPos > 8 { InRange(8, bytePos0 + 1, 0, newBitPos - 8, buf.Length); }
      ghost var d;
      d, part := PlaceAcross(buf, k, v, bytePos0, bitPos0, digits0, part0);
      digits := digits0 + [d];
      bytePos, bitPos := bytePos0 + 1, newBitPos - 8;
    }
  }
}
