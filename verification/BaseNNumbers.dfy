/** What the base-2^k filters put out, said with numbers and positions instead of bits. */
module BaseNNumbers {
  import opened Arithmetic
  import opened Bytes
  import opened BitStrings
  import opened BaseNEncoding
  import opened BaseNDecoding
  import opened Groupers
  import opened Sequences

  /** The number that digits spell, most significant first. */
  function Number(ds: seq<nat>, base: nat): nat {
    if ds == [] then 0 else Number(ds[..|ds| - 1], base) * base + ds[|ds| - 1]
  }

  lemma {:induction false} ValueIsNumber(m: seq<byte>)
    ensures Value(m) == Number(m, 256)
  {
    if m != [] { ValueIsNumber(m[..|m| - 1]); }
  }

  lemma {:induction false} FromBitsAppend(s: seq<bool>, t: seq<bool>)
    ensures FromBits(s + t) == FromBits(s) * Pow2(|t|) + FromBits(t)
  {
    hide FromBits, Pow2;
    if t == [] {
      NoBits(0);
      assert s + t == s;
    } else {
      var n := |t| - 1;
      FromBitsAppend(s, t[..n]);
      LastBit(t);
      LastBit(s + t);
      assert (s + t)[..|s| + n] == s + t[..n];
      Pow2Step(n);
      TwiceTimes(FromBits(s), Pow2(n));
    }
  }

  lemma LastBit(s: seq<bool>)
    requires s != []
    ensures FromBits(s) == 2 * FromBits(s[..|s| - 1]) + (if s[|s| - 1] then 1 else 0)
  {}

  lemma TwiceTimes(a: nat, p: nat)
    ensures a * (2 * p) == 2 * (a * p)
  {}

  lemma {:induction false} SpellNumber(ds: seq<nat>, w: nat)
    requires Below(ds, Pow2(w))
    ensures FromBits(Spell(ds, w)) == Number(ds, Pow2(w)) && |Spell(ds, w)| == |ds| * w
  {
    hide Pow2, FromBits, ToBits, Spell, Number;
    if ds == [] {
      NoBits(w);
    } else {
      var n := |ds| - 1;
      SpellNumber(ds[..n], w);
      FromTo(ds[n], w);
      SpellLast(ds, w);
      NumberLast(ds, Pow2(w));
      FromBitsAppend(Spell(ds[..n], w), ToBits(ds[n], w));
      OneMore(n, w);
    }
  }

  lemma NumberLast(ds: seq<nat>, base: nat)
    requires ds != []
    ensures Number(ds, base) == Number(ds[..|ds| - 1], base) * base + ds[|ds| - 1]
  {}

  lemma NoBits(w: nat)
    ensures FromBits([]) == 0 && Spell([], w) == [] && Number([], Pow2(w)) == 0 && Pow2(0) == 1
  {}

  lemma OneMore(n: nat, w: nat)
    ensures (n + 1) * w == n * w + w
  {}

  lemma {:induction false} FalsesNumber(p: nat)
    ensures FromBits(Falses(p)) == 0
  {
    if p > 0 {
      FalsesNumber(p - 1);
      assert Falses(p)[..p - 1] == Falses(p - 1);
    }
  }

  lemma ByteNumber(m: seq<byte>)
    ensures FromBits(Spell(m, 8)) == Value(m) && |Spell(m, 8)| == 8 * |m|
  {
    Pow2Values();
    hide Pow2, FromBits, Spell;
    SpellNumber(m, 8);
    ValueIsNumber(m);
  }

  /** The digits of an encoding spell the number of the message, times a power of two that fills the last digit. */
  lemma DigitsSpellNumber(m: seq<byte>, k: nat) returns (p: nat)
    requires k >= 1
    ensures p < k && |Digits(m, k)| * k == 8 * |m| + p && Below(Digits(m, k), Pow2(k))
    ensures Number(Digits(m, k), Pow2(k)) == Value(m) * Pow2(p)
  {
    hide Pow2, FromBits, Spell, Padded;
    p := PaddedSpells(Spell(m, 8), k);
    ByteNumber(m);
    SpellNumber(Digits(m, k), k);
    FromBitsAppend(Spell(m, 8), Falses(p));
    FalsesNumber(p);
  }

  /** Character by character: the letters of the digits, then padding up to the next whole block, if there is padding. */
  lemma TextOfDigits(m: seq<byte>, a: Alphabet)
    requires a.Valid()
    ensures var t, ds := EncodeText(m, a), Digits(m, a.bitsPerChar);
            && |ds| <= |t| && (forall i :: 0 <= i < |ds| ==> ds[i] < |a.letters| && t[i] == a.letters[ds[i]])
            && (forall i :: |ds| <= i < |t| ==> a.padding != -1 && t[i] == a.padding)
            && (a.padding != -1 ==> |t| % a.blockSize == 0 && |t| - |ds| < a.blockSize)
  {
    var ds := Digits(m, a.bitsPerChar);
    hide Padded, Spell, Pow2, Missing, Digits, EncodeText;
    DigitsBelow(m, a.bitsPerChar);
    FillsUp(|ds|, a.blockSize);
    UnfoldText(m, a);
  }

  lemma DigitsBelow(m: seq<byte>, k: nat)
    requires k >= 1
    ensures Below(Digits(m, k), Pow2(k))
  {
    var _ := PaddedSpells(Spell(m, 8), k);
  }

  lemma UnfoldText(m: seq<byte>, a: Alphabet)
    requires a.bitsPerChar >= 1 && a.blockSize >= 1 && -1 <= a.padding < 256
    ensures var ds := Digits(m, a.bitsPerChar);
            EncodeText(m, a) == Letters(a.letters, ds) + (if a.padding == -1 then [] else Repeat(a.padding, Missing(|ds|, a.blockSize)))
  {}

  lemma FillsUp(n: nat, size: nat)
    requires size >= 1
    ensures (n + Missing(n, size)) % size == 0 && Missing(n, size) < size
  {
    DivMod(n, size);
    if n % size == 0 {
    } else {
      OneMore(n / size, size);
      DivModUnique(n + Missing(n, size), size, n / size + 1, 0);
    }
  }

  // ---- Decoding -----------------------------------------------------------------------------------

  lemma {:induction false} WholeSpells(s: seq<bool>, w: nat) returns (r: nat)
    requires w >= 1
    ensures r < w && r <= |s| && Below(Whole(s, w), Pow2(w)) && Spell(Whole(s, w), w) == s[..|s| - r]
    decreases |s|
  {
    hide *;
    if |s| < w {
      r := |s|;
      WholeShort(s, w);
      SpellNone(w);
      BelowNone(Pow2(w));
    } else {
      r := WholeSpells(s[w..], w);
      assert s == s[..w] + s[w..];
      WholeStep(s[..w], s[w..], w);
      SpellStep(s[..w], Whole(s[w..], w));
      BelowCons(FromBits(s[..w]), Whole(s[w..], w), Pow2(w));
      assert s[..w] + s[w..][..|s| - w - r] == s[..|s| - r];
    }
  }

  lemma BelowNone(bound: nat)
    ensures Below([], bound)
  {}

  /** The bytes of a text spell the number of its digits, without the bits that make no whole byte. */
  lemma BytesSpellNumber(text: seq<byte>, l: Lookup) returns (r: nat)
    requires l.Valid()
    ensures var ds, k := Values(text, l.table), l.bitsPerChar;
            && r < 8 && 8 * |DecodeText(text, l)| + r == |ds| * k
            && Number(DecodeText(text, l), 256) == Number(ds, Pow2(k)) / Pow2(r)
  {
    var ds, k := Values(text, l.table), l.bitsPerChar;
    ValuesBelow(text, l);
    hide Pow2, FromBits, Spell, Whole, Values, Number;
    SpellNumber(ds, k);
    r := WholeNumber(Spell(ds, k));
  }

  lemma WholeNumber(s: seq<bool>) returns (r: nat)
    ensures r < 8 && 8 * |Whole(s, 8)| + r == |s| && Number(Whole(s, 8), 256) == FromBits(s) / Pow2(r)
  {
    Pow2Values();
    hide Pow2, FromBits, Spell, Whole, Number;
    r := WholeSpells(s, 8);
    SpellNumber(Whole(s, 8), 8);
    assert s == s[..|s| - r] + s[|s| - r..];
    HeadNumber(s[..|s| - r], s[|s| - r..]);
  }

  lemma HeadNumber(head: seq<bool>, tail: seq<bool>)
    ensures FromBits(head) == FromBits(head + tail) / Pow2(|tail|)
  {
    hide Pow2, FromBits;
    FromBitsAppend(head, tail);
    ToFrom(tail);
    DivModUnique(FromBits(head + tail), Pow2(|tail|), FromBits(head), FromBits(tail));
  }

  lemma {:induction false} ValuesBelow(text: seq<byte>, l: Lookup)
    requires l.Valid()
    ensures Below(Values(text, l.table), Pow2(l.bitsPerChar))
  {
    if text != [] { ValuesBelow(text[..|text| - 1], l); }
  }

  /** Upper and lower case of the 26 letters count as the same exactly if that is asked for; nothing else does. */
  lemma SameLetter(x: byte, c: byte)
    ensures Matches(x, c, false) <==> c == x
    ensures Matches(x, c, true) <==> c == x || (65 <= x <= 90 && c == x + 32) || (97 <= x <= 122 && c == x - 32)
  {}

  // ---- Grouping -----------------------------------------------------------------------------------

  /** The groups one after another, a separator between any two and none at the end. */
  function Joined(s: seq<byte>, size: nat, separator: seq<byte>): seq<byte>
    requires size >= 1
    decreases |s|
  {
    if |s| <= size then s else s[..size] + separator + Joined(s[size..], size, separator)
  }

  lemma {:induction false} GroupsAreJoined(s: seq<byte>, size: nat, separator: seq<byte>)
    requires size >= 1
    ensures GroupBody(s, size, separator) == Joined(s, size, separator)
    decreases |s|
  {
    hide Grouped;
    var n := Min(size, |s|);
    GroupedTake(s, n, size, separator, 0);
    if |s| <= size {
      NothingGrouped(size, separator, n);
      assert s[..n] == s && s[n..] == [] && s + [] == s;
    } else {
      SeparatorFirst(s[size..], size, separator);
      GroupsAreJoined(s[size..], size, separator);
      AppendAssociative(s[..size], separator, Joined(s[size..], size, separator));
    }
  }

  lemma NothingGrouped(size: nat, separator: seq<byte>, c: nat)
    requires size >= 1
    ensures Grouped([], size, separator, c) == []
  {}

  lemma SeparatorFirst(s: seq<byte>, size: nat, separator: seq<byte>)
    requires size >= 1 && s != []
    ensures Grouped(s, size, separator, size) == separator + Grouped(s, size, separator, 0)
  {}
}
