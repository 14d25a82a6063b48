/** Encoding, grouping and decoding together. */
module BaseNRoundTrip {
  import opened Arithmetic
  import opened Bytes
  import opened BitStrings
  import opened BaseNEncoding
  import opened BaseNDecoding
  import opened Groupers
  import opened Sequences

  // ---- Whole messages in any chunks, through a sink that blocks at will -----------------------------

  /** Repeat a call until it is not blocked. */
  method EncodePart(e: BaseNEncoder, part: seq<byte>, end: bool)
    requires e.Valid() && e.continueAt == 0
    modifies e, e.outBuf, e.sink
    ensures e.Valid() && e.continueAt == 0
    ensures !end ==> e.start == old(e.start) && e.message == old(e.message) + part
    ensures end ==> e.message == [] && e.start == e.sink.output == old(e.start) + EncodeText(old(e.message) + part, e.a)
  {
    hide EncodeText;
    var blocked := e.Put2(part, end);
    while blocked
      invariant e.Valid() && (blocked <==> e.continueAt != 0)
      invariant blocked ==> e.begin == part && e.end == end && e.start == old(e.start) && e.Pending() == old(e.message) + part
      invariant !blocked && !end ==> e.start == old(e.start) && e.message == old(e.message) + part
      invariant !blocked && end ==> e.message == [] && e.start == e.sink.output == old(e.start) + EncodeText(old(e.message) + part, e.a)
      decreases |e.sink.script|, blocked
    {
      blocked := e.Put2(part, end);
    }
  }

  /** However the message is cut up and whenever the sink blocks, the output is the encoding of the whole. */
  method EncodeMessage(e: BaseNEncoder, parts: seq<seq<byte>>)
    requires e.Valid() && e.continueAt == 0 && e.message == []
    modifies e, e.outBuf, e.sink
    ensures e.Valid() && e.continueAt == 0 && e.message == []
    ensures e.sink.output == old(e.start) + EncodeText(Concat(parts), e.a)
  {
    hide EncodeText;
    for i := 0 to |parts|
      invariant e.Valid() && e.continueAt == 0 && e.start == old(e.start) && e.message == Concat(parts[..i])
    {
      ConcatUpTo(parts, i);
      EncodePart(e, parts[i], false);
    }
    assert parts[..|parts|] == parts && Concat(parts) + [] == Concat(parts);
    EncodePart(e, [], true);
  }

  method DecodePart(d: BaseNDecoder, part: seq<byte>, end: bool)
    requires d.Valid() && d.continueAt == 0
    modifies d, d.outBuf, d.sink
    ensures d.Valid() && d.continueAt == 0
    ensures !end ==> d.start == old(d.start) && d.text == old(d.text) + part
    ensures end ==> d.text == [] && d.start == d.sink.output == old(d.start) + DecodeText(old(d.text) + part, d.l)
  {
    hide DecodeText;
    var blocked := d.Put2(part, end);
    while blocked
      invariant d.Valid() && (blocked <==> d.continueAt != 0)
      invariant blocked ==> d.begin == part && d.end == end && d.start == old(d.start) && d.Pending() == old(d.text) + part
      invariant !blocked && !end ==> d.start == old(d.start) && d.text == old(d.text) + part
      invariant !blocked && end ==> d.text == [] && d.start == d.sink.output == old(d.start) + DecodeText(old(d.text) + part, d.l)
      decreases |d.sink.script|, blocked
    {
      blocked := d.Put2(part, end);
    }
  }

  method DecodeMessage(d: BaseNDecoder, parts: seq<seq<byte>>)
    requires d.Valid() && d.continueAt == 0 && d.text == []
    modifies d, d.outBuf, d.sink
    ensures d.Valid() && d.continueAt == 0 && d.text == []
    ensures d.sink.output == old(d.start) + DecodeText(Concat(parts), d.l)
  {
    hide DecodeText;
    for i := 0 to |parts|
      invariant d.Valid() && d.continueAt == 0 && d.start == old(d.start) && d.text == Concat(parts[..i])
    {
      ConcatUpTo(parts, i);
      DecodePart(d, parts[i], false);
    }
    assert parts[..|parts|] == parts && Concat(parts) + [] == Concat(parts);
    DecodePart(d, [], true);
  }

  method GroupPart(g: Grouper, part: seq<byte>, end: bool)
    requires g.Valid() && g.continueAt == 0
    modifies g, g.sink
    ensures g.Valid() && g.continueAt == 0
    ensures !end ==> g.start == old(g.start) && g.text == old(g.text) + part
    ensures end ==> g.text == []
    ensures end ==> g.start == g.sink.output == old(g.start) + (GroupBody(old(g.text) + part, g.groupSize, g.separator) + g.terminator)
  {
    hide GroupBody;
    var blocked := g.Put2(part, end);
    while blocked
      invariant g.Valid() && (blocked <==> g.continueAt != 0)
      invariant blocked ==> g.begin == part && g.end == end
      invariant blocked || !end ==> g.start == old(g.start) && g.text == old(g.text) + part
      invariant !blocked && end ==> g.text == []
      invariant !blocked && end ==> g.start == g.sink.output == old(g.start) + (GroupBody(old(g.text) + part, g.groupSize, g.separator) + g.terminator)
      decreases |g.sink.script|, blocked
    {
      blocked := g.Put2(part, end);
    }
  }

  method GroupMessage(g: Grouper, parts: seq<seq<byte>>)
    requires g.Valid() && g.continueAt == 0 && g.text == []
    modifies g, g.sink
    ensures g.Valid() && g.continueAt == 0 && g.text == []
    ensures g.sink.output == old(g.start) + (GroupBody(Concat(parts), g.groupSize, g.separator) + g.terminator)
  {
    hide GroupBody;
    for i := 0 to |parts|
      invariant g.Valid() && g.continueAt == 0 && g.start == old(g.start) && g.text == Concat(parts[..i])
    {
      ConcatUpTo(parts, i);
      GroupPart(g, parts[i], false);
    }
    assert parts[..|parts|] == parts && Concat(parts) + [] == Concat(parts);
    GroupPart(g, [], true);
  }

  // ---- Decoding undoes encoding -------------------------------------------------------------------

  lemma {:induction false} ValuesAppend(a: seq<byte>, b: seq<byte>, table: seq<int>)
    requires |table| == 256
    ensures Values(a + b, table) == Values(a, table) + Values(b, table)
  {
    if b == [] {
      assert a + b == a;
    } else {
      var n := |b| - 1;
      ValuesAppend(a, b[..n], table);
      ValuesSnoc(a + b[..n], b[n], table);
      ValuesSnoc(b[..n], b[n], table);
      assert a + b == (a + b[..n]) + [b[n]] && b == b[..n] + [b[n]];
    }
  }

  /** Characters that are passed over. */
  ghost predicate Skipped(s: seq<byte>, table: seq<int>)
    requires |table| == 256
  {
    forall i :: 0 <= i < |s| ==> table[s[i]] < 0
  }

  lemma {:induction false} ValuesSkipped(s: seq<byte>, table: seq<int>)
    requires |table| == 256 && Skipped(s, table)
    ensures Values(s, table) == []
  {
    if s != [] { ValuesSkipped(s[..|s| - 1], table); }
  }

  /** The table reads every letter of the alphabet as its digit. */
  ghost predicate Inverts(l: Lookup, a: Alphabet)
    requires |l.table| == 256
  {
    && l.bitsPerChar == a.bitsPerChar
    && forall d :: 0 <= d < Pow2(a.bitsPerChar) ==> l.table[Letter(a.letters, d)] == d
  }

  lemma {:induction false} ValuesOfLetters(ds: seq<nat>, l: Lookup, a: Alphabet)
    requires |l.table| == 256 && Inverts(l, a) && Below(ds, Pow2(a.bitsPerChar))
    ensures Values(Letters(a.letters, ds), l.table) == ds
  {
    if ds != [] {
      var n := |ds| - 1;
      ValuesOfLetters(ds[..n], l, a);
      var t := Letters(a.letters, ds);
      assert t[..n] == Letters(a.letters, ds[..n]);
      assert t == t[..n] + [t[n]];
      ValuesSnoc(t[..n], t[n], l.table);
      assert ds == ds[..n] + [ds[n]];
    }
  }

  /** Separators that are passed over do not change the digits. */
  lemma {:induction false} ValuesGrouped(s: seq<byte>, size: nat, separator: seq<byte>, c: nat, table: seq<int>)
    requires size >= 1 && |table| == 256 && Skipped(separator, table)
    ensures Values(Grouped(s, size, separator, c), table) == Values(s, table)
    decreases |s|, c
  {
    if s != [] {
      if c >= size {
        ValuesGrouped(s, size, separator, 0, table);
        ValuesAppend(separator, Grouped(s, size, separator, 0), table);
        ValuesSkipped(separator, table);
      } else {
        ValuesGrouped(s[1..], size, separator, c + 1, table);
        ValuesAppend([s[0]], Grouped(s[1..], size, separator, c + 1), table);
        ValuesAppend([s[0]], s[1..], table);
        assert s == [s[0]] + s[1..];
      }
    }
  }

  /** The digits of an encoding, grouped or not, are the digits of the message. */
  lemma EncodedDigits(m: seq<byte>, a: Alphabet, l: Lookup, size: nat, separator: seq<byte>, terminator: seq<byte>)
    requires a.Valid() && l.Valid() && Inverts(l, a)
    requires Skipped(separator, l.table) && Skipped(terminator, l.table)
    requires a.padding != -1 ==> l.table[a.padding] < 0
    ensures Values(GroupBody(EncodeText(m, a), size, separator) + terminator, l.table) == Digits(m, a.bitsPerChar)
  {
    var text := EncodeText(m, a);
    var ds := Digits(m, a.bitsPerChar);
    var padding := if a.padding == -1 then [] else Repeat(a.padding, Missing(|ds|, a.blockSize));
    var _ := PaddedSpells(Spell(m, 8), a.bitsPerChar);
    assert text == Letters(a.letters, ds) + padding;
    ValuesOfLetters(ds, l, a);
    ValuesAppend(Letters(a.letters, ds), padding, l.table);
    ValuesSkipped(padding, l.table);
    if size >= 1 { ValuesGrouped(text, size, separator, 0, l.table); }
    ValuesAppend(GroupBody(text, size, separator), terminator, l.table);
    ValuesSkipped(terminator, l.table);
    hide Values, EncodeText, Digits, Letters;
    assert ds + [] == ds;
  }

  /** Decoding recovers the message, for every width of digit, with or without padding, separators and terminator. */
  lemma DecodeEncode(m: seq<byte>, a: Alphabet, l: Lookup, size: nat, separator: seq<byte>, terminator: seq<byte>)
    requires a.Valid() && l.Valid() && Inverts(l, a)
    requires Skipped(separator, l.table) && Skipped(terminator, l.table)
    requires a.padding != -1 ==> l.table[a.padding] < 0
    ensures DecodeText(GroupBody(EncodeText(m, a), size, separator) + terminator, l) == m
  {
    EncodedDigits(m, a, l, size, separator, terminator);
    Pow2Values();
    hide Values, EncodeText, Spell, Whole, Padded, Pow2;
    RegroupRoundTrip(m, 8, a.bitsPerChar);
  }

  /** A table from InitializeDecodingLookupArray inverts its alphabet and passes over everything else. */
  lemma TableInverts(l: Lookup, a: Alphabet, caseInsensitive: bool)
    requires a.Valid() && |l.table| == 256 && l.bitsPerChar == a.bitsPerChar
    requires Injective(a.letters, Pow2(a.bitsPerChar), caseInsensitive)
    requires forall c: byte :: Entry(a.letters, Pow2(a.bitsPerChar), caseInsensitive, c, l.table[c])
    ensures Inverts(l, a)
    ensures forall c: byte :: l.table[c] < 0 <==> (forall i :: 0 <= i < Pow2(a.bitsPerChar) ==> !Matches(a.letters[i], c, caseInsensitive))
  {
    var base := Pow2(a.bitsPerChar);
    forall d | 0 <= d < base
      ensures l.table[Letter(a.letters, d)] == d
    {
      var c := a.letters[d];
      assert Matches(a.letters[d], c, caseInsensitive);
      assert Entry(a.letters, base, caseInsensitive, c, l.table[c]);
    }
  }
}
