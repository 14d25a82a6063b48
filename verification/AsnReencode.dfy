/** DERReencode of asn.cpp, with the decoder and encoder objects it works through (sections 8.1.3 and 8.1.5 of ITU-T X.690). */
module AsnReencode {
  import opened Bytes
  import opened AsnLength
  import opened Sequences

  // ---- Elements ---------------------------------------------------------------------------

  /** A BER element as it is written down; the length octets of a definite one need not be minimal. */
  datatype Element = Primitive(tag: byte, lengthOctets: seq<byte>, content: seq<byte>)
                   | Nested(tag: byte, children: seq<Element>)

  predicate Constructed(tag: byte) {
    tag / 0x20 % 2 == 1
  }

  /** Bit 6 of an identifier octet (section 8.1.2 of ITU-T X.690), below the class and above the number. */
  lemma ConstructedBit(tagClass: nat, bit: nat, number: nat)
    requires tagClass < 4 && bit < 2 && number < 32
    ensures Constructed(64 * tagClass + 32 * bit + number) <==> bit == 1
  {
    assert (64 * tagClass + 32 * bit + number) / 32 == 2 * tagClass + bit;
  }

  ghost predicate WellFormed(e: Element) {
    match e
    case Primitive(_, octets, content) => DecodeLength(octets) == (Definite(|content|), |octets|)
    case Nested(tag, children) => Constructed(tag) && WellFormedAll(children)
  }

  /** Children are well formed, and none of them reads as the end-of-contents octets. */
  ghost predicate WellFormedAll(es: seq<Element>) {
    es == [] || (WellFormed(es[0]) && !LooksLikeEnd(es[0]) && WellFormedAll(es[1..]))
  }

  predicate LooksLikeEnd(e: Element) {
    e.Primitive? && e.tag == 0 && e.lengthOctets != [] && e.lengthOctets[0] == 0
  }

  function Encode(e: Element): seq<byte> {
    match e
    case Primitive(tag, octets, content) => [tag] + octets + content
    case Nested(tag, children) => [tag, 0x80] + EncodeAll(children) + [0, 0]
  }

  function EncodeAll(es: seq<Element>): seq<byte> {
    if es == [] then [] else Encode(es[0]) + EncodeAll(es[1..])
  }

  /** The same element with definite, minimal lengths on every level that was indefinite. */
  function Der(e: Element): seq<byte> {
    match e
    case Primitive(tag, _, content) => [tag] + LengthOctets(|content|) + content
    case Nested(tag, children) => [tag] + LengthOctets(|DerAll(children)|) + DerAll(children)
  }

  function DerAll(es: seq<Element>): seq<byte> {
    if es == [] then [] else Der(es[0]) + DerAll(es[1..])
  }

  // ---- The re-encoder on byte strings -----------------------------------------------------------

  /** What is emitted and how many octets are consumed, whether it ends well or in an exception. */
  datatype Outcome = Fail(out: seq<byte>, used: nat) | Done(out: seq<byte>, used: nat)

  lemma LengthOctetsFew(n: nat)
    requires n < LWORD_SIZE
    ensures |LengthOctets(n)| <= 9
  {
    LwordBytes(n);
  }

  /** n octets, or a failure with as many as there are. */
  function TakeExactly(s: seq<byte>, n: nat): (r: Outcome)
    ensures r.used <= |s| && |r.out| == r.used
  {
    if n <= |s| then Done(s[..n], n) else Fail(s, |s|)
  }

  /** The definite-length element around some content, which is found behind a header. */
  function Assemble(tag: byte, content: Outcome, header: nat): Outcome {
    var o := [tag] + LengthOctets(|content.out|) + content.out;
    if content.Done? then Done(o, header + content.used) else Fail(o, header + content.used)
  }

  /** A decoder of indefinite length that is left by an exception still takes two of n octets for the end of contents. */
  function Abandoned(content: Outcome, n: nat): (r: Outcome)
    requires content.used <= n
    ensures r.used <= n && content.used <= r.used && r.out == content.out
  {
    if content.Done? then content else Fail(content.out, content.used + Min(2, n - content.used))
  }

  /** The element at the front of s. */
  function Reencode(s: seq<byte>): (r: Outcome)
    ensures r.used <= |s| && (r.Done? ==> r.used >= 2)
    decreases |s|, 0
  {
    if s == [] then Fail([], 0)
    else
      LengthUses(s[1..]);
      var (l, u) := DecodeLength(s[1..]);
      if Opens(l, s[0]) then Assemble(s[0], ContentOutcome(l, s[1 + u..]), 1 + u) else Fail([], 1 + u)
  }

  /** The length and the tag go together: only constructed elements are of indefinite length. */
  predicate Opens(l: LengthResult, tag: byte) {
    l.Definite? || (l.Indefinite? && Constructed(tag))
  }

  /** What becomes of the content of an element with the given length. */
  function ContentOutcome(l: LengthResult, v: seq<byte>): (r: Outcome)
    ensures r.used <= |v|
    decreases |v|, 2
  {
    if l.Definite? then TakeExactly(v, l.length) else Abandoned(ReencodeAll(v), |v|)
  }

  lemma UnfoldReencode(s: seq<byte>)
    requires s != []
    ensures var (l, u) := DecodeLength(s[1..]);
            && u < |s| && (Opens(l, s[0]) ==> u >= 1)
            && Reencode(s) == if Opens(l, s[0]) then Assemble(s[0], ContentOutcome(l, s[1 + u..]), 1 + u) else Fail([], 1 + u)
  {
    LengthUses(s[1..]);
    LengthShort(s[1..]);
    hide DecodeLength, ContentOutcome, Assemble;
  }

  predicate EndAhead(s: seq<byte>) {
    |s| >= 2 && s[0] == 0 && s[1] == 0
  }

  /** One outcome after another. */
  function Then(first: Outcome, second: Outcome): Outcome {
    if second.Done? then Done(first.out + second.out, first.used + second.used)
    else Fail(first.out + second.out, first.used + second.used)
  }

  /** The elements at the front of s up to and including the end-of-contents octets. */
  function ReencodeAll(s: seq<byte>): (r: Outcome)
    ensures r.used <= |s| && (r.Done? ==> r.used >= 2)
    decreases |s|, 1
  {
    if EndAhead(s) then Done([], 2)
    else
      var r := Reencode(s);
      if r.Fail? then r else Then(r, ReencodeAll(s[r.used..]))
  }

  /** Each level adds at most ten octets and replaces at least two. */
  lemma {:induction false} OutputBound(s: seq<byte>)
    requires 5 * |s| < LWORD_SIZE
    ensures |Reencode(s).out| <= 5 * Reencode(s).used
    decreases |s|, 0
  {
    if s != [] {
      hide *;
      UnfoldReencode(s);
      var (l, u) := DecodeLength(s[1..]);
      if Opens(l, s[0]) {
        ContentOutcomeBound(l, s[1 + u..]);
        AssembleBound(s[0], ContentOutcome(l, s[1 + u..]), 1 + u);
      }
    }
  }

  lemma {:induction false} ContentOutcomeBound(l: LengthResult, v: seq<byte>)
    requires 5 * |v| < LWORD_SIZE
    ensures |ContentOutcome(l, v).out| <= 5 * ContentOutcome(l, v).used && |ContentOutcome(l, v).out| < LWORD_SIZE
    decreases |v|, 2
  {
    hide ReencodeAll;
    OutputBoundAll(v);
  }

  lemma AssembleBound(tag: byte, content: Outcome, header: nat)
    requires header >= 2 && |content.out| <= 5 * content.used && |content.out| < LWORD_SIZE
    ensures |Assemble(tag, content, header).out| <= 5 * Assemble(tag, content, header).used
  {
    LengthOctetsFew(|content.out|);
    hide LengthOctets;
  }

  lemma {:induction false} OutputBoundAll(s: seq<byte>)
    requires 5 * |s| < LWORD_SIZE
    ensures |ReencodeAll(s).out| <= 5 * ReencodeAll(s).used
    decreases |s|, 1
  {
    if !EndAhead(s) {
      OutputBound(s);
      if Reencode(s).Done? { OutputBoundAll(s[Reencode(s).used..]); }
      hide Reencode;
    }
  }

  // ---- The streams --------------------------------------------------------------------------------

  /**
   * The input as the innermost decoder sees it: the bytes of the bottom queue, and m_length of every
   * enclosing decoder of definite length. A decoder of indefinite length only passes requests on.
   */
  class Source {
    var data: seq<byte>
    var limits: seq<nat>

    constructor (data: seq<byte>, limits: seq<nat>)
      ensures this.data == data && this.limits == limits
    {
      this.data, this.limits := data, limits;
    }

    /** The bytes that can be read. */
    function View(): (v: seq<byte>)
      reads this
      ensures v <= data
    {
      data[..Clip(limits, |data|)]
    }

    /** The next bytes, up to n of them, without taking them. */
    method Peek(n: nat) returns (s: seq<byte>)
      ensures s == View()[..Min(n, |View()|)]
    {
      var k := n;
      for i := 0 to |limits|
        invariant k == Clip(limits[..i], n)
      {
        assert limits[..i + 1][..i] == limits[..i];
        k := Min(k, limits[i]);
      }
      assert limits[..|limits|] == limits;
      ClipMin(limits, n, |data|);
      s := data[..Min(k, |data|)];
    }

    /** TransferTo2: take up to n bytes, each charged to every enclosing decoder. */
    method Transfer(n: nat) returns (s: seq<byte>)
      modifies this
      ensures s == old(View())[..Min(n, |old(View())|)]
      ensures Consumed(old(data), old(limits), |s|)
    {
      s := Peek(n);
      ClipBelow(limits, |data|);
      var before := limits;
      limits := seq(|before|, i requires 0 <= i < |before| => Charge(before[i], |s|));
      data := data[|s|..];
    }

    /** n bytes have been taken from the queue, and the decoders have been charged for n bytes. */
    ghost predicate Consumed(before: seq<byte>, allowed: seq<nat>, n: nat)
      reads this
    {
      n <= |before| && data == before[n..] && Charged(allowed, limits, n)
    }
  }

  ghost predicate Charged(allowed: seq<nat>, left: seq<nat>, n: nat) {
    |left| == |allowed| && forall i :: 0 <= i < |allowed| ==> allowed[i] == left[i] + n
  }

  /** ReduceLength, which is never asked for more than is left. */
  function Charge(limit: nat, n: nat): nat {
    if n <= limit then limit - n else 0
  }

  /** The least of n and the limits. */
  function Clip(limits: seq<nat>, n: nat): (r: nat)
    ensures r <= n
  {
    if limits == [] then n else Min(Clip(limits[..|limits| - 1], n), limits[|limits| - 1])
  }

  lemma {:induction false} ClipMin(limits: seq<nat>, n: nat, m: nat)
    ensures Min(Clip(limits, n), m) == Min(n, Clip(limits, m))
  {
    if limits != [] { ClipMin(limits[..|limits| - 1], n, m); }
  }

  lemma {:induction false} ClipBelow(limits: seq<nat>, n: nat)
    ensures forall i :: 0 <= i < |limits| ==> Clip(limits, n) <= limits[i]
  {
    if limits != [] {
      var front := limits[..|limits| - 1];
      ClipBelow(front, n);
      forall i | 0 <= i < |limits| - 1 ensures Clip(limits, n) <= limits[i] {
        assert front[i] == limits[i];
      }
    }
  }

  lemma {:induction false} ClipShift(limits: seq<nat>, shifted: seq<nat>, n: nat, k: nat)
    requires |limits| == |shifted| && k <= n && forall i :: 0 <= i < |limits| ==> limits[i] == shifted[i] + k
    ensures Clip(limits, n) == Clip(shifted, n - k) + k
  {
    if limits != [] {
      ClipShift(limits[..|limits| - 1], shifted[..|limits| - 1], n, k);
    }
  }

  /** What can be read after n of the readable bytes are consumed. */
  lemma ViewAfter(source: Source, before: seq<byte>, allowed: seq<nat>, n: nat)
    requires source.Consumed(before, allowed, n)
    ensures n <= Clip(allowed, |before|) && source.View() == before[..Clip(allowed, |before|)][n..]
  {
    ClipShift(allowed, source.limits, |before|, n);
  }

  /** Two stretches of consumption are one. */
  lemma ConsumedTwice(source: Source, before: seq<byte>, allowed: seq<nat>, n: nat,
                      between: seq<byte>, left: seq<nat>, k: nat)
    requires n <= |before| && between == before[n..] && Charged(allowed, left, n)
    requires source.Consumed(between, left, k)
    ensures source.Consumed(before, allowed, n + k)
  {
    assert before[n..][k..] == before[n + k..];
  }

  // ---- BERGeneralDecoder and DERReencode --------------------------------------------------------

  /** BERLengthDecode on what the enclosing decoders let through. */
  method ReadLength(source: Source) returns (l: LengthResult)
    modifies source
    ensures var (r, u) := DecodeLength(old(source.View())); l == r && source.Consumed(old(source.data), old(source.limits), u)
  {
    var queue := new ByteQueue(source.View());
    l := BERLengthDecode(queue);
    var n := |source.View()| - |queue.data|;
    var _ := source.Transfer(n);
  }

  /** Init: the tag, the length, and the check that only constructed elements are of indefinite length. */
  method OpenDecoder(source: Source, tag: byte) returns (l: LengthResult)
    modifies source
    ensures var v := old(source.View());
            if v == [] then l == Truncated && source.Consumed(old(source.data), old(source.limits), 0)
            else v[0] == tag ==>
              var (r, u) := DecodeLength(v[1..]);
              && source.Consumed(old(source.data), old(source.limits), 1 + u)
              && (if Opens(r, tag) then l == r else !l.Definite? && !l.Indefinite?)
  {
    ghost var data, limits := source.data, source.limits;
    var b := source.Transfer(1);
    if b == [] || b[0] != tag { return Truncated; }
    ViewAfter(source, data, limits, 1);
    ghost var data1, limits1 := source.data, source.limits;
    l := ReadLength(source);
    ConsumedTwice(source, data, limits, 1, data1, limits1, DecodeLength(old(source.View())[1..]).1);
    if l.Indefinite? && !Constructed(tag) { return Truncated; }
  }

  /** MessageEnd of the encoder: the tag, the length and the collected content go to the outer queue. */
  method CloseEncoder(dest: ByteQueue, tag: byte, content: seq<byte>)
    requires |content| < LWORD_SIZE
    modifies dest
    ensures dest.data == old(dest.data) + ([tag] + LengthOctets(|content|) + content)
  {
    hide LengthOctets;
    dest.Put(tag);
    var _ := DERLengthEncode(dest, |content|);
    dest.PutAll(content);
  }

  lemma ContentBound(v: seq<byte>)
    requires 5 * |v| < LWORD_SIZE
    ensures |ReencodeAll(v).out| < LWORD_SIZE
  {
    OutputBoundAll(v);
  }

  /** What a call has done: the outcome o of what could be read. */
  ghost predicate Achieved(o: Outcome, ok: bool, source: Source, data: seq<byte>, limits: seq<nat>, emitted: seq<byte>, dest: seq<byte>)
    reads source
  {
    ok == o.Done? && emitted == dest + o.out && source.Consumed(data, limits, o.used)
  }

  /** The exceptions of the source are the result false; what the destructors do then is done here. */
  method DERReencode(source: Source, dest: ByteQueue) returns (ok: bool)
    requires 5 * |source.data| < LWORD_SIZE
    modifies source, dest
    ensures Achieved(Reencode(old(source.View())), ok, source, old(source.data), old(source.limits), dest.data, old(dest.data))
    decreases |source.data|, 0
  {
    ghost var data, limits, view := source.data, source.limits, source.View();
    hide LengthOctets, DecodeLength, Reencode, ReencodeAll, Constructed, Clip, Charged, ContentOutcome, Assemble, Opens;
    var peeked := source.Peek(1);
    var tag: byte := if peeked == [] then 0 else peeked[0];
    if view != [] { UnfoldReencode(view); } else { NothingToRead(); }
    var l := OpenDecoder(source, tag);
    OpensShape(l, tag);
    assert dest.data + [] == dest.data;
    if !l.Definite? && !l.Indefinite? { return false; }
    hide Achieved;
    ok := ReencodeOpened(source, dest, tag, l, data, limits, 1 + DecodeLength(view[1..]).1);
  }

  /** The rest of DERReencode, once the first n octets have been read as tag and length. */
  method ReencodeOpened(source: Source, dest: ByteQueue, tag: byte, l: LengthResult,
                        ghost data: seq<byte>, ghost limits: seq<nat>, ghost n: nat) returns (ok: bool)
    requires 5 * |source.data| < LWORD_SIZE && (l.Definite? || l.Indefinite?) && source.Consumed(data, limits, n)
    modifies source, dest
    ensures n <= Clip(limits, |data|) <= |data|
    ensures Achieved(Assemble(tag, ContentOutcome(l, data[..Clip(limits, |data|)][n..]), n), ok, source, data, limits,
                     dest.data, old(dest.data))
    decreases |source.data|, 4
  {
    ViewAfter(source, data, limits, n);
    ghost var data1, limits1 := source.data, source.limits;
    hide LengthOctets, ReencodeAll, Clip, Charged, ContentOutcome, Assemble, Achieved;
    ghost var inner := ContentOutcome(l, source.View());
    var encoder := new ByteQueue([]);
    ok := ReencodeContent(source, encoder, l);
    CloseEncoder(dest, tag, encoder.data);
    AchievedWraps(inner, tag, ok, source, data, limits, n, data1, limits1, encoder.data, dest.data, old(dest.data));
  }

  lemma NothingToRead()
    ensures Reencode([]) == Fail([], 0)
  {}

  lemma OpensShape(l: LengthResult, tag: byte)
    ensures Opens(l, tag) ==> l.Definite? || l.Indefinite?
  {}

  lemma AchievedWraps(inner: Outcome, tag: byte, ok: bool, source: Source, data: seq<byte>, limits: seq<nat>, n: nat,
                      data1: seq<byte>, limits1: seq<nat>, content: seq<byte>, emitted: seq<byte>, dest: seq<byte>)
    requires n <= |data| && data1 == data[n..] && Charged(limits, limits1, n)
    requires Achieved(inner, ok, source, data1, limits1, content, [])
    requires emitted == dest + ([tag] + LengthOctets(|content|) + content)
    ensures Achieved(Assemble(tag, inner, n), ok, source, data, limits, emitted, dest)
  {
    hide LengthOctets;
    ConsumedTwice(source, data, limits, n, data1, limits1, inner.used);
    assert content == inner.out;
  }

  /** The content goes to the encoder: as it is, or child by child; then the decoder is finished, or abandoned. */
  method ReencodeContent(source: Source, encoder: ByteQueue, l: LengthResult) returns (ok: bool)
    requires 5 * |source.data| < LWORD_SIZE && encoder.data == []
    requires l.Definite? || l.Indefinite?
    modifies source, encoder
    ensures Achieved(ContentOutcome(l, old(source.View())), ok, source, old(source.data), old(source.limits), encoder.data, [])
    ensures |encoder.data| < LWORD_SIZE
    decreases |source.data|, 3
  {
    hide Clip, ReencodeAll, Charged;
    ghost var data, limits, view := source.data, source.limits, source.View();
    if l.Definite? {
      var content := source.Transfer(l.length);
      encoder.PutAll(content);
      ok := |content| == l.length;
    } else {
      ContentBound(view);
      ok := ReencodeChildren(source, encoder);
      if !ok {
        ghost var k := ReencodeAll(view).used;
        ViewAfter(source, data, limits, k);
        ghost var data1, limits1 := source.data, source.limits;
        var _ := source.Transfer(2);
        ConsumedTwice(source, data, limits, k, data1, limits1, Min(2, |view| - k));
      }
    }
  }

  /** While elements are taken off the front: what is left would complete the outcome of the whole. */
  ghost predicate Completes(goal: Outcome, n: nat, emitted: seq<byte>, rest: Outcome, start: seq<byte>) {
    goal.Done? == rest.Done? && goal.used == n + rest.used && emitted + rest.out == start + goal.out
  }

  lemma CompletesStep(goal: Outcome, n: nat, emitted: seq<byte>, v: seq<byte>, start: seq<byte>)
    requires !EndAhead(v) && Completes(goal, n, emitted, ReencodeAll(v), start)
    ensures Reencode(v).Fail? ==> goal.Fail? && goal.used == n + Reencode(v).used && emitted + Reencode(v).out == start + goal.out
    ensures Reencode(v).Done? ==>
              var k := Reencode(v).used; Completes(goal, n + k, emitted + Reencode(v).out, ReencodeAll(v[k..]), start)
  {
    hide Reencode;
    if Reencode(v).Done? {
      AppendAssociative(emitted, Reencode(v).out, ReencodeAll(v[Reencode(v).used..]).out);
    }
  }

  lemma CompletesEnd(goal: Outcome, n: nat, emitted: seq<byte>, v: seq<byte>, start: seq<byte>)
    requires EndAhead(v) && Completes(goal, n, emitted, ReencodeAll(v), start)
    ensures goal.Done? && goal.used == n + 2 && emitted == start + goal.out
  {
    assert emitted + [] == emitted;
  }

  /** The state of the loop over the children, with n octets consumed. */
  ghost predicate Underway(source: Source, data: seq<byte>, limits: seq<nat>, view: seq<byte>, n: nat,
                           emitted: seq<byte>, start: seq<byte>)
    reads source
  {
    && n <= |view| && source.Consumed(data, limits, n) && source.View() == view[n..]
    && Completes(ReencodeAll(view), n, emitted, ReencodeAll(view[n..]), start)
  }

  lemma UnderwayStart(source: Source, start: seq<byte>)
    ensures Underway(source, source.data, source.limits, source.View(), 0, start, start)
  {
    assert source.View()[0..] == source.View();
  }

  lemma UnderwayStep(source: Source, data: seq<byte>, limits: seq<nat>, view: seq<byte>, n: nat,
                     data1: seq<byte>, limits1: seq<nat>, emitted: seq<byte>, start: seq<byte>)
    requires view == data[..Clip(limits, |data|)] && n <= |view|
    requires n <= |data| && data1 == data[n..] && Charged(limits, limits1, n)
    requires !EndAhead(view[n..]) && Completes(ReencodeAll(view), n, emitted, ReencodeAll(view[n..]), start)
    requires source.Consumed(data1, limits1, Reencode(view[n..]).used)
    ensures var r := Reencode(view[n..]);
            && (r.Done? ==> Underway(source, data, limits, view, n + r.used, emitted + r.out, start))
            && (r.Fail? ==> Achieved(ReencodeAll(view), false, source, data, limits, emitted + r.out, start))
  {
    hide *;
    var r := Reencode(view[n..]);
    ViewStep(source, data, limits, view, n, data1, limits1, r.used);
    CompletesStep(ReencodeAll(view), n, emitted, view[n..], start);
    if r.Done? {
      StillUnderway(source, data, limits, view, n + r.used, emitted + r.out, start);
    } else {
      FailedUnderway(source, data, limits, view, n + r.used, emitted + r.out, start);
    }
  }

  lemma StillUnderway(source: Source, data: seq<byte>, limits: seq<nat>, view: seq<byte>, n: nat, emitted: seq<byte>, start: seq<byte>)
    requires n <= |view| && source.Consumed(data, limits, n) && source.View() == view[n..]
    requires Completes(ReencodeAll(view), n, emitted, ReencodeAll(view[n..]), start)
    ensures Underway(source, data, limits, view, n, emitted, start)
  {}

  lemma FailedUnderway(source: Source, data: seq<byte>, limits: seq<nat>, view: seq<byte>, n: nat, emitted: seq<byte>, start: seq<byte>)
    requires var goal := ReencodeAll(view); goal.Fail? && goal.used == n && emitted == start + goal.out
    requires source.Consumed(data, limits, n)
    ensures Achieved(ReencodeAll(view), false, source, data, limits, emitted, start)
  {
    hide ReencodeAll;
  }

  lemma ViewStep(source: Source, data: seq<byte>, limits: seq<nat>, view: seq<byte>, n: nat,
                 data1: seq<byte>, limits1: seq<nat>, k: nat)
    requires view == data[..Clip(limits, |data|)] && n <= |data| && data1 == data[n..] && Charged(limits, limits1, n)
    requires source.Consumed(data1, limits1, k)
    ensures n + k <= |view| && source.Consumed(data, limits, n + k)
    ensures source.View() == view[n + k..] && view[n..][k..] == view[n + k..]
  {
    hide Charged, Clip;
    ConsumedTwice(source, data, limits, n, data1, limits1, k);
    ViewAfter(source, data, limits, n + k);
  }

  lemma UnderwayEnd(source: Source, data: seq<byte>, limits: seq<nat>, view: seq<byte>, n: nat,
                    data1: seq<byte>, limits1: seq<nat>, emitted: seq<byte>, start: seq<byte>)
    requires n <= |view| && n <= |data| && data1 == data[n..] && Charged(limits, limits1, n)
    requires EndAhead(view[n..]) && Completes(ReencodeAll(view), n, emitted, ReencodeAll(view[n..]), start)
    requires source.Consumed(data1, limits1, 2)
    ensures Achieved(ReencodeAll(view), true, source, data, limits, emitted, start)
  {
    hide ReencodeAll, Completes, Charged;
    CompletesEnd(ReencodeAll(view), n, emitted, view[n..], start);
    ConsumedTwice(source, data, limits, n, data1, limits1, 2);
  }

  /** The loop over the children, and the removal of the end-of-contents octets. */
  method ReencodeChildren(source: Source, encoder: ByteQueue) returns (ok: bool)
    requires 5 * |source.data| < LWORD_SIZE
    modifies source, encoder
    ensures Achieved(ReencodeAll(old(source.View())), ok, source, old(source.data), old(source.limits), encoder.data, old(encoder.data))
    decreases |source.data|, 2
  {
    ghost var data, limits, view, start := source.data, source.limits, source.View(), encoder.data;
    ghost var n: nat := 0;
    hide Clip, Reencode, ReencodeAll, Charged, Completes, EndAhead, Underway, Achieved;
    UnderwayStart(source, start);
    UnderwayView(source, data, limits, view, n, start, start);
    var done := EndReached(source);
    while !done
      invariant |source.data| <= |data| && n <= |view|
      invariant Underway(source, data, limits, view, n, encoder.data, start)
      invariant done == EndAhead(view[n..])
      decreases |source.data|
    {
      ghost var k;
      ok, k := ReencodeChild(source, encoder, data, limits, view, n, start);
      if !ok { return false; }
      n := n + k;
      UnderwayView(source, data, limits, view, n, encoder.data, start);
      done := EndReached(source);
    }
    UnderwayView(source, data, limits, view, n, encoder.data, start);
    ghost var data1, limits1 := source.data, source.limits;
    ok := RemoveEnd(source);
    UnderwayEnd(source, data, limits, view, n, data1, limits1, encoder.data, start);
  }

  lemma UnderwayView(source: Source, data: seq<byte>, limits: seq<nat>, view: seq<byte>, n: nat, emitted: seq<byte>, start: seq<byte>)
    requires Underway(source, data, limits, view, n, emitted, start)
    ensures n <= |view| && n <= |data| && source.View() == view[n..] && source.data == data[n..] && Charged(limits, source.limits, n)
    ensures Completes(ReencodeAll(view), n, emitted, ReencodeAll(view[n..]), start)
  {}

  /** One turn of the loop. */
  method ReencodeChild(source: Source, encoder: ByteQueue, ghost data: seq<byte>, ghost limits: seq<nat>, ghost view: seq<byte>,
                       ghost n: nat, ghost start: seq<byte>)
      returns (ok: bool, ghost k: nat)
    requires 5 * |source.data| < LWORD_SIZE
    requires Underway(source, data, limits, view, n, encoder.data, start) && !EndAhead(view[n..])
    requires view == data[..Clip(limits, |data|)]
    modifies source, encoder
    ensures !ok ==> Achieved(ReencodeAll(view), false, source, data, limits, encoder.data, start)
    ensures ok ==> Underway(source, data, limits, view, n + k, encoder.data, start) && |source.data| < |old(source.data)|
    decreases |source.data|, 1
  {
    hide Clip, Reencode, ReencodeAll, Charged, Completes, EndAhead;
    ghost var data1, limits1, emitted := source.data, source.limits, encoder.data;
    ok := DERReencode(source, encoder);
    UnderwayStep(source, data, limits, view, n, data1, limits1, emitted, start);
    k := Reencode(view[n..]).used;
  }

  /** EndReached of a decoder of indefinite length. */
  method EndReached(source: Source) returns (end: bool)
    ensures end == EndAhead(source.View())
  {
    hide Clip;
    var next := source.Peek(2);
    end := next == [0, 0];
  }

  /** MessageEnd of a decoder of indefinite length: the next two octets must be zero. */
  method RemoveEnd(source: Source) returns (ok: bool)
    modifies source
    ensures ok == EndAhead(old(source.View()))
    ensures ok ==> source.Consumed(old(source.data), old(source.limits), 2)
  {
    hide Clip, Charged;
    var next := source.Transfer(2);
    ok := next == [0, 0];
  }

  // ---- Elements and byte strings -------------------------------------------------------------------

  /** Length octets that are complete do not depend on what follows. */
  lemma {:induction false} LongFormPrefix(s: seq<byte>, rest: seq<byte>, k: nat, acc: nat)
    requires LongForm(s, k, acc).0.Definite?
    ensures LongForm(s + rest, k, acc) == LongForm(s, k, acc)
    decreases k
  {
    if k > 0 {
      assert (s + rest)[1..] == s[1..] + rest;
      LongFormPrefix(s[1..], rest, k - 1, 256 * acc + s[0]);
    }
  }

  lemma LengthPrefix(s: seq<byte>, rest: seq<byte>)
    requires DecodeLength(s).0.Definite?
    ensures DecodeLength(s + rest) == DecodeLength(s)
  {
    if s[0] > 0x80 {
      hide LongForm;
      assert (s + rest)[1..] == s[1..] + rest;
      LongFormPrefix(s[1..], rest, s[0] - 0x80, 0);
    }
  }

  lemma {:induction false} LongFormShort(s: seq<byte>, k: nat, acc: nat)
    requires LongForm(s, k, acc).0.Definite?
    ensures var u := LongForm(s, k, acc).1; u <= |s| && LongForm(s[..u], k, acc) == LongForm(s, k, acc)
    decreases k
  {
    if k > 0 {
      LongFormShort(s[1..], k - 1, 256 * acc + s[0]);
      var u := LongForm(s, k, acc).1;
      assert s[..u][1..] == s[1..][..u - 1];
    }
  }

  lemma {:induction false} LongFormNeverIndefinite(s: seq<byte>, k: nat, acc: nat)
    ensures !LongForm(s, k, acc).0.Indefinite?
    decreases k
  {
    if k > 0 && s != [] { LongFormNeverIndefinite(s[1..], k - 1, 256 * acc + s[0]); }
  }

  /** The octets that make up a length, on their own. */
  lemma LengthShort(s: seq<byte>)
    ensures var (l, u) := DecodeLength(s);
            && (l.Definite? ==> 1 <= u <= |s| && DecodeLength(s[..u]) == (l, u))
            && (l.Indefinite? ==> u == 1 && |s| >= 1 && s[0] == 0x80)
  {
    if s != [] && s[0] > 0x80 {
      hide LongForm;
      LongFormNeverIndefinite(s[1..], s[0] - 0x80, 0);
      if DecodeLength(s).0.Definite? {
        LongFormShort(s[1..], s[0] - 0x80, 0);
        var u := DecodeLength(s).1;
        assert s[..u][1..] == s[1..][..u - 1];
      }
    }
  }

  lemma ReencodePrimitive(tag: byte, octets: seq<byte>, content: seq<byte>, rest: seq<byte>)
    requires DecodeLength(octets) == (Definite(|content|), |octets|)
    ensures Reencode([tag] + octets + content + rest)
            == Done([tag] + LengthOctets(|content|) + content, 1 + |octets| + |content|)
  {
    var s := [tag] + octets + content + rest;
    assert s[1..] == octets + (content + rest);
    LengthPrefix(octets, content + rest);
    hide DecodeLength, LengthOctets;
    assert s[1 + |octets|..] == content + rest;
    assert (content + rest)[..|content|] == content;
  }

  /** An element with less content than its length says: what there is of it goes out, with its own length, and it fails. */
  lemma ShortContent(tag: byte, octets: seq<byte>, n: nat, content: seq<byte>)
    requires DecodeLength(octets) == (Definite(n), |octets|) && |content| < n
    ensures Reencode([tag] + octets + content)
            == Fail([tag] + LengthOctets(|content|) + content, 1 + |octets| + |content|)
  {
    hide *;
    var s := [tag] + octets + content;
    assert s[1..] == octets + content;
    LengthPrefix(octets, content);
    assert s[1 + |octets|..] == content;
    UnfoldReencode(s);
    ShortOutcome(tag, n, content, 1 + |octets|);
  }

  lemma ShortOutcome(tag: byte, n: nat, content: seq<byte>, header: nat)
    requires |content| < n
    ensures Opens(Definite(n), tag)
    ensures Assemble(tag, ContentOutcome(Definite(n), content), header)
            == Fail([tag] + LengthOctets(|content|) + content, header + |content|)
  {
    hide LengthOctets, ReencodeAll;
  }

  /**
   * A primitive element of indefinite length inside one that may be: an empty element goes out, and two octets more are
   * lost, if there are any, to the decoder that looks for its end.
   */
  lemma RefusedChild(s: seq<byte>)
    requires |s| >= 4 && s[1] == s[3] == 0x80 && Constructed(s[0]) && !Constructed(s[2])
    ensures Reencode(s) == Fail([s[0], 0], 4 + Min(2, |s| - 4))
  {
    hide *;
    var v := s[2..];
    IndefiniteAhead(v[1..]);
    IndefiniteAhead(s[1..]);
    UnfoldReencode(v);
    UnfoldReencode(s);
    NotOpened(v[0]);
    RefusedContent(s[0], v);
  }

  lemma IndefiniteAhead(s: seq<byte>)
    requires s != [] && s[0] == 0x80
    ensures DecodeLength(s) == (Indefinite, 1)
  {}

  lemma NotOpened(tag: byte)
    ensures Opens(Indefinite, tag) <==> Constructed(tag)
  {}

  lemma RefusedContent(tag: byte, v: seq<byte>)
    requires Constructed(tag) && |v| >= 2 && v[1] == 0x80 && Reencode(v) == Fail([], 2)
    ensures Opens(Indefinite, tag) && Assemble(tag, ContentOutcome(Indefinite, v), 2) == Fail([tag, 0], 4 + Min(2, |v| - 2))
  {
    hide Reencode;
    assert ReencodeAll(v) == Fail([], 2);
    assert LengthOctets(0) == [0];
  }

  lemma ReencodeNested(tag: byte, inner: seq<byte>, rest: seq<byte>, out: seq<byte>, n: nat)
    requires Constructed(tag) && ReencodeAll(inner + rest) == Done(out, n)
    ensures Reencode([tag, 0x80] + inner + rest) == Done([tag] + LengthOctets(|out|) + out, 2 + n)
  {
    hide LengthOctets, ReencodeAll;
    var s := [tag, 0x80] + inner + rest;
    assert s[2..] == inner + rest;
    assert DecodeLength(s[1..]) == (Indefinite, 1);
  }

  /** Every well-formed element, nested to any depth, is consumed exactly and turned into its DER form. */
  lemma {:induction false} ReencodeElement(e: Element, rest: seq<byte>)
    requires WellFormed(e)
    ensures Reencode(Encode(e) + rest) == Done(Der(e), |Encode(e)|)
    decreases e, 0
  {
    match e
    case Primitive(tag, octets, content) => ReencodePrimitive(tag, octets, content, rest);
    case Nested(tag, children) =>
      ReencodeElements(children, rest);
      hide ReencodeAll, Reencode, LengthOctets, EncodeAll, DerAll;
      var inner := EncodeAll(children) + [0, 0];
      assert Encode(e) + rest == [tag, 0x80] + inner + rest;
      ReencodeNested(tag, inner, rest, DerAll(children), |inner|);
  }

  lemma {:induction false} ReencodeElements(es: seq<Element>, rest: seq<byte>)
    requires WellFormedAll(es)
    ensures ReencodeAll(EncodeAll(es) + [0, 0] + rest) == Done(DerAll(es), |EncodeAll(es)| + 2)
    decreases es, 1
  {
    hide *;
    if es == [] {
      NoChildren(rest);
    } else {
      FirstChild(es);
      var more := EncodeAll(es[1..]) + [0, 0] + rest;
      ReencodeElement(es[0], more);
      ReencodeElements(es[1..], rest);
      NotTheEnd(es[0], more);
      assert EncodeAll(es) + [0, 0] + rest == Encode(es[0]) + more;
      ReencodeCons(Encode(es[0]), more);
    }
  }

  /** A SEQUENCE, SET or constructed OCTET STRING of indefinite length, with any content. */
  lemma UsualElements(tag: byte, es: seq<Element>, rest: seq<byte>)
    requires tag == 0x30 || tag == 0x31 || tag == 0x24
    requires WellFormedAll(es)
    ensures Reencode([tag, 0x80] + EncodeAll(es) + [0, 0] + rest)
         == Done([tag] + LengthOctets(|DerAll(es)|) + DerAll(es), |EncodeAll(es)| + 4)
  {
    hide WellFormedAll, Reencode, LengthOctets, EncodeAll, DerAll;
    assert Constructed(tag);
    ReencodeElement(Nested(tag, es), rest);
  }

  /** A SEQUENCE of one NULL: six octets become four. */
  lemma SequenceOfNull()
    ensures Reencode([0x30, 0x80, 0x05, 0x00, 0x00, 0x00]) == Done([0x30, 0x02, 0x05, 0x00], 6)
  {
    var nothing := Primitive(0x05, [0x00], []);
    assert DecodeLength([0x00]) == (Definite(0), 1);
    assert LengthOctets(0) == [0x00] && LengthOctets(2) == [0x02];
    assert [nothing][1..] == [] && WellFormedAll([]) && EncodeAll([]) == [] && DerAll([]) == [];
    assert Encode(nothing) == [0x05, 0x00] && Der(nothing) == [0x05, 0x00];
    assert WellFormedAll([nothing]) && EncodeAll([nothing]) == [0x05, 0x00] && DerAll([nothing]) == [0x05, 0x00];
    hide *;
    UsualElements(0x30, [nothing], []);
    assert [0x30, 0x80] + [0x05, 0x00] + [0, 0] + [] == [0x30, 0x80, 0x05, 0x00, 0x00, 0x00];
    assert [0x30] + [0x02] + [0x05, 0x00] == [0x30, 0x02, 0x05, 0x00];
  }

  lemma NoChildren(rest: seq<byte>)
    ensures EncodeAll([]) == [] && DerAll([]) == [] && WellFormedAll([])
    ensures ReencodeAll([] + [0, 0] + rest) == Done([], 2)
  {}

  lemma FirstChild(es: seq<Element>)
    requires es != []
    ensures EncodeAll(es) == Encode(es[0]) + EncodeAll(es[1..])
    ensures DerAll(es) == Der(es[0]) + DerAll(es[1..])
    ensures WellFormedAll(es) == (WellFormed(es[0]) && !LooksLikeEnd(es[0]) && WellFormedAll(es[1..]))
  {}

  lemma ReencodeCons(first: seq<byte>, more: seq<byte>)
    requires !EndAhead(first + more) && ReencodeAll(more).Done?
    requires Reencode(first + more).Done? && Reencode(first + more).used == |first|
    ensures var a, b := Reencode(first + more), ReencodeAll(more);
            ReencodeAll(first + more) == Done(a.out + b.out, a.used + b.used)
  {
    hide Reencode, EndAhead;
    assert (first + more)[|first|..] == more;
  }

  lemma NotTheEnd(e: Element, rest: seq<byte>)
    requires WellFormed(e) && !LooksLikeEnd(e)
    ensures !EndAhead(Encode(e) + rest)
  {
    if e.Primitive? {
      assert e.lengthOctets != [];
      assert (Encode(e) + rest)[1] == e.lengthOctets[0];
    }
  }

  /** Conversely, whatever is re-encoded is a well-formed element. */
  lemma {:induction false} Recognised(s: seq<byte>) returns (e: Element)
    requires Reencode(s).Done?
    ensures WellFormed(e) && Reencode(s).out == Der(e) && Reencode(s).used == |Encode(e)| && Encode(e) <= s
    ensures !EndAhead(s) ==> !LooksLikeEnd(e)
    decreases |s|, 0
  {
    hide *;
    if s == [] { NothingToRead(); }
    UnfoldReencode(s);
    var (l, u) := DecodeLength(s[1..]);
    if l.Definite? {
      e := RecognisedPrimitive(s, u, l.length);
    } else {
      OpensNested(l, s[0], s[1 + u..]);
      LengthShort(s[1..]);
      var children := RecognisedAll(s[2..]);
      e := Nested(s[0], children);
      RecognisedNested(s, children);
    }
  }

  lemma RecognisedPrimitive(s: seq<byte>, u: nat, n: nat) returns (e: Element)
    requires s != [] && DecodeLength(s[1..]) == (Definite(n), u) && Reencode(s).Done?
    ensures WellFormed(e) && Reencode(s).out == Der(e) && Reencode(s).used == |Encode(e)| && Encode(e) <= s
    ensures !EndAhead(s) ==> !LooksLikeEnd(e)
  {
    LengthUses(s[1..]);
    LengthShort(s[1..]);
    hide DecodeLength, LengthOctets;
    e := Primitive(s[0], s[1..][..u], s[1 + u..][..n]);
    assert Encode(e) == s[..1 + u + n];
  }

  lemma OpensNested(l: LengthResult, tag: byte, v: seq<byte>)
    requires !l.Definite?
    ensures Opens(l, tag) ==> l.Indefinite? && Constructed(tag)
    ensures ContentOutcome(l, v) == Abandoned(ReencodeAll(v), |v|)
    ensures Assemble(tag, ContentOutcome(l, v), 2).Done? ==> ReencodeAll(v).Done?
    ensures Assemble(tag, ContentOutcome(l, v), 2).Done? ==>
              Assemble(tag, ContentOutcome(l, v), 2)
              == Done([tag] + LengthOctets(|ReencodeAll(v).out|) + ReencodeAll(v).out, 2 + ReencodeAll(v).used)
  {
    hide ReencodeAll, LengthOctets;
  }

  lemma RecognisedNested(s: seq<byte>, children: seq<Element>)
    requires |s| >= 2 && s[1] == 0x80 && Constructed(s[0]) && WellFormedAll(children) && EncodeAll(children) + [0, 0] <= s[2..]
    ensures var e := Nested(s[0], children);
            && WellFormed(e) && !LooksLikeEnd(e) && Encode(e) <= s && |Encode(e)| == 2 + |EncodeAll(children)| + 2
            && Der(e) == [s[0]] + LengthOctets(|DerAll(children)|) + DerAll(children)
  {
    hide EncodeAll, DerAll, WellFormedAll, LengthOctets;
    assert s == s[..2] + s[2..];
    assert Encode(Nested(s[0], children)) == s[..2] + (EncodeAll(children) + [0, 0]);
  }

  lemma {:induction false} RecognisedAll(s: seq<byte>) returns (es: seq<Element>)
    requires ReencodeAll(s).Done?
    ensures WellFormedAll(es) && ReencodeAll(s).out == DerAll(es)
    ensures ReencodeAll(s).used == |EncodeAll(es)| + 2 && EncodeAll(es) + [0, 0] <= s
    decreases |s|, 1
  {
    hide *;
    UnfoldReencodeAll(s);
    if EndAhead(s) {
      es := [];
      NoChildren([]);
    } else {
      var k := Reencode(s).used;
      ReencodeUses(s);
      var e := Recognised(s);
      var more := RecognisedAll(s[k..]);
      es := [e] + more;
      assert es[0] == e && es[1..] == more;
      FirstChild(es);
      PrefixInTwo(Encode(e), EncodeAll(more), s);
    }
  }

  lemma ReencodeUses(s: seq<byte>)
    requires Reencode(s).Done?
    ensures 2 <= Reencode(s).used <= |s|
  {}

  lemma PrefixInTwo(a: seq<byte>, b: seq<byte>, s: seq<byte>)
    requires a <= s && b + [0, 0] <= s[|a|..]
    ensures (a + b) + [0, 0] <= s
  {
    assert s == a + s[|a|..];
    assert (a + b) + [0, 0] == a + (b + [0, 0]);
  }

  lemma UnfoldReencodeAll(s: seq<byte>)
    requires ReencodeAll(s).Done?
    ensures EndAhead(s) ==> [0, 0] <= s && ReencodeAll(s) == Done([], 2)
    ensures !EndAhead(s) ==> Reencode(s).Done? && ReencodeAll(s[Reencode(s).used..]).Done?
    ensures !EndAhead(s) ==>
              var a := Reencode(s);
              var b := ReencodeAll(s[a.used..]);
              ReencodeAll(s) == Done(a.out + b.out, a.used + b.used)
  {}

  /** The re-encoded element re-encodes to itself. */
  lemma Idempotent(e: Element, rest: seq<byte>)
    requires WellFormed(e) && |Der(e)| < LWORD_SIZE
    ensures Reencode(Der(e) + rest) == Done(Der(e), |Der(e)|)
  {
    var content := if e.Primitive? then e.content else DerAll(e.children);
    var octets := LengthOctets(|content|);
    assert Der(e) == [e.tag] + octets + content;
    LengthRoundTrip(|content|, []);
    assert octets + [] == octets;
    ReencodePrimitive(e.tag, octets, content, rest);
  }
}
