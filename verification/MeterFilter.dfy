/** MeterFilter of filters.cpp: a filter that counts what passes and skips ranges of bytes. */
module MeterFilters {
  import opened Bytes
  import opened Sinks
  import opened Sequences

  datatype MessageRange = MessageRange(message: nat, position: nat, size: nat)

  /** operator<, negated and turned around: a may stand before b. */
  predicate Before(a: MessageRange, b: MessageRange) {
    a.message < b.message || (a.message == b.message && a.position <= b.position)
  }

  ghost predicate Sorted(rs: seq<MessageRange>) {
    forall i, j :: 0 <= i < j < |rs| ==> Before(rs[i], rs[j])
  }

  // ---- Which bytes are kept ------------------------------------------------------------------

  /** Byte i of message m lies in one of the ranges. */
  ghost predicate Skipped(m: nat, i: nat, rs: seq<MessageRange>) {
    exists k :: 0 <= k < |rs| && Covers(rs[k], m, i)
  }

  predicate Covers(r: MessageRange, m: nat, i: nat) {
    r.message == m && r.position <= i < r.position + r.size
  }

  /** The bytes of s outside all ranges, where s starts at byte i of message m. */
  ghost function Kept(s: seq<byte>, m: nat, i: nat, rs: seq<MessageRange>): seq<byte> {
    if s == [] then [] else (if Skipped(m, i, rs) then [] else [s[0]]) + Kept(s[1..], m, i + 1, rs)
  }

  lemma {:induction false} KeptAppend(a: seq<byte>, b: seq<byte>, m: nat, i: nat, rs: seq<MessageRange>)
    ensures Kept(a + b, m, i, rs) == Kept(a, m, i, rs) + Kept(b, m, i + |a|, rs)
  {
    if a == [] {
      assert a + b == b;
    } else {
      KeptFirst(a, m, i, rs);
      KeptFirst(a + b, m, i, rs);
      hide Kept;
      KeptAppend(a[1..], b, m, i + 1, rs);
      assert (a + b)[1..] == a[1..] + b;
      AppendAssociative(if Skipped(m, i, rs) then [] else [a[0]], Kept(a[1..], m, i + 1, rs), Kept(b, m, i + |a|, rs));
    }
  }

  lemma KeptFirst(s: seq<byte>, m: nat, i: nat, rs: seq<MessageRange>)
    requires s != []
    ensures Kept(s, m, i, rs) == (if Skipped(m, i, rs) then [] else [s[0]]) + Kept(s[1..], m, i + 1, rs)
  {}

  lemma {:induction false} KeptAll(s: seq<byte>, m: nat, i: nat, rs: seq<MessageRange>)
    requires forall j :: i <= j < i + |s| ==> !Skipped(m, j, rs)
    ensures Kept(s, m, i, rs) == s
  {
    if s != [] { KeptAll(s[1..], m, i + 1, rs); }
  }

  lemma {:induction false} KeptNone(s: seq<byte>, m: nat, i: nat, rs: seq<MessageRange>)
    requires forall j :: i <= j < i + |s| ==> Skipped(m, j, rs)
    ensures Kept(s, m, i, rs) == []
  {
    if s != [] { KeptNone(s[1..], m, i + 1, rs); }
  }

  lemma {:induction false} KeptSame(s: seq<byte>, m: nat, i: nat, rs: seq<MessageRange>, qs: seq<MessageRange>)
    requires forall j :: i <= j < i + |s| ==> (Skipped(m, j, rs) <==> Skipped(m, j, qs))
    ensures Kept(s, m, i, rs) == Kept(s, m, i, qs)
  {
    if s != [] { KeptSame(s[1..], m, i + 1, rs, qs); }
  }

  /** One range cuts exactly its bytes out of its own message, and nothing out of others. */
  lemma OneRange(s: seq<byte>, m: nat, r: MessageRange)
    requires r.position + r.size <= |s|
    ensures Kept(s, m, 0, [r]) == if r.message == m then s[..r.position] + s[r.position + r.size..] else s
  {
    hide Kept;
    var from, to, rs := r.position, r.position + r.size, [r];
    forall j: nat ensures Skipped(m, j, rs) <==> r.message == m && from <= j < to {
      assert Covers(rs[0], m, j) <==> r.message == m && from <= j < to;
    }
    hide Skipped;
    if r.message != m {
      KeptAll(s, m, 0, rs);
    } else {
      KeptAll(s[..from], m, 0, rs);
      KeptNone(s[from..to], m, from, rs);
      KeptAll(s[to..], m, to, rs);
      KeptAppend(s[..from], s[from..to], m, 0, rs);
      KeptAppend(s[..from] + s[from..to], s[to..], m, 0, rs);
      assert s == (s[..from] + s[from..to]) + s[to..];
      assert s[..from] + [] == s[..from];
    }
  }

  /** From byte i of message m on, the two lists skip the same bytes. */
  ghost predicate Agree(rs: seq<MessageRange>, qs: seq<MessageRange>, m: nat, i: nat) {
    forall j :: i <= j ==> (Skipped(m, j, rs) <==> Skipped(m, j, qs))
  }

  // ---- The decisions of the loop ------------------------------------------------------------------

  /** The front range reaches into the next length bytes. */
  predicate Reaches(rs: seq<MessageRange>, m: nat, current: nat, length: nat) {
    length > 0 && rs != [] && rs[0].message == m && current + length > rs[0].position
  }

  function SaturatingSubtract(a: nat, b: nat): nat { if a > b then a - b else 0 }

  /** No range of an earlier message is left at the front. */
  predicate Current(rs: seq<MessageRange>, m: nat) {
    rs != [] ==> rs[0].message >= m
  }

  /** The ranges that are looked at in message m: none, if a range of an earlier message is left at the front. */
  function InForce(rs: seq<MessageRange>, m: nat): seq<MessageRange> {
    if Current(rs, m) then rs else []
  }

  /** If the front range does not reach into the bytes, no range does. */
  lemma NothingReaches(rs: seq<MessageRange>, m: nat, current: nat, s: seq<byte>)
    requires Sorted(rs) && !Reaches(rs, m, current, |s|)
    ensures Kept(s, m, current, InForce(rs, m)) == s
  {
    var qs := InForce(rs, m);
    forall j | current <= j < current + |s| ensures !Skipped(m, j, qs) {
      forall k | 0 <= k < |qs| ensures !Covers(qs[k], m, j) {
        if k > 0 { assert Before(qs[0], qs[k]); }
      }
    }
    KeptAll(s, m, current, qs);
  }

  lemma NotBeforeTheFront(rs: seq<MessageRange>, m: nat, j: nat)
    requires Sorted(rs) && rs != [] && rs[0].message == m && j < rs[0].position
    ensures !Skipped(m, j, rs)
  {
    forall k | 0 <= k < |rs| ensures !Covers(rs[k], m, j) {
      if k > 0 { assert Before(rs[0], rs[k]); }
    }
  }

  /** The bytes before the front range are kept. */
  lemma BeforeTheRange(rs: seq<MessageRange>, m: nat, current: nat, s: seq<byte>)
    requires Sorted(rs) && Reaches(rs, m, current, |s|)
    ensures var t := SaturatingSubtract(rs[0].position, current);
            t < |s| && Kept(s, m, current, rs) == s[..t] + Kept(s[t..], m, current + t, rs)
  {
    hide Kept, Skipped;
    var t := SaturatingSubtract(rs[0].position, current);
    forall j | current <= j < current + t ensures !Skipped(m, j, rs) {
      NotBeforeTheFront(rs, m, j);
    }
    KeptAll(s[..t], m, current, rs);
    KeptAppend(s[..t], s[t..], m, current, rs);
    assert s == s[..t] + s[t..];
  }

  /** The first t bytes lie in the front range. */
  lemma InTheRange(rs: seq<MessageRange>, m: nat, current: nat, s: seq<byte>, t: nat)
    requires rs != [] && rs[0].message == m && rs[0].position <= current && t <= |s|
    requires current + t <= rs[0].position + rs[0].size || t == 0
    ensures Kept(s, m, current, rs) == Kept(s[t..], m, current + t, rs)
  {
    forall j | current <= j < current + t ensures Skipped(m, j, rs) {
      assert Covers(rs[0], m, j);
    }
    KeptNone(s[..t], m, current, rs);
    KeptAppend(s[..t], s[t..], m, current, rs);
    assert s == s[..t] + s[t..];
  }

  /** A range that ends here makes no difference from here on. */
  lemma DropFront(rs: seq<MessageRange>, m: nat, current: nat)
    requires rs != [] && (rs[0].message == m ==> rs[0].position + rs[0].size <= current)
    ensures Agree(rs, rs[1..], m, current)
  {
    forall j | current <= j ensures Skipped(m, j, rs) <==> Skipped(m, j, rs[1..]) {
      if Skipped(m, j, rs) {
        var k :| 0 <= k < |rs| && Covers(rs[k], m, j);
        assert rs[1..][k - 1] == rs[k];
      }
      if Skipped(m, j, rs[1..]) {
        var k :| 0 <= k < |rs[1..]| && Covers(rs[1..][k], m, j);
        assert rs[k + 1] == rs[1..][k];
      }
    }
  }

  lemma SortedTail(rs: seq<MessageRange>)
    requires Sorted(rs) && rs != []
    ensures Sorted(rs[1..]) && InForce(rs[1..], rs[0].message) == rs[1..]
  {
    if |rs| > 1 { assert Before(rs[0], rs[1]); }
  }

  lemma AgreeLater(rs: seq<MessageRange>, qs: seq<MessageRange>, ps: seq<MessageRange>, m: nat, i: nat, j: nat)
    requires Agree(rs, qs, m, i) && i <= j && Agree(qs, ps, m, j)
    ensures Agree(rs, ps, m, j)
  {}

  // ---- Which ranges remain ----------------------------------------------------------------------

  function RangeEnd(r: MessageRange): nat { r.position + r.size }

  function Max(a: nat, b: nat): nat { if a < b then b else a }

  /** What is left of the ranges when bytes c to n of message m have been dealt with: the front is dropped only before byte n. */
  function Left(rs: seq<MessageRange>, m: nat, n: nat, c: nat): seq<MessageRange> {
    if rs != [] && rs[0].message == m && c < n && rs[0].position < n && RangeEnd(rs[0]) <= n
    then Left(rs[1..], m, n, Max(c, RangeEnd(rs[0])))
    else rs
  }

  /** Stopping at byte e on the way makes no difference. */
  lemma {:induction false} LeftTwice(rs: seq<MessageRange>, m: nat, c: nat, e: nat, n: nat)
    requires c <= e <= n
    ensures Left(Left(rs, m, e, c), m, n, e) == Left(rs, m, n, c)
  {
    if rs != [] && rs[0].message == m && c < e {
      if rs[0].position < e && RangeEnd(rs[0]) <= e {
        LeftTwice(rs[1..], m, Max(c, RangeEnd(rs[0])), e, n);
      } else {
        assert e < n ==> Max(e, RangeEnd(rs[0])) == Max(c, RangeEnd(rs[0]));
      }
    }
  }

  /** Nothing is dropped once all bytes have been dealt with, nor if the front range does not reach into them. */
  lemma LeftStays(rs: seq<MessageRange>, m: nat, n: nat, c: nat)
    requires n <= c || !Reaches(rs, m, c, n - c)
    ensures Left(rs, m, n, c) == rs
  {}

  /** The bytes before the front range do not matter. */
  lemma LeftUpTo(rs: seq<MessageRange>, m: nat, n: nat, c: nat)
    requires c < n && Reaches(rs, m, c, n - c)
    ensures Left(rs, m, n, c) == Left(rs, m, n, c + SaturatingSubtract(rs[0].position, c))
  {}

  lemma LeftFront(rs: seq<MessageRange>, m: nat, n: nat, c: nat)
    requires rs != [] && rs[0].message == m && rs[0].position <= c < n
    ensures RangeEnd(rs[0]) <= n ==>
              Left(rs, m, n, c) == Left(rs[1..], m, n, c + SaturatingSubtract(RangeEnd(rs[0]), c))
    ensures RangeEnd(rs[0]) > n ==> Left(rs, m, n, c) == rs
  {}

  // ---- Sorting ----------------------------------------------------------------------------------

  function Insert(r: MessageRange, rs: seq<MessageRange>): seq<MessageRange> {
    if rs == [] then [r] else if Before(r, rs[0]) then [r] + rs else [rs[0]] + Insert(r, rs[1..])
  }

  /** std::sort, up to the order of ranges with equal positions. */
  function Sort(rs: seq<MessageRange>): seq<MessageRange> {
    if rs == [] then [] else Insert(rs[0], Sort(rs[1..]))
  }

  lemma {:induction false} InsertSorts(r: MessageRange, rs: seq<MessageRange>)
    requires Sorted(rs)
    ensures Sorted(Insert(r, rs)) && multiset(Insert(r, rs)) == multiset(rs) + multiset{r}
  {
    if rs != [] {
      assert rs == [rs[0]] + rs[1..];
      if Before(r, rs[0]) {
        FrontFirst(r, rs);
      } else {
        var more := Insert(r, rs[1..]);
        InsertSorts(r, rs[1..]);
        hide Insert, Before;
        forall i | 0 <= i < |more| ensures Before(rs[0], more[i]) {
          assert more[i] in multiset(more);
          NotBefore(r, rs[0]);
        }
        FrontFirst(rs[0], more);
      }
    }
  }

  lemma NotBefore(a: MessageRange, b: MessageRange)
    requires !Before(a, b)
    ensures Before(b, a)
  {}

  lemma FrontFirst(r: MessageRange, rs: seq<MessageRange>)
    requires Sorted(rs) && (rs != [] ==> Before(r, rs[0]))
    ensures Sorted([r] + rs) && multiset([r] + rs) == multiset(rs) + multiset{r}
  {
    forall i | 0 <= i < |rs| ensures Before(r, rs[i]) {
      if i > 0 { assert Before(rs[0], rs[i]); }
    }
  }

  lemma {:induction false} SortSorts(rs: seq<MessageRange>)
    ensures Sorted(Sort(rs)) && multiset(Sort(rs)) == multiset(rs)
  {
    if rs != [] {
      SortSorts(rs[1..]);
      InsertSorts(rs[0], Sort(rs[1..]));
      assert rs == [rs[0]] + rs[1..];
    }
  }

  // ---- The filter -----------------------------------------------------------------------------------

  class MeterFilter {
    const transparent: bool
    const sink: Sink
    var currentMessageBytes: nat
    var totalBytes: nat
    var currentSeriesMessages: nat
    var totalMessages: nat
    var rangesToSkip: seq<MessageRange>
    /** The bytes of the call at work that have not been dealt with: m_length of them at m_begin. */
    var rest: seq<byte>
    var continueAt: nat
    /** The arguments of the call at work, the ranges in force when it began, where it ends, what it will have put out and which ranges it will leave. */
    ghost var begin: seq<byte>
    ghost var end: bool
    ghost var ranges: seq<MessageRange>
    ghost var last: nat
    ghost var goal: seq<byte>
    ghost var left: seq<MessageRange>

    /** What is left of the call, without the bytes in ranges, completes the output. */
    ghost predicate InLoop()
      reads this, sink
    {
      && Sorted(rangesToSkip) && currentMessageBytes + |rest| == last
      && Agree(ranges, InForce(rangesToSkip, totalMessages), totalMessages, currentMessageBytes)
      && sink.output + Kept(rest, totalMessages, currentMessageBytes, InForce(rangesToSkip, totalMessages)) == goal
      && Left(rangesToSkip, totalMessages, last, currentMessageBytes) == left
    }

    /** An interrupted call can go on. */
    ghost predicate Valid()
      reads this, sink
    {
      && continueAt <= 2
      && (continueAt == 1 ==> InLoop() && Reaches(rangesToSkip, totalMessages, currentMessageBytes, |rest|))
      && (continueAt == 2 ==> InLoop() && !Reaches(rangesToSkip, totalMessages, currentMessageBytes, |rest|) && (rest != [] || end))
    }

    /** The bytes of a new input that are to be kept. */
    ghost function ToKeep(input: seq<byte>): seq<byte>
      reads this
    {
      Kept(input, totalMessages, currentMessageBytes, InForce(rangesToSkip, totalMessages))
    }

    constructor (transparent: bool, sink: Sink)
      ensures Valid() && continueAt == 0 && rangesToSkip == [] && currentMessageBytes == 0 && totalMessages == 0
      ensures this.transparent == transparent && this.sink == sink
    {
      this.transparent, this.sink := transparent, sink;
      currentMessageBytes, totalBytes, currentSeriesMessages, totalMessages := 0, 0, 0, 0;
      rangesToSkip, rest, continueAt := [], [], 0;
    }

    /** A range in this message or another, at once in its place or not. */
    method AddRangeToSkip(message: nat, position: nat, size: nat, sortNow: bool)
      requires Valid() && continueAt == 0
      modifies this`rangesToSkip
      ensures Valid() && (sortNow ==> Sorted(rangesToSkip))
      ensures multiset(rangesToSkip) == multiset(old(rangesToSkip) + [MessageRange(message, position, size)])
      ensures !sortNow ==> rangesToSkip == old(rangesToSkip) + [MessageRange(message, position, size)]
    {
      rangesToSkip := rangesToSkip + [MessageRange(message, position, size)];
      if sortNow {
        SortSorts(rangesToSkip);
        rangesToSkip := Sort(rangesToSkip);
      }
    }

    /** The first output: what comes before the front range; then the bytes in the range are passed over. */
    method PassRange() returns (blocked: bool)
      requires InLoop() && Reaches(rangesToSkip, totalMessages, currentMessageBytes, |rest|)
      modifies this`currentMessageBytes, this`totalBytes, this`rangesToSkip, this`rest, this`continueAt, sink
      ensures |sink.script| <= |old(sink.script)| && (blocked ==> |sink.script| < |old(sink.script)|)
      ensures blocked ==> Valid() && continueAt == 1
      ensures !blocked ==> InLoop() && continueAt == 0
      ensures !blocked ==> |rest| < |old(rest)| || (|rest| == |old(rest)| && |rangesToSkip| < |old(rangesToSkip)|)
    {
      hide Kept, Agree, Sorted, Left;
      var front := rangesToSkip[0];
      var t := SaturatingSubtract(front.position, currentMessageBytes);
      BeforeTheRange(rangesToSkip, totalMessages, currentMessageBytes, rest);
      blocked := sink.Put(rest[..t], false);
      continueAt := if blocked then 1 else 0;
      if blocked { return; }
      LeftUpTo(rangesToSkip, totalMessages, last, currentMessageBytes);
      Advance(t, old(sink.output));
      SkipRange(front);
    }

    /** The bytes put out have been dealt with. */
    method Advance(t: nat, ghost before: seq<byte>)
      requires Sorted(rangesToSkip) && currentMessageBytes + |rest| == last && t <= |rest|
      requires Agree(ranges, InForce(rangesToSkip, totalMessages), totalMessages, currentMessageBytes)
      requires var rs := InForce(rangesToSkip, totalMessages);
               && Kept(rest, totalMessages, currentMessageBytes, rs)
                  == rest[..t] + Kept(rest[t..], totalMessages, currentMessageBytes + t, rs)
               && before + Kept(rest, totalMessages, currentMessageBytes, rs) == goal && sink.output == before + rest[..t]
      requires Left(rangesToSkip, totalMessages, last, currentMessageBytes + t) == left
      modifies this`currentMessageBytes, this`totalBytes, this`rest
      ensures InLoop() && rest == old(rest)[t..] && currentMessageBytes == old(currentMessageBytes) + t
    {
      hide Kept, Agree, Sorted, Left;
      ghost var i, rs := currentMessageBytes, InForce(rangesToSkip, totalMessages);
      AppendAssociative(before, rest[..t], Kept(rest[t..], totalMessages, i + t, rs));
      rest, currentMessageBytes, totalBytes := rest[t..], currentMessageBytes + t, totalBytes + t;
      LaterOn(ranges, rs, totalMessages, i, currentMessageBytes);
    }

    method SkipRange(front: MessageRange)
      requires InLoop() && rangesToSkip != [] && front == rangesToSkip[0] && front.message == totalMessages
      requires front.position <= currentMessageBytes && rest != []
      modifies this`currentMessageBytes, this`totalBytes, this`rangesToSkip, this`rest
      ensures InLoop()
      ensures |rest| < |old(rest)| || (|rest| == |old(rest)| && |rangesToSkip| < |old(rangesToSkip)|)
    {
      hide Kept, Agree, Sorted, Left;
      ghost var m, i := totalMessages, currentMessageBytes;
      var t := |rest|;
      var ends := currentMessageBytes + |rest| >= front.position + front.size;
      if ends { t := SaturatingSubtract(front.position + front.size, currentMessageBytes); }
      InTheRange(rangesToSkip, m, i, rest, t);
      LeftFront(rangesToSkip, m, last, i);
      LeftStays(rangesToSkip, m, last, last);
      LaterOn(ranges, rangesToSkip, m, i, i + t);
      rest, currentMessageBytes, totalBytes := rest[t..], currentMessageBytes + t, totalBytes + t;
      if ends {
        DropFront(rangesToSkip, m, currentMessageBytes);
        SortedTail(rangesToSkip);
        AgreeLater(ranges, rangesToSkip, rangesToSkip[1..], m, currentMessageBytes, currentMessageBytes);
        KeptAgree(rest, m, currentMessageBytes, rangesToSkip, rangesToSkip[1..]);
        rangesToSkip := rangesToSkip[1..];
      }
    }

    /** The second output: no range reaches into what is left, which passes whole. */
    method PassRest(messageEnd: bool) returns (blocked: bool)
      requires InLoop() && !Reaches(rangesToSkip, totalMessages, currentMessageBytes, |rest|) && end == messageEnd
      requires rest != [] || messageEnd
      modifies this`currentMessageBytes, this`totalBytes, this`rest, this`continueAt, sink
      ensures |sink.script| <= |old(sink.script)| && (blocked ==> |sink.script| < |old(sink.script)|)
      ensures blocked ==> Valid() && continueAt == 2
      ensures !blocked ==> InLoop() && continueAt == 0 && rest == []
    {
      hide Kept, Agree, Sorted, Left;
      NothingReaches(rangesToSkip, totalMessages, currentMessageBytes, rest);
      NoneKept(totalMessages, currentMessageBytes + |rest|, InForce(rangesToSkip, totalMessages));
      blocked := sink.Put(rest, messageEnd);
      continueAt := if blocked then 2 else 0;
      if blocked { return; }
      assert rest[..|rest|] == rest && rest[|rest|..] == [] && rest + [] == rest;
      LeftStays(rangesToSkip, totalMessages, last, currentMessageBytes);
      LeftStays(rangesToSkip, totalMessages, last, last);
      Advance(|rest|, old(sink.output));
    }

    /** The loop, from where the last call stopped, up to the end of the message. */
    method PassAll(messageEnd: bool) returns (blocked: bool)
      requires InLoop() && end == messageEnd
      requires continueAt != 0 ==> Valid()
      modifies this`currentMessageBytes, this`totalBytes, this`rangesToSkip, this`rest, this`continueAt, sink
      ensures |sink.script| <= |old(sink.script)| && (blocked ==> |sink.script| < |old(sink.script)|)
      ensures blocked ==> Valid() && continueAt != 0
      ensures !blocked ==> InLoop() && continueAt == 0 && rest == []
    {
      hide Kept, Agree, Sorted, Left;
      var passed := false;
      if continueAt == 1 {
        blocked := PassRange();
        if blocked { return; }
      } else if continueAt == 2 {
        blocked := PassRest(messageEnd);
        if blocked { return; }
        passed := true;
      }
      while |rest| > 0 || (messageEnd && !passed)
        invariant InLoop() && continueAt == 0 && |sink.script| <= |old(sink.script)|
        decreases |rest|, |rangesToSkip|, !passed
      {
        if Reaches(rangesToSkip, totalMessages, currentMessageBytes, |rest|) {
          blocked := PassRange();
          if blocked { return; }
        } else {
          blocked := PassRest(messageEnd);
          if blocked { return; }
          passed := true;
        }
      }
      blocked := false;
    }

    method StartCall(input: seq<byte>, messageEnd: bool)
      requires Sorted(rangesToSkip)
      modifies this`rest, this`begin, this`end, this`last, this`ranges, this`goal, this`left
      ensures InLoop() && begin == input && end == messageEnd
      ensures goal == sink.output + ToKeep(input) && last == currentMessageBytes + |input|
      ensures ranges == InForce(rangesToSkip, totalMessages)
      ensures left == Left(rangesToSkip, totalMessages, last, currentMessageBytes)
    {
      hide Kept, Agree, Sorted, Left;
      rest := input;
      begin, end, last := input, messageEnd, currentMessageBytes + |input|;
      ranges, goal := InForce(rangesToSkip, totalMessages), sink.output + ToKeep(input);
      left := Left(rangesToSkip, totalMessages, last, currentMessageBytes);
      AgreeSelf(ranges, totalMessages, currentMessageBytes);
    }

    /**
     * A call that is not blocked has put out exactly the bytes of its input outside the ranges in force, and dropped
     * the ranges it got past; one that is blocked will have, when it is repeated until it is not.
     */
    method PutMaybeModifiable(input: seq<byte>, messageEnd: bool) returns (blocked: bool)
      requires Valid() && Sorted(rangesToSkip) && (continueAt != 0 ==> input == begin && messageEnd == end)
      modifies this, sink
      ensures Valid() && Sorted(rangesToSkip)
      ensures !transparent ==> !blocked && unchanged(this) && unchanged(sink)
      ensures transparent ==> (blocked <==> continueAt != 0)
      ensures |sink.script| <= |old(sink.script)| && (blocked ==> |sink.script| < |old(sink.script)|)
      ensures blocked ==> begin == input && end == messageEnd
      ensures transparent && old(continueAt) == 0 ==>
                && goal == old(sink.output + ToKeep(input)) && last == old(currentMessageBytes) + |input|
                && ranges == old(InForce(rangesToSkip, totalMessages))
                && left == old(Left(rangesToSkip, totalMessages, currentMessageBytes + |input|, currentMessageBytes))
      ensures old(continueAt) != 0 ==> goal == old(goal) && last == old(last) && ranges == old(ranges) && left == old(left)
      ensures transparent && !blocked ==> sink.output == goal && rangesToSkip == left
      ensures blocked || !messageEnd ==> totalMessages == old(totalMessages)
      ensures transparent && !blocked && !messageEnd ==>
                && currentMessageBytes == last
                && Agree(ranges, InForce(rangesToSkip, totalMessages), totalMessages, last)
      ensures transparent && !blocked && messageEnd ==> currentMessageBytes == 0 && totalMessages == old(totalMessages) + 1
    {
      hide Kept, Agree, Sorted, Left;
      if !transparent { return false; }
      if continueAt == 0 { StartCall(input, messageEnd); }
      blocked := PassAll(messageEnd);
      if blocked { return; }
      NoneKept(totalMessages, currentMessageBytes, InForce(rangesToSkip, totalMessages));
      LeftStays(rangesToSkip, totalMessages, last, last);
      assert sink.output + [] == sink.output;
      if messageEnd {
        currentMessageBytes := 0;
        currentSeriesMessages := currentSeriesMessages + 1;
        totalMessages := totalMessages + 1;
      }
    }
  }

  lemma NoneKept(m: nat, i: nat, rs: seq<MessageRange>)
    ensures Kept([], m, i, rs) == []
  {}

  lemma AgreeSelf(rs: seq<MessageRange>, m: nat, i: nat)
    ensures Agree(rs, rs, m, i)
  {}

  lemma LaterOn(rs: seq<MessageRange>, qs: seq<MessageRange>, m: nat, i: nat, j: nat)
    requires Agree(rs, qs, m, i) && i <= j
    ensures Agree(rs, qs, m, j)
  {}

  lemma KeptAgree(s: seq<byte>, m: nat, i: nat, rs: seq<MessageRange>, qs: seq<MessageRange>)
    requires Agree(rs, qs, m, i)
    ensures Kept(s, m, i, rs) == Kept(s, m, i, qs)
  {
    KeptSame(s, m, i, rs, qs);
  }

  // ---- Whole messages -----------------------------------------------------------------------------

  /** Repeat a call until it is not blocked. */
  method PutPart(f: MeterFilter, part: seq<byte>, end: bool)
    requires f.Valid() && Sorted(f.rangesToSkip) && f.transparent && f.continueAt == 0
    modifies f, f.sink
    ensures f.Valid() && Sorted(f.rangesToSkip) && f.continueAt == 0
    ensures f.sink.output == old(f.sink.output + f.ToKeep(part))
    ensures f.rangesToSkip == old(Left(f.rangesToSkip, f.totalMessages, f.currentMessageBytes + |part|, f.currentMessageBytes))
    ensures !end ==>
              && f.totalMessages == old(f.totalMessages) && f.currentMessageBytes == old(f.currentMessageBytes) + |part|
              && Agree(old(InForce(f.rangesToSkip, f.totalMessages)), InForce(f.rangesToSkip, f.totalMessages),
                       f.totalMessages, f.currentMessageBytes)
    ensures end ==> f.currentMessageBytes == 0 && f.totalMessages == old(f.totalMessages) + 1
  {
    hide Kept, Agree, Sorted, Left;
    ghost var m, rs, goal, last := f.totalMessages, InForce(f.rangesToSkip, f.totalMessages), f.sink.output + f.ToKeep(part),
                                   f.currentMessageBytes + |part|;
    ghost var left := Left(f.rangesToSkip, m, last, f.currentMessageBytes);
    var blocked := f.PutMaybeModifiable(part, end);
    while blocked
      invariant f.Valid() && Sorted(f.rangesToSkip) && (blocked <==> f.continueAt != 0)
      invariant f.goal == goal && f.last == last && f.ranges == rs && f.left == left
      invariant blocked || !end ==> f.totalMessages == m
      invariant blocked ==> f.begin == part && f.end == end
      invariant !blocked ==> f.sink.output == goal && f.rangesToSkip == left
      invariant !blocked && !end ==> f.currentMessageBytes == last && Agree(rs, InForce(f.rangesToSkip, m), m, last)
      invariant !blocked && end ==> f.currentMessageBytes == 0 && f.totalMessages == m + 1
      decreases |f.sink.script|, blocked
    {
      blocked := f.PutMaybeModifiable(part, end);
    }
  }

  lemma NextPart(done: seq<byte>, part: seq<byte>, m: nat, rs: seq<MessageRange>, qs: seq<MessageRange>, start: seq<byte>)
    requires Agree(rs, qs, m, |done|)
    ensures (start + Kept(done, m, 0, rs)) + Kept(part, m, |done|, qs) == start + Kept(done + part, m, 0, rs)
  {
    hide Kept, Agree;
    KeptAppend(done, part, m, 0, rs);
    KeptAgree(part, m, |done|, rs, qs);
    AppendAssociative(start, Kept(done, m, 0, rs), Kept(part, m, |done|, rs));
  }

  /**
   * However a message is cut up and whenever the sink blocks, exactly the bytes outside the ranges in force come out, and
   * the ranges that remain depend on its length only.
   */
  method MeterMessage(f: MeterFilter, parts: seq<seq<byte>>)
    requires f.Valid() && Sorted(f.rangesToSkip) && f.transparent && f.continueAt == 0 && f.currentMessageBytes == 0
    modifies f, f.sink
    ensures f.Valid() && Sorted(f.rangesToSkip) && f.continueAt == 0 && f.currentMessageBytes == 0
    ensures f.totalMessages == old(f.totalMessages) + 1
    ensures f.sink.output == old(f.sink.output + f.ToKeep(Concat(parts)))
    ensures f.rangesToSkip == old(Left(f.rangesToSkip, f.totalMessages, |Concat(parts)|, 0))
  {
    hide Kept, Agree, Sorted, Left;
    ghost var m, rs, start := f.totalMessages, InForce(f.rangesToSkip, f.totalMessages), f.sink.output;
    ghost var all := f.rangesToSkip;
    NoneKept(m, 0, rs);
    AgreeSelf(rs, m, 0);
    LeftStays(all, m, 0, 0);
    assert start + [] == start;
    for i := 0 to |parts|
      invariant f.Valid() && Sorted(f.rangesToSkip) && f.continueAt == 0 && f.totalMessages == m
      invariant f.currentMessageBytes == |Concat(parts[..i])|
      invariant Agree(rs, InForce(f.rangesToSkip, m), m, f.currentMessageBytes)
      invariant f.sink.output == start + Kept(Concat(parts[..i]), m, 0, rs)
      invariant f.rangesToSkip == Left(all, m, f.currentMessageBytes, 0)
    {
      ConcatUpTo(parts, i);
      ghost var done, qs := Concat(parts[..i]), InForce(f.rangesToSkip, m);
      NextPart(done, parts[i], m, rs, qs, start);
      LeftTwice(all, m, 0, |done|, |done + parts[i]|);
      PutPart(f, parts[i], false);
      AgreeLater(rs, qs, InForce(f.rangesToSkip, m), m, |done|, f.currentMessageBytes);
    }
    assert parts[..|parts|] == parts && Concat(parts) + [] == Concat(parts);
    LeftTwice(all, m, 0, |Concat(parts)|, |Concat(parts)|);
    NextPart(Concat(parts), [], m, rs, InForce(f.rangesToSkip, m), start);
    PutPart(f, [], true);
  }
}
