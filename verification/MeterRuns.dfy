/** Runs of MeterFilter over several messages: when a range of one message keeps those of later ones from being skipped. */
module MeterRuns {
  import opened Bytes
  import opened Sequences
  import opened Sinks
  import opened MeterFilters

  // ---- One message ------------------------------------------------------------------------------

  /** No byte of message m, which has n bytes, lies in a range. */
  ghost predicate Untouched(rs: seq<MessageRange>, m: nat, n: nat) {
    forall j :: 0 <= j < n ==> !Skipped(m, j, rs)
  }

  /** Something is lost exactly if a byte is skipped. */
  lemma {:induction false} KeptLength(s: seq<byte>, m: nat, i: nat, rs: seq<MessageRange>)
    ensures |Kept(s, m, i, rs)| <= |s|
    ensures |Kept(s, m, i, rs)| == |s| <==> forall j :: i <= j < i + |s| ==> !Skipped(m, j, rs)
  {
    if s != [] {
      KeptFirst(s, m, i, rs);
      KeptLength(s[1..], m, i + 1, rs);
      hide Kept, Skipped;
    }
  }

  /** The ranges are obeyed exactly if no range of an earlier message is left at the front, or none matters anyway. */
  lemma RangesObeyed(rs: seq<MessageRange>, m: nat, i: nat, s: seq<byte>)
    ensures Kept(s, m, i, InForce(rs, m)) == Kept(s, m, i, rs)
       <==> Current(rs, m) || forall j :: i <= j < i + |s| ==> !Skipped(m, j, rs)
  {
    if !Current(rs, m) {
      KeptAll(s, m, i, []);
      KeptLength(s, m, i, rs);
      if forall j :: i <= j < i + |s| ==> !Skipped(m, j, rs) { KeptAll(s, m, i, rs); }
    }
  }

  /**
   * The ranges of message m are all dropped in its n bytes: each starts and ends within them, and none comes after one
   * that ends with them.
   */
  ghost predicate UsedUp(rs: seq<MessageRange>, m: nat, n: nat) {
    && (forall k :: 0 <= k < |rs| && rs[k].message == m ==> rs[k].position < n && RangeEnd(rs[k]) <= n)
    && (forall j, k :: 0 <= j < k < |rs| && rs[j].message == m && rs[k].message == m ==> RangeEnd(rs[j]) < n)
  }

  /** Dropping ranges of message m from byte c on gets past all of them exactly if they are used up. */
  lemma {:induction false} LeftIsCurrent(rs: seq<MessageRange>, m: nat, n: nat, c: nat)
    requires Sorted(rs) && Current(rs, m)
    ensures Current(Left(rs, m, n, c), m + 1)
       <==> UsedUp(rs, m, n) && (rs != [] && rs[0].message == m ==> c < n)
  {
    if rs == [] || rs[0].message > m {
      NoneOfMessage(rs, m, n);
    } else if c < n && rs[0].position < n && RangeEnd(rs[0]) <= n {
      SortedTail(rs);
      LeftIsCurrent(rs[1..], m, n, Max(c, RangeEnd(rs[0])));
      UsedUpTail(rs, n);
    }
  }

  lemma NoneOfMessage(rs: seq<MessageRange>, m: nat, n: nat)
    requires Sorted(rs) && Current(rs, m + 1)
    ensures UsedUp(rs, m, n)
  {
    forall k | 0 <= k < |rs| ensures rs[k].message != m {
      if k > 0 { assert Before(rs[0], rs[k]); }
    }
  }

  lemma UsedUpTail(rs: seq<MessageRange>, n: nat)
    requires Sorted(rs) && rs != [] && rs[0].position < n && RangeEnd(rs[0]) <= n
    ensures var m, more := rs[0].message, rs[1..];
            UsedUp(rs, m, n) <==> UsedUp(more, m, n) && (more != [] && more[0].message == m ==> RangeEnd(rs[0]) < n)
  {
    var m, more := rs[0].message, rs[1..];
    if UsedUp(more, m, n) && (more != [] && more[0].message == m ==> RangeEnd(rs[0]) < n) {
      forall k | 0 <= k < |rs| && rs[k].message == m ensures rs[k].position < n && RangeEnd(rs[k]) <= n {
        assert k > 0 ==> more[k - 1] == rs[k];
      }
      forall j, k | 0 <= j < k < |rs| && rs[j].message == m && rs[k].message == m ensures RangeEnd(rs[j]) < n {
        assert more[k - 1] == rs[k];
        if j > 0 {
          assert more[j - 1] == rs[j];
        } else {
          assert k > 1 ==> Before(more[0], more[k - 1]);
          assert Before(rs[0], rs[1]);
        }
      }
    }
    if UsedUp(rs, m, n) {
      assert forall k :: 0 <= k < |more| ==> more[k] == rs[k + 1];
    }
  }

  /** Message m drops ranges of its own only. */
  lemma {:induction false} OthersStay(rs: seq<MessageRange>, m: nat, n: nat, c: nat, other: nat)
    requires Sorted(rs) && other != m
    ensures var qs := Left(rs, m, n, c);
            && Sorted(qs) && (forall j :: Skipped(other, j, qs) <==> Skipped(other, j, rs))
            && (forall k :: UsedUp(qs, other, k) <==> UsedUp(rs, other, k))
  {
    if Left(rs, m, n, c) != rs {
      hide Skipped, UsedUp;
      SortedTail(rs);
      OthersStay(rs[1..], m, n, Max(c, RangeEnd(rs[0])), other);
      forall j ensures Skipped(other, j, rs[1..]) <==> Skipped(other, j, rs) {
        DropFront(rs, other, j);
      }
      forall k ensures UsedUp(rs[1..], other, k) <==> UsedUp(rs, other, k) {
        OtherTail(rs, other, k);
      }
    }
  }

  lemma OtherTail(rs: seq<MessageRange>, other: nat, n: nat)
    requires rs != [] && rs[0].message != other
    ensures UsedUp(rs[1..], other, n) <==> UsedUp(rs, other, n)
  {
    var more := rs[1..];
    assert forall k :: 0 <= k < |more| ==> more[k] == rs[k + 1];
    assert forall k :: 0 < k < |rs| ==> rs[k] == more[k - 1];
  }

  // ---- Runs ---------------------------------------------------------------------------------------

  /** What comes out of a run of messages, starting with message m. */
  ghost function Passed(rs: seq<MessageRange>, m: nat, msgs: seq<seq<byte>>): seq<byte>
    decreases |msgs|
  {
    if msgs == [] then []
    else Kept(msgs[0], m, 0, InForce(rs, m)) + Passed(Left(rs, m, |msgs[0]|, 0), m + 1, msgs[1..])
  }

  /** The ranges that remain after the run. */
  function LeftAfter(rs: seq<MessageRange>, m: nat, msgs: seq<seq<byte>>): seq<MessageRange>
    decreases |msgs|
  {
    if msgs == [] then rs else LeftAfter(Left(rs, m, |msgs[0]|, 0), m + 1, msgs[1..])
  }

  /** The bytes of the messages outside all ranges. */
  ghost function Asked(rs: seq<MessageRange>, m: nat, msgs: seq<seq<byte>>): seq<byte>
    decreases |msgs|
  {
    if msgs == [] then [] else Kept(msgs[0], m, 0, rs) + Asked(rs, m + 1, msgs[1..])
  }

  /** The ranges of message j of the run are looked at: all messages before it use up theirs. */
  ghost predicate LookedAt(rs: seq<MessageRange>, m: nat, msgs: seq<seq<byte>>, j: nat)
    requires j < |msgs|
  {
    Current(rs, m) && forall i :: 0 <= i < j ==> UsedUp(rs, m + i, |msgs[i]|)
  }

  /** The ranges of message j of the run are looked at, or do not matter. */
  ghost predicate ObeyedAt(rs: seq<MessageRange>, m: nat, msgs: seq<seq<byte>>, j: nat)
    requires j < |msgs|
  {
    LookedAt(rs, m, msgs, j) || Untouched(rs, m + j, |msgs[j]|)
  }

  ghost predicate Obeyed(rs: seq<MessageRange>, m: nat, msgs: seq<seq<byte>>) {
    forall j :: 0 <= j < |msgs| ==> ObeyedAt(rs, m, msgs, j)
  }

  lemma AskedSame(rs: seq<MessageRange>, qs: seq<MessageRange>, m: nat, msgs: seq<seq<byte>>)
    requires forall other, j :: m <= other ==> (Skipped(other, j, rs) <==> Skipped(other, j, qs))
    ensures Asked(rs, m, msgs) == Asked(qs, m, msgs)
    decreases |msgs|
  {
    if msgs != [] {
      KeptSame(msgs[0], m, 0, rs, qs);
      AskedSame(rs, qs, m + 1, msgs[1..]);
    }
  }

  /** The front stays current through message m exactly if it was and the ranges of m are used up. */
  lemma StaysCurrent(rs: seq<MessageRange>, m: nat, n: nat)
    requires Sorted(rs)
    ensures Current(Left(rs, m, n, 0), m + 1) <==> Current(rs, m) && UsedUp(rs, m, n)
  {
    if Current(rs, m) { LeftIsCurrent(rs, m, n, 0); }
  }

  lemma LookedAtNext(rs: seq<MessageRange>, m: nat, msgs: seq<seq<byte>>, j: nat)
    requires Sorted(rs) && j + 1 < |msgs|
    ensures LookedAt(rs, m, msgs, j + 1) <==> LookedAt(Left(rs, m, |msgs[0]|, 0), m + 1, msgs[1..], j)
  {
    hide Left, Current, UsedUp, Sorted;
    var n, tail := |msgs[0]|, msgs[1..];
    var qs := Left(rs, m, n, 0);
    StaysCurrent(rs, m, n);
    forall i | 0 <= i < j ensures UsedUp(qs, m + 1 + i, |tail[i]|) <==> UsedUp(rs, m + (i + 1), |msgs[i + 1]|) {
      OthersStay(rs, m, n, 0, m + 1 + i);
    }
    if LookedAt(qs, m + 1, tail, j) {
      forall i | 0 <= i < j + 1 ensures UsedUp(rs, m + i, |msgs[i]|) {
        if i > 0 { assert UsedUp(qs, m + 1 + (i - 1), |tail[i - 1]|); }
      }
    }
    if LookedAt(rs, m, msgs, j + 1) {
      assert UsedUp(rs, m + 0, |msgs[0]|);
      forall i | 0 <= i < j ensures UsedUp(qs, m + 1 + i, |tail[i]|) {
        assert UsedUp(rs, m + (i + 1), |msgs[i + 1]|);
      }
    }
  }

  lemma UntouchedNext(rs: seq<MessageRange>, m: nat, n: nat, other: nat, k: nat)
    requires Sorted(rs) && other != m
    ensures Untouched(Left(rs, m, n, 0), other, k) <==> Untouched(rs, other, k)
  {
    hide Left, Skipped, UsedUp, Sorted;
    OthersStay(rs, m, n, 0, other);
  }

  lemma ObeyedAtNext(rs: seq<MessageRange>, m: nat, msgs: seq<seq<byte>>, j: nat)
    requires Sorted(rs) && j + 1 < |msgs|
    ensures ObeyedAt(Left(rs, m, |msgs[0]|, 0), m + 1, msgs[1..], j) <==> ObeyedAt(rs, m, msgs, j + 1)
  {
    hide Left, Sorted, LookedAt, Untouched;
    LookedAtNext(rs, m, msgs, j);
    UntouchedNext(rs, m, |msgs[0]|, m + 1 + j, |msgs[j + 1]|);
  }

  lemma ObeyedNext(rs: seq<MessageRange>, m: nat, msgs: seq<seq<byte>>)
    requires Sorted(rs) && msgs != []
    ensures Obeyed(rs, m, msgs)
       <==> (Current(rs, m) || Untouched(rs, m, |msgs[0]|)) && Obeyed(Left(rs, m, |msgs[0]|, 0), m + 1, msgs[1..])
  {
    var n, tail := |msgs[0]|, msgs[1..];
    var qs := Left(rs, m, n, 0);
    assert ObeyedAt(rs, m, msgs, 0) <==> Current(rs, m) || Untouched(rs, m, n);
    hide Left, Current, Sorted, Untouched, ObeyedAt;
    var next := m + 1;
    forall j | 0 <= j < |tail| ensures ObeyedAt(qs, next, tail, j) <==> ObeyedAt(rs, m, msgs, j + 1) {
      ObeyedAtNext(rs, m, msgs, j);
    }
    if ObeyedAt(rs, m, msgs, 0) && Obeyed(qs, next, tail) {
      forall j | 0 <= j < |msgs| ensures ObeyedAt(rs, m, msgs, j) {
        if j > 0 { assert ObeyedAt(qs, next, tail, j - 1); }
      }
    }
  }

  lemma SameParts(a: seq<byte>, b: seq<byte>, c: seq<byte>, d: seq<byte>)
    requires |a| >= |c| && |b| >= |d|
    ensures a + b == c + d <==> a == c && b == d
  {
    if a + b == c + d {
      assert |a| == |c|;
      assert (a + b)[..|a|] == a && (c + d)[..|c|] == c && (a + b)[|a|..] == b && (c + d)[|c|..] == d;
    }
  }

  /**
   * A run puts out exactly the bytes outside all ranges if and only if every message that has a byte in a range comes
   * after messages that use up their own ranges. This is a condition on the ranges and the lengths of the messages.
   */
  lemma {:induction false} RunObeysRanges(rs: seq<MessageRange>, m: nat, msgs: seq<seq<byte>>)
    requires Sorted(rs)
    ensures |Passed(rs, m, msgs)| >= |Asked(rs, m, msgs)|
    ensures Passed(rs, m, msgs) == Asked(rs, m, msgs) <==> Obeyed(rs, m, msgs)
    decreases |msgs|
  {
    if msgs != [] {
      PassedFirst(rs, m, msgs);
      hide Left, Current, UsedUp, LookedAt, Skipped, InForce, Kept, Passed, Asked, Obeyed;
      var s, tail := msgs[0], msgs[1..];
      var qs := Left(rs, m, |s|, 0);
      OthersStay(rs, m, |s|, 0, m + 1);
      forall other, j | m + 1 <= other ensures Skipped(other, j, qs) <==> Skipped(other, j, rs) {
        OthersStay(rs, m, |s|, 0, other);
      }
      AskedSame(qs, rs, m + 1, tail);
      RunObeysRanges(qs, m + 1, tail);
      RangesObeyed(rs, m, 0, s);
      NoneLost(rs, m, s);
      SameParts(Kept(s, m, 0, InForce(rs, m)), Passed(qs, m + 1, tail), Kept(s, m, 0, rs), Asked(rs, m + 1, tail));
      ObeyedNext(rs, m, msgs);
    }
  }

  lemma PassedFirst(rs: seq<MessageRange>, m: nat, msgs: seq<seq<byte>>)
    requires msgs != []
    ensures Passed(rs, m, msgs) == Kept(msgs[0], m, 0, InForce(rs, m)) + Passed(Left(rs, m, |msgs[0]|, 0), m + 1, msgs[1..])
    ensures Asked(rs, m, msgs) == Kept(msgs[0], m, 0, rs) + Asked(rs, m + 1, msgs[1..])
    ensures LeftAfter(rs, m, msgs) == LeftAfter(Left(rs, m, |msgs[0]|, 0), m + 1, msgs[1..])
  {}

  lemma NoneLost(rs: seq<MessageRange>, m: nat, s: seq<byte>)
    ensures |Kept(s, m, 0, InForce(rs, m))| >= |Kept(s, m, 0, rs)|
  {
    if !Current(rs, m) {
      KeptAll(s, m, 0, []);
      KeptLength(s, m, 0, rs);
    }
  }

  /** However the messages are cut up and whenever the sink blocks, this is what comes out and which ranges remain. */
  method MeterMessages(f: MeterFilter, messages: seq<seq<seq<byte>>>)
    requires f.Valid() && Sorted(f.rangesToSkip) && f.transparent && f.continueAt == 0 && f.currentMessageBytes == 0
    modifies f, f.sink
    ensures f.Valid() && Sorted(f.rangesToSkip) && f.continueAt == 0 && f.currentMessageBytes == 0
    ensures f.totalMessages == old(f.totalMessages) + |messages|
    ensures f.sink.output == old(f.sink.output + Passed(f.rangesToSkip, f.totalMessages, Joined(messages)))
    ensures f.rangesToSkip == old(LeftAfter(f.rangesToSkip, f.totalMessages, Joined(messages)))
  {
    hide Kept, Passed, LeftAfter, Left, Sorted, InForce;
    ghost var m, msgs := f.totalMessages, Joined(messages);
    ghost var goal, last := f.sink.output + Passed(f.rangesToSkip, m, msgs), LeftAfter(f.rangesToSkip, m, msgs);
    assert msgs[0..] == msgs;
    for i := 0 to |messages|
      invariant f.Valid() && Sorted(f.rangesToSkip) && f.continueAt == 0 && f.currentMessageBytes == 0
      invariant f.totalMessages == m + i
      invariant f.sink.output + Passed(f.rangesToSkip, m + i, msgs[i..]) == goal
      invariant LeftAfter(f.rangesToSkip, m + i, msgs[i..]) == last
    {
      PassedFirst(f.rangesToSkip, m + i, msgs[i..]);
      assert msgs[i..][0] == Concat(messages[i]) && msgs[i..][1..] == msgs[i + 1..];
      AppendAssociative(f.sink.output, f.ToKeep(msgs[i]),
                        Passed(Left(f.rangesToSkip, m + i, |msgs[i]|, 0), m + i + 1, msgs[i + 1..]));
      MeterMessage(f, messages[i]);
    }
    NothingPassed(f.rangesToSkip, m + |messages|);
    assert msgs[|messages|..] == [] && f.sink.output + [] == f.sink.output;
  }

  lemma NothingPassed(rs: seq<MessageRange>, m: nat)
    ensures Passed(rs, m, []) == [] && Asked(rs, m, []) == [] && LeftAfter(rs, m, []) == rs
  {}

  function Joined(messages: seq<seq<seq<byte>>>): seq<seq<byte>> {
    seq(|messages|, i requires 0 <= i < |messages| => Concat(messages[i]))
  }

  // ---- A range that is not skipped ----------------------------------------------------------------

  const THREE := [MessageRange(0, 0, 3), MessageRange(0, 1, 2), MessageRange(1, 0, 1)]

  lemma OneIsLeft()
    ensures Sorted(THREE) && Current(THREE, 0) && Left(THREE, 0, 3, 0) == THREE[1..]
    ensures !Current(THREE[1..], 1) && Left(THREE[1..], 1, 1, 0) == THREE[1..]
  {
    assert Left(THREE[1..], 0, 3, 3) == THREE[1..];
  }

  lemma AllCovered(a: byte, b: byte, c: byte, d: byte)
    ensures Kept([a, b, c], 0, 0, THREE) == [] && Kept([d], 1, 0, THREE) == [] && Kept([d], 1, 0, []) == [d]
  {
    hide Kept;
    forall j | 0 <= j < 3 ensures Skipped(0, j, THREE) { assert Covers(THREE[0], 0, j); }
    assert Covers(THREE[2], 1, 0);
    KeptNone([a, b, c], 0, 0, THREE);
    KeptNone([d], 1, 0, THREE);
    KeptAll([d], 1, 0, []);
  }

  /** Of two overlapping ranges that end with message 0, one is left; so the range of message 1 is not skipped. */
  lemma RangeIsLost(a: byte, b: byte, c: byte, d: byte)
    ensures Sorted(THREE) && LeftAfter(THREE, 0, [[a, b, c], [d]]) == THREE[1..]
    ensures Passed(THREE, 0, [[a, b, c], [d]]) == [d] && Asked(THREE, 0, [[a, b, c], [d]]) == []
  {
    hide Kept, Left, Current, Sorted, Passed, Asked, LeftAfter;
    var msgs := [[a, b, c], [d]];
    OneIsLeft();
    AllCovered(a, b, c, d);
    PassedFirst(THREE, 0, msgs);
    assert msgs[1..] == [[d]] && [[d]][1..] == [];
    PassedFirst(THREE, 1, msgs[1..]);
    PassedFirst(THREE[1..], 1, msgs[1..]);
    NothingPassed(THREE, 2);
    NothingPassed(THREE[1..], 2);
  }

  /** Such a run, of a new filter. */
  method RunThatLosesARange(sink: Sink, a: byte, b: byte, c: byte, d: byte) returns (f: MeterFilter)
    modifies sink
    ensures f.sink == sink && sink.output == old(sink.output) + [d]
    ensures f.rangesToSkip == [MessageRange(0, 1, 2), MessageRange(1, 0, 1)]
  {
    hide Kept, Left, Current, Sorted, Passed, Asked, LeftAfter;
    f := new MeterFilter(true, sink);
    f.AddRangeToSkip(0, 0, 3, false);
    f.AddRangeToSkip(0, 1, 2, false);
    f.AddRangeToSkip(1, 0, 1, false);
    assert f.rangesToSkip == THREE;
    RangeIsLost(a, b, c, d);
    assert Concat([[a, b, c]]) == [a, b, c] && Concat([[d]]) == [d];
    assert Joined([[[a, b, c]], [[d]]]) == [[a, b, c], [d]];
    MeterMessages(f, [[[a, b, c]], [[d]]]);
  }
}
