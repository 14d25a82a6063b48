/**
 FilterWithBufferedInput: split a message that arrives in arbitrary pieces into a
 first part, whole middle blocks and a last part.
 */
module BufferedInput {
  import opened Arithmetic
  import opened Bytes
  import opened BlockQueues
  import opened Sequences

  /** A call of one of the virtual functions, with its argument. */
  datatype Call = First(data: seq<byte>) | Next(data: seq<byte>) | Last(data: seq<byte>)

  datatype Sizes = Sizes(first: nat, block: nat, last: nat)

  /** The argument bytes of a sequence of calls, in order. */
  ghost function Data(calls: seq<Call>): seq<byte> {
    if calls == [] then [] else Data(calls[..|calls| - 1]) + calls[|calls| - 1].data
  }

  /** Calls of NextPut with a positive number of whole blocks each. */
  ghost predicate WholeNexts(calls: seq<Call>, block: nat) requires block >= 1 {
    forall i :: 0 <= i < |calls| ==> calls[i].Next? && |calls[i].data| > 0 && |calls[i].data| % block == 0
  }

  /** How many of t bytes following the first part are held back for LastPut. */
  function Held(t: nat, sizes: Sizes): nat requires sizes.block >= 1 {
    if t < sizes.last then t else sizes.last + (t - sizes.last) % sizes.block
  }

  /** What a complete message must have turned into, however it was split. */
  ghost predicate Complete(calls: seq<Call>, message: seq<byte>, sizes: Sizes) requires sizes.block >= 1 {
    if |message| < sizes.first then calls == [Last(message)]
    else
      var t := |message| - sizes.first;
      var h := Held(t, sizes);
      && h <= t
      && |calls| >= 2
      && calls[0] == First(message[..sizes.first])
      && WholeNexts(calls[1..|calls| - 1], sizes.block)
      && Data(calls[1..|calls| - 1]) == message[sizes.first..|message| - h]
      && calls[|calls| - 1] == Last(message[|message| - h..])
  }

  lemma DataAppend(calls: seq<Call>, c: Call)
    ensures Data(calls + [c]) == Data(calls) + c.data
  {
    assert (calls + [c])[..|calls|] == calls;
  }

  lemma {:induction false} DataPrepend(c: Call, calls: seq<Call>)
    ensures Data([c] + calls) == c.data + Data(calls)
  {
    if calls == [] {
      DataAppend([], c);
      assert [] + [c] == [c] && [c] + calls == [c];
    } else {
      var w, last := calls[..|calls| - 1], calls[|calls| - 1];
      DataPrepend(c, w);
      hide Data;
      assert [c] + calls == ([c] + w) + [last] && calls == w + [last];
      DataAppend([c] + w, last);
      DataAppend(w, last);
      AppendAssociative(c.data, Data(w), last.data);
    }
  }

  lemma {:induction false} NextsTotal(calls: seq<Call>, block: nat)
    requires block >= 1 && WholeNexts(calls, block)
    ensures |Data(calls)| % block == 0
    ensures calls != [] ==> |Data(calls)| > 0
  {
    if calls == [] {
      DivModUnique(0, block, 0, 0);
    } else {
      var w, last := calls[..|calls| - 1], calls[|calls| - 1];
      NextsTotal(w, block);
      DivMod(|last.data|, block);
      ModAddMultiple(|Data(w)|, |last.data| / block, block);
    }
  }

  /** The held length is determined: whole blocks sent, and a remainder in the right range. */
  lemma HeldUnique(t: nat, sent: nat, h: nat, sizes: Sizes)
    requires sizes.block >= 1 && t == sent + h && sent % sizes.block == 0
    requires h < sizes.block + sizes.last && (sent > 0 ==> h >= sizes.last)
    ensures h == Held(t, sizes)
  {
    var b := sizes.block;
    DivMod(sent, b);
    if t >= sizes.last {
      if h >= sizes.last { DivModUnique(t - sizes.last, b, sent / b, h - sizes.last); }
    }
  }

  // ---- What the class comment promises ----------------------------------------

  lemma FirstMiddleLast(calls: seq<Call>)
    requires |calls| >= 2
    ensures var n := |calls| - 1; calls == [calls[0]] + (calls[1..n] + [calls[n]])
  {}

  lemma ThreeParts(s: seq<byte>, i: nat, j: nat)
    requires i <= j <= |s|
    ensures s == s[..i] + (s[i..j] + s[j..])
  {}

  /** The arguments concatenate to exactly the message. */
  lemma CompleteConserves(calls: seq<Call>, message: seq<byte>, sizes: Sizes)
    requires sizes.block >= 1 && Complete(calls, message, sizes)
    ensures Data(calls) == message
  {
    if |message| < sizes.first {
      DataAppend([], Last(message));
      assert [] + [Last(message)] == [Last(message)];
    } else {
      var n := |calls| - 1;
      var h := Held(|message| - sizes.first, sizes);
      var mid := calls[1..n];
      hide Data, WholeNexts, Held;
      FirstMiddleLast(calls);
      DataPrepend(calls[0], mid + [calls[n]]);
      DataAppend(mid, calls[n]);
      ThreeParts(message, sizes.first, |message| - h);
    }
  }

  /** The three cases for the length LastPut sees, and when NextPut is called at all. */
  lemma LastPutContract(calls: seq<Call>, message: seq<byte>, sizes: Sizes)
    requires sizes.block >= 1 && Complete(calls, message, sizes)
    ensures calls != [] && calls[|calls| - 1].Last?
    ensures var length := |calls[|calls| - 1].data|;
            if |message| < sizes.first then length == |message|
            else if |message| <= sizes.first + sizes.last then length == |message| - sizes.first
            else sizes.last <= length < sizes.last + sizes.block
    ensures (exists i :: 0 <= i < |calls| && calls[i].Next?) <==> |message| >= sizes.first + sizes.block + sizes.last
    ensures (exists i :: 0 <= i < |calls| && calls[i].First?) <==> |message| >= sizes.first
  {
    if |message| >= sizes.first {
      var t := |message| - sizes.first;
      var n := |calls| - 1;
      var mid := calls[1..n];
      HeldSmall(t, sizes);
      NextsTotal(mid, sizes.block);
      assert calls[0].First?;
      if t >= sizes.block + sizes.last {
        assert |Data(mid)| > 0;
        assert mid != [];
        assert mid[0] == calls[1];
      } else {
        assert |Data(mid)| == 0;
        assert mid == [];
      }
      forall i | 0 <= i < |calls| && calls[i].Next? ensures mid != [] {
        assert i != 0 && i != n;
        assert mid[i - 1] == calls[i];
      }
    }
  }

  lemma HeldSmall(t: nat, sizes: Sizes)
    requires sizes.block >= 1
    ensures t < sizes.block + sizes.last ==> Held(t, sizes) == t
    ensures t >= sizes.last ==> sizes.last <= Held(t, sizes) < sizes.last + sizes.block
  {
    if t >= sizes.last {
      DivMod(t - sizes.last, sizes.block);
      if t < sizes.block + sizes.last { DivModUnique(t - sizes.last, sizes.block, 0, t - sizes.last); }
    }
  }

  /** Two ways of splitting the same message differ only in how the middle blocks are grouped. */
  lemma SplitIndependent(calls: seq<Call>, calls': seq<Call>, message: seq<byte>, sizes: Sizes)
    requires sizes.block >= 1 && Complete(calls, message, sizes) && Complete(calls', message, sizes)
    ensures calls != [] && calls' != [] && calls[0] == calls'[0] && calls[|calls| - 1] == calls'[|calls'| - 1]
    ensures |message| >= sizes.first ==>
              |calls| >= 2 && |calls'| >= 2 && Data(calls[1..|calls| - 1]) == Data(calls'[1..|calls'| - 1])
  {
  }

  // ---- The filter -------------------------------------------------------------

  /** The calls made so far for a message of which received has arrived and pending is still queued. */
  ghost predicate InProgress(calls: seq<Call>, received: seq<byte>, pending: seq<byte>, sizes: Sizes)
    requires sizes.block >= 1
  {
    && |received| >= sizes.first && |calls| >= 1
    && calls[0] == First(received[..sizes.first])
    && WholeNexts(calls[1..], sizes.block)
    && Data(calls[1..]) + pending == received[sizes.first..]
  }

  /** Enough is held back, but less than a block too much. */
  ghost predicate HoldsBack(calls: seq<Call>, pending: nat, sizes: Sizes) {
    && pending < sizes.block + sizes.last
    && (|calls| > 1 ==> pending >= sizes.last)
  }

  lemma FirstCall(received: seq<byte>, pending: seq<byte>, sizes: Sizes)
    requires sizes.block >= 1 && |received| >= sizes.first && pending == received[sizes.first..]
    ensures InProgress([First(received[..sizes.first])], received, pending, sizes)
  {
  }

  lemma NextCall(calls: seq<Call>, received: seq<byte>, pending: seq<byte>, sizes: Sizes, k: nat)
    requires sizes.block >= 1 && InProgress(calls, received, pending, sizes)
    requires 0 < k <= |pending| && k % sizes.block == 0
    ensures InProgress(calls + [Next(pending[..k])], received, pending[k..], sizes)
  {
    var c := Next(pending[..k]);
    assert (calls + [c])[1..] == calls[1..] + [c];
    DataAppend(calls[1..], c);
    hide Data;
    AppendAssociative(Data(calls[1..]), pending[..k], pending[k..]);
    assert pending == pending[..k] + pending[k..];
  }

  lemma LastCall(calls: seq<Call>, received: seq<byte>, pending: seq<byte>, sizes: Sizes)
    requires sizes.block >= 1 && InProgress(calls, received, pending, sizes) && HoldsBack(calls, |pending|, sizes)
    ensures Complete(calls + [Last(pending)], received, sizes)
  {
    var mid := calls[1..];
    NextsTotal(mid, sizes.block);
    HeldUnique(|received| - sizes.first, |Data(mid)|, |pending|, sizes);
    var all := calls + [Last(pending)];
    assert all[1..|all| - 1] == mid;
    var rest := received[sizes.first..];
    assert Data(mid) == rest[..|Data(mid)|] && pending == rest[|Data(mid)|..];
  }

  /** The number of blocks ResetQueue is given for the middle of a message. */
  function QueueBlocks(sizes: Sizes): nat requires sizes.block >= 1 {
    (2 * sizes.block + sizes.last - 2) / sizes.block
  }

  ghost predicate HasRoom(length: nat, sizes: Sizes) {
    sizes.block + sizes.last <= length + 1 && (sizes.block > 1 ==> sizes.block <= length)
  }

  /** That queue has room for all that is ever held back. */
  lemma QueueRoom(sizes: Sizes)
    requires sizes.block >= 1
    ensures HasRoom(sizes.block * QueueBlocks(sizes), sizes)
  {
    if sizes.block > 1 { MulMono(1, QueueBlocks(sizes), sizes.block); }
    DivMod(2 * sizes.block + sizes.last - 2, sizes.block);
    assert QueueBlocks(sizes) * sizes.block == sizes.block * QueueBlocks(sizes);
  }

  class FilterWithBufferedInput {
    var sizes: Sizes
    var firstInputDone: bool
    const queue: BlockQueue
    var calls: seq<Call>
    var messages: seq<seq<Call>>
    ghost var received: seq<byte>

    ghost predicate Valid()
      reads this, queue, queue.buffer
    {
      && sizes.block >= 1 && queue.Valid()
      && if firstInputDone then Splitting([]) && queue.size < sizes.block + sizes.last
         else
           && queue.blockSize == 1 && queue.maxBlocks == sizes.first && queue.begin == 0
           && queue.buffer.Length == sizes.first
           && calls == [] && queue.Contents() == received
           && (|received| < sizes.first || received == [])
    }

    /** Inside a call of Put: rest is the part of its argument not yet dealt with. */
    ghost predicate Splitting(rest: seq<byte>)
      reads this, queue, queue.buffer
    {
      && sizes.block >= 1 && queue.Valid() && firstInputDone
      && queue.blockSize == sizes.block && queue.maxBlocks == QueueBlocks(sizes)
      && HasRoom(queue.buffer.Length, sizes)
      && InProgress(calls, received, queue.Contents() + rest, sizes)
      && (|calls| > 1 ==> queue.size + |rest| >= sizes.last)
    }

    constructor (sizes: Sizes)
      requires sizes.block >= 1
      ensures Valid() && this.sizes == sizes && received == [] && messages == []
      ensures fresh(queue) && fresh(queue.buffer)
    {
      this.sizes := sizes;
      firstInputDone := false;
      queue := new BlockQueue(1, sizes.first);
      calls := [];
      messages := [];
      received := [];
    }

    /** The first branch of PutMaybeModifiable: complete the first part and set up the block queue. */
    method TakeFirst(input: seq<byte>) returns (rest: seq<byte>)
      requires Valid() && !firstInputDone && |input| > 0 && queue.size + |input| >= sizes.first
      modifies this, queue, queue.buffer
      ensures Splitting(rest) && sizes == old(sizes) && messages == old(messages)
      ensures received == old(received) + input && fresh(queue.buffer)
      ensures queue.size == 0
    {
      hide InProgress, WholeBlocks, Ring;
      var len := sizes.first - queue.size;
      received := received + input;
      var first := FillFirst(input[..len]);
      assert first == received[..sizes.first];
      sizes := sizes.(first := |first|);
      calls := calls + [First(first)];
      queue.ResetQueue(sizes.block, QueueBlocks(sizes));
      rest := input[len..];
      firstInputDone := true;
      QueueRoom(sizes);
      assert queue.Contents() + rest == received[sizes.first..];
      FirstCall(received, queue.Contents() + rest, sizes);
      assert calls == [First(received[..sizes.first])];
    }

    /** The queue before the first part is complete, topped up and emptied. */
    method FillFirst(input: seq<byte>) returns (first: seq<byte>)
      requires queue.Valid() && queue.blockSize == 1 && queue.begin == 0
      requires queue.buffer.Length == sizes.first == queue.size + |input|
      modifies queue, queue.buffer
      ensures first == old(queue.Contents()) + input
    {
      hide WholeBlocks, Ring;
      queue.Put(input);
      ghost var front := queue.Contents();
      first := queue.GetContigousBlocks(sizes.first);
      assert |first| == |front| && queue.Contents() == [];
    }

    /** Hand data, the front of what is pending, to NextPut. */
    method NextPut(data: seq<byte>, ghost pending: seq<byte>)
      requires sizes.block >= 1 && InProgress(calls, received, data + pending, sizes)
      requires 0 < |data| && |data| % sizes.block == 0
      modifies this`calls
      ensures InProgress(calls, received, pending, sizes) && |calls| > 1
    {
      NextCall(calls, received, data + pending, sizes, |data|);
      assert (data + pending)[..|data|] == data && (data + pending)[|data|..] == pending;
      calls := calls + [Next(data)];
    }

    /** The middle of a message when blockSize is 1. */
    method EmitBytes(input: seq<byte>) returns (rest: seq<byte>)
      requires Splitting(input) && sizes.block == 1
      modifies this`calls, queue
      ensures Splitting(rest) && queue.buffer == old(queue.buffer)
      ensures queue.size + |rest| <= sizes.last
    {
      hide InProgress;
      rest := input;
      var newLength := queue.size + |input|;
      while newLength > sizes.last && queue.size > 0
        invariant Splitting(rest) && rest == input && queue.buffer == old(queue.buffer)
        invariant newLength == queue.size + |rest|
        decreases queue.size
      {
        ghost var pending := queue.Contents() + rest;
        var data := queue.GetContigousBlocks(newLength - sizes.last);
        assert pending == data + (queue.Contents() + rest);
        NextPut(data, queue.Contents() + rest);
        newLength := newLength - |data|;
      }
      if newLength > sizes.last {
        var len := newLength - sizes.last;
        assert queue.Contents() == [] && queue.Contents() + rest == rest[..len] + (queue.Contents() + rest[len..]);
        NextPut(rest[..len], queue.Contents() + rest[len..]);
        rest := rest[len..];
      }
    }

    /** The middle of a message when blockSize is larger. */
    method EmitBlocks(input: seq<byte>) returns (rest: seq<byte>)
      requires Splitting(input) && sizes.block > 1
      modifies this`calls, queue, queue.buffer
      ensures Splitting(rest) && queue.buffer == old(queue.buffer)
      ensures queue.size + |rest| < sizes.block + sizes.last
    {
      hide InProgress;
      rest := input;
      var newLength := queue.size + |input|;
      while newLength >= sizes.block + sizes.last && queue.size >= sizes.block
        invariant Splitting(rest) && rest == input && queue.buffer == old(queue.buffer)
        invariant newLength == queue.size + |rest|
        decreases queue.size
      {
        EmitQueuedBlock(rest);
        newLength := newLength - sizes.block;
      }
      if newLength >= sizes.block + sizes.last && queue.size > 0 {
        rest := EmitCompletedBlock(rest);
        newLength := newLength - sizes.block;
      }
      if newLength >= sizes.block + sizes.last {
        rest := EmitDirect(rest);
      }
    }

    method EmitQueuedBlock(ghost rest: seq<byte>)
      requires Splitting(rest) && queue.size >= sizes.block && queue.size + |rest| >= sizes.block + sizes.last
      modifies this`calls, queue`begin, queue`size
      ensures Splitting(rest) && queue.size == old(queue.size) - sizes.block
    {
      hide InProgress;
      ghost var pending := queue.Contents() + rest;
      var found, block := queue.GetBlock();
      assert pending == block + (queue.Contents() + rest);
      BlockIsWhole(sizes.block);
      NextPut(block, queue.Contents() + rest);
    }

    /** Complete the partial block in the queue and send it. */
    method EmitCompletedBlock(input: seq<byte>) returns (rest: seq<byte>)
      requires Splitting(input) && sizes.block > 1
      requires queue.size < sizes.block && queue.size + |input| >= sizes.block + sizes.last
      modifies this`calls, queue`begin, queue`size, queue.buffer
      ensures Splitting(rest) && queue.size == 0 && |rest| == old(queue.size) + |input| - sizes.block
    {
      hide InProgress, WholeBlocks, Ring;
      var len := sizes.block - queue.size;
      assert queue.Contents() + input == queue.Contents() + input[..len] + input[len..];
      queue.Put(input[..len]);
      rest := input[len..];
      EmitQueuedBlock(rest);
    }

    /** Blocks that never enter the queue. */
    method EmitDirect(input: seq<byte>) returns (rest: seq<byte>)
      requires Splitting(input) && queue.size == 0 && |input| >= sizes.block + sizes.last
      modifies this`calls
      ensures Splitting(rest) && |rest| < sizes.block + sizes.last
    {
      hide InProgress;
      var len := RoundDownToMultipleOf(|input| - sizes.last, sizes.block);
      assert queue.Contents() == [] && queue.Contents() + input == input[..len] + (queue.Contents() + input[len..]);
      NextPut(input[..len], queue.Contents() + input[len..]);
      rest := input[len..];
    }

    /** The middle of a message: send what can be sent and queue the rest. */
    method SplitMiddle(input: seq<byte>)
      requires Splitting(input) && queue.size < sizes.block + sizes.last
      modifies this`calls, queue, queue.buffer
      ensures Splitting([]) && queue.size < sizes.block + sizes.last && queue.buffer == old(queue.buffer)
    {
      hide InProgress, WholeBlocks, Ring;
      var rest;
      if sizes.block == 1 {
        rest := EmitBytes(input);
      } else {
        rest := EmitBlocks(input);
      }
      queue.Put(rest);
      assert queue.Contents() + [] == queue.Contents();
    }

    /** One call of PutMaybeModifiable without message end. */
    method Put(input: seq<byte>)
      requires Valid()
      modifies this, queue, queue.buffer
      ensures Valid() && sizes == old(sizes) && messages == old(messages)
      ensures received == old(received) + input
      ensures queue.buffer == old(queue.buffer) || fresh(queue.buffer)
    {
      if input == [] { assert received + [] == received; return; }
      hide WholeBlocks, Ring;
      if !firstInputDone && queue.size + |input| >= sizes.first {
        var rest := TakeFirst(input);
        SplitMiddle(rest);
      } else if firstInputDone {
        received := received + input;
        assert Splitting(input) by { MoreInput(calls, old(received), queue.Contents(), input, sizes); }
        SplitMiddle(input);
      } else {
        received := received + input;
        queue.Put(input);
      }
    }

    /** Message end: LastPut gets what was held back, and the filter is ready for the next message. */
    method MessageEnd()
      requires Valid()
      modifies this, queue
      ensures Valid() && sizes == old(sizes) && received == [] && fresh(queue.buffer)
      ensures |messages| == |old(messages)| + 1 && messages[..|old(messages)|] == old(messages)
      ensures Complete(messages[|old(messages)|], old(received), sizes)
    {
      hide InProgress, WholeBlocks, Ring, Complete;
      ghost var pending := queue.Contents();
      if !firstInputDone && sizes.first == 0 {
        FirstCall(received, pending, sizes);
        calls := calls + [First([])];
        assert calls == [First(received[..sizes.first])];
      } else if firstInputDone {
        assert pending + [] == pending;
      }
      assert firstInputDone || sizes.first == 0 ==> InProgress(calls, received, pending, sizes);
      var temp := queue.GetAll();
      assert Complete(calls + [Last(temp)], received, sizes) by {
        if firstInputDone || sizes.first == 0 {
          LastCall(calls, received, pending, sizes);
        } else {
          ShortMessage(received, sizes);
          assert calls + [Last(temp)] == [Last(received)];
        }
      }
      messages := messages + [calls + [Last(temp)]];
      calls := [];
      firstInputDone := false;
      queue.ResetQueue(1, sizes.first);
      received := [];
    }
  }

  lemma MoreInput(calls: seq<Call>, received: seq<byte>, pending: seq<byte>, input: seq<byte>, sizes: Sizes)
    requires sizes.block >= 1 && InProgress(calls, received, pending + [], sizes)
    ensures InProgress(calls, received + input, pending + input, sizes)
  {
    assert pending + [] == pending;
    assert (received + input)[..sizes.first] == received[..sizes.first];
    assert (received + input)[sizes.first..] == received[sizes.first..] + input;
    assert Data(calls[1..]) + (pending + input) == Data(calls[1..]) + pending + input;
  }

  lemma ShortMessage(received: seq<byte>, sizes: Sizes)
    requires sizes.block >= 1 && |received| < sizes.first
    ensures Complete([Last(received)], received, sizes)
  {
  }

  /** A message put in any pieces, then ended: the calls are those the message determines. */
  method FilterMessage(filter: FilterWithBufferedInput, pieces: seq<seq<byte>>)
    requires filter.Valid() && filter.received == []
    modifies filter, filter.queue, filter.queue.buffer
    ensures filter.Valid() && filter.received == [] && filter.sizes == old(filter.sizes)
    ensures |filter.messages| == |old(filter.messages)| + 1
    ensures Complete(filter.messages[|old(filter.messages)|], Concat(pieces), filter.sizes)
  {
    assert pieces[..0] == [];
    for i := 0 to |pieces|
      invariant filter.Valid() && filter.sizes == old(filter.sizes) && filter.messages == old(filter.messages)
      invariant filter.received == Concat(pieces[..i])
      invariant filter.queue.buffer == old(filter.queue.buffer) || fresh(filter.queue.buffer)
    {
      filter.Put(pieces[i]);
      assert pieces[..i + 1][..i] == pieces[..i];
    }
    assert pieces[..|pieces|] == pieces;
    filter.MessageEnd();
  }

  function RoundDownToMultipleOf(n: nat, m: nat): (r: nat)
    requires m >= 1
    ensures r <= n < r + m && r % m == 0
    ensures n >= m ==> r >= m
  {
    DivMod(n, m);
    DivModUnique(n - n % m, m, n / m, 0);
    if n >= m then (DivLower(n, m); n - n % m) else n - n % m
  }

  lemma DivLower(n: nat, m: nat)
    requires n >= m >= 1
    ensures n - n % m >= m
  {
    DivMod(n, m);
    if n / m == 0 { assert false; }
    MulMono(1, n / m, m);
  }

  lemma BlockIsWhole(m: nat)
    requires m >= 1
    ensures m % m == 0
  {
    DivModUnique(m, m, 1, 0);
  }
}
