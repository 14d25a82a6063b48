/** Grouper of basecode.cpp: separators between groups of characters, and a terminator at the end. */
module Groupers {
  import opened Bytes
  import opened Sinks
  import opened Sequences

  /** s with separators, when c characters of the current group have passed. */
  function Grouped(s: seq<byte>, size: nat, separator: seq<byte>, c: nat): seq<byte>
    requires size >= 1
    decreases |s|, c
  {
    if s == [] then []
    else if c >= size then separator + Grouped(s, size, separator, 0)
    else [s[0]] + Grouped(s[1..], size, separator, c + 1)
  }

  /** How many characters of the current group have passed after s. */
  function CountAfter(s: seq<byte>, size: nat, c: nat): nat
    requires size >= 1
    decreases |s|, c
  {
    if s == [] then c
    else if c >= size then CountAfter(s, size, 0)
    else CountAfter(s[1..], size, c + 1)
  }

  lemma {:induction false} GroupedAppend(a: seq<byte>, b: seq<byte>, size: nat, separator: seq<byte>, c: nat)
    requires size >= 1
    ensures Grouped(a + b, size, separator, c) == Grouped(a, size, separator, c) + Grouped(b, size, separator, CountAfter(a, size, c))
    ensures CountAfter(a + b, size, c) == CountAfter(b, size, CountAfter(a, size, c))
    decreases |a|, c
  {
    if a == [] {
      assert a + b == b;
    } else if c >= size {
      GroupedAppend(a, b, size, separator, 0);
    } else {
      UnfoldCharacter(a, size, separator, c);
      UnfoldCharacter(a + b, size, separator, c);
      hide Grouped, CountAfter;
      GroupedAppend(a[1..], b, size, separator, c + 1);
      assert (a + b)[1..] == a[1..] + b;
    }
  }

  /** What fits into the current group passes unchanged. */
  lemma {:induction false} GroupedTake(s: seq<byte>, n: nat, size: nat, separator: seq<byte>, c: nat)
    requires size >= 1 && n <= |s| && c + n <= size
    ensures Grouped(s, size, separator, c) == s[..n] + Grouped(s[n..], size, separator, c + n)
    ensures CountAfter(s, size, c) == CountAfter(s[n..], size, c + n)
    decreases n
  {
    hide *;
    if n == 0 {
      assert s[0..] == s && [] + Grouped(s, size, separator, c) == Grouped(s, size, separator, c);
    } else {
      UnfoldCharacter(s, size, separator, c);
      GroupedTake(s[1..], n - 1, size, separator, c + 1);
      TakeOne(s, n, Grouped(s[n..], size, separator, c + n));
    }
  }

  lemma TakeOne(s: seq<byte>, n: nat, more: seq<byte>)
    requires 1 <= n <= |s|
    ensures s[1..][n - 1..] == s[n..] && [s[0]] + (s[1..][..n - 1] + more) == s[..n] + more
  {
    assert s[..n] == [s[0]] + s[1..][..n - 1];
  }

  /** A group size of zero means no groups. */
  function GroupBody(s: seq<byte>, size: nat, separator: seq<byte>): seq<byte> {
    if size == 0 then s else Grouped(s, size, separator, 0)
  }

  lemma {:induction false} CountBound(s: seq<byte>, size: nat, c: nat)
    requires size >= 1 && c <= size
    ensures CountAfter(s, size, c) <= size
    decreases |s|, c
  {
    if s != [] {
      if c >= size { CountBound(s, size, 0); } else { CountBound(s[1..], size, c + 1); }
    }
  }

  class Grouper {
    const groupSize: nat
    const separator: seq<byte>
    const terminator: seq<byte>
    const sink: Sink
    var counter: nat
    var inputPosition: nat
    var continueAt: nat
    /** The output before this text, and all characters of the text, including those of the call at work. */
    ghost var start: seq<byte>
    ghost var text: seq<byte>
    /** The arguments of the last call. */
    ghost var begin: seq<byte>
    ghost var end: bool

    /** The state in the loop: what is left of the input completes the groups. */
    ghost predicate InGroups()
      reads this, sink
    {
      && groupSize >= 1 && counter <= groupSize && inputPosition <= |begin|
      && sink.output + Grouped(begin[inputPosition..], groupSize, separator, counter) == start + Grouped(text, groupSize, separator, 0)
      && CountAfter(begin[inputPosition..], groupSize, counter) == CountAfter(text, groupSize, 0)
    }

    /** All input so far has been passed on. */
    ghost predicate AllPassed()
      reads this, sink
    {
      && sink.output == start + GroupBody(text, groupSize, separator)
      && (groupSize >= 1 ==> counter == CountAfter(text, groupSize, 0))
    }

    ghost predicate Valid()
      reads this, sink
    {
      && continueAt <= 4
      && (continueAt == 0 ==> AllPassed())
      && (continueAt == 1 || continueAt == 2 ==> InGroups() && inputPosition < |begin| && (counter == groupSize <==> continueAt == 1))
      && (continueAt == 3 ==> groupSize == 0 && sink.output + begin == start + text)
      && (continueAt == 4 ==> end && AllPassed())
    }

    constructor (groupSize: nat, separator: seq<byte>, terminator: seq<byte>, sink: Sink)
      ensures Valid() && continueAt == 0 && text == [] && start == sink.output
      ensures this.groupSize == groupSize && this.separator == separator && this.terminator == terminator && this.sink == sink
    {
      this.groupSize, this.separator, this.terminator, this.sink := groupSize, separator, terminator, sink;
      counter, inputPosition, continueAt := 0, 0, 0;
      start, text, begin, end := sink.output, [], [], false;
      new;
      assert start + [] == start;
    }

    /** The output of a separator. */
    method OutputSeparator() returns (blocked: bool)
      requires InGroups() && inputPosition < |begin| && counter == groupSize
      modifies this`counter, this`continueAt, sink
      ensures |sink.script| <= |old(sink.script)| && (blocked ==> |sink.script| < |old(sink.script)|)
      ensures InGroups() && (blocked ==> continueAt == 1 && counter == groupSize) && (!blocked ==> continueAt == 0 && counter == 0)
    {
      ghost var rest := begin[inputPosition..];
      ghost var before := sink.output;
      hide Grouped, CountAfter;
      blocked := sink.Put(separator, false);
      if blocked {
        continueAt := 1;
        return;
      }
      UnfoldSeparator(rest, groupSize, separator);
      AppendAssociative(before, separator, Grouped(rest, groupSize, separator, 0));
      continueAt, counter := 0, 0;
    }

    /** The output of as much as belongs to the current group. */
    method OutputGroup(input: seq<byte>) returns (blocked: bool)
      requires InGroups() && input == begin && inputPosition < |begin| && counter < groupSize
      modifies this`counter, this`continueAt, this`inputPosition, sink
      ensures |sink.script| <= |old(sink.script)| && (blocked ==> |sink.script| < |old(sink.script)|)
      ensures InGroups() && inputPosition >= old(inputPosition)
      ensures blocked ==> continueAt == 2 && counter < groupSize && inputPosition < |begin|
      ensures !blocked ==> continueAt == 0 && inputPosition > old(inputPosition)
    {
      hide Grouped, CountAfter;
      ghost var rest := begin[inputPosition..];
      ghost var before := sink.output;
      var len := Min(|input| - inputPosition, groupSize - counter);
      var group := input[inputPosition..inputPosition + len];
      blocked := sink.Put(group, false);
      if blocked {
        continueAt := 2;
        return;
      }
      GroupedTake(rest, len, groupSize, separator, counter);
      assert rest[..len] == group && rest[len..] == begin[inputPosition + len..];
      ghost var more := Grouped(rest[len..], groupSize, separator, counter + len);
      AppendAssociative(before, group, more);
      continueAt, inputPosition, counter := 0, inputPosition + len, counter + len;
    }

    /** The loop over groups, from where the last call stopped. */
    method PassGroups(input: seq<byte>) returns (blocked: bool)
      requires InGroups() && input == begin
      requires continueAt == 1 ==> counter == groupSize && inputPosition < |begin|
      requires continueAt == 2 ==> counter < groupSize && inputPosition < |begin|
      requires continueAt <= 2
      modifies this`counter, this`continueAt, this`inputPosition, sink
      ensures |sink.script| <= |old(sink.script)| && (blocked ==> |sink.script| < |old(sink.script)|)
      ensures blocked ==> Valid() && (continueAt == 1 || continueAt == 2)
      ensures !blocked ==> continueAt == 0 && AllPassed()
    {
      hide Grouped, CountAfter;
      if continueAt == 1 {
        blocked := OutputSeparator();
        if blocked { return; }
        blocked := OutputGroup(input);
        if blocked { return; }
      } else if continueAt == 2 {
        blocked := OutputGroup(input);
        if blocked { return; }
      }
      while inputPosition < |input|
        invariant InGroups() && continueAt == 0 && |sink.script| <= |old(sink.script)|
        decreases |input| - inputPosition
      {
        if counter == groupSize {
          blocked := OutputSeparator();
          if blocked { return; }
        }
        blocked := OutputGroup(input);
        if blocked { return; }
      }
      NoneLeft(groupSize, separator, counter);
      assert begin[inputPosition..] == [] && sink.output + [] == sink.output;
      blocked := false;
    }

    /** A new call adds its input to the text. */
    ghost method TakeIn(input: seq<byte>, messageEnd: bool)
      requires Valid() && continueAt == 0 && inputPosition == 0
      modifies this`text, this`begin, this`end
      ensures text == old(text) + input && begin == input && end == messageEnd
      ensures groupSize >= 1 ==> InGroups()
      ensures groupSize == 0 ==> sink.output + begin == start + text
    {
      hide Grouped, CountAfter;
      if groupSize >= 1 {
        GroupedAppend(text, input, groupSize, separator, 0);
        CountBound(text, groupSize, 0);
        ghost var body, more := Grouped(text, groupSize, separator, 0), Grouped(input, groupSize, separator, counter);
        assert input[0..] == input;
        AppendAssociative(start, body, more);
      }
      text, begin, end := text + input, input, messageEnd;
    }

    /** Everything before the terminator. */
    method PassInput(input: seq<byte>, messageEnd: bool) returns (blocked: bool)
      requires Valid() && continueAt != 4 && (continueAt != 0 ==> input == begin && messageEnd == end)
      modifies this`counter, this`continueAt, this`inputPosition, this`text, this`begin, this`end, sink
      ensures |sink.script| <= |old(sink.script)| && (blocked ==> |sink.script| < |old(sink.script)|)
      ensures text == (if old(continueAt) == 0 then old(text) + input else old(text)) && begin == input && end == messageEnd
      ensures blocked ==> Valid() && continueAt != 0
      ensures !blocked ==> continueAt == 0 && AllPassed()
    {
      hide Grouped, CountAfter;
      if continueAt == 0 {
        inputPosition := 0;
        TakeIn(input, messageEnd);
      }
      if groupSize != 0 {
        blocked := PassGroups(input);
      } else {
        blocked := sink.Put(input, false);
        continueAt := if blocked then 3 else 0;
      }
    }

    method Put2(input: seq<byte>, messageEnd: bool) returns (blocked: bool)
      requires Valid() && (continueAt != 0 ==> input == begin && messageEnd == end)
      modifies this, sink
      ensures Valid() && (blocked <==> continueAt != 0)
      ensures |sink.script| <= |old(sink.script)| && (blocked ==> |sink.script| < |old(sink.script)|)
      ensures blocked ==> begin == input && end == messageEnd
      ensures var all := if old(continueAt) == 0 then old(text) + input else old(text);
              if !blocked && messageEnd
              then text == [] && start == sink.output == old(start) + (GroupBody(all, groupSize, separator) + terminator)
              else text == all && start == old(start)
    {
      hide Grouped, CountAfter;
      if continueAt != 4 {
        blocked := PassInput(input, messageEnd);
        if blocked || !messageEnd { return; }
      }
      ghost var body := GroupBody(text, groupSize, separator);
      AppendAssociative(start, body, terminator);
      blocked := sink.Put(terminator, true);
      if blocked {
        continueAt := 4;
        return;
      }
      continueAt, counter := 0, 0;
      start, text := sink.output, [];
      if groupSize >= 1 { NoneLeft(groupSize, separator, 0); }
      assert start + [] == start;
    }
  }

  lemma UnfoldCharacter(s: seq<byte>, size: nat, separator: seq<byte>, c: nat)
    requires c < size && s != []
    ensures Grouped(s, size, separator, c) == [s[0]] + Grouped(s[1..], size, separator, c + 1)
    ensures CountAfter(s, size, c) == CountAfter(s[1..], size, c + 1)
  {}

  lemma UnfoldSeparator(s: seq<byte>, size: nat, separator: seq<byte>)
    requires size >= 1 && s != []
    ensures Grouped(s, size, separator, size) == separator + Grouped(s, size, separator, 0)
    ensures CountAfter(s, size, size) == CountAfter(s, size, 0)
  {}

  lemma NoneLeft(size: nat, separator: seq<byte>, c: nat)
    requires size >= 1
    ensures Grouped([], size, separator, c) == [] && CountAfter([], size, c) == c
  {}
}
