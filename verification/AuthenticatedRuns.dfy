/** Whole runs of an authenticated cipher object. */
module AuthenticatedRuns {
  import opened Bytes
  import opened AuthenticatedCipher
  import opened Sequences

  function Run(m: Mode, forward: bool, s: Session, cs: seq<Command>): (r: (Session, seq<Reply>))
    requires m.blockSize >= 1
    ensures |r.1| == |cs|
    decreases |cs|
  {
    if cs == [] then (s, [])
    else
      var (next, reply) := Step(m, forward, s, cs[0]);
      var (last, replies) := Run(m, forward, next, cs[1..]);
      (last, [reply] + replies)
  }

  lemma {:induction false} RunAppend(m: Mode, forward: bool, s: Session, a: seq<Command>, b: seq<Command>)
    requires m.blockSize >= 1
    ensures var (mid, ra) := Run(m, forward, s, a);
            var (last, rb) := Run(m, forward, mid, b);
            Run(m, forward, s, a + b) == (last, ra + rb)
    decreases |a|
  {
    hide Step;
    if a == [] {
      assert a + b == b;
      assert [] + Run(m, forward, s, b).1 == Run(m, forward, s, b).1;
    } else {
      RunFirst(m, forward, s, a);
      RunFirst(m, forward, s, a + b);
      hide Run;
      var (next, reply) := Step(m, forward, s, a[0]);
      RunAppend(m, forward, next, a[1..], b);
      assert (a + b)[0] == a[0] && (a + b)[1..] == a[1..] + b;
      var (mid, ra) := Run(m, forward, next, a[1..]);
      AppendAssociative([reply], ra, Run(m, forward, mid, b).1);
    }
  }

  // ---- Data in chunks --------------------------------------------------------------------------

  function Updates(parts: seq<seq<byte>>): seq<Command> {
    seq(|parts|, i requires 0 <= i < |parts| => Update(parts[i]))
  }

  function Processes(parts: seq<seq<byte>>): seq<Command> {
    seq(|parts|, i requires 0 <= i < |parts| => ProcessData(parts[i]))
  }

  /** All bytes that came out. */
  function Outputs(rs: seq<Reply>): seq<byte> {
    if rs == [] then [] else (if rs[0].Output? then rs[0].out else []) + Outputs(rs[1..])
  }

  lemma {:induction false} OutputsAppend(a: seq<Reply>, b: seq<Reply>)
    ensures Outputs(a + b) == Outputs(a) + Outputs(b)
  {
    if a == [] {
      assert a + b == b;
    } else {
      OutputsFirst(a[0], a[1..]);
      OutputsFirst(a[0], a[1..] + b);
      hide Outputs;
      OutputsAppend(a[1..], b);
      assert a == [a[0]] + a[1..];
      assert a + b == [a[0]] + (a[1..] + b);
      var first := if a[0].Output? then a[0].out else [];
      assert first + (Outputs(a[1..]) + Outputs(b)) == (first + Outputs(a[1..])) + Outputs(b);
    }
  }

  lemma TransformSplit(m: Mode, key: seq<byte>, iv: seq<byte>, at: nat, a: seq<byte>, b: seq<byte>)
    ensures m.Transform(key, iv, at, a + b) == m.Transform(key, iv, at, a) + m.Transform(key, iv, at + |a|, b)
  {}

  lemma TransformInvolution(m: Mode, key: seq<byte>, iv: seq<byte>, at: nat, d: seq<byte>)
    requires m.Valid()
    ensures m.Transform(key, iv, at, m.Transform(key, iv, at, d)) == d
  {
    forall i | 0 <= i < |d|
      ensures m.transform(key, iv, at + i, m.transform(key, iv, at + i, d[i])) == d[i]
    {
      assert m.SelfInverse(key, iv, at + i, d[i]);
    }
  }

  lemma RunFirst(m: Mode, forward: bool, s: Session, cs: seq<Command>)
    requires m.blockSize >= 1 && cs != []
    ensures var (next, r) := Step(m, forward, s, cs[0]);
            var (last, rs) := Run(m, forward, next, cs[1..]);
            Run(m, forward, s, cs) == (last, [r] + rs)
  {
    hide Step;
  }

  lemma OutputsFirst(r: Reply, rs: seq<Reply>)
    ensures Outputs([r] + rs) == (if r.Output? then r.out else []) + Outputs(rs)
  {
    assert ([r] + rs)[1..] == rs;
  }

  lemma RunSingle(m: Mode, forward: bool, s: Session, c: Command)
    requires m.blockSize >= 1
    ensures var (next, r) := Step(m, forward, s, c); Run(m, forward, s, [c]) == (next, [r])
  {
    hide Step;
    var cs := [c];
    var (next, r) := Step(m, forward, s, cs[0]);
    assert cs[1..] == [];
    assert Run(m, forward, next, cs[1..]) == (next, []);
    assert [r] + [] == [r];
  }

  lemma TransformNothing(m: Mode, key: seq<byte>, iv: seq<byte>, at: nat)
    ensures m.Transform(key, iv, at, []) == []
  {}

  lemma NoChunks(m: Mode, forward: bool, s: Session)
    requires m.blockSize >= 1
    ensures Run(m, forward, s, []) == (s, []) && Outputs([]) == [] && Concat<byte>([]) == [] && Updates([]) == [] && Processes([]) == []
  {}

  lemma FirstUpdate(parts: seq<seq<byte>>)
    requires parts != []
    ensures Concat(parts) == parts[0] + Concat(parts[1..])
    ensures Updates(parts) != [] && Updates(parts)[0] == Update(parts[0]) && Updates(parts)[1..] == Updates(parts[1..])
  {
    ConcatFirst(parts);
  }

  lemma FirstProcess(parts: seq<seq<byte>>)
    requires parts != []
    ensures Concat(parts) == parts[0] + Concat(parts[1..])
    ensures Processes(parts) != [] && Processes(parts)[0] == ProcessData(parts[0]) && Processes(parts)[1..] == Processes(parts[1..])
  {
    ConcatFirst(parts);
  }

  lemma RunParts(m: Mode, forward: bool, s: Session, a: Command, b: seq<Command>, c: seq<Command>, d: Command)
    requires m.blockSize >= 1
    ensures var s1 := Step(m, forward, s, a);
            var s2 := Run(m, forward, s1.0, b);
            var s3 := Run(m, forward, s2.0, c);
            var s4 := Step(m, forward, s3.0, d);
            Run(m, forward, s, [a] + (b + (c + [d]))) == (s4.0, [s1.1] + (s2.1 + (s3.1 + [s4.1])))
  {
    hide *;
    var s1 := Step(m, forward, s, a);
    var s2 := Run(m, forward, s1.0, b);
    var s3 := Run(m, forward, s2.0, c);
    RunSingle(m, forward, s, a);
    RunSingle(m, forward, s3.0, d);
    RunAppend(m, forward, s2.0, c, [d]);
    RunAppend(m, forward, s1.0, b, c + [d]);
    RunAppend(m, forward, s, [a], b + (c + [d]));
  }

  lemma OutputsSandwich(a: Reply, b: seq<Reply>, c: seq<Reply>, d: Reply)
    requires !a.Output? && !d.Output? && Outputs(b) == []
    ensures Outputs([a] + (b + (c + [d]))) == Outputs(c)
  {
    OutputsAppend(c, [d]);
    OutputsAppend(b, c + [d]);
    OutputsAppend([a], b + (c + [d]));
    assert [a][1..] == [] && [d][1..] == [];
    assert Outputs(c) + [] == Outputs(c) && [] + Outputs(c) == Outputs(c);
  }
}
