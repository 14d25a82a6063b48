/** One message through an authenticated cipher object, however it is cut into calls, and agreement of the two directions. */
module AuthenticatedMessages {
  import opened Bytes
  import opened Sequences
  import opened Wrappers
  import opened AuthenticatedCipher
  import opened AuthenticatedRuns

  // ---- What the authenticator is given ------------------------------------------------------------

  /** An object for one direction, with its key and IV. */
  datatype Party = Party(mode: Mode, forward: bool, key: seq<byte>, iv: seq<byte>)
  {
    /** The cipher on t, from the start of the message. */
    function Cipher(t: seq<byte>): (r: seq<byte>)
      ensures |r| == |t|
    {
      mode.Transform(key, iv, 0, t)
    }

    /** The side of the cipher that is authenticated, for an input t. */
    function Authenticated(t: seq<byte>): (a: seq<byte>)
      ensures |a| == |t|
    {
      if mode.onPlaintext == forward then t else Cipher(t)
    }
  }

  function HeaderLog(h: seq<byte>, n: nat): seq<Event>
    requires n >= 1
  {
    Blocks(h, n) + [HeaderEnd(Rest(h, n), |h|)]
  }

  /** Header h and authenticated text a, with a message length on record. */
  function MessageLog(h: seq<byte>, a: seq<byte>, recorded: nat, n: nat): seq<Event>
    requires n >= 1
  {
    HeaderLog(h, n) + Blocks(a, n) + [MessageEnd(Rest(a, n), |h|, recorded)]
  }

  /** All that a tag depends on besides key and IV: the log, the incomplete block and the length of the footer f. */
  function TagInput(h: seq<byte>, a: seq<byte>, recorded: nat, f: seq<byte>, n: nat): (seq<Event>, seq<byte>, nat)
    requires n >= 1
  {
    (MessageLog(h, a, recorded, n) + Blocks(f, n), Rest(f, n), |f|)
  }

  function TagFor(p: Party, h: seq<byte>, t: seq<byte>, recorded: nat, f: seq<byte>, macSize: nat): seq<byte>
    requires p.mode.blockSize >= 1
  {
    var (log, rest, length) := TagInput(h, p.Authenticated(t), recorded, f, p.mode.blockSize);
    p.mode.tag(p.key, p.iv, log, rest, length, macSize)
  }

  // ---- The three phases ------------------------------------------------------------------------------

  ghost predicate InHeader(p: Party, s: Session, h: seq<byte>, total: nat)
    requires p.mode.blockSize >= 1
  {
    s == Session(IVSet, p.key, p.iv, 0, Blocks(h, p.mode.blockSize), Rest(h, p.mode.blockSize), |h|, total, 0)
  }

  ghost predicate InMessage(p: Party, s: Session, h: seq<byte>, t: seq<byte>, total: nat)
    requires p.mode.blockSize >= 1
  {
    var a, n := p.Authenticated(t), p.mode.blockSize;
    s == Session(if p.mode.onPlaintext == p.forward then AuthUntransformed else AuthTransformed,
                 p.key, p.iv, |t|, HeaderLog(h, n) + Blocks(a, n), Rest(a, n), |h|, total, 0)
  }

  ghost predicate InFooter(p: Party, s: Session, h: seq<byte>, t: seq<byte>, total: nat, f: seq<byte>)
    requires p.mode.blockSize >= 1
  {
    var a, n := p.Authenticated(t), p.mode.blockSize;
    s == Session(AuthFooter, p.key, p.iv, |t|, MessageLog(h, a, total, n) + Blocks(f, n), Rest(f, n), |h|, total, |f|)
  }

  lemma NothingYet(n: nat)
    requires n >= 1
    ensures Blocks([], n) == [] && Rest([], n) == []
  {}

  // One step in each phase.

  lemma HeaderStep(p: Party, s: Session, h: seq<byte>, total: nat, d: seq<byte>)
    requires p.mode.blockSize >= 1 && InHeader(p, s, h, total)
    ensures var (next, r) := Step(p.mode, p.forward, s, Update(d)); r == Done && InHeader(p, next, h + d, total)
  {
    AbsorbTwice(h, d, p.mode.blockSize);
    hide Blocks, Rest;
    if d == [] { assert h + d == h; }
  }

  /** Data beyond the maximum is refused, but counted. */
  lemma RefusedStep(p: Party, s: Session, h: seq<byte>, t: seq<byte>, total: nat, d: seq<byte>)
    requires p.mode.blockSize >= 1 && total + |d| > p.mode.maxMessage
    ensures var (next, r) := Step(p.mode, p.forward, s, ProcessData(d));
            && (InHeader(p, s, h, total) ==> r == InvalidArgument && InHeader(p, next, h, total + |d|))
            && (InMessage(p, s, h, t, total) ==> r == InvalidArgument && InMessage(p, next, h, t, total + |d|))
  {
    hide Blocks, Rest, HeaderLog;
  }

  lemma AuthenticatedSplit(p: Party, t: seq<byte>, d: seq<byte>)
    ensures p.Authenticated(t + d)
            == p.Authenticated(t) + (if p.mode.onPlaintext == p.forward then d else p.mode.Transform(p.key, p.iv, |t|, d))
  {
    TransformSplit(p.mode, p.key, p.iv, 0, t, d);
  }

  lemma MessageStep(p: Party, s: Session, h: seq<byte>, t: seq<byte>, total: nat, d: seq<byte>)
    requires p.mode.blockSize >= 1 && InMessage(p, s, h, t, total) && total + |d| <= p.mode.maxMessage
    ensures var (next, r) := Step(p.mode, p.forward, s, ProcessData(d));
            r == Output(p.mode.Transform(p.key, p.iv, |t|, d)) && InMessage(p, next, h, t + d, total + |d|)
  {
    var out, n := p.mode.Transform(p.key, p.iv, |t|, d), p.mode.blockSize;
    var a, b := p.Authenticated(t), if p.mode.onPlaintext == p.forward then d else out;
    AuthenticatedSplit(p, t, d);
    hide Blocks, Rest, HeaderLog;
    AbsorbTwice(a, b, n);
    AppendAssociative(HeaderLog(h, n), Blocks(a, n), Blocks(Rest(a, n) + b, n));
  }

  /** The first data of the message leads to the same place as if the message had been started with nothing. */
  lemma FirstMessage(p: Party, s: Session, h: seq<byte>, total: nat, d: seq<byte>)
    requires p.mode.blockSize >= 1 && InHeader(p, s, h, total) && total + |d| <= p.mode.maxMessage
    ensures var (next, r) := Step(p.mode, p.forward, s, ProcessData(d));
            r == Output(p.Cipher(d)) && InMessage(p, next, h, d, total + |d|)
  {
    var t := BeginMessage(p.mode, p.forward, s);
    NothingYet(p.mode.blockSize);
    hide Blocks, Rest;
    assert HeaderLog(h, p.mode.blockSize) + [] == HeaderLog(h, p.mode.blockSize);
    assert InMessage(p, t, h, [], total);
    MessageStep(p, t, h, [], total, d);
    assert [] + d == d;
  }

  lemma FooterStep(p: Party, s: Session, h: seq<byte>, t: seq<byte>, total: nat, f: seq<byte>, d: seq<byte>)
    requires p.mode.blockSize >= 1 && InFooter(p, s, h, t, total, f)
    ensures var (next, r) := Step(p.mode, p.forward, s, Update(d)); r == Done && InFooter(p, next, h, t, total, f + d)
  {
    var a, n := p.Authenticated(t), p.mode.blockSize;
    AbsorbTwice(f, d, n);
    hide Blocks, Rest, MessageLog;
    if d == [] { assert f + d == f; }
    AppendAssociative(MessageLog(h, a, total, n), Blocks(f, n), Blocks(Rest(f, n) + d, n));
  }

  lemma FirstFooter(p: Party, s: Session, h: seq<byte>, t: seq<byte>, total: nat, d: seq<byte>)
    requires p.mode.blockSize >= 1 && InMessage(p, s, h, t, total) && d != []
    ensures var (next, r) := Step(p.mode, p.forward, s, Update(d)); r == Done && InFooter(p, next, h, t, total, d)
  {
    var a, n := p.Authenticated(t), p.mode.blockSize;
    var closed := EndMessage(s).(state := AuthFooter);
    NothingYet(n);
    hide Blocks, Rest, HeaderLog;
    assert MessageLog(h, a, total, n) + [] == MessageLog(h, a, total, n);
    assert InFooter(p, closed, h, t, total, []);
    FooterStep(p, closed, h, t, total, [], d);
    assert [] + d == d;
  }

  // ---- All chunks of each phase ------------------------------------------------------------------------

  lemma {:induction false} RunHeader(p: Party, s: Session, h: seq<byte>, total: nat, parts: seq<seq<byte>>)
    requires p.mode.blockSize >= 1 && InHeader(p, s, h, total)
    ensures var (next, rs) := Run(p.mode, p.forward, s, Updates(parts));
            InHeader(p, next, h + Concat(parts), total) && Outputs(rs) == []
    decreases |parts|
  {
    hide *;
    if parts == [] {
      NoChunks(p.mode, p.forward, s);
      assert h + [] == h;
    } else {
      FirstUpdate(parts);
      HeaderStep(p, s, h, total, parts[0]);
      var (next, r) := Step(p.mode, p.forward, s, Update(parts[0]));
      RunHeader(p, next, h + parts[0], total, parts[1..]);
      RunFirst(p.mode, p.forward, s, Updates(parts));
      OutputsFirst(r, Run(p.mode, p.forward, next, Updates(parts[1..])).1);
      AppendAssociative(h, parts[0], Concat(parts[1..]));
    }
  }

  /** What is accepted of a text in parts, with total counted before: the parts up to the first that exceeds the maximum. */
  function AcceptedText(parts: seq<seq<byte>>, max: nat, total: nat): seq<byte> {
    if parts == [] || total + |parts[0]| > max then []
    else parts[0] + AcceptedText(parts[1..], max, total + |parts[0]|)
  }

  lemma AcceptedNone(parts: seq<seq<byte>>, max: nat, total: nat)
    requires parts == [] || total + |parts[0]| > max
    ensures AcceptedText(parts, max, total) == []
  {}

  lemma AcceptedFirst(parts: seq<seq<byte>>, max: nat, total: nat)
    requires parts != [] && total + |parts[0]| <= max
    ensures AcceptedText(parts, max, total) == parts[0] + AcceptedText(parts[1..], max, total + |parts[0]|)
  {}

  lemma {:induction false} RunMessage(p: Party, s: Session, h: seq<byte>, t: seq<byte>, total: nat, parts: seq<seq<byte>>)
    requires p.mode.blockSize >= 1 && InMessage(p, s, h, t, total)
    ensures var (next, rs) := Run(p.mode, p.forward, s, Processes(parts));
            var text := AcceptedText(parts, p.mode.maxMessage, total);
            && InMessage(p, next, h, t + text, total + |Concat(parts)|)
            && Outputs(rs) == p.mode.Transform(p.key, p.iv, |t|, text)
    decreases |parts|
  {
    hide *;
    var max := p.mode.maxMessage;
    if parts == [] {
      NoChunks(p.mode, p.forward, s);
      AcceptedNone(parts, max, total);
      TransformNothing(p.mode, p.key, p.iv, |t|);
      assert t + [] == t;
    } else {
      FirstProcess(parts);
      var d := parts[0];
      var (next, r) := Step(p.mode, p.forward, s, ProcessData(d));
      RunFirst(p.mode, p.forward, s, Processes(parts));
      OutputsFirst(r, Run(p.mode, p.forward, next, Processes(parts[1..])).1);
      if total + |d| <= max {
        MessageStep(p, s, h, t, total, d);
        RunMessage(p, next, h, t + d, total + |d|, parts[1..]);
        AcceptedFirst(parts, max, total);
        var more := AcceptedText(parts[1..], max, total + |d|);
        AppendAssociative(t, d, more);
        TransformSplit(p.mode, p.key, p.iv, |t|, d, more);
      } else {
        RefusedStep(p, s, h, t, total, d);
        RunMessage(p, next, h, t, total + |d|, parts[1..]);
        AcceptedNone(parts, max, total);
        RefusedAgain(parts[1..], max, total + |d|);
        TransformNothing(p.mode, p.key, p.iv, |t|);
        assert t + [] == t;
      }
    }
  }

  /** Once the maximum is exceeded, nothing more is accepted. */
  lemma RefusedAgain(parts: seq<seq<byte>>, max: nat, total: nat)
    requires total > max
    ensures AcceptedText(parts, max, total) == []
  {}

  /** All parts refused, from the first on. */
  lemma {:induction false} RunRefused(p: Party, s: Session, h: seq<byte>, total: nat, parts: seq<seq<byte>>)
    requires p.mode.blockSize >= 1 && InHeader(p, s, h, total)
    requires parts != [] ==> total + |parts[0]| > p.mode.maxMessage
    ensures var (next, rs) := Run(p.mode, p.forward, s, Processes(parts));
            InHeader(p, next, h, total + |Concat(parts)|) && Outputs(rs) == []
    decreases |parts|
  {
    hide *;
    if parts == [] {
      NoChunks(p.mode, p.forward, s);
    } else {
      FirstProcess(parts);
      RefusedStep(p, s, h, [], total, parts[0]);
      var (next, r) := Step(p.mode, p.forward, s, ProcessData(parts[0]));
      RunRefused(p, next, h, total + |parts[0]|, parts[1..]);
      RunFirst(p.mode, p.forward, s, Processes(parts));
      OutputsFirst(r, Run(p.mode, p.forward, next, Processes(parts[1..])).1);
    }
  }

  lemma {:induction false} RunFooter(p: Party, s: Session, h: seq<byte>, t: seq<byte>, total: nat, f: seq<byte>, parts: seq<seq<byte>>)
    requires p.mode.blockSize >= 1 && InFooter(p, s, h, t, total, f)
    ensures var (next, rs) := Run(p.mode, p.forward, s, Updates(parts));
            InFooter(p, next, h, t, total, f + Concat(parts)) && Outputs(rs) == []
    decreases |parts|
  {
    hide *;
    if parts == [] {
      NoChunks(p.mode, p.forward, s);
      assert f + [] == f;
    } else {
      FirstUpdate(parts);
      FooterStep(p, s, h, t, total, f, parts[0]);
      var (next, r) := Step(p.mode, p.forward, s, Update(parts[0]));
      RunFooter(p, next, h, t, total, f + parts[0], parts[1..]);
      RunFirst(p.mode, p.forward, s, Updates(parts));
      OutputsFirst(r, Run(p.mode, p.forward, next, Updates(parts[1..])).1);
      AppendAssociative(f, parts[0], Concat(parts[1..]));
    }
  }

  /** Everything is in: header h, text t of recorded length total, footer f. */
  ghost predicate AllIn(p: Party, s: Session, h: seq<byte>, t: seq<byte>, total: nat, f: seq<byte>)
    requires p.mode.blockSize >= 1
  {
    || (f == [] && t == [] && InHeader(p, s, h, total))
    || (f == [] && InMessage(p, s, h, t, total))
    || InFooter(p, s, h, t, total, f)
  }

  lemma {:induction false} RunFooterAfterMessage(p: Party, s: Session, h: seq<byte>, t: seq<byte>, total: nat, parts: seq<seq<byte>>)
    requires p.mode.blockSize >= 1 && InMessage(p, s, h, t, total)
    ensures var (next, rs) := Run(p.mode, p.forward, s, Updates(parts));
            AllIn(p, next, h, t, total, Concat(parts)) && Outputs(rs) == []
    decreases |parts|
  {
    hide InMessage, InFooter, InHeader, Run, Step, Outputs, Concat, Updates;
    if parts == [] {
      NoChunks(p.mode, p.forward, s);
    } else {
      FirstUpdate(parts);
      RunFirst(p.mode, p.forward, s, Updates(parts));
      var (next, r) := Step(p.mode, p.forward, s, Update(parts[0]));
      OutputsFirst(r, Run(p.mode, p.forward, next, Updates(parts[1..])).1);
      if parts[0] == [] {
        EmptyUpdate(p, s);
        RunFooterAfterMessage(p, s, h, t, total, parts[1..]);
        assert [] + Concat(parts[1..]) == Concat(parts[1..]);
      } else {
        FirstFooter(p, s, h, t, total, parts[0]);
        RunFooter(p, next, h, t, total, parts[0], parts[1..]);
      }
    }
  }

  lemma EmptyUpdate(p: Party, s: Session)
    requires p.mode.blockSize >= 1
    ensures Step(p.mode, p.forward, s, Update([])) == (s, Done)
  {}

  lemma FinalStep(p: Party, s: Session, h: seq<byte>, t: seq<byte>, total: nat, f: seq<byte>, macSize: nat)
    requires p.mode.blockSize >= 1 && AllIn(p, s, h, t, total, f)
    ensures Step(p.mode, p.forward, s, TruncatedFinal(macSize)).1
            == if |h| > p.mode.maxHeader || |f| > p.mode.maxFooter then InvalidArgument else Tag(TagFor(p, h, t, total, f, macSize))
  {
    var a, n := p.Authenticated(t), p.mode.blockSize;
    NothingYet(n);
    hide Blocks, Rest;
    assert MessageLog(h, a, total, n) + [] == MessageLog(h, a, total, n);
    if s.state == IVSet {
      assert a == [];
      assert HeaderLog(h, n) + [] == HeaderLog(h, n);
    }
  }

  // ---- The whole message ----------------------------------------------------------------------------------

  /** The command with which a message begins: a new IV for the key there is, or a key and an IV at any time. */
  predicate Opens(p: Party, s: Session, o: Command) {
    && p.mode.validIV(p.iv)
    && if o.SetKey? then o == SetKey(p.key, Some(p.iv)) && p.mode.validKey(p.key)
       else o == Resynchronize(p.iv) && s.state != Start && s.key == p.key
  }

  /** All commands for one message. */
  function Conversation(o: Command, hs: seq<seq<byte>>, ts: seq<seq<byte>>, fs: seq<seq<byte>>, macSize: nat): seq<Command> {
    [o] + (Updates(hs) + (Processes(ts) + (Updates(fs) + [TruncatedFinal(macSize)])))
  }

  /** All replies to them. */
  function Replies(p: Party, s: Session, o: Command, hs: seq<seq<byte>>, ts: seq<seq<byte>>, fs: seq<seq<byte>>, macSize: nat):
      (rs: seq<Reply>)
    requires p.mode.blockSize >= 1
    ensures rs != []
  {
    Run(p.mode, p.forward, s, Conversation(o, hs, ts, fs, macSize)).1
  }

  function Final(rs: seq<Reply>): Reply
    requires rs != []
  {
    rs[|rs| - 1]
  }

  /** The header is closed by the first message data that is accepted, even if it is empty. */
  predicate HeaderCloses(m: Mode, ts: seq<seq<byte>>) {
    ts != [] && |ts[0]| <= m.maxMessage
  }

  function HeaderOf(m: Mode, hs: seq<seq<byte>>, ts: seq<seq<byte>>, fs: seq<seq<byte>>): seq<byte> {
    if HeaderCloses(m, ts) then Concat(hs) else Concat(hs) + Concat(fs)
  }

  function FooterOf(m: Mode, ts: seq<seq<byte>>, fs: seq<seq<byte>>): seq<byte> {
    if HeaderCloses(m, ts) then Concat(fs) else []
  }

  function TextOf(m: Mode, ts: seq<seq<byte>>): seq<byte> {
    AcceptedText(ts, m.maxMessage, 0)
  }

  lemma RunText(p: Party, s: Session, h: seq<byte>, ts: seq<seq<byte>>)
    requires p.mode.blockSize >= 1 && InHeader(p, s, h, 0) && HeaderCloses(p.mode, ts)
    ensures var (next, rs) := Run(p.mode, p.forward, s, Processes(ts));
            InMessage(p, next, h, TextOf(p.mode, ts), |Concat(ts)|) && Outputs(rs) == p.Cipher(TextOf(p.mode, ts))
  {
    hide *;
    Closing(p.mode, ts);
    FirstProcess(ts);
    FirstMessage(p, s, h, 0, ts[0]);
    var (next, r) := Step(p.mode, p.forward, s, ProcessData(ts[0]));
    RunMessage(p, next, h, ts[0], |ts[0]|, ts[1..]);
    RunFirst(p.mode, p.forward, s, Processes(ts));
    OutputsFirst(r, Run(p.mode, p.forward, next, Processes(ts[1..])).1);
    CipherSplit(p, ts[0], AcceptedText(ts[1..], p.mode.maxMessage, |ts[0]|));
  }

  lemma Closing(m: Mode, ts: seq<seq<byte>>)
    requires HeaderCloses(m, ts)
    ensures ts != [] && |ts[0]| <= m.maxMessage && TextOf(m, ts) == ts[0] + AcceptedText(ts[1..], m.maxMessage, |ts[0]|)
  {}

  lemma CipherSplit(p: Party, a: seq<byte>, b: seq<byte>)
    ensures p.Cipher(a + b) == p.Cipher(a) + p.mode.Transform(p.key, p.iv, |a|, b)
  {
    TransformSplit(p.mode, p.key, p.iv, 0, a, b);
  }

  /** Text and footer, after the header. */
  lemma RunBody(p: Party, s: Session, hs: seq<seq<byte>>, ts: seq<seq<byte>>, fs: seq<seq<byte>>)
    requires p.mode.blockSize >= 1 && InHeader(p, s, Concat(hs), 0)
    ensures var (next, rs) := Run(p.mode, p.forward, s, Processes(ts) + Updates(fs));
            && AllIn(p, next, HeaderOf(p.mode, hs, ts, fs), TextOf(p.mode, ts), |Concat(ts)|, FooterOf(p.mode, ts, fs))
            && Outputs(rs) == p.Cipher(TextOf(p.mode, ts))
  {
    hide InMessage, InFooter, InHeader, Run, Outputs, Concat, Updates, Processes, AcceptedText;
    var h, m := Concat(hs), p.mode;
    var mid := Run(m, p.forward, s, Processes(ts));
    RunAppend(m, p.forward, s, Processes(ts), Updates(fs));
    OutputsAppend(mid.1, Run(m, p.forward, mid.0, Updates(fs)).1);
    if HeaderCloses(m, ts) {
      RunText(p, s, h, ts);
      RunFooterAfterMessage(p, mid.0, h, TextOf(m, ts), |Concat(ts)|, fs);
      assert p.Cipher(TextOf(m, ts)) + [] == p.Cipher(TextOf(m, ts));
    } else {
      RunRefused(p, s, h, 0, ts);
      RunHeader(p, mid.0, h, |Concat(ts)|, fs);
      AcceptedNone(ts, m.maxMessage, 0);
      TransformNothing(m, p.key, p.iv, 0);
    }
  }

  lemma OpeningStep(p: Party, s: Session, o: Command)
    requires p.mode.blockSize >= 1 && Opens(p, s, o)
    ensures var (next, r) := Step(p.mode, p.forward, s, o); r == Done && InHeader(p, next, [], 0)
  {}

  /**
   * Whether a message begins with a new IV or with a new key and IV, from any state, and however header, text and footer
   * are cut into calls, and however long they are: the output is the cipher with this key and IV on the
   * text that is accepted, and the tag, if the header and the footer are within their limits, is that of these three
   * strings with the length of all text, accepted or not, on record.
   */
  lemma OneMessage(p: Party, s: Session, o: Command,
                   hs: seq<seq<byte>>, ts: seq<seq<byte>>, fs: seq<seq<byte>>, macSize: nat)
    requires p.mode.blockSize >= 1 && Opens(p, s, o)
    ensures var rs := Replies(p, s, o, hs, ts, fs, macSize);
            var h, t, f := HeaderOf(p.mode, hs, ts, fs), TextOf(p.mode, ts), FooterOf(p.mode, ts, fs);
            && Outputs(rs) == p.Cipher(t)
            && Final(rs) == if |h| > p.mode.maxHeader || |f| > p.mode.maxFooter then InvalidArgument
                            else Tag(TagFor(p, h, t, |Concat(ts)|, f, macSize))
  {
    var a, b, c, d := o, Updates(hs), Processes(ts) + Updates(fs), TruncatedFinal(macSize);
    assert Conversation(o, hs, ts, fs, macSize) == [a] + (b + (c + [d]));
    hide InHeader, AllIn, HeaderOf, TextOf, FooterOf, TagFor, Run, Step, Outputs, Concat, Updates, Processes, Conversation, Opens;
    OpeningStep(p, s, o);
    var s1 := Step(p.mode, p.forward, s, a);
    RunHeader(p, s1.0, [], 0, hs);
    assert [] + Concat(hs) == Concat(hs);
    var s2 := Run(p.mode, p.forward, s1.0, b);
    RunBody(p, s2.0, hs, ts, fs);
    var s3 := Run(p.mode, p.forward, s2.0, c);
    FinalStep(p, s3.0, HeaderOf(p.mode, hs, ts, fs), TextOf(p.mode, ts), |Concat(ts)|, FooterOf(p.mode, ts, fs), macSize);
    var s4 := Step(p.mode, p.forward, s3.0, d);
    RunParts(p.mode, p.forward, s, a, b, c, d);
    OutputsSandwich(s1.1, s2.1, s3.1, s4.1);
  }

  // ---- When the tag is that of the strings as they were given ---------------------------------------------------

  /** Nothing is refused exactly if the text is within the maximum; otherwise less is accepted than is counted. */
  lemma {:induction false} AcceptedLength(ts: seq<seq<byte>>, max: nat, total: nat)
    requires total <= max
    ensures var t := AcceptedText(ts, max, total);
            && (total + |Concat(ts)| <= max ==> t == Concat(ts))
            && (total + |Concat(ts)| > max ==> |t| < |Concat(ts)|)
    decreases |ts|
  {
    if ts != [] {
      ConcatFirst(ts);
      hide Concat;
      if total + |ts[0]| <= max { AcceptedLength(ts[1..], max, total + |ts[0]|); }
    }
  }

  /** All data in a log. */
  ghost function DataLength(log: seq<Event>): nat {
    if log == [] then 0
    else
      var e := log[|log| - 1];
      DataLength(log[..|log| - 1]) + (if e.Block? then |e.bytes| else |e.rest|)
  }

  lemma {:induction false} DataLengthAppend(a: seq<Event>, b: seq<Event>)
    ensures DataLength(a + b) == DataLength(a) + DataLength(b)
  {
    if b == [] {
      assert a + b == a;
    } else {
      var n := |b| - 1;
      DataLengthAppend(a, b[..n]);
      assert (a + b)[..|a| + n] == a + b[..n];
    }
  }

  lemma DataLengthOne(e: Event)
    ensures DataLength([e]) == if e.Block? then |e.bytes| else |e.rest|
  {
    assert [e][..0] == [];
  }

  lemma {:induction false} BlocksLength(s: seq<byte>, n: nat)
    requires n >= 1
    ensures DataLength(Blocks(s, n)) + |Rest(s, n)| == |s|
    decreases |s|
  {
    if |s| >= n {
      BlocksLength(s[n..], n);
      DataLengthOne(Block(s[..n]));
      DataLengthAppend([Block(s[..n])], Blocks(s[n..], n));
    }
  }

  // ---- The log holds the three strings ------------------------------------------------------------------------

  /** The bytes of the whole blocks in a log, in order. */
  ghost function BlockBytes(log: seq<Event>): seq<byte> {
    if log == [] then [] else (if log[0].Block? then log[0].bytes else []) + BlockBytes(log[1..])
  }

  /** Nothing but blocks of n bytes, which with the rest spell s; the rest is shorter than a block. */
  ghost predicate Spells(log: seq<Event>, rest: seq<byte>, n: nat, s: seq<byte>) {
    && (forall i :: 0 <= i < |log| ==> log[i].Block? && |log[i].bytes| == n)
    && BlockBytes(log) + rest == s && |rest| < n
  }

  lemma {:induction false} BlocksSpell(s: seq<byte>, n: nat)
    requires n >= 1
    ensures Spells(Blocks(s, n), Rest(s, n), n, s)
    decreases |s|
  {
    if |s| < n {
      NoBlock(s, n);
      assert BlockBytes([]) == [] && [] + s == s;
    } else {
      UnfoldBlocks(s, n);
      hide Blocks, Rest;
      BlocksSpell(s[n..], n);
      var more := Blocks(s[n..], n);
      assert ([Block(s[..n])] + more)[1..] == more;
      AppendAssociative(s[..n], BlockBytes(more), Rest(s[n..], n));
      assert s == s[..n] + s[n..];
    }
  }

  /**
   * The tag is made from: the header in whole blocks, its incomplete block and length; the authenticated text in the
   * same way, with the length of the header and that on record; the footer in whole blocks, its incomplete block and
   * length.
   */
  lemma TagInputParts(h: seq<byte>, a: seq<byte>, recorded: nat, f: seq<byte>, n: nat)
      returns (bh: seq<Event>, rh: seq<byte>, ba: seq<Event>, ra: seq<byte>, bf: seq<Event>, rf: seq<byte>)
    requires n >= 1
    ensures Spells(bh, rh, n, h) && Spells(ba, ra, n, a) && Spells(bf, rf, n, f)
    ensures TagInput(h, a, recorded, f, n)
            == (bh + [HeaderEnd(rh, |h|)] + ba + [MessageEnd(ra, |h|, recorded)] + bf, rf, |f|)
  {
    hide Blocks, Rest, Spells;
    BlocksSpell(h, n);
    BlocksSpell(a, n);
    BlocksSpell(f, n);
    bh, rh, ba, ra, bf, rf := Blocks(h, n), Rest(h, n), Blocks(a, n), Rest(a, n), Blocks(f, n), Rest(f, n);
  }

  /** The text accepted is that of the calls before the first that exceeds the maximum, with all before it counted. */
  lemma {:induction false} AcceptedCalls(ts: seq<seq<byte>>, max: nat, total: nat) returns (k: nat)
    requires total <= max
    ensures k <= |ts| && AcceptedText(ts, max, total) == Concat(ts[..k]) && total + |Concat(ts[..k])| <= max
    ensures k < |ts| ==> total + |Concat(ts[..k])| + |ts[k]| > max
    decreases |ts|
  {
    hide Concat;
    if ts == [] || total + |ts[0]| > max {
      k := 0;
      assert ts[..0] == [];
      AcceptedNone(ts, max, total);
      ConcatNone();
    } else {
      var j := AcceptedCalls(ts[1..], max, total + |ts[0]|);
      k := j + 1;
      AcceptedFirst(ts, max, total);
      ConcatFirst(ts[..k]);
      assert ts[..k][1..] == ts[1..][..j];
    }
  }

  lemma ConcatNone()
    ensures Concat<byte>([]) == []
  {}

  lemma TagInputLength(h: seq<byte>, a: seq<byte>, recorded: nat, f: seq<byte>, n: nat)
    requires n >= 1
    ensures var (log, rest, _) := TagInput(h, a, recorded, f, n); DataLength(log) + |rest| == |h| + |a| + |f|
  {
    var e1, e2 := HeaderEnd(Rest(h, n), |h|), MessageEnd(Rest(a, n), |h|, recorded);
    BlocksLength(h, n);
    BlocksLength(a, n);
    BlocksLength(f, n);
    DataLengthOne(e1);
    DataLengthOne(e2);
    hide Blocks, Rest, DataLength;
    DataLengthAppend(Blocks(h, n), [e1]);
    DataLengthAppend(HeaderLog(h, n), Blocks(a, n));
    DataLengthAppend(HeaderLog(h, n) + Blocks(a, n), [e2]);
    DataLengthAppend(MessageLog(h, a, recorded, n), Blocks(f, n));
  }

  /**
   * The tag is made from header, text and footer as they were given exactly if the text is within the maximum, and
   * there was a call of ProcessData (possibly for no data) or no footer.
   */
  lemma TagOfGivenStrings(p: Party, hs: seq<seq<byte>>, ts: seq<seq<byte>>, fs: seq<seq<byte>>)
    requires p.mode.blockSize >= 1
    ensures var n, m := p.mode.blockSize, p.mode;
            TagInput(HeaderOf(m, hs, ts, fs), p.Authenticated(TextOf(m, ts)), |Concat(ts)|, FooterOf(m, ts, fs), n)
            == TagInput(Concat(hs), p.Authenticated(Concat(ts)), |Concat(ts)|, Concat(fs), n)
            <==> |Concat(ts)| <= m.maxMessage && (ts != [] || Concat(fs) == [])
  {
    var n, m := p.mode.blockSize, p.mode;
    AcceptedLength(ts, m.maxMessage, 0);
    TagInputLength(HeaderOf(m, hs, ts, fs), p.Authenticated(TextOf(m, ts)), |Concat(ts)|, FooterOf(m, ts, fs), n);
    TagInputLength(Concat(hs), p.Authenticated(Concat(ts)), |Concat(ts)|, Concat(fs), n);
    if ts != [] { ConcatFirst(ts); }
    hide MessageLog, Blocks, Rest, Concat, AcceptedText, DataLength;
    if |Concat(ts)| <= m.maxMessage && ts == [] && Concat(fs) == [] {
      assert Concat(hs) + [] == Concat(hs);
    }
  }

  /** The length on record is that of the text enciphered exactly if the text given is within the maximum. */
  lemma RefusedDataIsCounted(m: Mode, ts: seq<seq<byte>>)
    ensures |Concat(ts)| == |TextOf(m, ts)| <==> |Concat(ts)| <= m.maxMessage
    ensures |Concat(ts)| <= m.maxMessage ==> TextOf(m, ts) == Concat(ts)
  {
    AcceptedLength(ts, m.maxMessage, 0);
  }

  // ---- Two directions ------------------------------------------------------------------------------------------

  /** A mode that authenticates plaintext does so in both directions, one that does not authenticates ciphertext. */
  lemma AuthenticatedSide(p: Party, t: seq<byte>)
    ensures var plain, enciphered := if p.forward then t else p.Cipher(t), if p.forward then p.Cipher(t) else t;
            p.Authenticated(t) == if p.mode.onPlaintext then plain else enciphered
  {}

  /** The encrypting object authenticates its text on the same side of the cipher as the decrypting one does its own. */
  lemma SameSide(enc: Party, dec: Party, t: seq<byte>)
    requires enc.mode.Valid() && enc.forward && dec == enc.(forward := false)
    ensures enc.Authenticated(t) == dec.Authenticated(enc.Cipher(t)) && dec.Cipher(enc.Cipher(t)) == t
  {
    TransformInvolution(enc.mode, enc.key, enc.iv, 0, t);
  }

  /**
   * An encrypting and a decrypting object with the same key, fed the same header and footer in chunks of
   * their own: what one puts out, in any chunks, the other turns back into the message, with the same tag.
   */
  lemma EncryptThenDecrypt(enc: Party, dec: Party, sender: Session, receiver: Session, o: Command, o2: Command, macSize: nat,
                           hs: seq<seq<byte>>, ts: seq<seq<byte>>, fs: seq<seq<byte>>,
                           hs2: seq<seq<byte>>, cs: seq<seq<byte>>, fs2: seq<seq<byte>>)
    requires enc.mode.Valid() && enc.forward && dec == enc.(forward := false)
    requires Opens(enc, sender, o) && Opens(dec, receiver, o2)
    requires |Concat(ts)| <= enc.mode.maxMessage && Concat(cs) == Outputs(Replies(enc, sender, o, hs, ts, fs, macSize))
    requires HeaderOf(enc.mode, hs, ts, fs) == HeaderOf(enc.mode, hs2, cs, fs2)
    requires FooterOf(enc.mode, ts, fs) == FooterOf(enc.mode, cs, fs2)
    ensures Outputs(Replies(dec, receiver, o2, hs2, cs, fs2, macSize)) == Concat(ts)
    ensures Final(Replies(dec, receiver, o2, hs2, cs, fs2, macSize)) == Final(Replies(enc, sender, o, hs, ts, fs, macSize))
  {
    RefusedDataIsCounted(enc.mode, ts);
    OneMessage(enc, sender, o, hs, ts, fs, macSize);
    hide Outputs, Replies, Final, Concat, HeaderOf, FooterOf, TextOf, TagInput;
    RefusedDataIsCounted(enc.mode, cs);
    OneMessage(dec, receiver, o2, hs2, cs, fs2, macSize);
    SameSide(enc, dec, Concat(ts));
  }

  /** Header and footer agree if both objects process data, or neither does, or there is no footer. */
  lemma SamePhases(m: Mode, hs: seq<seq<byte>>, ts: seq<seq<byte>>, fs: seq<seq<byte>>,
                   hs2: seq<seq<byte>>, cs: seq<seq<byte>>, fs2: seq<seq<byte>>)
    requires |Concat(ts)| <= m.maxMessage && |Concat(cs)| <= m.maxMessage
    requires Concat(hs) == Concat(hs2) && Concat(fs) == Concat(fs2)
    ensures HeaderOf(m, hs, ts, fs) == HeaderOf(m, hs2, cs, fs2) && FooterOf(m, ts, fs) == FooterOf(m, cs, fs2)
            <==> (ts == [] <==> cs == []) || Concat(fs) == []
  {
    if ts != [] { ConcatFirst(ts); }
    if cs != [] { ConcatFirst(cs); }
    hide Concat;
    if Concat(fs) == [] { assert Concat(hs) + [] == Concat(hs); }
  }
}
