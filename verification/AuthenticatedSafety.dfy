/** What no run of an authenticated cipher object can do. */
module AuthenticatedSafety {
  import opened Bytes
  import opened Wrappers
  import opened AuthenticatedCipher
  import opened AuthenticatedRuns

  /** The session before command k. */
  function Before(m: Mode, forward: bool, s: Session, cs: seq<Command>, k: nat): Session
    requires m.blockSize >= 1 && k <= |cs|
  {
    Run(m, forward, s, cs[..k]).0
  }

  /** The reply to command k. */
  function ReplyTo(m: Mode, forward: bool, s: Session, cs: seq<Command>, k: nat): Reply
    requires m.blockSize >= 1 && k < |cs|
  {
    Run(m, forward, s, cs).1[k]
  }

  lemma StepAt(m: Mode, forward: bool, s: Session, cs: seq<Command>, k: nat)
    requires m.blockSize >= 1 && k < |cs|
    ensures Step(m, forward, Before(m, forward, s, cs, k), cs[k])
            == (Before(m, forward, s, cs, k + 1), ReplyTo(m, forward, s, cs, k))
  {
    hide Run, Step;
    var mid := Run(m, forward, s, cs[..k]);
    RunSingle(m, forward, mid.0, cs[k]);
    RunAppend(m, forward, s, cs[..k], [cs[k]]);
    assert cs[..k + 1] == cs[..k] + [cs[k]];
    RunAppend(m, forward, s, cs[..k + 1], cs[k + 1..]);
    assert cs == cs[..k + 1] + cs[k + 1..];
  }

  /** The command has set an IV. */
  predicate Syncs(c: Command, r: Reply) {
    r.Done? && (c.Resynchronize? || (c.SetKey? && c.givenIV.Some?))
  }

  /** The IV that such a command has set. */
  function GivenIV(c: Command): seq<byte>
    requires c.Resynchronize? || (c.SetKey? && c.givenIV.Some?)
  {
    if c.Resynchronize? then c.iv else c.givenIV.value
  }

  predicate Active(state: State) { state != Start && state != KeySet }

  lemma StepEffects(m: Mode, forward: bool, s: Session, c: Command)
    requires m.blockSize >= 1
    ensures var (next, r) := Step(m, forward, s, c);
            && (Syncs(c, r) ==> next.state == IVSet && next.iv == GivenIV(c) && m.validIV(next.iv) && next.position == 0)
            && (Active(next.state) && !Syncs(c, r) ==> next.iv == s.iv)
            && (Active(next.state) && !Syncs(c, r) ==> Active(s.state) && !r.Tag? && !c.SetKey? && !c.Restart?)
            && (r.Tag? ==> Active(s.state))
            && (next.state != Start ==> (c.SetKey? && m.validKey(c.key)) || (!c.SetKey? && s.state != Start && next.key == s.key))
            && (c.SetKey? && next.state != Start ==> next.key == c.key)
            && (next.state == IVSet && !Syncs(c, r) ==> s.state == IVSet)
            && (r.Output? ==> c.ProcessData? && Active(s.state) && s.state != AuthFooter && next.state != IVSet && Active(next.state))
            && (s.state == AuthFooter && !Syncs(c, r) ==> next.state == AuthFooter || !Active(next.state))
            && (!Active(s.state) && !Syncs(c, r) ==> !Active(next.state))
            && (c.Update? && c.data != [] && r.Done? && s.state != IVSet ==> next.state == AuthFooter)
  {
    hide Blocks, Rest;
  }

  /** Exactly which commands are refused as out of order, and which for their arguments or lengths. */
  lemma Refusals(m: Mode, forward: bool, s: Session, c: Command)
    requires m.blockSize >= 1
    ensures var r := Step(m, forward, s, c).1;
            && (r.BadState? <==>
                match c
                case Resynchronize(_) => s.state == Start
                case Update(d) => d != [] && !Active(s.state)
                case ProcessData(d) => !Active(s.state) || (s.state == AuthFooter && s.totalMessage + |d| <= m.maxMessage)
                case TruncatedFinal(_) => !Active(s.state) && s.totalHeader <= m.maxHeader && s.totalFooter <= m.maxFooter
                case _ => false)
            && (r.InvalidArgument? <==>
                match c
                case SetKey(key, None) => !m.validKey(key) || m.needsIV
                case SetKey(key, Some(v)) => !m.validKey(key) || !m.validIV(v)
                case Resynchronize(v) => s.state != Start && !m.validIV(v)
                case ProcessData(d) => Active(s.state) && s.totalMessage + |d| > m.maxMessage
                case TruncatedFinal(_) => s.totalHeader > m.maxHeader || s.totalFooter > m.maxFooter
                case _ => false)
  {
    hide Blocks, Rest;
  }

  /** What a refused command, or a key without an IV, leaves behind: text is counted even if it is refused. */
  lemma RefusedEffects(m: Mode, forward: bool, s: Session, c: Command)
    requires m.blockSize >= 1
    ensures var (next, r) := Step(m, forward, s, c);
            && (!r.Accepted() ==>
                match c
                case ProcessData(d) => next == s.(totalMessage := s.totalMessage + |d|)
                case Resynchronize(_) =>
                  next == if s.state == Start then s
                          else s.(state := KeySet, rest := [], totalHeader := 0, totalMessage := 0, totalFooter := 0)
                case SetKey(key, _) =>
                  next == if m.validKey(key) then s.(state := KeySet, rest := [], key := key) else s.(state := Start, rest := [])
                case _ => next == s)
            && (r.Done? && c.SetKey? && c.givenIV.None? ==> next == s.(state := KeySet, rest := [], key := c.key))
  {
    hide Blocks, Rest;
  }

  /** An active object has had its IV set, which is still in force, and no tag, key or restart since. */
  lemma {:induction false} LastSync(m: Mode, forward: bool, s: Session, cs: seq<Command>, k: nat) returns (i: nat)
    requires m.blockSize >= 1 && k <= |cs| && s.state == Start
    requires Active(Before(m, forward, s, cs, k).state)
    ensures i < k && Syncs(cs[i], ReplyTo(m, forward, s, cs, i)) && Before(m, forward, s, cs, k).iv == GivenIV(cs[i])
    ensures m.validIV(GivenIV(cs[i]))
    ensures forall j :: i < j < k ==> !ReplyTo(m, forward, s, cs, j).Tag? && !cs[j].SetKey? && !cs[j].Restart?
    decreases k
  {
    if k == 0 {
      NoneYet(m, forward, s, cs);
    }
    StepAt(m, forward, s, cs, k - 1);
    StepEffects(m, forward, Before(m, forward, s, cs, k - 1), cs[k - 1]);
    hide Before, ReplyTo, Step;
    if Syncs(cs[k - 1], ReplyTo(m, forward, s, cs, k - 1)) {
      i := k - 1;
    } else {
      i := LastSync(m, forward, s, cs, k - 1);
    }
  }

  lemma NoneYet(m: Mode, forward: bool, s: Session, cs: seq<Command>)
    requires m.blockSize >= 1
    ensures Before(m, forward, s, cs, 0) == s
  {}

  /** An object that has left the start state has the key of the last SetKey, which was valid. */
  lemma {:induction false} LastKey(m: Mode, forward: bool, s: Session, cs: seq<Command>, k: nat) returns (i: nat)
    requires m.blockSize >= 1 && k <= |cs| && s.state == Start
    requires Before(m, forward, s, cs, k).state != Start
    ensures i < k && cs[i].SetKey? && m.validKey(cs[i].key) && Before(m, forward, s, cs, k).key == cs[i].key
    ensures forall j :: i < j < k ==> !cs[j].SetKey?
    decreases k
  {
    if k == 0 {
      NoneYet(m, forward, s, cs);
    }
    StepAt(m, forward, s, cs, k - 1);
    StepEffects(m, forward, Before(m, forward, s, cs, k - 1), cs[k - 1]);
    hide Before, ReplyTo, Step;
    if cs[k - 1].SetKey? {
      i := k - 1;
    } else {
      i := LastKey(m, forward, s, cs, k - 1);
    }
  }

  lemma FinalTag(m: Mode, forward: bool, s: Session, c: Command) returns (log: seq<Event>, rest: seq<byte>, footer: nat)
    requires m.blockSize >= 1 && Step(m, forward, s, c).1.Tag?
    ensures c.TruncatedFinal? && Step(m, forward, s, c).1 == Tag(m.tag(s.key, s.iv, log, rest, footer, c.macSize))
  {
    hide Blocks, Rest;
    var t := if s.state == AuthFooter then s else EndMessage(if s.state == IVSet then EndHeader(s) else s);
    log, rest, footer := t.log, t.rest, t.totalFooter;
  }

  /**
   * In every run from a new object, a tag is preceded by a SetKey with a valid key and, after it or with it, by a
   * command that set the IV, and since the latter there has been no other tag and no new key. The tag is that
   * of the derived mode for this key and this IV.
   */
  lemma TagNeedsKeyAndIV(m: Mode, forward: bool, s: Session, cs: seq<Command>, k: nat)
      returns (keyed: nat, synced: nat, log: seq<Event>, rest: seq<byte>, footer: nat)
    requires m.blockSize >= 1 && k < |cs| && s.state == Start && ReplyTo(m, forward, s, cs, k).Tag?
    ensures keyed <= synced < k
    ensures cs[keyed].SetKey? && m.validKey(cs[keyed].key) && Before(m, forward, s, cs, k).key == cs[keyed].key
    ensures Syncs(cs[synced], ReplyTo(m, forward, s, cs, synced)) && m.validIV(GivenIV(cs[synced]))
    ensures cs[k].TruncatedFinal?
    ensures ReplyTo(m, forward, s, cs, k) == Tag(m.tag(cs[keyed].key, GivenIV(cs[synced]), log, rest, footer, cs[k].macSize))
    ensures forall j :: synced < j < k ==> !ReplyTo(m, forward, s, cs, j).Tag? && !cs[j].SetKey? && !cs[j].Restart?
  {
    StepAt(m, forward, s, cs, k);
    StepEffects(m, forward, Before(m, forward, s, cs, k), cs[k]);
    log, rest, footer := FinalTag(m, forward, Before(m, forward, s, cs, k), cs[k]);
    hide Before, ReplyTo, Step;
    synced := LastSync(m, forward, s, cs, k);
    keyed := LastKey(m, forward, s, cs, k);
  }

  /** Until an IV is set, an object past its header stays past it. */
  lemma {:induction false} HeaderStaysClosed(m: Mode, forward: bool, s: Session, cs: seq<Command>, p: nat, k: nat)
    requires m.blockSize >= 1 && p <= k <= |cs| && Before(m, forward, s, cs, p).state != IVSet
    requires forall j :: p <= j < k ==> !Syncs(cs[j], ReplyTo(m, forward, s, cs, j))
    ensures Before(m, forward, s, cs, k).state != IVSet
    decreases k
  {
    if p < k {
      StepAt(m, forward, s, cs, k - 1);
      StepEffects(m, forward, Before(m, forward, s, cs, k - 1), cs[k - 1]);
      hide Before, ReplyTo, Step;
      HeaderStaysClosed(m, forward, s, cs, p, k - 1);
    }
  }

  /** Until an IV is set, an object that has seen footer data takes no message data. */
  lemma {:induction false} FooterStays(m: Mode, forward: bool, s: Session, cs: seq<Command>, p: nat, k: nat)
    requires m.blockSize >= 1 && p <= k <= |cs| && Before(m, forward, s, cs, p).state == AuthFooter
    requires forall j :: p <= j < k ==> !Syncs(cs[j], ReplyTo(m, forward, s, cs, j))
    ensures var st := Before(m, forward, s, cs, k).state; st == AuthFooter || !Active(st)
    decreases k
  {
    if p < k {
      StepAt(m, forward, s, cs, k - 1);
      StepEffects(m, forward, Before(m, forward, s, cs, k - 1), cs[k - 1]);
      hide Before, ReplyTo, Step;
      FooterStays(m, forward, s, cs, p, k - 1);
    }
  }

  /**
   * In every run: once message data (at p) and then footer data (at i) have been accepted, no message data is
   * accepted again (at k) before a new IV is set.
   */
  lemma NoMessageAfterFooter(m: Mode, forward: bool, s: Session, cs: seq<Command>, p: nat, i: nat, k: nat)
    requires m.blockSize >= 1 && p < i < k < |cs|
    requires ReplyTo(m, forward, s, cs, p).Output?
    requires cs[i].Update? && cs[i].data != [] && ReplyTo(m, forward, s, cs, i).Done?
    requires forall j :: p < j < k ==> !Syncs(cs[j], ReplyTo(m, forward, s, cs, j))
    ensures !ReplyTo(m, forward, s, cs, k).Output?
  {
    StepAt(m, forward, s, cs, p);
    StepAt(m, forward, s, cs, i);
    StepAt(m, forward, s, cs, k);
    StepEffects(m, forward, Before(m, forward, s, cs, p), cs[p]);
    StepEffects(m, forward, Before(m, forward, s, cs, i), cs[i]);
    StepEffects(m, forward, Before(m, forward, s, cs, k), cs[k]);
    hide Before, ReplyTo, Step;
    HeaderStaysClosed(m, forward, s, cs, p + 1, i);
    FooterStays(m, forward, s, cs, i + 1, k);
  }
}
