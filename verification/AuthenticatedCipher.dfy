/** The protocol of authenc.cpp: header, then message, then footer, then tag, for a derived mode such as GCM, CCM or EAX. */
module AuthenticatedCipher {
  import opened Bytes
  import opened Sequences
  import opened Wrappers

  // ---- What a derived mode supplies ---------------------------------------------------------

  /** What reaches the authenticator. The last two carry the incomplete block and the totals the mode may read. */
  datatype Event = Block(bytes: seq<byte>)
                 | HeaderEnd(rest: seq<byte>, headerLength: nat)
                 | MessageEnd(rest: seq<byte>, headerLength: nat, messageLength: nat)

  /** The virtual functions. A cipher byte depends on its position; a tag on everything that was absorbed. */
  datatype Mode = Mode(
    blockSize: nat,
    onPlaintext: bool,
    needsIV: bool,
    maxHeader: nat,
    maxMessage: nat,
    maxFooter: nat,
    validKey: seq<byte> -> bool,
    validIV: seq<byte> -> bool,
    transform: (seq<byte>, seq<byte>, nat, byte) -> byte,
    tag: (seq<byte>, seq<byte>, seq<Event>, seq<byte>, nat, nat) -> seq<byte>)
  {
    /** The cipher is its own inverse, as IsSelfInverting promises. */
    ghost predicate Valid() {
      blockSize >= 1 && forall k, iv, i, b :: SelfInverse(k, iv, i, b)
    }

    predicate SelfInverse(key: seq<byte>, iv: seq<byte>, i: nat, b: byte) {
      transform(key, iv, i, transform(key, iv, i, b)) == b
    }

    /** The cipher on d, starting at a position of the stream. */
    function Transform(key: seq<byte>, iv: seq<byte>, at: nat, d: seq<byte>): (r: seq<byte>)
      ensures |r| == |d|
    {
      seq(|d|, i requires 0 <= i < |d| => transform(key, iv, at + i, d[i]))
    }
  }

  datatype State = Start | KeySet | IVSet | AuthUntransformed | AuthTransformed | AuthFooter

  datatype Command = SetKey(key: seq<byte>, givenIV: Option<seq<byte>>)
                   | Resynchronize(iv: seq<byte>)
                   | Update(data: seq<byte>)
                   | ProcessData(data: seq<byte>)
                   | TruncatedFinal(macSize: nat)
                   | Restart

  datatype Reply = Done | Output(out: seq<byte>) | Tag(mac: seq<byte>) | BadState | InvalidArgument
  {
    predicate Accepted() { !BadState? && !InvalidArgument? }
  }

  // ---- Whole blocks ------------------------------------------------------------------------

  function Blocks(s: seq<byte>, n: nat): seq<Event>
    requires n >= 1
    decreases |s|
  {
    if |s| < n then [] else [Block(s[..n])] + Blocks(s[n..], n)
  }

  /** What is left after the whole blocks. */
  function Rest(s: seq<byte>, n: nat): (r: seq<byte>)
    requires n >= 1
    ensures |r| < n
    decreases |s|
  {
    if |s| < n then s else Rest(s[n..], n)
  }

  /** Absorbing in two parts is absorbing the whole. */
  lemma {:induction false} AbsorbTwice(a: seq<byte>, b: seq<byte>, n: nat)
    requires n >= 1
    ensures Blocks(a + b, n) == Blocks(a, n) + Blocks(Rest(a, n) + b, n)
    ensures Rest(a + b, n) == Rest(Rest(a, n) + b, n)
    decreases |a|
  {
    if |a| >= n {
      UnfoldBlocks(a, n);
      UnfoldBlocks(a + b, n);
      hide Blocks, Rest;
      AbsorbTwice(a[n..], b, n);
      assert (a + b)[..n] == a[..n];
      assert (a + b)[n..] == a[n..] + b;
      AppendAssociative([Block(a[..n])], Blocks(a[n..], n), Blocks(Rest(a[n..], n) + b, n));
    } else {
      assert [] + Blocks(a + b, n) == Blocks(a + b, n);
    }
  }

  lemma UnfoldBlocks(s: seq<byte>, n: nat)
    requires 1 <= n <= |s|
    ensures Blocks(s, n) == [Block(s[..n])] + Blocks(s[n..], n) && Rest(s, n) == Rest(s[n..], n)
  {}

  /** Held-back bytes completed to a block by the input. */
  lemma FirstBlock(held: seq<byte>, input: seq<byte>, n: nat)
    requires |held| < n <= |held| + |input|
    ensures var k := n - |held|;
            && Blocks(held + input, n) == [Block(held + input[..k])] + Blocks(input[k..], n)
            && Rest(held + input, n) == Rest(input[k..], n)
  {
    var all, k := held + input, n - |held|;
    assert all[..n] == held + input[..k] && all[n..] == input[k..];
  }

  lemma NoBlock(s: seq<byte>, n: nat)
    requires |s| < n
    ensures Blocks(s, n) == [] && Rest(s, n) == s
  {}

  // ---- One step of the protocol -------------------------------------------------------------

  datatype Session = Session(
    state: State,
    key: seq<byte>,
    iv: seq<byte>,
    position: nat,
    log: seq<Event>,
    rest: seq<byte>,
    totalHeader: nat,
    totalMessage: nat,
    totalFooter: nat)

  function Absorb(m: Mode, s: Session, d: seq<byte>): Session
    requires m.blockSize >= 1
  {
    s.(log := s.log + Blocks(s.rest + d, m.blockSize), rest := Rest(s.rest + d, m.blockSize))
  }

  function EndHeader(s: Session): Session {
    s.(log := s.log + [HeaderEnd(s.rest, s.totalHeader)], rest := [])
  }

  function EndMessage(s: Session): Session {
    s.(log := s.log + [MessageEnd(s.rest, s.totalHeader, s.totalMessage)], rest := [])
  }

  function AfterResync(m: Mode, s: Session, iv: seq<byte>): (Session, Reply) {
    if s.state == Start then (s, BadState)
    else
      var cleared := s.(state := KeySet, rest := [], totalHeader := 0, totalMessage := 0, totalFooter := 0);
      if !m.validIV(iv) then (cleared, InvalidArgument)
      else (cleared.(state := IVSet, iv := iv, position := 0, log := []), Done)
  }

  function AfterSetKey(m: Mode, s: Session, key: seq<byte>, iv: Option<seq<byte>>): (Session, Reply) {
    var cleared := s.(state := Start, rest := []);
    if !m.validKey(key) then (cleared, InvalidArgument)
    else
      var keyed := cleared.(state := KeySet, key := key);
      match iv
      case None => (keyed, if m.needsIV then InvalidArgument else Done)
      case Some(v) => if !m.validIV(v) then (keyed, InvalidArgument) else AfterResync(m, keyed, v)
  }

  function AfterUpdate(m: Mode, s: Session, d: seq<byte>): (Session, Reply)
    requires m.blockSize >= 1
  {
    if d == [] then (s, Done)
    else match s.state
      case Start => (s, BadState)
      case KeySet => (s, BadState)
      case IVSet => (Absorb(m, s, d).(totalHeader := s.totalHeader + |d|), Done)
      case AuthFooter => (Absorb(m, s, d).(totalFooter := s.totalFooter + |d|), Done)
      case _ =>
        var footer := EndMessage(s).(state := AuthFooter);
        (Absorb(m, footer, d).(totalFooter := s.totalFooter + |d|), Done)
  }

  /** The first message data closes the header and fixes which side of the cipher is authenticated. */
  function BeginMessage(m: Mode, forward: bool, s: Session): Session {
    EndHeader(s).(state := if m.onPlaintext == forward then AuthUntransformed else AuthTransformed)
  }

  function AfterProcess(m: Mode, forward: bool, before: Session, d: seq<byte>): (Session, Reply)
    requires m.blockSize >= 1
  {
    var s := before.(totalMessage := before.totalMessage + |d|);
    if s.state != Start && s.state != KeySet && s.totalMessage > m.maxMessage then (s, InvalidArgument)
    else if s.state == Start || s.state == KeySet || s.state == AuthFooter then (s, BadState)
    else
      var t := if s.state == IVSet then BeginMessage(m, forward, s) else s;
      var out := m.Transform(t.key, t.iv, t.position, d);
      (Absorb(m, t, if t.state == AuthUntransformed then d else out).(position := t.position + |d|), Output(out))
  }

  function AfterFinal(m: Mode, s: Session, macSize: nat): (Session, Reply) {
    if s.totalHeader > m.maxHeader || s.totalFooter > m.maxFooter then (s, InvalidArgument)
    else if s.state == Start || s.state == KeySet then (s, BadState)
    else
      var h := if s.state == IVSet then EndHeader(s) else s;
      var t := if s.state == AuthFooter then s else EndMessage(h);
      (t.(state := KeySet, rest := []), Tag(m.tag(t.key, t.iv, t.log, t.rest, t.totalFooter, macSize)))
  }

  function Step(m: Mode, forward: bool, s: Session, c: Command): (Session, Reply)
    requires m.blockSize >= 1
  {
    match c
    case SetKey(key, iv) => AfterSetKey(m, s, key, iv)
    case Resynchronize(iv) => AfterResync(m, s, iv)
    case Update(d) => AfterUpdate(m, s, d)
    case ProcessData(d) => AfterProcess(m, forward, s, d)
    case TruncatedFinal(macSize) => AfterFinal(m, s, macSize)
    case Restart => (if s.state == Start then s else s.(state := KeySet), Done)
  }

  // ---- The object ------------------------------------------------------------------------------

  class AuthenticatedSymmetricCipher {
    const mode: Mode
    const forward: bool
    const buffer: array<byte>
    var state: State
    var bufferedDataLength: nat
    var totalHeaderLength: nat
    var totalMessageLength: nat
    var totalFooterLength: nat
    /** State of the derived mode: its key and IV, how far the cipher has run, what the authenticator has been given. */
    var key: seq<byte>
    var iv: seq<byte>
    var position: nat
    var log: seq<Event>

    ghost predicate Valid()
      reads this, buffer
    {
      mode.Valid() && buffer.Length == mode.blockSize && bufferedDataLength < mode.blockSize
    }

    function Abstract(): Session
      reads this, buffer
      requires bufferedDataLength <= buffer.Length
    {
      Session(state, key, iv, position, log, buffer[..bufferedDataLength],
              totalHeaderLength, totalMessageLength, totalFooterLength)
    }

    constructor (mode: Mode, forward: bool)
      requires mode.Valid()
      ensures Valid() && state == Start && this.mode == mode && this.forward == forward && fresh(buffer)
    {
      this.mode, this.forward := mode, forward;
      state, bufferedDataLength := Start, 0;
      buffer := new byte[mode.blockSize](_ => 0);
      totalHeaderLength, totalMessageLength, totalFooterLength := 0, 0, 0;
      key, iv, position, log := [], [], 0, [];
    }

    /** memcpy into the buffer. */
    method Copy(at: nat, d: seq<byte>)
      requires at + |d| <= buffer.Length
      modifies buffer
      ensures buffer[..at + |d|] == old(buffer[..at]) + d
    {
      forall i | 0 <= i < |d| {
        buffer[at + i] := d[i];
      }
    }

    /** Hand the whole blocks to the mode; the result is how many bytes are left over. */
    method AuthenticateBlocks(d: seq<byte>) returns (leftOver: nat)
      requires mode.blockSize >= 1
      modifies this`log
      ensures leftOver <= |d| && d[|d| - leftOver..] == Rest(d, mode.blockSize)
      ensures log == old(log) + Blocks(d, mode.blockSize)
    {
      var i := 0;
      assert d[0..] == d;
      while |d| - i >= mode.blockSize
        invariant 0 <= i <= |d|
        invariant Rest(d[i..], mode.blockSize) == Rest(d, mode.blockSize)
        invariant log + Blocks(d[i..], mode.blockSize) == old(log) + Blocks(d, mode.blockSize)
      {
        var n := mode.blockSize;
        ghost var s := d[i..];
        assert s[..n] == d[i..i + n] && s[n..] == d[i + n..];
        assert log + ([Block(d[i..i + n])] + Blocks(s[n..], n)) == (log + [Block(d[i..i + n])]) + Blocks(s[n..], n);
        log := log + [Block(d[i..i + n])];
        i := i + n;
      }
      assert log + [] == log;
      leftOver := |d| - i;
    }

    /** The partial-block buffer makes every chunking absorb the same blocks. */
    method AuthenticateData(input: seq<byte>)
      requires Valid()
      modifies this`bufferedDataLength, this`log, buffer
      ensures Valid() && Abstract() == Absorb(mode, old(Abstract()), input)
    {
      hide Blocks, Rest;
      var n := mode.blockSize;
      ghost var held := buffer[..bufferedDataLength];
      var d := input;
      if bufferedDataLength != 0 {
        if bufferedDataLength + |input| >= n {
          var k := n - bufferedDataLength;
          FirstBlock(held, input, n);
          Copy(bufferedDataLength, input[..k]);
          log := log + [Block(buffer[..n])];
          d := input[k..];
          bufferedDataLength := 0;
          AppendAssociative(old(log), [Block(buffer[..n])], Blocks(d, n));
        } else {
          NoBlock(held + input, n);
          Copy(bufferedDataLength, input);
          bufferedDataLength := bufferedDataLength + |input|;
          assert old(log) + [] == log;
          return;
        }
      } else {
        assert held + input == input;
      }
      AuthenticateRest(d);
    }

    /** The input data after any left-over block: whole blocks, and the rest into the buffer. */
    method AuthenticateRest(input: seq<byte>)
      requires Valid() && bufferedDataLength == 0
      modifies this`bufferedDataLength, this`log, buffer
      ensures Valid() && log == old(log) + Blocks(input, mode.blockSize)
      ensures buffer[..bufferedDataLength] == Rest(input, mode.blockSize)
    {
      hide Blocks;
      var d := input;
      if |d| >= mode.blockSize {
        var leftOver := AuthenticateBlocks(d);
        d := d[|d| - leftOver..];
      } else {
        NoBlock(d, mode.blockSize);
        assert log + [] == log;
      }
      Copy(0, d);
      bufferedDataLength := |d|;
      assert buffer[..|d|] == d;
    }

    method SetKey(userKey: seq<byte>, givenIV: Option<seq<byte>>) returns (r: Reply)
      requires Valid()
      modifies this
      ensures Valid() && (Abstract(), r) == Step(mode, forward, old(Abstract()), Command.SetKey(userKey, givenIV))
    {
      bufferedDataLength, state := 0, Start;
      if !mode.validKey(userKey) { return InvalidArgument; }
      key, state := userKey, KeySet;
      match givenIV
      case None =>
        r := if mode.needsIV then InvalidArgument else Done;
      case Some(v) =>
        if !mode.validIV(v) { return InvalidArgument; }
        r := Resynchronize(v);
    }

    method Resynchronize(newIV: seq<byte>) returns (r: Reply)
      requires Valid()
      modifies this
      ensures Valid() && (Abstract(), r) == Step(mode, forward, old(Abstract()), Command.Resynchronize(newIV))
    {
      if state == Start { return BadState; }
      bufferedDataLength := 0;
      totalHeaderLength, totalMessageLength, totalFooterLength := 0, 0, 0;
      state := KeySet;
      if !mode.validIV(newIV) { return InvalidArgument; }
      iv, position, log := newIV, 0, [];
      state := IVSet;
      r := Done;
    }

    method AuthenticateLastHeaderBlock()
      requires Valid()
      modifies this`log, this`bufferedDataLength
      ensures Valid() && Abstract() == EndHeader(old(Abstract()))
    {
      log := log + [HeaderEnd(buffer[..bufferedDataLength], totalHeaderLength)];
      bufferedDataLength := 0;
    }

    method AuthenticateLastConfidentialBlock()
      requires Valid()
      modifies this`log, this`bufferedDataLength
      ensures Valid() && Abstract() == EndMessage(old(Abstract()))
    {
      log := log + [MessageEnd(buffer[..bufferedDataLength], totalHeaderLength, totalMessageLength)];
      bufferedDataLength := 0;
    }

    method Update(input: seq<byte>) returns (r: Reply)
      requires Valid()
      modifies this, buffer
      ensures Valid() && (Abstract(), r) == Step(mode, forward, old(Abstract()), Command.Update(input))
    {
      hide Blocks, Rest;
      if |input| == 0 { return Done; }
      if state == Start || state == KeySet { return BadState; }
      if state == IVSet {
        AuthenticateData(input);
        totalHeaderLength := totalHeaderLength + |input|;
      } else {
        if state != AuthFooter {
          AuthenticateLastConfidentialBlock();
          state := AuthFooter;
        }
        AuthenticateData(input);
        totalFooterLength := totalFooterLength + |input|;
      }
      r := Done;
    }

    /** The symmetric cipher runs on from where it is. */
    method Encipher(input: seq<byte>) returns (out: seq<byte>)
      requires Valid()
      modifies this`position
      ensures Valid() && out == mode.Transform(key, iv, old(position), input)
      ensures Abstract() == old(Abstract()).(position := old(position) + |input|)
    {
      out := mode.Transform(key, iv, position, input);
      position := position + |input|;
    }

    /** The first message data ends the header. */
    method CloseHeader()
      requires Valid()
      modifies this`log, this`bufferedDataLength, this`state
      ensures Valid() && Abstract() == BeginMessage(mode, forward, old(Abstract()))
      ensures state == AuthUntransformed || state == AuthTransformed
    {
      AuthenticateLastHeaderBlock();
      state := if mode.onPlaintext == forward then AuthUntransformed else AuthTransformed;
    }

    method ProcessData(input: seq<byte>) returns (r: Reply)
      requires Valid()
      modifies this, buffer
      ensures Valid() && (Abstract(), r) == Step(mode, forward, old(Abstract()), Command.ProcessData(input))
    {
      hide Absorb, BeginMessage, AfterSetKey, AfterResync, AfterUpdate, AfterFinal;
      totalMessageLength := totalMessageLength + |input|;
      if state != Start && state != KeySet && totalMessageLength > mode.maxMessage { return InvalidArgument; }
      if state == Start || state == KeySet || state == AuthFooter { return BadState; }
      if state == IVSet { CloseHeader(); }
      var out := ProcessText(input);
      r := Output(out);
    }

    /** The text is enciphered, and authenticated before or after that. */
    method ProcessText(input: seq<byte>) returns (out: seq<byte>)
      requires Valid() && (state == AuthUntransformed || state == AuthTransformed)
      modifies this`position, this`bufferedDataLength, this`log, buffer
      ensures Valid() && out == mode.Transform(key, iv, old(position), input)
      ensures Abstract() == Absorb(mode, old(Abstract()), if state == AuthUntransformed then input else out)
                            .(position := old(position) + |input|)
    {
      hide Blocks, Rest;
      if state == AuthUntransformed {
        AuthenticateData(input);
        out := Encipher(input);
      } else {
        out := Encipher(input);
        AuthenticateData(out);
      }
    }

    method TruncatedFinal(macSize: nat) returns (r: Reply)
      requires Valid()
      modifies this
      ensures Valid() && (Abstract(), r) == Step(mode, forward, old(Abstract()), Command.TruncatedFinal(macSize))
    {
      if totalHeaderLength > mode.maxHeader || totalFooterLength > mode.maxFooter { return InvalidArgument; }
      if state == Start || state == KeySet { return BadState; }
      if state == IVSet { AuthenticateLastHeaderBlock(); }
      if state != AuthFooter { AuthenticateLastConfidentialBlock(); }
      r := Tag(mode.tag(key, iv, log, buffer[..bufferedDataLength], totalFooterLength, macSize));
      bufferedDataLength := 0;
      state := KeySet;
    }

    method Restart()
      requires Valid()
      modifies this`state
      ensures Valid() && (Abstract(), Done) == Step(mode, forward, old(Abstract()), Command.Restart)
    {
      if state != Start { state := KeySet; }
    }
  }
}
