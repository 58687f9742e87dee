/** The packet functions of the TLS wrapper, on connections, caller buffers and size cells. */
module TlsProcess {
  import opened Bytes
  import opened TlsBuffers

  /** A TLS_CONNECTION with its two memory BIOs; the flags tell which pointers are set. */
  class TlsConnection<!S> {
    const hasSsl: bool
    const hasInBio: bool
    const hasOutBio: bool
    const engine: Engine<S>
    var state: S
    var inBio: seq<byte>
    var outBio: seq<byte>
    ghost var queued: seq<byte>
    ghost var eaten: seq<byte>
    ghost var emitted: seq<byte>
    ghost var steps: nat

    constructor (engine: Engine<S>, state: S)
      ensures hasSsl && hasInBio && hasOutBio && this.engine == engine
      ensures View() == Conn(state, [], [], [], [], [], 0)
    {
      hasSsl, hasInBio, hasOutBio := true, true, true;
      this.engine, this.state := engine, state;
      inBio, outBio := [], [];
      queued, eaten, emitted, steps := [], [], [], 0;
    }

    ghost function View(): Conn<S>
      reads this
    {
      Conn(state, inBio, outBio, queued, eaten, emitted, steps)
    }

    method BioWrite(input: seq<byte>) returns (n: nat)
      modifies this
      ensures View() == Enqueue(old(View()), input) && n == WriteCount(|input|)
    {
      n := WriteCount(|input|);
      inBio := inBio + input[..n];
      queued := queued + input[..n];
    }

    /** Moves pending bytes to the front of the buffer. */
    method BioRead(buffer: array<byte>, size: nat) returns (r: int)
      requires ReadCount(|outBio|, size) <= buffer.Length
      modifies this, buffer
      ensures View() == Dequeue(old(View()), size).0
      ensures r == ReadResult(old(|outBio|), size)
      ensures var output := Dequeue(old(View()), size).1;
              buffer[..] == output + old(buffer[..])[|output|..]
    {
      var n := ReadCount(|outBio|, size);
      r := ReadResult(|outBio|, size);
      forall i | 0 <= i < n {
        buffer[i] := outBio[i];
      }
      assert buffer[..n] == outBio[..n];
      assert buffer[n..] == old(buffer[..])[n..];
      assert buffer[..] == buffer[..n] + buffer[n..];
      outBio := outBio[n..];
    }

    method ApplyStep(s: Step<S>)
      modifies this
      ensures View() == Pump(old(View()), s)
    {
      var n := if s.eaten < |inBio| then s.eaten else |inBio|;
      eaten := eaten + inBio[..n];
      emitted := emitted + s.emitted;
      steps := steps + 1;
      state, inBio, outBio := s.state, inBio[n..], outBio + s.emitted;
    }
  }

  /** A UINTN the caller passes by address. */
  class SizeCell {
    var value: nat

    constructor (value: nat)
      ensures this.value == value
    {
      this.value := value;
    }
  }

  /** The checks at the head of every packet function. */
  predicate Usable<S>(tls: TlsConnection?<S>) {
    tls != null && tls.hasSsl && tls.hasInBio && tls.hasOutBio
  }

  predicate BadInput(bufferIn: array?<byte>, bufferInSize: nat) {
    (bufferIn == null && bufferInSize != 0) || (bufferIn != null && bufferInSize == 0)
  }

  predicate BadOutput(bufferOut: array?<byte>, size: SizeCell?)
    reads size
  {
    size == null || (bufferOut == null && size.value != 0)
  }

  /** Valid parameters: a connection with both BIOs, and each pointer given exactly with its size. */
  lemma {:induction false} ParametersExactly<S>(tls: TlsConnection?<S>, bufferIn: array?<byte>, bufferInSize: nat,
                                                bufferOut: array?<byte>, size: SizeCell?)
    ensures Usable(tls) && !BadInput(bufferIn, bufferInSize) && !BadOutput(bufferOut, size) <==>
      && tls != null && tls.hasSsl && tls.hasInBio && tls.hasOutBio
      && (bufferIn == null <==> bufferInSize == 0)
      && size != null && (size.value > 0 ==> bufferOut != null)
  {
  }

  /** The memory the caller describes is there. */
  predicate Backed(bufferIn: array?<byte>, bufferInSize: nat, bufferOut: array?<byte>, size: SizeCell?)
    reads size
  {
    && (bufferIn != null ==> bufferInSize <= bufferIn.Length)
    && (bufferOut != null && size != null ==> size.value <= bufferOut.Length)
  }

  function Input(bufferIn: array?<byte>, bufferInSize: nat): seq<byte>
    requires bufferIn != null ==> bufferInSize <= bufferIn.Length
    reads bufferIn
  {
    if bufferIn == null then [] else bufferIn[..bufferInSize]
  }

  /** The caller's buffer holds the output at its front and is otherwise as before. */
  twostate predicate Received(bufferOut: array?<byte>, output: seq<byte>)
    reads bufferOut
  {
    if bufferOut == null then output == []
    else |output| <= bufferOut.Length && bufferOut[..] == output + old(bufferOut[..])[|output|..]
  }

  /** The tail the packet functions share. */
  method Finish<S>(tls: TlsConnection<S>, bufferOut: array?<byte>, size: SizeCell) returns (status: Status)
    requires bufferOut == null ==> size.value == 0
    requires bufferOut != null ==> size.value <= bufferOut.Length
    modifies tls, bufferOut, size
    ensures var (c', r) := Deliver(old(tls.View()), old(size.value));
            tls.View() == c' && status == r.status && size.value == r.size && Received(bufferOut, r.output)
  {
    var pending := |tls.outBio|;
    if pending > size.value {
      size.value := pending;
      return BufferTooSmall;
    }
    if pending > 0 {
      var n := tls.BioRead(bufferOut, pending);
      size.value := n;
    } else {
      assert tls.outBio[0..] == tls.outBio;
      size.value := 0;
    }
    return Success;
  }

  method TlsDoHandshake<S>(tls: TlsConnection?<S>, bufferIn: array?<byte>, bufferInSize: nat,
                           bufferOut: array?<byte>, bufferOutSize: SizeCell?)
    returns (status: Status)
    requires Backed(bufferIn, bufferInSize, bufferOut, bufferOutSize)
    modifies tls, bufferOut, bufferOutSize
    ensures old(!Usable(tls) || BadInput(bufferIn, bufferInSize) || BadOutput(bufferOut, bufferOutSize)) ==>
      status == InvalidParameter && (tls != null ==> unchanged(tls))
      && (bufferOut != null ==> unchanged(bufferOut)) && (bufferOutSize != null ==> unchanged(bufferOutSize))
    ensures old(Usable(tls) && !BadInput(bufferIn, bufferInSize) && !BadOutput(bufferOut, bufferOutSize)) ==>
      var input, room := old(Input(bufferIn, bufferInSize)), old(bufferOutSize.value);
      var (c', r) := Handshake(tls.engine, old(tls.View()), input, room);
      tls.View() == c' && status == r.status && bufferOutSize.value == r.size && Received(bufferOut, r.output)
  {
    if !Usable(tls) || BadInput(bufferIn, bufferInSize) || BadOutput(bufferOut, bufferOutSize) {
      return InvalidParameter;
    }
    var ret, err := 1, ErrOther;
    if bufferIn == null && bufferInSize == 0 {
      if |tls.outBio| == 0 {
        tls.state := tls.engine.setConnect(tls.state);
        var s := tls.engine.handshake(tls.state, tls.inBio);
        tls.ApplyStep(s);
        ret, err := s.ret, s.err;
      }
    } else {
      if |tls.outBio| == 0 {
        var taken := tls.BioWrite(bufferIn[..bufferInSize]);
        var s := tls.engine.handshake(tls.state, tls.inBio);
        tls.ApplyStep(s);
        ret, err := s.ret, s.err;
      }
    }
    if ret < 1 {
      if err == ErrSsl || err == ErrSyscall || err == ErrZeroReturn {
        return Aborted;
      }
    }
    status := Finish(tls, bufferOut, bufferOutSize);
  }

  method TlsHandleAlert<S>(tls: TlsConnection?<S>, bufferIn: array?<byte>, bufferInSize: nat,
                           bufferOut: array?<byte>, bufferOutSize: SizeCell?)
    returns (status: Status)
    requires Backed(bufferIn, bufferInSize, bufferOut, bufferOutSize)
    modifies tls, bufferOut, bufferOutSize
    ensures old(!Usable(tls) || BadInput(bufferIn, bufferInSize) || BadOutput(bufferOut, bufferOutSize)) ==>
      status == InvalidParameter && (tls != null ==> unchanged(tls))
      && (bufferOut != null ==> unchanged(bufferOut)) && (bufferOutSize != null ==> unchanged(bufferOutSize))
    ensures old(Usable(tls) && !BadInput(bufferIn, bufferInSize) && !BadOutput(bufferOut, bufferOutSize)) ==>
      var input, room := old(Input(bufferIn, bufferInSize)), old(bufferOutSize.value);
      var (c', r) := HandleAlert(tls.engine, old(tls.View()), input, room);
      tls.View() == c' && status == r.status && bufferOutSize.value == r.size && Received(bufferOut, r.output)
  {
    if !Usable(tls) || BadInput(bufferIn, bufferInSize) || BadOutput(bufferOut, bufferOutSize) {
      return InvalidParameter;
    }
    if |tls.outBio| == 0 && bufferIn != null && bufferInSize != 0 {
      var taken := tls.BioWrite(bufferIn[..bufferInSize]);
      if taken != bufferInSize {
        return Aborted;
      }
      tls.ApplyStep(tls.engine.read(tls.state, tls.inBio));
    }
    status := Finish(tls, bufferOut, bufferOutSize);
  }

  method TlsCloseNotify<S>(tls: TlsConnection?<S>, buffer: array?<byte>, bufferSize: SizeCell?)
    returns (status: Status)
    requires Backed(null, 0, buffer, bufferSize)
    modifies tls, buffer, bufferSize
    ensures old(!Usable(tls) || BadOutput(buffer, bufferSize)) ==>
      status == InvalidParameter && (tls != null ==> unchanged(tls))
      && (buffer != null ==> unchanged(buffer)) && (bufferSize != null ==> unchanged(bufferSize))
    ensures old(Usable(tls) && !BadOutput(buffer, bufferSize)) ==>
      var (c', r) := CloseNotify(tls.engine, old(tls.View()), old(bufferSize.value));
      tls.View() == c' && status == r.status && bufferSize.value == r.size && Received(buffer, r.output)
  {
    if !Usable(tls) || BadOutput(buffer, bufferSize) {
      return InvalidParameter;
    }
    if |tls.outBio| == 0 {
      tls.ApplyStep(tls.engine.shutdown(tls.state, tls.inBio));
    }
    status := Finish(tls, buffer, bufferSize);
  }

  method TlsCtrlTrafficOut<S>(tls: TlsConnection?<S>, buffer: array<byte>, bufferSize: nat) returns (r: int)
    requires bufferSize <= buffer.Length
    modifies tls, buffer
    ensures tls == null || !tls.hasOutBio ==> r == -1 && unchanged(buffer) && (tls != null ==> unchanged(tls))
    ensures tls != null && tls.hasOutBio ==>
      var (c', output) := Dequeue(old(tls.View()), bufferSize);
      tls.View() == c' && Received(buffer, output) && r == ReadResult(old(|tls.outBio|), bufferSize)
  {
    if tls == null || !tls.hasOutBio {
      return -1;
    }
    r := tls.BioRead(buffer, bufferSize);
  }

  /** The caller's view of an input: no pointer for no bytes. */
  method InputBuffer(input: seq<byte>) returns (buffer: array?<byte>)
    ensures buffer == null <==> input == []
    ensures buffer != null ==> fresh(buffer) && buffer.Length == |input| && buffer[..] == input
  {
    if input == [] {
      return null;
    }
    buffer := new byte[|input|](i requires 0 <= i < |input| => input[i]);
  }

  lemma {:induction false} ReplyShape<S>(e: Engine<S>, c: Conn<S>, call: Call)
    requires IsPacket(call)
    ensures var r := ReplyOf(e, c, call);
            && Exec(e, c, call).1 == r.output
            && (if r.status == Success then |r.output| == r.size else r.output == [])
  {
  }

  /** A packet call on a buffer that holds the given room. */
  method PassPacket<S>(tls: TlsConnection<S>, call: Call, buffer: array<byte>, size: SizeCell) returns (status: Status)
    requires Usable(tls) && IsPacket(call) && buffer.Length == call.room == size.value
    modifies tls, buffer, size
    ensures tls.View() == Exec(tls.engine, old(tls.View()), call).0
    ensures var r := ReplyOf(tls.engine, old(tls.View()), call);
            status == r.status && size.value == r.size && r.output <= buffer[..]
  {
    match call {
      case DoHandshake(input, _) =>
        var bufferIn := InputBuffer(input);
        assert Input(bufferIn, |input|) == input;
        status := TlsDoHandshake(tls, bufferIn, |input|, buffer, size);
      case DoAlert(input, _) =>
        var bufferIn := InputBuffer(input);
        assert Input(bufferIn, |input|) == input;
        status := TlsHandleAlert(tls, bufferIn, |input|, buffer, size);
      case DoCloseNotify(_) =>
        status := TlsCloseNotify(tls, buffer, size);
    }
  }

  /** A packet call with a caller buffer of its own; returns the bytes it handed over. */
  method CallPacket<S>(tls: TlsConnection<S>, call: Call) returns (status: Status, given: seq<byte>)
    requires Usable(tls) && IsPacket(call)
    modifies tls
    ensures (tls.View(), given) == Exec(tls.engine, old(tls.View()), call)
    ensures status == ReplyOf(tls.engine, old(tls.View()), call).status
  {
    ReplyShape(tls.engine, tls.View(), call);
    var buffer := new byte[call.room](_ => 0);
    var size := new SizeCell(call.room);
    status := PassPacket(tls, call, buffer, size);
    given := if status == Success then buffer[..size.value] else [];
    assert given == ReplyOf(tls.engine, old(tls.View()), call).output;
  }

  method Perform<S>(tls: TlsConnection<S>, call: Call) returns (given: seq<byte>)
    requires Usable(tls)
    modifies tls
    ensures (tls.View(), given) == Exec(tls.engine, old(tls.View()), call)
  {
    given := [];
    match call {
      case CtrlTrafficOut(size) =>
        var buffer := new byte[size](_ => 0);
        var r := TlsCtrlTrafficOut(tls, buffer, size);
        given := if r < 0 then [] else buffer[..r];
      case CtrlTrafficIn(input) =>
        var n := tls.BioWrite(input);
      case SslRead =>
        tls.ApplyStep(tls.engine.read(tls.state, tls.inBio));
      case SslWrite(data) =>
        tls.ApplyStep(tls.engine.write(tls.state, tls.inBio, data));
      case _ =>
        var status;
        status, given := CallPacket(tls, call);
    }
  }

  /**
   * Any run of calls on a connection with caller buffers: it refines the run of the transitions,
   * and what the buffers received and what is still pending make up all output.
   */
  method RunCalls<S>(tls: TlsConnection<S>, calls: seq<Call>) returns (given: seq<byte>)
    requires Usable(tls)
    modifies tls
    ensures (tls.View(), given) == Run(tls.engine, old(tls.View()), calls)
    ensures old(Conserved(tls.View(), [])) ==> Conserved(tls.View(), given)
    decreases |calls|
  {
    if Conserved(tls.View(), []) {
      RunConserves(tls.engine, tls.View(), calls, []);
      assert [] + Run(tls.engine, tls.View(), calls).1 == Run(tls.engine, tls.View(), calls).1;
    }
    if calls == [] {
      return [];
    }
    var first := Perform(tls, calls[0]);
    var rest := RunCalls(tls, calls[1..]);
    given := first + rest;
  }
}
