/** The output buffering protocol of the TLS wrapper, over an arbitrary engine. */
module TlsBuffers {
  import opened Bytes

  /** SSL_get_error's answers; the first three abort a handshake. */
  datatype SslError = ErrSsl | ErrSyscall | ErrZeroReturn | ErrOther

  /** What one call into the engine does: its next state, input eaten, output emitted, result. */
  datatype Step<S> = Step(state: S, eaten: nat, emitted: seq<byte>, ret: int, err: SslError)

  /** Any behaviour at all: the state may carry whatever the engine depends on. */
  datatype Engine<!S> = Engine(
    setConnect: S -> S,
    handshake: (S, seq<byte>) -> Step<S>,
    read: (S, seq<byte>) -> Step<S>,
    write: (S, seq<byte>, seq<byte>) -> Step<S>,
    shutdown: (S, seq<byte>) -> Step<S>)

  /**
   * A connection: engine state and the two BIOs, and the history of all bytes queued as input,
   * eaten and emitted by the engine, with the number of engine calls.
   */
  datatype Conn<S> = Conn(
    state: S, inBio: seq<byte>, outBio: seq<byte>,
    queued: seq<byte>, eaten: seq<byte>, emitted: seq<byte>, steps: nat)

  datatype Status = Success | InvalidParameter | Aborted | BufferTooSmall

  /** Status, the bytes placed in the caller's buffer, and the size reported back. */
  datatype Reply = Reply(status: Status, output: seq<byte>, size: nat)

  const INT_LIMIT := 0x8000_0000

  /** A size cast to UINT32 and passed as int. */
  function AsInt(size: nat): int {
    var low := size % 0x1_0000_0000;
    if low >= INT_LIMIT then low - 0x1_0000_0000 else low
  }

  /** How many bytes BIO_write takes: none for a length that is not positive. */
  function WriteCount(size: nat): (n: nat)
    ensures n <= size
  {
    if AsInt(size) <= 0 then 0 else AsInt(size)
  }

  /** How many bytes BIO_read moves. */
  function ReadCount(pending: nat, size: nat): (n: nat)
    ensures n <= pending && n <= size
  {
    if AsInt(size) <= 0 then 0 else if AsInt(size) < pending then AsInt(size) else pending
  }

  /** BIO_read's result; a memory BIO answers -1 when it is empty. */
  function ReadResult(pending: nat, size: nat): int {
    if AsInt(size) < 0 then 0 else if pending == 0 then -1 else ReadCount(pending, size)
  }

  function Enqueue<S>(c: Conn<S>, input: seq<byte>): Conn<S> {
    var taken := input[..WriteCount(|input|)];
    c.(inBio := c.inBio + taken, queued := c.queued + taken)
  }

  function Dequeue<S>(c: Conn<S>, size: nat): (Conn<S>, seq<byte>) {
    var n := ReadCount(|c.outBio|, size);
    (c.(outBio := c.outBio[n..]), c.outBio[..n])
  }

  /** Applies an engine step: it eats from the front of the input and appends to the output. */
  function Pump<S>(c: Conn<S>, s: Step<S>): Conn<S> {
    var n := if s.eaten < |c.inBio| then s.eaten else |c.inBio|;
    c.(state := s.state, inBio := c.inBio[n..], eaten := c.eaten + c.inBio[..n],
       outBio := c.outBio + s.emitted, emitted := c.emitted + s.emitted, steps := c.steps + 1)
  }

  predicate Fatal<S>(s: Step<S>) {
    s.ret < 1 && s.err != ErrOther
  }

  /** The common tail: report the size needed, or hand over what is pending. */
  function Deliver<S>(c: Conn<S>, room: nat): (Conn<S>, Reply) {
    if |c.outBio| > room then (c, Reply(BufferTooSmall, [], |c.outBio|))
    else
      var (c', output) := Dequeue(c, |c.outBio|);
      (c', Reply(Success, output, |output|))
  }

  function Handshake<S>(e: Engine<S>, c: Conn<S>, input: seq<byte>, room: nat): (Conn<S>, Reply) {
    if c.outBio != [] then Deliver(c, room)
    else
      var ready := if input == [] then c.(state := e.setConnect(c.state)) else Enqueue(c, input);
      var s := e.handshake(ready.state, ready.inBio);
      var c' := Pump(ready, s);
      if Fatal(s) then (c', Reply(Aborted, [], room)) else Deliver(c', room)
  }

  function HandleAlert<S>(e: Engine<S>, c: Conn<S>, input: seq<byte>, room: nat): (Conn<S>, Reply) {
    if c.outBio != [] || input == [] then Deliver(c, room)
    else
      var ready := Enqueue(c, input);
      if WriteCount(|input|) != |input| then (ready, Reply(Aborted, [], room))
      else Deliver(Pump(ready, e.read(ready.state, ready.inBio)), room)
  }

  function CloseNotify<S>(e: Engine<S>, c: Conn<S>, room: nat): (Conn<S>, Reply) {
    Deliver(if c.outBio != [] then c else Pump(c, e.shutdown(c.state, c.inBio)), room)
  }

  /** The calls a client can make, in any order. */
  datatype Call =
    | DoHandshake(input: seq<byte>, room: nat)
    | DoAlert(input: seq<byte>, room: nat)
    | DoCloseNotify(room: nat)
    | CtrlTrafficOut(size: nat)
    | CtrlTrafficIn(input: seq<byte>)
    | SslRead
    | SslWrite(data: seq<byte>)

  function Exec<S>(e: Engine<S>, c: Conn<S>, call: Call): (Conn<S>, seq<byte>) {
    match call
    case DoHandshake(input, room) => var (c', r) := Handshake(e, c, input, room); (c', r.output)
    case DoAlert(input, room) => var (c', r) := HandleAlert(e, c, input, room); (c', r.output)
    case DoCloseNotify(room) => var (c', r) := CloseNotify(e, c, room); (c', r.output)
    case CtrlTrafficOut(size) => Dequeue(c, size)
    case CtrlTrafficIn(input) => (Enqueue(c, input), [])
    case SslRead => (Pump(c, e.read(c.state, c.inBio)), [])
    case SslWrite(data) => (Pump(c, e.write(c.state, c.inBio, data)), [])
  }

  /** The connection after a run, and all bytes handed to the caller during it. */
  function Run<S>(e: Engine<S>, c: Conn<S>, calls: seq<Call>): (Conn<S>, seq<byte>)
    decreases |calls|
  {
    if calls == [] then (c, [])
    else
      var (c1, first) := Exec(e, c, calls[0]);
      var (c2, rest) := Run(e, c1, calls[1..]);
      (c2, first + rest)
  }

  /** Bytes handed over so far and bytes pending make up all output; eaten and waiting, all input. */
  predicate Conserved<S>(c: Conn<S>, given: seq<byte>) {
    c.emitted == given + c.outBio && c.queued == c.eaten + c.inBio
  }

  lemma {:induction false} PumpConserves<S>(c: Conn<S>, s: Step<S>, given: seq<byte>)
    requires Conserved(c, given)
    ensures Conserved(Pump(c, s), given)
  {
    var n := if s.eaten < |c.inBio| then s.eaten else |c.inBio|;
    assert c.inBio == c.inBio[..n] + c.inBio[n..];
  }

  lemma {:induction false} EnqueueConserves<S>(c: Conn<S>, input: seq<byte>, given: seq<byte>)
    requires Conserved(c, given)
    ensures Conserved(Enqueue(c, input), given)
  {
  }

  lemma {:induction false} DequeueConserves<S>(c: Conn<S>, size: nat, given: seq<byte>)
    requires Conserved(c, given)
    ensures Conserved(Dequeue(c, size).0, given + Dequeue(c, size).1)
  {
    var n := ReadCount(|c.outBio|, size);
    assert c.outBio == c.outBio[..n] + c.outBio[n..];
  }

  lemma {:induction false} DeliverConserves<S>(c: Conn<S>, room: nat, given: seq<byte>)
    requires Conserved(c, given)
    ensures Conserved(Deliver(c, room).0, given + Deliver(c, room).1.output)
  {
    DequeueConserves(c, |c.outBio|, given);
    assert given + [] == given;
  }

  lemma {:induction false} ExecConserves<S>(e: Engine<S>, c: Conn<S>, call: Call, given: seq<byte>)
    requires Conserved(c, given)
    ensures Conserved(Exec(e, c, call).0, given + Exec(e, c, call).1)
  {
    assert given + [] == given;
    match call
    case DoHandshake(input, room) =>
      if c.outBio != [] {
        DeliverConserves(c, room, given);
      } else {
        EnqueueConserves(c, input, given);
        var ready := if input == [] then c.(state := e.setConnect(c.state)) else Enqueue(c, input);
        var s := e.handshake(ready.state, ready.inBio);
        PumpConserves(ready, s, given);
        DeliverConserves(Pump(ready, s), room, given);
      }
    case DoAlert(input, room) =>
      DeliverConserves(c, room, given);
      EnqueueConserves(c, input, given);
      var ready := Enqueue(c, input);
      PumpConserves(ready, e.read(ready.state, ready.inBio), given);
      DeliverConserves(Pump(ready, e.read(ready.state, ready.inBio)), room, given);
    case DoCloseNotify(room) =>
      PumpConserves(c, e.shutdown(c.state, c.inBio), given);
      DeliverConserves(if c.outBio != [] then c else Pump(c, e.shutdown(c.state, c.inBio)), room, given);
    case CtrlTrafficOut(size) => DequeueConserves(c, size, given);
    case CtrlTrafficIn(input) => EnqueueConserves(c, input, given);
    case SslRead => PumpConserves(c, e.read(c.state, c.inBio), given);
    case SslWrite(data) => PumpConserves(c, e.write(c.state, c.inBio, data), given);
  }

  /** No run loses, repeats or reorders a byte, whatever the engine does and the calls return. */
  lemma {:induction false} RunConserves<S>(e: Engine<S>, c: Conn<S>, calls: seq<Call>, given: seq<byte>)
    requires Conserved(c, given)
    ensures Conserved(Run(e, c, calls).0, given + Run(e, c, calls).1)
    decreases |calls|
  {
    if calls == [] {
      assert given + [] == given;
    } else {
      var (c1, first) := Exec(e, c, calls[0]);
      ExecConserves(e, c, calls[0], given);
      RunConserves(e, c1, calls[1..], given + first);
      var rest := Run(e, c1, calls[1..]).1;
      assert (given + first) + rest == given + (first + rest);
    }
  }

  /** A successful delivery empties the output exactly when the pending size fits an int. */
  lemma {:induction false} DeliverDrains<S>(c: Conn<S>, room: nat)
    ensures Deliver(c, room).1.status == Success <==> |c.outBio| <= room
    ensures Deliver(c, room).1.status == Success ==>
      (Deliver(c, room).0.outBio == [] <==> |c.outBio| < INT_LIMIT)
    ensures |c.outBio| < INT_LIMIT && |c.outBio| <= room ==>
      Deliver(c, room) == (c.(outBio := []), Reply(Success, c.outBio, |c.outBio|))
  {
    var (c', output) := Dequeue(c, |c.outBio|);
    assert c.outBio[..|c.outBio|] == c.outBio && c.outBio[|c.outBio|..] == [];
  }

  /** The three calls that hand over pending output with a status. */
  predicate IsPacket(call: Call) {
    call.DoHandshake? || call.DoAlert? || call.DoCloseNotify?
  }

  /** AsInt is the 32-bit two's complement value: congruent to the size and in the range of int. */
  lemma {:induction false} AsIntExactly(size: nat)
    ensures -0x8000_0000 <= AsInt(size) < 0x8000_0000
    ensures (AsInt(size) - size) % 0x1_0000_0000 == 0
  {
    var q, low := size / 0x1_0000_0000, size % 0x1_0000_0000;
    assert size == 0x1_0000_0000 * q + low;
    assert AsInt(size) - size == 0x1_0000_0000 * -q || AsInt(size) - size == 0x1_0000_0000 * (-q - 1);
  }

  /** Below 2^31 a write takes all, and a read what is pending and asked for. */
  lemma {:induction false} BioMovesExactly(pending: nat, size: nat)
    requires size < INT_LIMIT
    ensures WriteCount(size) == size
    ensures ReadCount(pending, size) == if pending < size then pending else size
    ensures ReadResult(pending, size) == if pending == 0 then -1 else ReadCount(pending, size)
  {
    assert AsInt(size) == size;
  }

  /**
   * A handshake with output pending leaves the engine alone and never aborts. Otherwise it queues
   * the input, or selects the client side when there is none, steps the engine's handshake once,
   * and aborts exactly when that fails with one of the three fatal answers.
   */
  lemma {:induction false} HandshakeExactly<S>(e: Engine<S>, c: Conn<S>, input: seq<byte>, room: nat)
    ensures var (c', r) := Handshake(e, c, input, room);
            var state := if input == [] then e.setConnect(c.state) else c.state;
            var waiting := c.inBio + input[..WriteCount(|input|)];
            var s := e.handshake(state, waiting);
            if c.outBio != [] then
              r.status != Aborted && c'.state == c.state && c'.inBio == c.inBio && c'.steps == c.steps
            else
              && (r.status == Aborted <==> s.ret < 1 && s.err in {ErrSsl, ErrSyscall, ErrZeroReturn})
              && (r.status == Aborted ==> c'.outBio == s.emitted && r.output == [] && r.size == room)
              && c'.state == s.state && c'.steps == c.steps + 1 && c'.emitted == c.emitted + s.emitted
              && c'.inBio == waiting[if s.eaten < |waiting| then s.eaten else |waiting|..]
  {
    var waiting := c.inBio + input[..WriteCount(|input|)];
    if input == [] {
      assert waiting == c.inBio;
    }
    var s := e.handshake(if input == [] then e.setConnect(c.state) else c.state, waiting);
    assert [] + s.emitted == s.emitted;
  }

  /** An alert call aborts exactly when a non-empty input, with no output pending, is not taken whole. */
  lemma {:induction false} AlertExactly<S>(e: Engine<S>, c: Conn<S>, input: seq<byte>, room: nat)
    ensures var (c', r) := HandleAlert(e, c, input, room);
            var waiting := c.inBio + input;
            var s := e.read(c.state, waiting);
            && (r.status == Aborted <==> c.outBio == [] && |input| >= 0x8000_0000)
            && (c.outBio == [] && 0 < |input| < INT_LIMIT ==>
                  && c'.state == s.state && c'.steps == c.steps + 1 && c'.emitted == c.emitted + s.emitted
                  && c'.inBio == waiting[if s.eaten < |waiting| then s.eaten else |waiting|..])
            && (c.outBio != [] || input == [] || |input| >= INT_LIMIT ==> c'.state == c.state && c'.steps == c.steps)
  {
    if |input| < INT_LIMIT {
      BioMovesExactly(0, |input|);
      assert input[..|input|] == input;
    }
  }

  /** A close notification never aborts; it steps the engine's shutdown once, if no output is pending. */
  lemma {:induction false} CloseExactly<S>(e: Engine<S>, c: Conn<S>, room: nat)
    ensures var (c', r) := CloseNotify(e, c, room);
            var s := e.shutdown(c.state, c.inBio);
            && r.status in {Success, BufferTooSmall}
            && (c.outBio == [] ==>
                  && c'.state == s.state && c'.steps == c.steps + 1 && c'.emitted == c.emitted + s.emitted
                  && c'.inBio == c.inBio[if s.eaten < |c.inBio| then s.eaten else |c.inBio|..])
            && (c.outBio != [] ==> c'.state == c.state && c'.steps == c.steps && c'.inBio == c.inBio)
  {
  }

  /** The output pending when a call gets to its delivery. */
  function PendingAt<S>(e: Engine<S>, c: Conn<S>, call: Call): seq<byte>
    requires IsPacket(call)
  {
    if c.outBio != [] then c.outBio
    else
      match call
      case DoHandshake(input, _) =>
        var ready := if input == [] then c.(state := e.setConnect(c.state)) else Enqueue(c, input);
        e.handshake(ready.state, ready.inBio).emitted
      case DoAlert(input, _) =>
        if input == [] then [] else e.read(Enqueue(c, input).state, Enqueue(c, input).inBio).emitted
      case _ => e.shutdown(c.state, c.inBio).emitted
  }

  function ReplyOf<S>(e: Engine<S>, c: Conn<S>, call: Call): Reply
    requires IsPacket(call)
  {
    match call
    case DoHandshake(input, room) => Handshake(e, c, input, room).1
    case DoAlert(input, room) => HandleAlert(e, c, input, room).1
    case DoCloseNotify(room) => CloseNotify(e, c, room).1
  }

  /** Every successful packet call leaves no output behind, if and only if its size fits an int. */
  lemma {:induction false} SuccessDrains<S>(e: Engine<S>, c: Conn<S>, call: Call)
    requires IsPacket(call)
    requires ReplyOf(e, c, call).status == Success
    ensures Exec(e, c, call).0.outBio == [] <==> |PendingAt(e, c, call)| < INT_LIMIT
    ensures |PendingAt(e, c, call)| < INT_LIMIT ==> Exec(e, c, call).1 == PendingAt(e, c, call)
  {
    assert [] + PendingAt(e, c, call) == PendingAt(e, c, call);
    if c.outBio != [] || (call.DoAlert? && call.input == []) {
      DeliverDrains(c, call.room);
    } else {
      match call
      case DoHandshake(input, room) =>
        var ready := if input == [] then c.(state := e.setConnect(c.state)) else Enqueue(c, input);
        DeliverDrains(Pump(ready, e.handshake(ready.state, ready.inBio)), room);
      case DoAlert(input, room) =>
        var ready := Enqueue(c, input);
        DeliverDrains(Pump(ready, e.read(ready.state, ready.inBio)), room);
      case DoCloseNotify(room) =>
        DeliverDrains(Pump(c, e.shutdown(c.state, c.inBio)), room);
    }
  }

  /** A failing case: 2^31 pending bytes, room for them, any packet call. Nothing is handed over. */
  lemma {:induction false} HugeOutputStuck<S>(e: Engine<S>, c: Conn<S>, call: Call)
    requires IsPacket(call) && |c.outBio| == INT_LIMIT <= call.room
    ensures Exec(e, c, call) == (c, []) && ReplyOf(e, c, call) == Reply(Success, [], 0)
  {
    assert c.outBio[0..] == c.outBio && c.outBio[..0] == [];
  }

  /**
   * A handshake that found its buffer too small reports the size exactly; the retry, with any
   * input, hands over that output without queueing the input or stepping the engine again.
   */
  lemma {:induction false} RetryOnce<S>(e: Engine<S>, c: Conn<S>, input: seq<byte>, room: nat,
                                          again: seq<byte>, room': nat)
    requires c.outBio == [] && Handshake(e, c, input, room).1.status == BufferTooSmall
    ensures var (c1, r1) := Handshake(e, c, input, room);
            var (c2, r2) := Handshake(e, c1, again, room');
            && r1.size == |c1.outBio| > room && r1.output == []
            && c1.steps == c.steps + 1 && c1.queued == c.queued + input[..WriteCount(|input|)]
            && c2.steps == c1.steps && c2.queued == c1.queued && c2.state == c1.state
            && (r2.status == Success <==> room' >= r1.size)
            && (r2.status == Success ==>
                  (c2.outBio == [] && r2.output == c1.outBio <==> r1.size < INT_LIMIT))
  {
    var c1 := Handshake(e, c, input, room).0;
    DeliverDrains(c1, room');
    assert input == [] ==> c.queued + input[..WriteCount(|input|)] == c.queued;
  }

  lemma {:induction false} RunSplits<S>(e: Engine<S>, c: Conn<S>, before: seq<Call>, after: seq<Call>)
    ensures var (c1, given) := Run(e, c, before);
            var (c2, rest) := Run(e, c1, after);
            Run(e, c, before + after) == (c2, given + rest)
    decreases |before|
  {
    if before == [] {
      assert before + after == after;
      assert [] + Run(e, c, after).1 == Run(e, c, after).1;
    } else {
      var (c0, first) := Exec(e, c, before[0]);
      assert (before + after)[1..] == before[1..] + after;
      RunUnfolds(e, c, before + after);
      RunUnfolds(e, c, before);
      RunSplits(e, c0, before[1..], after);
      var (c1, more) := Run(e, c0, before[1..]);
      Associative(first, more, Run(e, c1, after).1);
    }
  }

  lemma {:induction false} RunUnfolds<S>(e: Engine<S>, c: Conn<S>, calls: seq<Call>)
    requires calls != []
    ensures var (c1, first) := Exec(e, c, calls[0]);
            Run(e, c, calls) == (Run(e, c1, calls[1..]).0, first + Run(e, c1, calls[1..]).1)
  {
  }

  lemma {:induction false} RunOfOne<S>(e: Engine<S>, c: Conn<S>, call: Call)
    ensures Run(e, c, [call]) == Exec(e, c, call)
  {
    var (c1, first) := Exec(e, c, call);
    assert [call][1..] == [] && Run(e, c1, []) == (c1, []);
    assert first + [] == first;
  }

  /** While output is pending, packet calls with too little room change nothing, however many. */
  lemma {:induction false} StalledRun<S>(e: Engine<S>, c: Conn<S>, calls: seq<Call>)
    requires forall call <- calls :: IsPacket(call) && call.room < |c.outBio|
    ensures Run(e, c, calls) == (c, [])
    decreases |calls|
  {
    if calls != [] {
      assert calls[0] in calls;
      assert Exec(e, c, calls[0]) == (c, []);
      StalledRun(e, c, calls[1..]);
      var rest := Run(e, c, calls[1..]).1;
      assert Exec(e, c, calls[0]).1 == rest == [] && rest + rest == [];
    }
  }

  /**
   * Retries are invisible: a packet call that found its buffer too small, then any number of
   * packet calls with too little room, then any packet call with enough, leave the connection and
   * the caller exactly where the first call alone would have with that much room.
   */
  lemma {:induction false} RetriesInvisible<S>(e: Engine<S>, c: Conn<S>, first: Call, retries: seq<Call>, last: Call)
    requires IsPacket(first) && IsPacket(last)
    requires ReplyOf(e, c, first).status == BufferTooSmall
    requires forall call <- retries :: IsPacket(call) && call.room < ReplyOf(e, c, first).size
    requires last.room >= ReplyOf(e, c, first).size
    ensures ReplyOf(e, c, first.(room := last.room)).status == Success
    ensures Run(e, c, [first] + retries + [last]) == Exec(e, c, first.(room := last.room))
  {
    var c1 := Exec(e, c, first).0;
    TooSmallReply(e, c, first, last.room);
    RunOfOne(e, c, first);
    StalledRun(e, c1, retries);
    RunSplits(e, c, [first], retries);
    RunSplits(e, c, [first] + retries, [last]);
    RunOfOne(e, c1, last);
    var delivered := Deliver(c1, last.room);
    assert Exec(e, c1, last) == (delivered.0, delivered.1.output);
    assert [] + delivered.1.output == delivered.1.output;
  }

  /** A too-small reply names the pending size; with other room the same call would deliver from there. */
  lemma {:induction false} TooSmallReply<S>(e: Engine<S>, c: Conn<S>, call: Call, room: nat)
    requires IsPacket(call) && ReplyOf(e, c, call).status == BufferTooSmall
    ensures var c1 := Exec(e, c, call).0;
            && Exec(e, c, call).1 == []
            && ReplyOf(e, c, call).size == |c1.outBio| > call.room
            && ReplyOf(e, c, call.(room := room)) == Deliver(c1, room).1
            && Exec(e, c, call.(room := room)) == (Deliver(c1, room).0, Deliver(c1, room).1.output)
  {
    var again := Exec(e, c, call.(room := room));
  }

  /** Input is queued whole if and only if no output was pending before the call and its size fits an int. */
  lemma {:induction false} InputQueuedExactly<S>(e: Engine<S>, c: Conn<S>, input: seq<byte>, room: nat)
    requires input != []
    ensures Handshake(e, c, input, room).0.queued == c.queued + input <==> c.outBio == [] && |input| < INT_LIMIT
    ensures HandleAlert(e, c, input, room).0.queued == c.queued + input <==> c.outBio == [] && |input| < INT_LIMIT
    ensures c.outBio != [] ==> Handshake(e, c, input, room).0.queued == c.queued
    ensures c.outBio != [] ==> HandleAlert(e, c, input, room).0.queued == c.queued
  {
    var taken := input[..WriteCount(|input|)];
    assert |c.queued + input| > |c.queued|;
    if |input| < INT_LIMIT {
      assert taken == input;
    } else {
      assert |c.queued + taken| < |c.queued + input|;
    }
  }

  /** What an aborted handshake left is delivered whole by an alert call with no input. */
  lemma {:induction false} AbortThenAlert<S>(e: Engine<S>, c: Conn<S>, input: seq<byte>, room: nat, room': nat)
    requires c.outBio == [] && Handshake(e, c, input, room).1.status == Aborted
    ensures var (c1, r1) := Handshake(e, c, input, room);
            var (c2, r2) := HandleAlert(e, c1, [], room');
            && r1.output == [] && r1.size == room && c1.emitted == c.emitted + c1.outBio
            && (r2.status == Success <==> |c1.outBio| <= room')
            && (r2.status == Success ==>
                  (r2.output == c1.outBio && c2.outBio == [] <==> |c1.outBio| < INT_LIMIT))
            && c2.steps == c1.steps
  {
    var c1 := Handshake(e, c, input, room).0;
    DeliverDrains(c1, room');
    var ready := if input == [] then c.(state := e.setConnect(c.state)) else Enqueue(c, input);
    var s := e.handshake(ready.state, ready.inBio);
    assert [] + s.emitted == s.emitted;
  }
}
