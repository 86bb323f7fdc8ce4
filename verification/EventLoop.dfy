/** The loop that moves bytes between the terminal, its message channel and the pseudoterminal.

    What the operating system and other threads do is left open: writes and reads may take any number
    of bytes, block or fail, messages arrive at any moment, and the terminal lock may be contended. */
module EventLoop {
  import opened Sequences
  import opened Wrappers

  type Byte = b: int | 0 <= b < 256
  type Bytes = seq<Byte>

  const READ_BUFFER_SIZE: nat := 0x10_0000
  const MAX_LOCKED_READ: nat := 0xFFFF

  datatype WindowSize = WindowSize(lines: nat, columns: nat)

  datatype Msg = Input(bytes: Bytes) | Shutdown | Resize(size: WindowSize)

  // ------------------------------------------------------------------------------------------
  // What messages and queued chunks stand for
  // ------------------------------------------------------------------------------------------

  function Flatten(chunks: seq<Bytes>): Bytes {
    if chunks == [] then [] else chunks[0] + Flatten(chunks[1..])
  }

  function Payload(m: Msg): Bytes { if m.Input? then m.bytes else [] }

  function InputBytes(msgs: seq<Msg>): Bytes {
    if msgs == [] then [] else Payload(msgs[0]) + InputBytes(msgs[1..])
  }

  function SizeIn(m: Msg): seq<WindowSize> { if m.Resize? then [m.size] else [] }

  function Sizes(msgs: seq<Msg>): seq<WindowSize> {
    if msgs == [] then [] else SizeIn(msgs[0]) + Sizes(msgs[1..])
  }

  ghost predicate NoEmptyInput(msgs: seq<Msg>) {
    Input([]) !in msgs
  }

  /** The input that comes before the first empty one. */
  function BytesBeforeEmpty(msgs: seq<Msg>): Bytes {
    if msgs == [] || msgs[0] == Input([]) then [] else Payload(msgs[0]) + BytesBeforeEmpty(msgs[1..])
  }

  lemma {:induction false} BytesBeforeEmptySnoc(msgs: seq<Msg>, m: Msg)
    ensures BytesBeforeEmpty(msgs + [m]) == BytesBeforeEmpty(msgs) + if NoEmptyInput(msgs) then Payload(m) else []
  {
    if msgs == [] {
      assert msgs + [m] == [m] && [m][1..] == [];
    } else {
      BytesBeforeEmptySnoc(msgs[1..], m);
      assert (msgs + [m])[1..] == msgs[1..] + [m];
      assert msgs == [msgs[0]] + msgs[1..];
      if msgs[0] != Input([]) {
        ConcatAssoc(Payload(msgs[0]), BytesBeforeEmpty(msgs[1..]), if NoEmptyInput(msgs) then Payload(m) else []);
      }
    }
  }

  lemma {:induction false} FlattenSnoc(chunks: seq<Bytes>, chunk: Bytes)
    ensures Flatten(chunks + [chunk]) == Flatten(chunks) + chunk
  {
    if chunks == [] {
      assert chunks + [chunk] == [chunk];
    } else {
      FlattenSnoc(chunks[1..], chunk);
      assert (chunks + [chunk])[1..] == chunks[1..] + [chunk];
    }
  }

  lemma {:induction false} InputBytesSnoc(msgs: seq<Msg>, m: Msg)
    ensures InputBytes(msgs + [m]) == InputBytes(msgs) + Payload(m)
  {
    hide Payload;
    if msgs == [] {
      assert msgs + [m] == [m] && [m][1..] == [];
      assert Payload(m) + [] == Payload(m) == [] + Payload(m);
    } else {
      InputBytesSnoc(msgs[1..], m);
      assert (msgs + [m])[1..] == msgs[1..] + [m];
      ConcatAssoc(Payload(msgs[0]), InputBytes(msgs[1..]), Payload(m));
    }
  }

  lemma {:induction false} SizesSnoc(msgs: seq<Msg>, m: Msg)
    ensures Sizes(msgs + [m]) == Sizes(msgs) + SizeIn(m)
  {
    hide SizeIn;
    if msgs == [] {
      assert msgs + [m] == [m] && [m][1..] == [];
      assert SizeIn(m) + [] == SizeIn(m) == [] + SizeIn(m);
    } else {
      SizesSnoc(msgs[1..], m);
      assert (msgs + [m])[1..] == msgs[1..] + [m];
      ConcatAssoc(SizeIn(msgs[0]), Sizes(msgs[1..]), SizeIn(m));
    }
  }

  // ------------------------------------------------------------------------------------------
  // The write queue
  // ------------------------------------------------------------------------------------------

  datatype Writing = Writing(source: Bytes, written: nat) {
    ghost predicate Valid() { written <= |source| }

    function RemainingBytes(): Bytes
      requires Valid()
    {
      source[written..]
    }

    predicate Finished() { written >= |source| }
  }

  ghost function Unsent(writing: Option<Writing>, writeList: seq<Bytes>): Bytes
    requires writing.Some? ==> writing.value.Valid()
  {
    (if writing.Some? then writing.value.RemainingBytes() else []) + Flatten(writeList)
  }

  predicate Busy(writing: Option<Writing>, writeList: seq<Bytes>) {
    writing.Some? || writeList != []
  }

  /** No chunk is empty or already written out. */
  ghost predicate Substantial(writing: Option<Writing>, writeList: seq<Bytes>) {
    (writing.Some? ==> !writing.value.Finished()) && [] !in writeList
  }

  function UpToEmpty(chunks: seq<Bytes>): Bytes {
    if chunks == [] || chunks[0] == [] then [] else chunks[0] + UpToEmpty(chunks[1..])
  }

  /** The unsent bytes that lie before the first empty chunk. */
  ghost function Sendable(writing: Option<Writing>, writeList: seq<Bytes>): Bytes
    requires writing.Some? ==> writing.value.Valid()
  {
    if writing.None? then UpToEmpty(writeList)
    else if writing.value.Finished() then []
    else writing.value.RemainingBytes() + UpToEmpty(writeList)
  }

  lemma {:induction false} UpToEmptySnoc(chunks: seq<Bytes>, chunk: Bytes)
    ensures UpToEmpty(chunks + [chunk]) == UpToEmpty(chunks) + if [] !in chunks then chunk else []
  {
    if chunks == [] {
      assert chunks + [chunk] == [chunk] && [chunk][1..] == [];
    } else {
      UpToEmptySnoc(chunks[1..], chunk);
      assert (chunks + [chunk])[1..] == chunks[1..] + [chunk];
      assert chunks == [chunks[0]] + chunks[1..];
      if chunks[0] != [] {
        ConcatAssoc(chunks[0], UpToEmpty(chunks[1..]), if [] !in chunks then chunk else []);
      }
    }
  }

  /** What one more chunk adds. */
  lemma SendableSnoc(writing: Option<Writing>, writeList: seq<Bytes>, chunk: Bytes)
    requires writing.Some? ==> writing.value.Valid()
    ensures Sendable(writing, writeList + [chunk])
         == Sendable(writing, writeList) + if Substantial(writing, writeList) then chunk else []
    ensures Substantial(writing, writeList + [chunk]) <==> Substantial(writing, writeList) && chunk != []
  {
    UpToEmptySnoc(writeList, chunk);
    assert [] in writeList + [chunk] <==> [] in writeList || chunk == [];
    if writing.Some? && !writing.value.Finished() {
      ConcatAssoc(writing.value.RemainingBytes(), UpToEmpty(writeList), if [] !in writeList then chunk else []);
    }
  }

  /** The queue asks for write readiness although no byte is unsent exactly when it holds chunks and
      all of them are empty or written out; without such chunks, it asks exactly for unsent bytes. */
  lemma {:induction false} BusyIffUnsent(writing: Option<Writing>, writeList: seq<Bytes>)
    requires writing.Some? ==> writing.value.Valid()
    ensures Busy(writing, writeList) && Unsent(writing, writeList) == [] <==>
              && Busy(writing, writeList)
              && (writing.Some? ==> writing.value.Finished())
              && forall i :: 0 <= i < |writeList| ==> writeList[i] == []
    ensures Substantial(writing, writeList) ==> (Busy(writing, writeList) <==> Unsent(writing, writeList) != [])
  {
    FlattenEmpty(writeList);
    assert writeList != [] ==> writeList[0] in writeList;
  }

  lemma {:induction false} FlattenEmpty(chunks: seq<Bytes>)
    ensures Flatten(chunks) == [] <==> forall i :: 0 <= i < |chunks| ==> chunks[i] == []
  {
    if chunks != [] {
      FlattenEmpty(chunks[1..]);
      assert |Flatten(chunks)| == |chunks[0]| + |Flatten(chunks[1..])|;
      assert forall i :: 0 < i < |chunks| ==> chunks[i] == chunks[1..][i - 1];
    }
  }

  class State {
    var writeList: seq<Bytes>
    var writing: Option<Writing>

    ghost predicate Valid()
      reads this
    {
      writing.Some? ==> writing.value.Valid()
    }

    ghost function Pending(): Bytes
      reads this
      requires Valid()
    {
      Unsent(writing, writeList)
    }

    constructor ()
      ensures Valid() && writing == None && writeList == []
    {
      writeList := [];
      writing := None;
    }

    predicate NeedsWrite()
      reads this
    {
      Busy(writing, writeList)
    }

    ghost predicate Flowing()
      reads this
    {
      Substantial(writing, writeList)
    }

    /** What can still be sent: nothing behind an empty chunk ever is. */
    ghost function CanSend(): Bytes
      reads this
      requires Valid()
    {
      Sendable(writing, writeList)
    }

    method GotoNext()
      modifies this
      ensures old(writeList) == [] ==> writing == None && writeList == []
      ensures old(writeList) != [] ==>
                writing == Some(Writing(old(writeList)[0], 0)) && writeList == old(writeList)[1..]
      ensures Valid() && Pending() == old(Flatten(writeList)) && CanSend() == old(UpToEmpty(writeList))
      ensures Flowing() <==> [] !in old(writeList)
    {
      if writeList == [] {
        writing := None;
      } else {
        writing := Some(Writing(writeList[0], 0));
        writeList := writeList[1..];
      }
    }

    method EnsureNext()
      requires Valid()
      modifies this
      ensures Valid() && Pending() == old(Pending())
      ensures CanSend() == old(CanSend()) && (Flowing() <==> old(Flowing()))
      ensures writing == None ==> writeList == []
    {
      if writing.None? {
        GotoNext();
      }
    }

    method TakeCurrent() returns (current: Option<Writing>)
      modifies this`writing
      ensures current == old(writing) && writing == None
    {
      current := writing;
      writing := None;
    }

    method SetCurrent(new_: Option<Writing>)
      modifies this`writing
      ensures writing == new_
    {
      writing := new_;
    }
  }

  // ------------------------------------------------------------------------------------------
  // The pseudoterminal
  // ------------------------------------------------------------------------------------------

  datatype WriteResult = Wrote(n: nat) | WriteBlocked | WriteFailed

  datatype ReadResult = Got(n: nat) | ReadBlocked | ReadFailed(hangUp: bool) {
    /** There was nothing to read. */
    predicate Dry() {
      ReadBlocked? || (Got? && n == 0)
    }
  }

  class Pty {
    var accepted: Bytes            // everything ever written to it
    var incoming: Bytes            // what its other side will send
    var received: Bytes            // everything ever read from it
    var sizes: seq<WindowSize>     // the resizes applied
    var refused: bool              // the last write took nothing
    var writeFailed: bool          // the last write failed for good
    var readCalls: nat             // how often it was read from
    var lastRead: ReadResult

    constructor (incoming: Bytes)
      ensures accepted == [] && this.incoming == incoming && received == [] && sizes == [] && !refused && !writeFailed
    {
      accepted, this.incoming, received, sizes, refused := [], incoming, [], [], false;
      writeFailed, readCalls, lastRead := false, 0, ReadBlocked;
    }

    /** One write call: any number of bytes, or none with or without an error. */
    method Write(bytes: Bytes) returns (r: WriteResult)
      modifies this`accepted, this`refused, this`writeFailed
      ensures r.Wrote? ==> r.n <= |bytes| && accepted == old(accepted) + bytes[..r.n]
      ensures !r.Wrote? ==> accepted == old(accepted)
      ensures refused <==> !r.Wrote? || r.n == 0
      ensures writeFailed <==> r.WriteFailed?
    {
      if {
        case true =>
          var n: nat :| n <= |bytes|;
          accepted := accepted + bytes[..n];
          r := Wrote(n);
        case true => r := WriteBlocked;
        case true => r := WriteFailed;
      }
      refused, writeFailed := !r.Wrote? || r.n == 0, r.WriteFailed?;
    }

    method OnResize(size: WindowSize)
      modifies this`sizes
      ensures sizes == old(sizes) + [size]
    {
      sizes := sizes + [size];
    }

    /** One read call into the free part of a buffer: a prefix of what is incoming, or an error. */
    method ReadInto(buf: array<Byte>, from: nat) returns (r: ReadResult)
      requires from <= buf.Length
      modifies buf, this`incoming, this`received, this`readCalls, this`lastRead
      ensures readCalls == old(readCalls) + 1 && lastRead == r
      ensures buf[..from] == old(buf[..from])
      ensures r.Got? ==> from + r.n <= buf.Length && received == old(received) + buf[from..from + r.n]
      ensures !r.Got? ==> received == old(received)
      ensures received + incoming == old(received + incoming)
    {
      if {
        case true =>
          var n: nat :| n <= |incoming| && n <= buf.Length - from;
          forall i | 0 <= i < n {
            buf[from + i] := incoming[i];
          }
          assert buf[from..from + n] == incoming[..n];
          assert incoming == incoming[..n] + incoming[n..];
          received := received + incoming[..n];
          incoming := incoming[n..];
          r := Got(n);
        case true => r := ReadBlocked;
        case true => r := ReadFailed(true);
        case true => r := ReadFailed(false);
      }
      readCalls, lastRead := readCalls + 1, r;
    }
  }

  /** Writes one chunk.  Either it is written out and the next one has become current (`next`), or the PTY refused
      and the rest of it is put back; an empty chunk is always put back, as a write of nothing takes nothing. */
  method WriteChunk(state: State, pty: Pty, taken: Writing) returns (next: bool, ok: bool)
    requires state.writing == None && taken.Valid()
    modifies state, pty`accepted, pty`refused, pty`writeFailed
    ensures state.Valid()
    ensures pty.accepted + state.Pending()
         == (old(pty.accepted) + taken.RemainingBytes()) + Flatten(old(state.writeList))
    ensures pty.accepted + state.CanSend() == old(pty.accepted + Sendable(Some(taken), state.writeList))
    ensures state.Flowing() <==> old(Substantial(Some(taken), state.writeList))
    ensures taken.Finished() ==> !next && state.writing == Some(taken)
    ensures next ==> ok && !pty.writeFailed
    ensures next ==> if old(state.writeList) == [] then state.writing == None && state.writeList == []
                     else state.writing.Some? && state.writeList == old(state.writeList)[1..]
    ensures !next ==> pty.refused && state.writing.Some? && (ok <==> !pty.writeFailed)
  {
    hide UpToEmpty, Flatten, Unsent, Sendable, Substantial;
    var current := taken;
    ghost var source, from, accepted, list := taken.source, taken.written, pty.accepted, state.writeList;
    assert source[from..from] == [] && accepted + [] == accepted;
    while true
      invariant from <= current.written <= |source| && current.source == source
      invariant from < |source| ==> current.written < |source|
      invariant state.writing == None && state.writeList == list
      invariant pty.accepted == accepted + source[from..current.written]
      decreases |source| - current.written
    {
      PutBack(accepted, source, from, current.written, list);
      var r := pty.Write(current.RemainingBytes());
      match r {
        case Wrote(n) =>
          if n == 0 {
            state.SetCurrent(Some(current));
            return false, true;
          }
          SentOn(accepted, source, from, current.written, n);
          current := Writing(current.source, current.written + n);
          if current.Finished() {
            WrittenOut(accepted, source, from, list);
            state.GotoNext();
            return true, true;
          }
        case WriteBlocked =>
          state.SetCurrent(Some(current));
          return false, true;
        case WriteFailed =>
          state.SetCurrent(Some(current));
          return false, false;
      }
    }
  }

  /** Where the bytes are when the rest of a chunk is put back. */
  lemma PutBack(accepted: Bytes, source: Bytes, from: nat, written: nat, list: seq<Bytes>)
    requires from <= written <= |source| && (from < |source| ==> written < |source|)
    ensures var taken, now := Some(Writing(source, from)), Some(Writing(source, written));
            && accepted + source[from..written] + Unsent(now, list) == (accepted + source[from..]) + Flatten(list)
            && accepted + source[from..written] + Sendable(now, list) == accepted + Sendable(taken, list)
            && (Substantial(now, list) <==> Substantial(taken, list))
  {
    hide UpToEmpty, Flatten;
    Rejoined(accepted, source, from, written, Flatten(list));
    Rejoined(accepted, source, from, written, UpToEmpty(list));
    if from == |source| {
      assert source[from..written] == [];
    }
  }

  /** Where they are when the chunk is written out. */
  lemma WrittenOut(accepted: Bytes, source: Bytes, from: nat, list: seq<Bytes>)
    requires from < |source|
    ensures var taken := Some(Writing(source, from));
            && accepted + source[from..|source|] + Flatten(list) == (accepted + source[from..]) + Flatten(list)
            && accepted + source[from..|source|] + UpToEmpty(list) == accepted + Sendable(taken, list)
            && ([] !in list <==> Substantial(taken, list))
  {
    hide UpToEmpty, Flatten;
    assert source[from..|source|] == source[from..];
    ConcatAssoc(accepted, source[from..], UpToEmpty(list));
  }

  lemma Rejoined(accepted: Bytes, source: Bytes, from: nat, written: nat, rest: Bytes)
    requires from <= written <= |source|
    ensures accepted + source[from..written] + (source[written..] + rest) == (accepted + source[from..]) + rest
    ensures (accepted + source[from..]) + rest == accepted + (source[from..] + rest)
  {
    assert source[from..] == source[from..written] + source[written..];
  }

  lemma SentOn(accepted: Bytes, source: Bytes, from: nat, written: nat, n: nat)
    requires from <= written && written + n <= |source|
    ensures accepted + source[from..written] + source[written..][..n] == accepted + source[from..written + n]
  {
  }

  /** Writes queued bytes until the PTY refuses or nothing is left; false on a fatal error.  It always terminates, no
      byte is lost, duplicated or reordered, and no empty chunk ever leaves the queue. */
  method PtyWrite(state: State, pty: Pty) returns (ok: bool)
    requires state.Valid()
    modifies state, pty`accepted, pty`refused, pty`writeFailed
    ensures state.Valid()
    ensures pty.accepted + state.Pending() == old(pty.accepted + state.Pending())
    ensures pty.accepted + state.CanSend() == old(pty.accepted + state.CanSend())
    ensures state.Flowing() <==> old(state.Flowing())
    ensures !ok || state.NeedsWrite() ==> pty.refused
    ensures !old(pty.writeFailed) ==> (ok <==> !pty.writeFailed)
  {
    ok := true;
    ghost var total, possible := pty.accepted + state.Pending(), pty.accepted + state.CanSend();
    state.EnsureNext();

    var next := true;
    while next
      invariant state.Valid() && (next ==> ok)
      invariant pty.accepted + state.Pending() == total && pty.accepted + state.CanSend() == possible
      invariant state.Flowing() <==> old(state.Flowing())
      invariant next && state.writing == None ==> state.writeList == []
      invariant !next ==> !ok || state.NeedsWrite() ==> pty.refused
      invariant !old(pty.writeFailed) ==> (ok <==> !pty.writeFailed)
      decreases next, |state.writeList| + (if state.writing.Some? then 1 else 0)
    {
      var current := state.TakeCurrent();
      if current.None? {
        next := false;
      } else {
        ConcatAssoc(pty.accepted, current.value.RemainingBytes(), Flatten(state.writeList));
        next, ok := WriteChunk(state, pty, current.value);
      }
    }
  }

  // ------------------------------------------------------------------------------------------
  // The message channel
  // ------------------------------------------------------------------------------------------

  class PeekableReceiver {
    var outbox: seq<Msg>           // what other threads have yet to send, in order
    var queue: seq<Msg>            // sent but not yet taken from the channel
    var peeked: Option<Msg>
    var delivered: seq<Msg>        // everything handed to the loop

    constructor (outbox: seq<Msg>)
      ensures this.outbox == outbox && queue == [] && peeked == None && delivered == []
    {
      this.outbox, queue, peeked, delivered := outbox, [], None, [];
    }

    /** Every message, in sending order: delivered, held, in the channel, or still to come. */
    ghost function Messages(): seq<Msg>
      reads this
    {
      delivered + ((if peeked.Some? then [peeked.value] else []) + (queue + outbox))
    }

    /** How many messages can still be delivered. */
    ghost function Left(): nat
      reads this
    {
      |queue| + |outbox| + if peeked.Some? then 1 else 0
    }

    /** A sender drops empty inputs: an empty chunk would never leave the write queue. */
    static function Notification(bytes: Bytes): (msgs: seq<Msg>)
      ensures NoEmptyInput(msgs) && InputBytes(msgs) == bytes
    {
      if bytes == [] then []
      else
        assert InputBytes([Input(bytes)]) == bytes + InputBytes([]);
        [Input(bytes)]
    }

    /** Takes the next message out of the channel, after any number of further ones arrived. */
    method TryRecv() returns (msg: Option<Msg>)
      modifies this`outbox, this`queue
      ensures msg.Some? ==> [msg.value] + (queue + outbox) == old(queue + outbox)
      ensures msg.None? ==> queue == [] && queue + outbox == old(queue + outbox)
    {
      var n: nat :| n <= |outbox|;
      assert outbox == outbox[..n] + outbox[n..];
      queue, outbox := queue + outbox[..n], outbox[n..];
      if queue == [] {
        msg := None;
      } else {
        msg := Some(queue[0]);
        queue := queue[1..];
      }
    }

    method Peek() returns (msg: Option<Msg>)
      modifies this`outbox, this`queue, this`peeked
      ensures Messages() == old(Messages())
      ensures msg == peeked && (msg.None? ==> queue == [])
    {
      if peeked.None? {
        peeked := TryRecv();
        assert [] + old(queue + outbox) == old(queue + outbox);
      }
      msg := peeked;
    }

    method Recv() returns (msg: Option<Msg>)
      modifies this
      ensures Messages() == old(Messages())
      ensures msg.Some? ==> delivered == old(delivered) + [msg.value] && Left() == old(Left()) - 1
      ensures msg.None? ==> delivered == old(delivered) && peeked == None && queue == []
    {
      assert forall rest: seq<Msg> :: [] + rest == rest;
      if peeked.Some? {
        msg := peeked;
        peeked := None;
      } else {
        msg := TryRecv();
      }
      if msg.Some? {
        ConcatAssoc(delivered, [msg.value], queue + outbox);
        delivered := delivered + [msg.value];
      }
    }
  }

  /** Puts one message where it belongs. */
  method Dispatch(msg: Msg, state: State, pty: Pty)
    requires state.Valid()
    modifies state`writeList, pty`sizes
    ensures state.Valid() && state.Pending() == old(state.Pending()) + Payload(msg)
    ensures state.CanSend() == old(state.CanSend()) + if old(state.Flowing()) then Payload(msg) else []
    ensures state.Flowing() <==> old(state.Flowing()) && msg != Input([])
    ensures pty.sizes == old(pty.sizes) + SizeIn(msg)
  {
    match msg {
      case Input(bytes) =>
        FlattenSnoc(state.writeList, bytes);
        SendableSnoc(state.writing, state.writeList, bytes);
        state.writeList := state.writeList + [bytes];
      case Resize(size) =>
        pty.OnResize(size);
      case Shutdown =>
    }
  }

  /** Takes one message off the channel and handles it. */
  method DeliverOne(rx: PeekableReceiver, state: State, pty: Pty) returns (msg: Option<Msg>)
    requires state.Valid() && Accounted(rx, state, pty)
    modifies rx, state`writeList, pty`sizes
    ensures state.Valid() && Accounted(rx, state, pty)
    ensures rx.Messages() == old(rx.Messages())
    ensures msg.Some? ==> rx.delivered == old(rx.delivered) + [msg.value] && rx.Left() < old(rx.Left())
    ensures msg.None? ==> rx.delivered == old(rx.delivered) && rx.peeked == None && rx.queue == []
  {
    msg := rx.Recv();
    if msg.Some? {
      InputBytesSnoc(old(rx.delivered), msg.value);
      BytesBeforeEmptySnoc(old(rx.delivered), msg.value);
      SizesSnoc(old(rx.delivered), msg.value);
      ConcatAssoc(pty.accepted, state.Pending(), Payload(msg.value));
      ConcatAssoc(pty.accepted, state.CanSend(), if state.Flowing() then Payload(msg.value) else []);
      Dispatch(msg.value, state, pty);
    }
  }

  /** Moves all available messages to where they belong; false once a shutdown was received, after
      which nothing further is taken. */
  method DrainRecvChannel(rx: PeekableReceiver, state: State, pty: Pty) returns (alive: bool)
    requires state.Valid() && Accounted(rx, state, pty) && Shutdown !in rx.delivered
    modifies rx, state`writeList, pty`sizes
    ensures state.Valid() && Accounted(rx, state, pty)
    ensures rx.Messages() == old(rx.Messages()) && old(rx.delivered) <= rx.delivered
    ensures EndsAtShutdown(rx.delivered) && (alive <==> Shutdown !in rx.delivered)
    ensures alive ==> rx.peeked == None && rx.queue == []
  {
    while true
      invariant state.Valid() && Accounted(rx, state, pty)
      invariant rx.Messages() == old(rx.Messages()) && old(rx.delivered) <= rx.delivered
      invariant Shutdown !in rx.delivered
      decreases rx.Left()
    {
      var msg := DeliverOne(rx, state, pty);
      if msg.None? {
        return true;
      }
      if msg.value.Shutdown? {
        assert rx.delivered[|rx.delivered| - 1] == Shutdown;
        return false;
      }
    }
  }

  /** Only the last message can be a shutdown. */
  ghost predicate EndsAtShutdown(msgs: seq<Msg>) {
    forall i :: 0 <= i < |msgs| - 1 ==> msgs[i] != Shutdown
  }

  /** Every input delivered to the loop is accepted by the PTY or pending, in order, and every resize delivered was
      applied, in order.  An empty input delivered stays in the queue for good: exactly the input before the first
      empty one is accepted or can still be sent. */
  ghost predicate Accounted(rx: PeekableReceiver, state: State, pty: Pty)
    reads rx, state, pty
    requires state.Valid()
  {
    && pty.accepted + state.Pending() == InputBytes(rx.delivered)
    && pty.accepted + state.CanSend() == BytesBeforeEmpty(rx.delivered)
    && (state.Flowing() <==> NoEmptyInput(rx.delivered))
    && pty.sizes == Sizes(rx.delivered)
  }

  lemma {:induction false} InputBytesConcat(a: seq<Msg>, b: seq<Msg>)
    ensures InputBytes(a + b) == InputBytes(a) + InputBytes(b)
  {
    if a == [] {
      assert a + b == b;
    } else {
      InputBytesConcat(a[1..], b);
      assert (a + b)[0] == a[0] && (a + b)[1..] == a[1..] + b;
      ConcatAssoc(Payload(a[0]), InputBytes(a[1..]), InputBytes(b));
    }
  }

  lemma {:induction false} BytesBeforeFirstEmpty(before: seq<Msg>, after: seq<Msg>)
    requires NoEmptyInput(before)
    ensures BytesBeforeEmpty(before + [Input([])] + after) == InputBytes(before)
  {
    var all := before + [Input([])] + after;
    if before == [] {
      assert all[0] == Input([]);
    } else {
      BytesBeforeFirstEmpty(before[1..], after);
      assert all[0] == before[0] && before[0] in before && all[1..] == before[1..] + [Input([])] + after;
      assert before == [before[0]] + before[1..];
    }
  }

  /** Whenever an empty input was delivered, at most what came before it has been sent; all the input delivered after
      it, however much that is, is still pending. */
  lemma InputAfterEmptyIsStuck(rx: PeekableReceiver, state: State, pty: Pty, before: seq<Msg>, after: seq<Msg>)
    requires state.Valid() && Accounted(rx, state, pty)
    requires rx.delivered == before + [Input([])] + after && NoEmptyInput(before)
    ensures pty.accepted <= InputBytes(before)
    ensures pty.accepted + state.Pending() == InputBytes(before) + InputBytes(after)
  {
    BytesBeforeFirstEmpty(before, after);
    InputBytesConcat(before + [Input([])], after);
    InputBytesSnoc(before, Input([]));
    assert InputBytes(before) + [] == InputBytes(before);
  }

  /** Once [1], an empty input and [2] were delivered, only a beginning of [1] is ever sent, whatever follows. */
  lemma EmptyInputBlocksTheRest(rx: PeekableReceiver, state: State, pty: Pty, more: seq<Msg>)
    requires state.Valid() && Accounted(rx, state, pty)
    requires rx.delivered == [Input([1]), Input([]), Input([2])] + more
    ensures pty.accepted <= [1] && pty.accepted + state.Pending() == [1] + ([2] + InputBytes(more))
  {
    var before, after := [Input([1])], [Input([2])] + more;
    assert rx.delivered == before + [Input([])] + after;
    assert before[1..] == [] && after[0] == Input([2]) && after[1..] == more;
    assert InputBytes(before) == [1] + [];
    InputAfterEmptyIsStuck(rx, state, pty, before, after);
  }

  // ------------------------------------------------------------------------------------------
  // Reading
  // ------------------------------------------------------------------------------------------

  class Parser {
    var fed: Bytes                 // everything the terminal has been given to interpret

    constructor ()
      ensures fed == []
    {
      fed := [];
    }

    method Advance(bytes: Bytes)
      modifies this
      ensures fed == old(fed) + bytes
    {
      fed := fed + bytes;
    }
  }

  datatype ReadEnd = ReadDone | ReadError(hangUp: bool)

  datatype Answer = Data(bytes: Bytes) | Blocked | Failed(hangUp: bool)

  /** What the PTY answered to one read, and whether the terminal lock would be found taken after it. */
  datatype Attempt = Attempt(answer: Answer, taken: bool)

  /** Where reading stands: bytes waiting in the buffer, whether the terminal is locked, and what it was given; at
      the end, what it was given and what it never will be. */
  datatype Reading =
    | Going(buffered: Bytes, locked: bool, parsed: Bytes)
    | Done(end: ReadEnd, parsed: Bytes, lost: Bytes)

  /** The lock is tried, unless it is held; a full buffer waits for it. */
  function Handed(r: Reading, buffered: Bytes, taken: bool): Reading
    requires r.Going?
  {
    if !r.locked && taken && |buffered| < READ_BUFFER_SIZE then Going(buffered, false, r.parsed)
    else
      var parsed := r.parsed + buffered;
      if |parsed| >= MAX_LOCKED_READ then Done(ReadDone, parsed, []) else Going([], true, parsed)
  }

  function ReadStep(r: Reading, a: Attempt): Reading {
    if r.Done? then r
    else
      match a.answer
      case Failed(hangUp) => Done(ReadError(hangUp), r.parsed, r.buffered)
      case Blocked => if r.buffered == [] then Done(ReadDone, r.parsed, []) else Handed(r, r.buffered, a.taken)
      case Data(bytes) =>
        if bytes == [] && r.buffered == [] then Done(ReadDone, r.parsed, [])
        else Handed(r, r.buffered + bytes, a.taken)
  }

  function After(script: seq<Attempt>): Reading {
    if script == [] then Going([], false, [])
    else ReadStep(After(script[..|script| - 1]), script[|script| - 1])
  }

  function BytesRead(script: seq<Attempt>): Bytes {
    if script == [] then []
    else
      var last := script[|script| - 1].answer;
      BytesRead(script[..|script| - 1]) + if last.Data? then last.bytes else []
  }

  /** How often the terminal lock was found taken. */
  function Contention(script: seq<Attempt>): nat {
    if script == [] then 0
    else Contention(script[..|script| - 1]) + if script[|script| - 1].taken then 1 else 0
  }

  ghost predicate AllTaken(script: seq<Attempt>) {
    forall i :: 0 <= i < |script| ==> script[i].taken
  }

  /** A whole call: it ends with the last attempt of the script, not before. */
  ghost predicate WholeCall(script: seq<Attempt>) {
    script != [] && After(script[..|script| - 1]).Going? && After(script).Done?
  }

  /** Until the lock is had, everything read waits in the buffer; from then on, nothing does. */
  lemma {:induction false} WhereBytesAre(script: seq<Attempt>)
    ensures match After(script)
            case Going(buffered, locked, parsed) =>
              && parsed + buffered == BytesRead(script)
              && (if locked then buffered == [] else parsed == [])
              && (!locked <==> AllTaken(script) && |BytesRead(script)| < READ_BUFFER_SIZE)
            case Done(_, _, _) => true
  {
    if script != [] {
      var init, last := script[..|script| - 1], script[|script| - 1];
      WhereBytesAre(init);
      assert AllTaken(script) <==> AllTaken(init) && last.taken;
      if After(script).Going? {
        var r := After(init);
        var more := if last.answer.Data? then last.answer.bytes else [];
        ConcatAssoc(r.parsed, r.buffered, more);
        assert r.buffered + [] == r.buffered;
        assert [] + (r.buffered + more) == r.buffered + more;
      }
    }
  }

  predicate Loses(script: seq<Attempt>) {
    After(script).Done? && After(script).lost != []
  }

  /** Bytes are lost exactly if a read fails after some were read and the lock was found taken ever since, with room
      left in the buffer; then all bytes of the call are. */
  lemma LostExactly(script: seq<Attempt>)
    requires WholeCall(script)
    ensures var before := script[..|script| - 1];
            var lost := After(script).lost;
            && (Loses(script) <==>
                  && script[|script| - 1].answer.Failed?
                  && AllTaken(before) && 0 < |BytesRead(before)| < READ_BUFFER_SIZE)
            && (Loses(script) ==> lost == BytesRead(script) && After(script).parsed == [])
            && After(script).parsed + lost == BytesRead(script)
  {
    var before, last := script[..|script| - 1], script[|script| - 1];
    WhereBytesAre(before);
    var r := After(before);
    var more := if last.answer.Data? then last.answer.bytes else [];
    ConcatAssoc(r.parsed, r.buffered, more);
    assert r.buffered + [] == r.buffered && BytesRead(before) + [] == BytesRead(before);
    assert r.parsed + [] == r.parsed && [] + r.buffered == r.buffered;
  }

  /** Three bytes are read, the lock is taken, the other side hangs up: the terminal never sees the bytes. */
  lemma HangUpLosesBytes()
    ensures var script := [Attempt(Data([1, 2, 3]), true), Attempt(Failed(true), true)];
            WholeCall(script) && Loses(script) && After(script) == Done(ReadError(true), [], [1, 2, 3])
  {
    var script := [Attempt(Data([1, 2, 3]), true), Attempt(Failed(true), true)];
    assert script[..1] == [script[0]] && script[..1][..0] == [];
    assert After(script[..1][..0]) == Going([], false, []);
    assert [] + [1, 2, 3] == [1, 2, 3];
    assert After(script[..1]) == Going([1, 2, 3], false, []);
  }

  /** Reads until the PTY has nothing more or the terminal was held long enough.  The terminal lock is tried after
      each read, and found taken at most `contended` times, at any of the tries.  What happened is the script; what
      the terminal got, and what was read and never parsed, is what the script leads to. */
  method PtyRead(pty: Pty, parser: Parser, buf: array<Byte>, contended: nat)
    returns (end: ReadEnd, ghost script: seq<Attempt>)
    requires buf.Length == READ_BUFFER_SIZE
    modifies pty`incoming, pty`received, pty`readCalls, pty`lastRead, parser, buf
    ensures WholeCall(script) && After(script).end == end && Contention(script) <= contended
    ensures pty.received == old(pty.received) + BytesRead(script)
    ensures parser.fed == old(parser.fed) + After(script).parsed
    ensures |After(script).parsed| < MAX_LOCKED_READ + READ_BUFFER_SIZE && |After(script).lost| <= READ_BUFFER_SIZE
    ensures pty.received + pty.incoming == old(pty.received + pty.incoming)
    ensures pty.readCalls > old(pty.readCalls)
    ensures end.ReadDone? ==> pty.lastRead.Dry() || |After(script).parsed| >= MAX_LOCKED_READ
    ensures end.ReadDone? <==> !pty.lastRead.ReadFailed?
    ensures end.ReadError? ==> pty.lastRead == ReadFailed(end.hangUp)
  {
    hide After, BytesRead, Contention, ReadStep, Handed, WholeCall;
    var unprocessed, processed := 0, 0;
    var locked, tries := false, contended;
    script := [];
    ScriptStart();
    ghost var parsed: Bytes := [];
    while true
      invariant unprocessed <= buf.Length && (locked ==> unprocessed == 0)
      invariant After(script) == Going(buf[..unprocessed], locked, parsed)
      invariant processed == |parsed| < MAX_LOCKED_READ && Contention(script) + tries <= contended
      invariant pty.readCalls >= old(pty.readCalls)
      invariant pty.received == old(pty.received) + BytesRead(script)
      invariant parser.fed == old(parser.fed) + parsed
      invariant pty.received + pty.incoming == old(pty.received + pty.incoming)
      decreases tries, MAX_LOCKED_READ - processed
    {
      ghost var answer, had, was := Blocked, buf[..unprocessed], script;
      var r := pty.ReadInto(buf, unprocessed);
      match r {
        case Got(n) =>
          answer := Data(buf[unprocessed..unprocessed + n]);
          assert buf[..unprocessed + n] == had + answer.bytes;
          ConcatAssoc(old(pty.received), BytesRead(was), answer.bytes);
          if n == 0 && unprocessed == 0 {
            script := ReadsNothing(was, answer, parsed);
            return ReadDone, script;
          }
          unprocessed := unprocessed + n;
        case ReadBlocked =>
          if unprocessed == 0 {
            script := ReadsNothing(was, answer, parsed);
            return ReadDone, script;
          }
        case ReadFailed(hangUp) =>
          script := ReadFails(was, hangUp, had, locked, parsed);
          return ReadError(hangUp), script;
      }

      var taken := false;
      if !locked && tries > 0 {
        taken := *;
        tries := tries - 1;
      }
      script := ReadsSome(was, Attempt(answer, taken), had, buf[..unprocessed], locked, parsed);
      if !locked {
        if taken && unprocessed < READ_BUFFER_SIZE {
          continue;
        }
        locked := true;
      }

      ConcatAssoc(old(parser.fed), parsed, buf[..unprocessed]);
      parsed := parsed + buf[..unprocessed];
      parser.Advance(buf[..unprocessed]);
      processed := processed + unprocessed;
      unprocessed := 0;
      if processed >= MAX_LOCKED_READ {
        return ReadDone, script;
      }
    }
  }

  lemma ScriptStart()
    ensures After([]) == Going([], false, []) && BytesRead([]) == [] && Contention([]) == 0
  {
  }

  lemma ScriptGrows(script: seq<Attempt>, a: Attempt) returns (longer: seq<Attempt>)
    ensures longer == script + [a] && longer[..|longer| - 1] == script
    ensures After(longer) == ReadStep(After(script), a)
    ensures BytesRead(longer) == BytesRead(script) + if a.answer.Data? then a.answer.bytes else []
    ensures Contention(longer) == Contention(script) + if a.taken then 1 else 0
  {
    longer := script + [a];
    assert longer[..|longer| - 1] == script;
  }

  lemma ReadsNothing(script: seq<Attempt>, answer: Answer, parsed: Bytes) returns (longer: seq<Attempt>)
    requires After(script).Going? && After(script).buffered == [] && After(script).parsed == parsed
    requires answer == Blocked || answer == Data([])
    ensures WholeCall(longer) && After(longer) == Done(ReadDone, parsed, []) && BytesRead(longer) == BytesRead(script)
    ensures Contention(longer) == Contention(script)
  {
    hide After, BytesRead, Contention;
    longer := ScriptGrows(script, Attempt(answer, false));
  }

  lemma ReadFails(script: seq<Attempt>, hangUp: bool, buffered: Bytes, locked: bool, parsed: Bytes)
    returns (longer: seq<Attempt>)
    requires After(script) == Going(buffered, locked, parsed)
    ensures WholeCall(longer) && After(longer) == Done(ReadError(hangUp), parsed, buffered)
    ensures BytesRead(longer) == BytesRead(script) && Contention(longer) == Contention(script)
  {
    hide After, BytesRead, Contention;
    longer := ScriptGrows(script, Attempt(Failed(hangUp), false));
  }

  /** The buffer holds something after the read: it waits, or the terminal gets it. */
  lemma ReadsSome(script: seq<Attempt>, a: Attempt, had: Bytes, buffered: Bytes, locked: bool, parsed: Bytes)
    returns (longer: seq<Attempt>)
    requires After(script) == Going(had, locked, parsed) && buffered != [] && !a.answer.Failed?
    requires buffered == had + if a.answer.Data? then a.answer.bytes else []
    ensures BytesRead(longer) == BytesRead(script) + if a.answer.Data? then a.answer.bytes else []
    ensures Contention(longer) == Contention(script) + if a.taken then 1 else 0
    ensures After(longer) ==
            if !locked && a.taken && |buffered| < READ_BUFFER_SIZE then Going(buffered, false, parsed)
            else if |parsed + buffered| >= MAX_LOCKED_READ then Done(ReadDone, parsed + buffered, [])
            else Going([], true, parsed + buffered)
    ensures After(longer).Done? ==> WholeCall(longer)
  {
    hide After, BytesRead, Contention;
    longer := ScriptGrows(script, a);
    assert had + [] == had;
  }

  function AllRead(scripts: seq<seq<Attempt>>): Bytes {
    if scripts == [] then [] else AllRead(scripts[..|scripts| - 1]) + BytesRead(scripts[|scripts| - 1])
  }

  function AllParsed(scripts: seq<seq<Attempt>>): Bytes {
    if scripts == [] then [] else AllParsed(scripts[..|scripts| - 1]) + After(scripts[|scripts| - 1]).parsed
  }

  lemma ScriptsGrow(scripts: seq<seq<Attempt>>, script: seq<Attempt>)
    ensures AllRead(scripts + [script]) == AllRead(scripts) + BytesRead(script)
    ensures AllParsed(scripts + [script]) == AllParsed(scripts) + After(script).parsed
  {
    assert (scripts + [script])[..|scripts|] == scripts;
  }

  lemma {:induction false} ParsedAtMostRead(scripts: seq<seq<Attempt>>)
    requires forall script :: script in scripts ==> WholeCall(script)
    ensures |AllParsed(scripts)| <= |AllRead(scripts)|
    ensures |AllParsed(scripts)| == |AllRead(scripts)| <==> forall script :: script in scripts ==> !Loses(script)
    ensures (forall script :: script in scripts ==> !Loses(script)) ==> AllParsed(scripts) == AllRead(scripts)
  {
    hide After, BytesRead;
    if scripts != [] {
      var init, last := scripts[..|scripts| - 1], scripts[|scripts| - 1];
      ParsedAtMostRead(init);
      LostExactly(last);
      assert scripts == init + [last];
      assert forall script :: script in scripts <==> script in init || script == last;
      assert |AllRead(scripts)| - |AllParsed(scripts)| == |AllRead(init)| - |AllParsed(init)| + |After(last).lost|;
    }
  }

  /** Over any number of reading calls the terminal was fed everything that was read exactly if no call lost bytes. */
  lemma FedAllExactly(scripts: seq<seq<Attempt>>)
    requires forall script :: script in scripts ==> WholeCall(script)
    ensures AllParsed(scripts) == AllRead(scripts) <==> forall script :: script in scripts ==> !Loses(script)
  {
    hide WholeCall, After, AllParsed, AllRead;
    ParsedAtMostRead(scripts);
  }

  // ------------------------------------------------------------------------------------------
  // The loop
  // ------------------------------------------------------------------------------------------

  /** One event from the poller: about the child process (and whether it has exited), about the PTY,
      or anything else.  `contended` is how often the terminal lock is found taken while reading. */
  datatype Event =
    | ChildEvent(exited: bool, contended: nat)
    | PtyEvent(interrupt: bool, readable: bool, writable: bool, contended: nat)
    | OtherEvent
  {
    predicate Exits() {
      ChildEvent? && exited
    }

    predicate Reads(drainOnExit: bool) {
      (Exits() && drainOnExit) || (PtyEvent? && !interrupt && readable)
    }

    predicate Writes() {
      PtyEvent? && !interrupt && writable
    }
  }

  datatype PollResult = Interrupted | PollFailed | Ready(events: seq<Event>) {
    function Events(): seq<Event> {
      if Ready? then events else []
    }
  }

  /** The events of all polls, in order. */
  function EventsOf(polls: seq<PollResult>): seq<Event> {
    if polls == [] then [] else EventsOf(polls[..|polls| - 1]) + polls[|polls| - 1].Events()
  }

  lemma EventsSnoc(polls: seq<PollResult>, i: nat)
    requires i < |polls|
    ensures EventsOf(polls[..i + 1]) == EventsOf(polls[..i]) + polls[i].Events()
  {
    assert polls[..i + 1][..i] == polls[..i];
  }

  /** Nothing in these poll results ends the loop by itself. */
  ghost predicate NoneEnds(polls: seq<PollResult>) {
    forall i :: 0 <= i < |polls| ==>
      !polls[i].PollFailed? && forall event :: event in polls[i].Events() ==> !event.Exits()
  }

  /** A reading call that failed otherwise than by a hang-up. */
  predicate Broke(script: seq<Attempt>) {
    After(script).Done? && After(script).end == ReadError(false)
  }

  class EventLoop {
    const state: State
    const pty: Pty
    const rx: PeekableReceiver
    const parser: Parser
    const buf: array<Byte>
    const drainOnExit: bool
    var interest: bool             // the write interest of the loop
    var registered: bool           // the write interest the poller was told
    ghost var scripts: seq<seq<Attempt>>  // the reading calls so far
    ghost var handled: seq<Event>  // the events handled so far

    /** Holds between any two steps: all delivered messages are accounted for, and the terminal was fed what the
        reading calls parsed out of what they read. */
    ghost predicate Valid()
      reads this, state, pty, rx, parser
    {
      && state.Valid() && buf.Length == READ_BUFFER_SIZE
      && Accounted(rx, state, pty)
      && (forall script :: script in scripts ==> WholeCall(script))
      && pty.received == AllRead(scripts) && parser.fed == AllParsed(scripts)
    }

    /** Holds whenever the loop goes to sleep: the poller reports write readiness exactly when the queue needs it,
        which is exactly when bytes are unsent unless an empty input was delivered; and no shutdown has been. */
    ghost predicate AtPoll()
      reads this, state, pty, rx, parser
    {
      && Valid()
      && registered == interest == state.NeedsWrite()
      && (NoEmptyInput(rx.delivered) ==> (registered <==> state.Pending() != []))
      && Shutdown !in rx.delivered && !pty.writeFailed
    }

    constructor (outbox: seq<Msg>, incoming: Bytes, drainOnExit: bool)
      ensures AtPoll() && scripts == [] && rx.Messages() == outbox
      ensures fresh(state) && fresh(pty) && fresh(rx) && fresh(parser) && fresh(buf)
    {
      state := new State();
      pty := new Pty(incoming);
      rx := new PeekableReceiver(outbox);
      parser := new Parser();
      buf := new Byte[READ_BUFFER_SIZE];
      this.drainOnExit := drainOnExit;
      interest, registered, scripts, handled := false, false, [], [];
    }

    /** Reads once; the write side is untouched. */
    method ReadOnce(contended: nat) returns (end: ReadEnd)
      requires Valid()
      modifies this`scripts, pty`incoming, pty`received, pty`readCalls, pty`lastRead, parser, buf
      ensures Valid() && rx.Messages() == old(rx.Messages())
      ensures |scripts| == |old(scripts)| + 1 && old(scripts) <= scripts
      ensures Broke(scripts[|scripts| - 1]) <==> end == ReadError(false)
      ensures pty.readCalls > old(pty.readCalls)
      ensures end.ReadDone? <==> !pty.lastRead.ReadFailed?
      ensures end.ReadError? ==> pty.lastRead == ReadFailed(end.hangUp)
    {
      ghost var script;
      end, script := PtyRead(pty, parser, buf, contended);
      ScriptsGrow(scripts, script);
      scripts := scripts + [script];
    }

    predicate CouldNotRead(event: Event)
      reads pty
    {
      event.Reads(drainOnExit) && pty.lastRead.ReadFailed?
    }

    /** The event ends the loop: the child's exit, a read that failed otherwise than by a hang-up, or a failed
        write. */
    predicate Ends(event: Event)
      reads pty
    {
      event.Exits() || if CouldNotRead(event) then !pty.lastRead.hangUp else event.Writes() && pty.writeFailed
    }

    /** Some event was handled since, and the last one ended the loop. */
    ghost predicate EndedSince(before: seq<Event>)
      reads this, pty
    {
      |handled| > |before| && Ends(handled[|handled| - 1])
    }

    /** No reading call since broke. */
    ghost predicate ReadsSince(before: seq<seq<Attempt>>)
      reads this
    {
      before <= scripts && forall i :: |before| <= i < |scripts| ==> !Broke(scripts[i])
    }

    /** Handles one event; false when the loop is over.  It reads exactly if the PTY is readable, or if it exited
        and is to be drained; it writes only if the PTY is writable, and then until nothing is left or the PTY
        refuses; and it ends the loop exactly on the child's exit and on failures other than a hang-up. */
    method Handle(event: Event) returns (alive: bool)
      requires Valid() && !pty.writeFailed
      modifies this`scripts, this`handled, state, pty, parser, buf
      ensures Valid() && interest == old(interest) && registered == old(registered)
      ensures handled == old(handled) + [event]
      ensures pty.readCalls > old(pty.readCalls) <==> event.Reads(drainOnExit)
      ensures |scripts| == |old(scripts)| + (if event.Reads(drainOnExit) then 1 else 0)
      ensures pty.accepted != old(pty.accepted) ==> event.Writes() && !CouldNotRead(event)
      ensures event.Writes() && !CouldNotRead(event) && alive ==> (state.NeedsWrite() ==> pty.refused)
      ensures alive <==> !Ends(event)
      ensures alive ==> !pty.writeFailed && ReadsSince(old(scripts))
    {
      hide Broke, WholeCall, AllRead, AllParsed, Sendable, Unsent, Substantial;
      handled := handled + [event];
      match event {
        case ChildEvent(exited, contended) =>
          if exited {
            if drainOnExit {
              var _ := ReadOnce(contended);
            }
            return false;
          }
        case PtyEvent(interrupt, readable, writable, contended) =>
          if interrupt {
            return true;
          }
          if readable {
            var end := ReadOnce(contended);
            if end.ReadError? {
              return end.hangUp;
            }
          }
          if writable {
            var ok := PtyWrite(state, pty);
            if !ok {
              return false;
            }
          }
        case OtherEvent =>
      }
      return true;
    }

    method HandleAll(events: seq<Event>) returns (alive: bool)
      requires Valid() && !pty.writeFailed
      modifies this`scripts, this`handled, state, pty, parser, buf
      ensures Valid() && interest == old(interest) && registered == old(registered)
      ensures alive ==> handled == old(handled) + events && !pty.writeFailed
      ensures alive ==> ReadsSince(old(scripts)) && forall event :: event in events ==> !event.Exits()
      ensures old(handled) <= handled <= old(handled) + events
      ensures !alive ==> EndedSince(old(handled))
    {
      hide Broke, WholeCall, AllRead, AllParsed;
      alive := true;
      var i := 0;
      while i < |events| && alive
        invariant i <= |events| && handled == old(handled) + events[..i]
        invariant alive ==> !pty.writeFailed && ReadsSince(old(scripts))
        invariant alive ==> forall event :: event in events[..i] ==> !event.Exits()
        invariant !alive ==> EndedSince(old(handled))
        invariant Valid() && interest == old(interest) && registered == old(registered)
      {
        assert events[..i + 1] == events[..i] + [events[i]];
        alive := Handle(events[i]);
        i := i + 1;
      }
      assert events[..|events|] == events;
    }

    /** Tells the poller when the interest in writing has changed. */
    method UpdateInterest()
      requires Valid() && registered == interest && Shutdown !in rx.delivered && !pty.writeFailed
      modifies this`interest, this`registered
      ensures AtPoll()
    {
      BusyIffUnsent(state.writing, state.writeList);
      var needsWrite := state.NeedsWrite();
      if needsWrite != interest {
        interest := needsWrite;
        registered := interest;
      }
    }

    /** What the loop does with the messages and events it woke up for: all messages that arrived are delivered,
        then all events are handled, unless the loop ends, which is after a shutdown or an event that ends it. */
    method Work(events: seq<Event>) returns (alive: bool)
      requires AtPoll()
      modifies this, state, pty, rx, parser, buf
      ensures Valid() && (alive ==> AtPoll())
      ensures rx.Messages() == old(rx.Messages()) && old(rx.delivered) <= rx.delivered
      ensures EndsAtShutdown(rx.delivered)
      ensures alive ==> rx.peeked == None && rx.queue == [] && handled == old(handled) + events
      ensures alive ==> ReadsSince(old(scripts)) && forall event :: event in events ==> !event.Exits()
      ensures old(handled) <= handled <= old(handled) + events
      ensures Shutdown in rx.delivered ==> !alive && handled == old(handled)
      ensures !alive ==> Shutdown in rx.delivered || EndedSince(old(handled))
    {
      hide Broke, WholeCall, AllRead, AllParsed;
      alive := DrainRecvChannel(rx, state, pty);
      if alive {
        alive := HandleAll(events);
        if alive {
          UpdateInterest();
        }
      }
    }

    /** All events of the polls were handled, in order, and none of them ended the loop. */
    ghost predicate HandledAll(before: seq<Event>, calls: seq<seq<Attempt>>, polls: seq<PollResult>)
      reads this
    {
      handled == before + EventsOf(polls) && NoneEnds(polls) && ReadsSince(calls)
    }

    /** The loop ended in the round of this poll: it failed, there was a shutdown, or an event ended the loop. */
    ghost predicate EndedIn(before: seq<Event>, poll: PollResult)
      reads this, pty, rx
    {
      && before <= handled <= before + poll.Events()
      && (poll.PollFailed? || Shutdown in rx.delivered || EndedSince(before))
    }

    lemma AtPollMeans()
      requires AtPoll()
      ensures Valid() && registered == state.NeedsWrite() && EndsAtShutdown(rx.delivered)
    {
    }

    lemma AcceptedSoFar()
      requires Valid()
      ensures pty.accepted <= BytesBeforeEmpty(rx.delivered)
    {
    }

    lemma NothingHandledYet(polls: seq<PollResult>)
      ensures HandledAll(handled, scripts, polls[..0])
    {
      assert polls[..0] == [] && handled + [] == handled;
    }

    /** One round of the loop, from one poll to the next; false when the loop is over. */
    method Turn(poll: PollResult) returns (alive: bool)
      requires AtPoll()
      modifies this, state, pty, rx, parser, buf
      ensures Valid() && (alive ==> AtPoll())
      ensures rx.Messages() == old(rx.Messages()) && old(rx.delivered) <= rx.delivered
      ensures EndsAtShutdown(rx.delivered)
      ensures poll.Interrupted? ==> alive
      ensures poll.PollFailed? ==> !alive
      ensures alive ==> handled == old(handled) + poll.Events()
      ensures alive && poll.Ready? ==> rx.peeked == None && rx.queue == []
      ensures !poll.Ready? ==> rx.delivered == old(rx.delivered)
      ensures alive ==> ReadsSince(old(scripts)) && NoneEnds([poll])
      ensures Shutdown in rx.delivered ==> !alive && handled == old(handled)
      ensures !alive ==> EndedIn(old(handled), poll)
    {
      hide Broke, WholeCall, AllRead, AllParsed;
      match poll {
        case Interrupted => return true;
        case PollFailed => return false;
        case Ready(events) =>
          if events == [] {
            var next := rx.Peek();
            if next.None? {
              return true;
            }
          }
          alive := Work(events);
      }
    }

    /** One more round of a run that began after `before`. */
    method OneMoreTurn(polls: seq<PollResult>, i: nat, ghost before: seq<Event>, ghost calls: seq<seq<Attempt>>)
      returns (alive: bool)
      requires AtPoll() && i < |polls| && HandledAll(before, calls, polls[..i])
      modifies this, state, pty, rx, parser, buf
      ensures Valid() && (alive ==> AtPoll())
      ensures rx.Messages() == old(rx.Messages()) && old(rx.delivered) <= rx.delivered
      ensures EndsAtShutdown(rx.delivered)
      ensures alive ==> HandledAll(before, calls, polls[..i + 1])
      ensures !alive ==> NoneEnds(polls[..i]) && EndedIn(before + EventsOf(polls[..i]), polls[i])
    {
      hide Broke, AtPoll, Valid, Accounted, EndsAtShutdown;
      alive := Turn(polls[i]);
      EventsSnoc(polls, i);
      ConcatAssoc(before, EventsOf(polls[..i]), polls[i].Events());
      assert alive ==> NoneEnds(polls[..i + 1]) by {
        assert [polls[i]][0] == polls[i];
      }
    }

    /** Any finite run of the loop.  At every poll the invariant held; throughout, messages were
        delivered in order, each once, up to the first shutdown.  All events of all polls are handled in order, and the
        run ends early only after a failed poll, a shutdown, or an event that ends the loop. */
    method Run(polls: seq<PollResult>) returns (alive: bool, log: seq<(bool, bool)>)
      requires AtPoll()
      modifies this, state, pty, rx, parser, buf
      ensures Valid() && (alive ==> AtPoll())
      ensures rx.Messages() == old(rx.Messages()) && old(rx.delivered) <= rx.delivered <= old(rx.Messages())
      ensures EndsAtShutdown(rx.delivered)
      ensures forall i :: 0 <= i < |log| ==> log[i].0 == log[i].1
      ensures |log| <= |polls| && (alive ==> |log| == |polls|)
      ensures alive ==> HandledAll(old(handled), old(scripts), polls)
      ensures !alive ==> |log| > 0 && NoneEnds(polls[..|log| - 1])
                         && EndedIn(old(handled) + EventsOf(polls[..|log| - 1]), polls[|log| - 1])
      ensures pty.accepted <= BytesBeforeEmpty(rx.delivered)
    {
      hide HandledAll, EndedIn, NoneEnds, Valid, AtPoll, EndsAtShutdown, BytesBeforeEmpty, EventsOf;
      AtPollMeans();
      log := [];
      alive := true;
      var i := 0;
      assert HandledAll(old(handled), old(scripts), polls[..0]) by {
        NothingHandledYet(polls);
      }
      while i < |polls| && alive
        invariant 0 <= i <= |polls|
        invariant alive ==> HandledAll(old(handled), old(scripts), polls[..i])
        invariant !alive ==> i > 0 && NoneEnds(polls[..i - 1])
                             && EndedIn(old(handled) + EventsOf(polls[..i - 1]), polls[i - 1])
        invariant Valid() && (alive ==> AtPoll())
        invariant rx.Messages() == old(rx.Messages()) && old(rx.delivered) <= rx.delivered
        invariant EndsAtShutdown(rx.delivered) && |log| == i
        invariant forall i :: 0 <= i < |log| ==> log[i].0 == log[i].1
      {
        AtPollMeans();
        log := log + [(registered, state.NeedsWrite())];
        alive := OneMoreTurn(polls, i, old(handled), old(scripts));
        i := i + 1;
      }
      assert polls[..|polls|] == polls;
      AcceptedSoFar();
    }
  }
}
