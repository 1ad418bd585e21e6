/** The SmpContext object: reads from the device, drives the decoder, builds messages and makes
    callbacks; and encodes and sends messages. */
module Contexts {
  import opened Bits
  import opened Types
  import opened LittleEndian
  import opened Frame
  import opened Deframer
  import opened SerialEncoder
  import opened SerialProtocol
  import opened MessageFormat
  import opened MessageEncode
  import opened Messages
  import opened ContextModel

  /** What one call of smp_serial_device_read returns. */
  datatype Read = Bytes(data: seq<byte>) | WouldBlock | ReadFailed(code: int)

  /** The chunks a call of process_fd consumes: up to the first read that brings no data. */
  function Chunks(script: seq<Read>): seq<seq<byte>> {
    if script == [] || !script[0].Bytes? || script[0].data == [] then []
    else [script[0].data] + Chunks(script[1..])
  }

  /** They are the data of the reads before the first one that brings none. */
  lemma {:induction false} ChunksAre(script: seq<Read>)
    ensures var c := Chunks(script);
            && |c| <= |script|
            && (forall i :: 0 <= i < |c| ==> script[i] == Bytes(c[i]) && c[i] != [])
            && (|c| < |script| ==> !script[|c|].Bytes? || script[|c|].data == [])
  {
    if script != [] && script[0].Bytes? && script[0].data != [] {
      ChunksAre(script[1..]);
    }
  }

  /** No callback depends on anything outside the frames received. */
  predicate Specified(e: seq<Event>) {
    forall i :: 0 <= i < |e| ==> e[i] != ErrorEvent(Unspecified)
  }

  lemma SpecifiedFrame(word: Word, rx: Rx, f: seq<byte>)
    requires ValidRx(word, rx) && Specified(HandleOutcome(word, rx, Delivered(f)).1)
    ensures HandleFrame(word, rx, f).1 != ErrorEvent(Unspecified)
  {
    assert HandleOutcome(word, rx, Delivered(f)).1[0] == HandleFrame(word, rx, f).1;
  }

  /** The receiver and the callbacks after the bytes s. */
  ghost predicate Reaches(word: Word, bd: Bound, r: Receiver, s: seq<byte>, q: Receiver, e: seq<Event>)
    requires ValidReceiver(word, bd, r)
  {
    q == Received(word, bd, r, s) && e == Events(word, bd, r, s)
  }

  lemma SpecifiedPrefix(e: seq<Event>, p: seq<Event>)
    requires Specified(e) && p <= e
    ensures Specified(p)
  {
  }

  lemma SpecifiedConcat(e: seq<Event>, f: seq<Event>)
    requires Specified(e + f)
    ensures Specified(e) && Specified(f)
  {
    assert forall j :: 0 <= j < |e| ==> e[j] == (e + f)[j];
    assert forall j :: 0 <= j < |f| ==> f[j] == (e + f)[|e| + j];
  }

  /** One more byte of the stream s. */
  lemma ReachesNext(word: Word, bd: Bound, r: Receiver, s: seq<byte>, done: seq<byte>, b: byte,
                                        q: Receiver, e: seq<Event>)
      returns (q': Receiver, e': seq<Event>)
    requires ValidReceiver(word, bd, r) && done + [b] <= s && Reaches(word, bd, r, done, q, e)
    requires Specified(Events(word, bd, r, s))
    ensures var (core, o) := Step(bd, q.core, b);
            var (rx, f) := HandleOutcome(word, q.rx, o);
            Specified(f) && q' == Receiver(core, rx) && e' == e + f
    ensures Reaches(word, bd, r, done + [b], q', e')
  {
    ReceivedStep(word, bd, r, done, b);
    EventsPrefix(word, bd, r, s, done + [b]);
    q', e' := Received(word, bd, r, done + [b]), Events(word, bd, r, done + [b]);
    SpecifiedPrefix(Events(word, bd, r, s), e');
    SpecifiedConcat(e, HandleOutcome(word, q.rx, Step(bd, q.core, b).1).1);
  }

  /** k reads have brought the bytes `done`; with those still to come they make up s. */
  ghost predicate Cursor(script: seq<Read>, s: seq<byte>, k: nat, done: seq<byte>) {
    && k <= |script|
    && s == done + Joined(Chunks(script[k..]))
    && k + |Chunks(script[k..])| == |Chunks(script)|
  }

  predicate HasData(script: seq<Read>, k: nat) {
    k < |script| && script[k].Bytes? && script[k].data != []
  }

  lemma CursorStart(script: seq<Read>)
    ensures Cursor(script, Joined(Chunks(script)), 0, [])
  {
    assert script[0..] == script && [] + Joined(Chunks(script)) == Joined(Chunks(script));
  }

  lemma CursorNext(script: seq<Read>, s: seq<byte>, k: nat, done: seq<byte>)
    requires Cursor(script, s, k, done) && HasData(script, k)
    ensures done + script[k].data <= s && Cursor(script, s, k + 1, done + script[k].data)
  {
    assert script[k..][1..] == script[k + 1..];
    var c, left := script[k].data, Chunks(script[k + 1..]);
    assert Chunks(script[k..]) == [c] + left;
    assert ([c] + left)[1..] == left;
    assert done + (c + Joined(left)) == (done + c) + Joined(left);
  }

  lemma CursorEnd(script: seq<Read>, s: seq<byte>, k: nat, done: seq<byte>)
    requires Cursor(script, s, k, done) && !HasData(script, k)
    ensures done == s && k == |Chunks(script)|
  {
    assert done + [] == done;
  }

  lemma NextOf(s: seq<byte>, sofar: seq<byte>, chunk: seq<byte>, i: nat, all: seq<byte>)
    requires i < |chunk| && sofar + chunk[i..] == all && all <= s
    ensures sofar + [chunk[i]] <= s && (sofar + [chunk[i]]) + chunk[i + 1..] == all
  {
    assert chunk[i..] == [chunk[i]] + chunk[i + 1..];
  }

  class Context {
    const word: Word
    const decoder: Decoder
    const msgRx: Message?
    const msgTx: array?<byte>
    const serialTx: array?<byte>
    var isOpen: bool
    var events: seq<Event>  // the callbacks made so far
    var line: seq<byte>     // the bytes the device has taken so far

    ghost predicate Valid()
      reads this, decoder, msgRx
    {
      && decoder.Valid() && decoder.word == word
      && (msgRx != null ==> msgRx.Valid() && msgRx.word == word)
      && (msgTx != null ==> msgTx != serialTx)
    }

    /** The memory the decoder and the reception message own may have been replaced by new. */
    twostate predicate Replaced()
      reads this, decoder, msgRx
    {
      && (decoder.buf == old(decoder.buf) || fresh(decoder.buf))
      && (msgRx != null ==> msgRx.values == old(msgRx.values) || fresh(msgRx.values))
    }

    ghost function View(): (r: Receiver)
      requires Valid()
      reads this, decoder, decoder.buf, msgRx, if msgRx != null then {msgRx.values} else {}
      ensures ValidReceiver(word, decoder.Bound(), r)
    {
      Receiver(decoder.Core(), if msgRx == null then None else Some(msgRx.View()))
    }

    /** smp_context_new_from_static; the decoder of smp_context_new comes from Decoder.New. */
    constructor (word: Word, decoder: Decoder, msgRx: Message?, msgTx: array?<byte>, serialTx: array?<byte>)
      requires decoder.Valid() && decoder.word == word
      requires msgRx != null ==> msgRx.Valid() && msgRx.word == word
      requires msgTx != null ==> msgTx != serialTx
      ensures Valid() && !isOpen && events == [] && line == []
      ensures this.word == word && this.decoder == decoder && this.msgRx == msgRx
      ensures this.msgTx == msgTx && this.serialTx == serialTx
    {
      this.word, this.decoder, this.msgRx := word, decoder, msgRx;
      this.msgTx, this.serialTx := msgTx, serialTx;
      isOpen, events, line := false, [], [];
    }

    /** Step 1 of smp_context_send_message: encode the message, in the buffer given to the context or
        in a new one. */
    method EncodeFirst(msg: Message) returns (status: Status, msgbuf: array?<byte>, n: nat)
      requires Valid() && msg.Valid() && msg.word == word && AllReadable(msg.values[..])
      requires HEADER_SIZE + MaxEncodedSize(msg.values[..]) < word.Modulus()
      modifies msgTx
      ensures status == if msgTx != null && msgTx.Length < HEADER_SIZE + MaxEncodedSize(msg.values[..]) then Failed(OverflowError)
                        else if |EncodeArgs(msg.values[..])| >= Pow256(4) then Failed(OverflowError)
                        else Ok
      ensures status == Ok ==>
                && msgbuf != null && (msgbuf == msgTx || fresh(msgbuf))
                && n <= msgbuf.Length && n <= HEADER_SIZE + MaxEncodedSize(msg.values[..])
                && msgbuf[..n] == EncodeMessage(msg.msgid, msg.values[..])
    {
      msgbuf, n := msgTx, 0;
      var msgsize := msg.GetEncodedSize();
      Unwrapped(word, HEADER_SIZE + MaxEncodedSize(msg.values[..]));
      if msgTx == null {
        msgbuf := new byte[msgsize];
      } else if msgTx.Length < msgsize {
        return Failed(OverflowError), msgbuf, n;
      }
      status, n := msg.Encode(msgbuf, msgbuf.Length);
    }

    /** The frame of the encoded message p passes through the buffer given to the context. */
    ghost predicate HasRoomFor(p: seq<byte>) {
      serialTx == null || serialTx.Length >= PayloadSize(p)
    }

    /** Steps 2 and 3 of smp_context_send_message. */
    method SendBytes(msgbuf: array<byte>, n: nat, accepted: int) returns (status: Status)
      requires Valid() && n <= msgbuf.Length && 2 * n + 4 < word.Modulus() && msgbuf != serialTx
      modifies this`line, serialTx
      ensures !HasRoomFor(old(msgbuf[..n])) ==>
                status == Failed(if serialTx.Length == 0 then InvalidParam else OverflowError) && line == old(line)
      ensures HasRoomFor(old(msgbuf[..n])) && accepted < 0 ==> status == Failed(Device(accepted)) && line == old(line)
      ensures HasRoomFor(old(msgbuf[..n])) && accepted >= 0 ==>
                var w := Wire(old(msgbuf[..n]));
                && status == (if accepted == |w| then Ok else Failed(Io))
                && line == old(line) + w[..if accepted < |w| then accepted else |w|]
    {
      PayloadSizeBound(msgbuf[..n]);
      var size, txbuf;
      status, size, txbuf := SerialEncoder.Encode(word, msgbuf, n, serialTx, if serialTx != null then serialTx.Length else 0);
      if status != Ok { return; }
      if accepted < 0 { return Failed(Device(accepted)); }
      line := line + txbuf[..if accepted < size then accepted else size];
      status := if accepted != size then Failed(Io) else Ok;
    }

    /** The message with the values vs passes through the message buffer given to the context. */
    ghost predicate Encodes(vs: seq<Value>) {
      && (msgTx == null || msgTx.Length >= HEADER_SIZE + MaxEncodedSize(vs))
      && |EncodeArgs(vs)| < Pow256(4)
    }

    /** smp_context_send_message, on a device that takes `accepted` bytes or fails with a negative
        error: every way it can end. Ok means that the line got the whole frame of the message's
        encoding; a device that takes part of it leaves that part on the line and an IO error. */
    method SendMessage(msg: Message, accepted: int) returns (status: Status)
      requires Valid() && msg.Valid() && AllReadable(msg.values[..])
      requires 2 * (HEADER_SIZE + MaxEncodedSize(msg.values[..])) + 4 < word.Modulus() && msg.word == word
      modifies this`line, msgTx, serialTx
      ensures !isOpen ==> status == Failed(BadFd)
      ensures isOpen && !Encodes(old(msg.values[..])) ==> status == Failed(OverflowError)
      ensures status !in {Ok, Failed(Io)} ==> line == old(line)
      ensures isOpen && Encodes(old(msg.values[..])) ==>
                var p := EncodeMessage(old(msg.msgid), old(msg.values[..]));
                var w := Wire(p);
                && (!HasRoomFor(p) ==> status == Failed(if serialTx.Length == 0 then InvalidParam else OverflowError))
                && (HasRoomFor(p) && accepted < 0 ==> status == Failed(Device(accepted)))
                && (HasRoomFor(p) && 0 <= accepted < |w| ==> status == Failed(Io) && line == old(line) + w[..accepted])
                && (HasRoomFor(p) && accepted == |w| ==> status == Ok)
                && (HasRoomFor(p) && accepted > |w| ==> status == Failed(Io) && line == old(line) + w)
      ensures status == Ok ==> isOpen && Encodes(old(msg.values[..]))
                               && line == old(line) + Wire(EncodeMessage(old(msg.msgid), old(msg.values[..])))
    {
      if !isOpen { return Failed(BadFd); }
      var msgbuf, n;
      status, msgbuf, n := EncodeFirst(msg);
      if status != Ok { return; }
      status := SendBytes(msgbuf, n, accepted);
    }

    /** smp_context_process_serial_frame */
    method ProcessSerialFrame(frame: seq<byte>)
      requires Valid() && |frame| < word.Modulus()
      requires HandleFrame(word, View().rx, frame).1 != ErrorEvent(Unspecified)
      modifies this`events, msgRx, if msgRx != null then {msgRx.values} else {}
      ensures Valid() && Replaced()
      ensures View() == Receiver(old(View()).core, HandleFrame(word, old(View()).rx, frame).0)
      ensures events == old(events) + [HandleFrame(word, old(View()).rx, frame).1]
    {
      var msg: Message;
      if msgRx != null { msg := msgRx; } else { msg := new Message.New(word, 0); }
      var status := msg.BuildFromBuffer(frame);
      if status != Ok {
        events := events + [ErrorEvent(status.error)];
        return;
      }
      events := events + [NewMessage(msg.msgid, msg.values[..])];
      if msgRx != null { msg.Clear(); }
    }

    /** The body of the byte loop of smp_context_process_fd. */
    method ProcessByte(b: byte)
      requires Valid()
      requires Specified(HandleOutcome(word, View().rx, Step(decoder.Bound(), View().core, b).1).1)
      modifies this`events, decoder`state, decoder`buf, decoder`bufsize, decoder`offset,
               decoder`growths, decoder.buf, msgRx, if msgRx != null then {msgRx.values} else {}
      ensures Valid() && decoder.Bound() == old(decoder.Bound()) && Replaced()
      ensures var (core, o) := Step(decoder.Bound(), old(View()).core, b);
              var (rx, e) := HandleOutcome(word, old(View()).rx, o);
              View() == Receiver(core, rx) && events == old(events) + e
    {
      ghost var before := View();
      var status, frame := decoder.ProcessByte(b);
      assert View().rx == before.rx;
      if status != Ok {
        events := events + [ErrorEvent(status.error)];
      }
      if frame != None {
        SpecifiedFrame(word, before.rx, frame.value);
        ProcessSerialFrame(frame.value);
      }
    }

    /** One iteration of the byte loop, seen as a step along the stream s of all data read. */
    method ProcessNext(b: byte, ghost s: seq<byte>, ghost done: seq<byte>, ghost bd: Bound, ghost r: Receiver,
                       ghost q: Receiver, ghost e: seq<Event>, ghost before: seq<Event>)
        returns (ghost q': Receiver, ghost e': seq<Event>)
      requires Valid() && decoder.Bound() == bd && done + [b] <= s && ValidReceiver(word, bd, r)
      requires View() == q && events == before + e && Reaches(word, bd, r, done, q, e)
      requires Specified(Events(word, bd, r, s))
      modifies this`events, decoder`state, decoder`buf, decoder`bufsize, decoder`offset,
               decoder`growths, decoder.buf, msgRx, if msgRx != null then {msgRx.values} else {}
      ensures Valid() && decoder.Bound() == bd && Replaced()
      ensures View() == q' && events == before + e' && Reaches(word, bd, r, done + [b], q', e')
    {
      q', e' := ReachesNext(word, bd, r, s, done, b, q, e);
      ProcessByte(b);
    }

    /** The byte loop of smp_context_process_fd over one chunk of s. */
    method ProcessChunk(chunk: seq<byte>, ghost s: seq<byte>, ghost done: seq<byte>, ghost bd: Bound, ghost r: Receiver,
                        ghost q0: Receiver, ghost e0: seq<Event>, ghost before: seq<Event>)
        returns (ghost q: Receiver, ghost e: seq<Event>)
      requires Valid() && decoder.Bound() == bd && done + chunk <= s && ValidReceiver(word, bd, r)
      requires View() == q0 && events == before + e0 && Reaches(word, bd, r, done, q0, e0)
      requires Specified(Events(word, bd, r, s))
      modifies this`events, decoder`state, decoder`buf, decoder`bufsize, decoder`offset,
               decoder`growths, decoder.buf, msgRx, if msgRx != null then {msgRx.values} else {}
      ensures Valid() && decoder.Bound() == bd && Replaced()
      ensures View() == q && events == before + e && Reaches(word, bd, r, done + chunk, q, e)
    {
      q, e := q0, e0;
      ghost var sofar := done;
      for i := 0 to |chunk|
        invariant Valid() && decoder.Bound() == bd && Replaced()
        invariant View() == q && events == before + e
        invariant sofar + chunk[i..] == done + chunk
        invariant Reaches(word, bd, r, sofar, q, e)
      {
        NextOf(s, sofar, chunk, i, done + chunk);
        q, e := ProcessNext(chunk[i], s, sofar, bd, r, q, e, before);
        sofar := sofar + [chunk[i]];
      }
      assert sofar == done + chunk;
    }

    /** The read loop of smp_context_process_fd: k reads brought the data s. */
    method ProcessReads(script: seq<Read>, ghost s: seq<byte>) returns (k: nat, ghost e: seq<Event>)
      requires Valid() && s == Joined(Chunks(script))
      requires Specified(Events(word, decoder.Bound(), View(), s))
      modifies this`events, decoder`state, decoder`buf, decoder`bufsize, decoder`offset,
               decoder`growths, decoder.buf, msgRx, if msgRx != null then {msgRx.values} else {}
      ensures Valid() && decoder.Bound() == old(decoder.Bound()) && Replaced()
      ensures k == |Chunks(script)| <= |script|
      ensures Reaches(word, decoder.Bound(), old(View()), s, View(), e) && events == old(events) + e
    {
      ghost var bd, r, q, done := decoder.Bound(), View(), View(), [];
      k, e := 0, [];
      CursorStart(script);
      while HasData(script, k)
        decreases |script| - k
        invariant Cursor(script, s, k, done)
        invariant Valid() && decoder.Bound() == bd && Replaced()
        invariant View() == q && events == old(events) + e
        invariant Reaches(word, bd, r, done, q, e)
      {
        CursorNext(script, s, k, done);
        q, e := ProcessChunk(script[k].data, s, done, bd, r, q, e, old(events));
        done, k := done + script[k].data, k + 1;
      }
      CursorEnd(script, s, k, done);
    }

    /** smp_context_process_fd, for whatever the device's reads return: the data up to the first
        read without any is processed as one stream, and only a failing read is an error. */
    method ProcessFd(script: seq<Read>) returns (status: Status)
      requires Valid()
      requires Specified(Events(word, decoder.Bound(), View(), Joined(Chunks(script))))
      modifies this`events, decoder`state, decoder`buf, decoder`bufsize, decoder`offset,
               decoder`growths, decoder.buf, msgRx, if msgRx != null then {msgRx.values} else {}
      ensures Valid() && decoder.Bound() == old(decoder.Bound()) && Replaced()
      ensures decoder.bufsize == decoder.initialSize + DEFAULT_BUFFER_SIZE * decoder.growths
      ensures !isOpen ==> status == Failed(BadFd) && events == old(events) && View() == old(View())
      ensures isOpen ==> View() == Received(word, decoder.Bound(), old(View()), Joined(Chunks(script)))
      ensures isOpen ==> events == old(events) + Events(word, decoder.Bound(), old(View()), Joined(Chunks(script)))
      ensures isOpen ==> var n := |Chunks(script)|;
              status == if n < |script| && script[n].ReadFailed? then Failed(Device(script[n].code)) else Ok
    {
      if !isOpen { return Failed(BadFd); }
      var k;
      ghost var e;
      k, e := ProcessReads(script, Joined(Chunks(script)));
      status := if k < |script| && script[k].ReadFailed? then Failed(Device(script[k].code)) else Ok;
    }
  }
}
