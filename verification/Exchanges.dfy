/** A sending and a receiving context joined by a line: what one sends, the other announces. */
module Exchanges {
  import opened Bits
  import opened Types
  import opened LittleEndian
  import opened Frame
  import opened Deframer
  import opened DeframerRuns
  import opened SerialEncoder
  import opened SerialProtocol
  import opened MessageFormat
  import opened MessageEncode
  import opened Messages
  import opened ContextModel
  import opened ContextTheorems
  import opened Contexts

  /** The size of each message fits its header. */
  predicate AllFit(ts: seq<Sent>) {
    forall i :: 0 <= i < |ts| ==> |EncodeArgs(ts[i].values)| < Pow256(4)
  }

  /** The bytes the sender puts on the line for ts. */
  function FramesOf(ts: seq<Sent>): seq<byte>
    requires AllFit(ts)
  {
    if ts == [] then []
    else var t := ts[|ts| - 1]; FramesOf(ts[..|ts| - 1]) + Wire(EncodeMessage(t.id, t.values))
  }

  /** The message t passes through the buffers of the sending context. */
  ghost predicate Sendable(c: Context, t: Sent) {
    && AllReadable(t.values) && Encodable(t)
    && 2 * (HEADER_SIZE + MaxEncodedSize(t.values)) + 4 < c.word.Modulus()
    && (c.msgTx != null ==> HEADER_SIZE + MaxEncodedSize(t.values) <= c.msgTx.Length)
    && (c.serialTx != null ==> PayloadSize(EncodeMessage(t.id, t.values)) <= c.serialTx.Length)
  }

  /** msg is the message t. */
  ghost predicate Carries(c: Context, msg: Message, t: Sent)
    reads msg, msg.values
  {
    msg.Valid() && msg.word == c.word && msg.msgid == t.id && msg.values[..] == t.values
  }

  /** One message, on a device that takes all of its frame. */
  method SendOne(sender: Context, msg: Message, ghost t: Sent) returns (status: Status)
    requires sender.Valid() && sender.isOpen && Carries(sender, msg, t) && Sendable(sender, t)
    modifies sender`line, sender.msgTx, sender.serialTx
    ensures sender.Valid() && status == Ok
    ensures sender.line == old(sender.line) + Wire(EncodeMessage(t.id, t.values))
  {
    EncodedSizeIff(msg.values[..]);
    PayloadSizeBound(EncodeMessage(t.id, t.values));
    status := sender.SendMessage(msg, |Wire(EncodeMessage(msg.msgid, msg.values[..]))|);
  }

  ghost predicate AllSendable(c: Context, ts: seq<Sent>)
    ensures AllSendable(c, ts) ==> AllFit(ts)
  {
    forall i :: 0 <= i < |ts| ==> Sendable(c, ts[i])
  }

  ghost predicate AllCarried(c: Context, msgs: seq<Message>, ts: seq<Sent>)
    reads msgs, set m | m in msgs :: m.values
  {
    |msgs| == |ts| && forall i :: 0 <= i < |ts| ==> Carries(c, msgs[i], ts[i])
  }

  lemma Regroup(x: seq<byte>, y: seq<byte>, z: seq<byte>)
    ensures (x + y) + z == x + (y + z)
  {
  }

  lemma FramesNext(ts: seq<Sent>, i: nat, before: seq<byte>)
    requires i < |ts| && AllFit(ts)
    ensures before + FramesOf(ts[..i]) + Wire(EncodeMessage(ts[i].id, ts[i].values)) == before + FramesOf(ts[..i + 1])
  {
    assert ts[..i + 1][..i] == ts[..i];
    Regroup(before, FramesOf(ts[..i]), Wire(EncodeMessage(ts[i].id, ts[i].values)));
  }

  method SendNext(sender: Context, msgs: seq<Message>, i: nat, ghost ts: seq<Sent>, ghost before: seq<byte>)
      returns (status: Status)
    requires sender.Valid() && sender.isOpen && AllCarried(sender, msgs, ts) && AllSendable(sender, ts)
    requires i < |msgs| && sender.line == before + FramesOf(ts[..i])
    modifies sender`line, sender.msgTx, sender.serialTx
    ensures sender.Valid() && status == Ok && AllCarried(sender, msgs, ts)
    ensures sender.line == before + FramesOf(ts[..i + 1])
  {
    status := SendOne(sender, msgs[i], ts[i]);
    FramesNext(ts, i, before);
  }

  /** A series of messages. */
  method SendAll(sender: Context, msgs: seq<Message>, ghost ts: seq<Sent>) returns (status: Status)
    requires sender.Valid() && sender.isOpen && AllCarried(sender, msgs, ts) && AllSendable(sender, ts)
    modifies sender`line, sender.msgTx, sender.serialTx
    ensures sender.Valid() && status == Ok
    ensures sender.line == old(sender.line) + FramesOf(ts)
  {
    status := Ok;
    for i := 0 to |msgs|
      invariant sender.Valid() && status == Ok && AllCarried(sender, msgs, ts)
      invariant sender.line == old(sender.line) + FramesOf(ts[..i])
    {
      status := SendNext(sender, msgs, i, ts, old(sender.line));
    }
    assert ts[..|msgs|] == ts;
  }

  /** Every event of an announcement is a message. */
  lemma AnnouncedIsSpecified(e: seq<Event>, ts: seq<Sent>)
    requires AnnouncesAll(e, ts)
    ensures Specified(e)
  {
    forall i | 0 <= i < |e| ensures e[i] != ErrorEvent(Unspecified) {
      assert Announces(e[i], ts[i]);
    }
  }

  lemma LimitIsSize(word: Word, b: nat, m: nat, fixed: bool)
    requires b < word.Modulus() && m < word.Modulus()
    ensures BoundOf(word, b, m, fixed).limit < word.Modulus()
  {
    LimitClosedForm(word, b, m, fixed);
  }

  /** The reads bring the frames of ts, with START-free bytes before each, to a waiting receiver. */
  ghost predicate Brings(bd: Bound, r: Receiver, script: seq<Read>, ts: seq<Sent>) {
    && r.core == Idle && ClearedRx(r.rx) && AllReceivable(bd, r.rx, ts)
    && Joined(Chunks(script)) == Stream(Line(ts))
  }

  lemma {:induction false} BroughtIsAnnounced(word: Word, bd: Bound, r: Receiver, script: seq<Read>, ts: seq<Sent>)
    requires ValidReceiver(word, bd, r) && bd.limit < word.Modulus() && Brings(bd, r, script, ts)
    ensures var e := Events(word, bd, r, Joined(Chunks(script))); AnnouncesAll(e, ts) && Specified(e)
  {
    EndToEnd(word, bd, r.rx, ts, Chunks(script));
    assert r == Receiver(Idle, r.rx);
    AnnouncedIsSpecified(Events(word, bd, r, Joined(Chunks(script))), ts);
  }

  method ReceiveAll(receiver: Context, script: seq<Read>, ghost ts: seq<Sent>) returns (status: Status, ghost e: seq<Event>)
    requires receiver.Valid() && receiver.isOpen
    requires Brings(receiver.decoder.Bound(), receiver.View(), script, ts)
    modifies receiver`events, receiver.decoder`state, receiver.decoder`buf, receiver.decoder`bufsize,
             receiver.decoder`offset, receiver.decoder`growths, receiver.decoder.buf,
             receiver.msgRx, if receiver.msgRx != null then {receiver.msgRx.values} else {}
    ensures receiver.events == old(receiver.events) + e && AnnouncesAll(e, ts)
  {
    ghost var d, r := receiver.decoder, receiver.View();
    LimitIsSize(d.word, d.bufsize, d.maxsize, d.staticallyAllocated);
    BroughtIsAnnounced(receiver.word, d.Bound(), r, script, ts);
    e := Events(receiver.word, d.Bound(), r, Joined(Chunks(script)));
    status := receiver.ProcessFd(script);
  }

  /** Two contexts on one line: of any messages sent, the receiver announces each exactly once, in
      order, with its id and its values, and reports no error, whatever START-free bytes the line
      adds before a frame and however the bytes are cut into reads. */
  method Exchange(sender: Context, receiver: Context, msgs: seq<Message>, script: seq<Read>, ghost ts: seq<Sent>)
      returns (ghost e: seq<Event>)
    requires sender.Valid() && sender.isOpen && AllCarried(sender, msgs, ts) && AllSendable(sender, ts)
    requires receiver.Valid() && receiver.isOpen
    requires Brings(receiver.decoder.Bound(), receiver.View(), script, ts)
    requires sender != receiver && receiver.decoder.buf !in {sender.msgTx, sender.serialTx}
    modifies sender`line, sender.msgTx, sender.serialTx
    modifies receiver`events, receiver.decoder`state, receiver.decoder`buf, receiver.decoder`bufsize,
             receiver.decoder`offset, receiver.decoder`growths, receiver.decoder.buf,
             receiver.msgRx, if receiver.msgRx != null then {receiver.msgRx.values} else {}
    ensures sender.line == old(sender.line) + FramesOf(ts)
    ensures receiver.events == old(receiver.events) + e && AnnouncesAll(e, ts)
  {
    var sent := SendAll(sender, msgs, ts);
    var received;
    received, e := ReceiveAll(receiver, script, ts);
  }
}
