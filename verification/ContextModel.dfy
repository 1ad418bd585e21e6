/** The receive pipeline of a context: bytes to frames to messages to callbacks. */
module ContextModel {
  import opened Bits
  import opened Types
  import opened Deframer
  import opened MessageFormat
  import opened MessageDecode

  /** A call of one of the two callbacks, with what it can observe. */
  datatype Event = NewMessage(id: nat, values: seq<Value>) | ErrorEvent(error: Types.Error)

  /** The reception message of a context, if it was given one. */
  type Rx = Option<Msg>

  predicate ValidRx(word: Word, rx: Rx) {
    rx.Some? ==> ValidMsg(word, rx.value) && |rx.value.values| >= 1
  }

  function Clear(m: Msg): Msg {
    Msg(0, Empty(|m.values|), m.fixed)
  }

  /** The message a frame is built into. */
  function Target(rx: Rx): Msg {
    if rx.Some? then rx.value else Msg(0, Empty(DEFAULT_CAPACITY), false)
  }

  /** smp_context_process_serial_frame: one event for each frame. A message that was built is
      cleared after its callback; one that could not be built is not. */
  function HandleFrame(word: Word, rx: Rx, f: seq<byte>): (r: (Rx, Event))
    requires ValidRx(word, rx)
    ensures ValidRx(word, r.0) && (r.0.Some? <==> rx.Some?)
    ensures rx.Some? ==> r.0.value.fixed == rx.value.fixed
  {
    var (m, status) := Build(word, Target(rx), f);
    match status
    case Failed(e) => (if rx.Some? then Some(m) else None, ErrorEvent(e))
    case Ok => (if rx.Some? then Some(Clear(m)) else None, NewMessage(m.id, m.values))
  }

  /** What the byte loop does with the outcome of one byte. */
  function HandleOutcome(word: Word, rx: Rx, o: Outcome): (r: (Rx, seq<Event>))
    requires ValidRx(word, rx)
    ensures ValidRx(word, r.0) && (r.0.Some? <==> rx.Some?)
    ensures rx.Some? ==> r.0.value.fixed == rx.value.fixed
  {
    match o
    case Quiet => (rx, [])
    case Error(e) => (rx, [ErrorEvent(e)])
    case Delivered(f) => var (rx', e) := HandleFrame(word, rx, f); (rx', [e])
  }

  function RxAfter(word: Word, rx: Rx, o: seq<Outcome>): (r: Rx)
    requires ValidRx(word, rx)
    ensures ValidRx(word, r) && (r.Some? <==> rx.Some?)
    ensures rx.Some? ==> r.value.fixed == rx.value.fixed
  {
    if o == [] then rx else HandleOutcome(word, RxAfter(word, rx, o[..|o| - 1]), o[|o| - 1]).0
  }

  /** The callbacks for a run of outcomes, in order. */
  function EventsOf(word: Word, rx: Rx, o: seq<Outcome>): seq<Event>
    requires ValidRx(word, rx)
  {
    if o == [] then []
    else EventsOf(word, rx, o[..|o| - 1]) + HandleOutcome(word, RxAfter(word, rx, o[..|o| - 1]), o[|o| - 1]).1
  }

  /** The state of a receiving context. */
  datatype Receiver = Receiver(core: Core, rx: Rx)

  predicate ValidReceiver(word: Word, bd: Bound, r: Receiver) {
    Valid(bd, r.core) && ValidRx(word, r.rx)
  }

  function Received(word: Word, bd: Bound, r: Receiver, s: seq<byte>): (r': Receiver)
    requires ValidReceiver(word, bd, r)
    ensures ValidReceiver(word, bd, r')
  {
    Receiver(After(bd, r.core, s), RxAfter(word, r.rx, Outs(bd, r.core, s)))
  }

  /** All callbacks for the bytes s. */
  function Events(word: Word, bd: Bound, r: Receiver, s: seq<byte>): seq<Event>
    requires ValidReceiver(word, bd, r)
  {
    EventsOf(word, r.rx, Outs(bd, r.core, s))
  }

  // ---- Chunks ---------------------------------------------------------------------------

  lemma {:induction false} RxAfterConcat(word: Word, rx: Rx, o: seq<Outcome>, p: seq<Outcome>)
    requires ValidRx(word, rx)
    ensures RxAfter(word, rx, o + p) == RxAfter(word, RxAfter(word, rx, o), p)
    decreases |p|
  {
    if p == [] {
      assert o + p == o;
    } else {
      assert (o + p)[..|o + p| - 1] == o + p[..|p| - 1];
      RxAfterConcat(word, rx, o, p[..|p| - 1]);
    }
  }

  lemma {:induction false} EventsConcat(word: Word, rx: Rx, o: seq<Outcome>, p: seq<Outcome>)
    requires ValidRx(word, rx)
    ensures EventsOf(word, rx, o + p) == EventsOf(word, rx, o) + EventsOf(word, RxAfter(word, rx, o), p)
    decreases |p|
  {
    if p == [] {
      assert o + p == o;
    } else {
      assert (o + p)[..|o + p| - 1] == o + p[..|p| - 1];
      EventsConcat(word, rx, o, p[..|p| - 1]);
      RxAfterConcat(word, rx, o, p[..|p| - 1]);
    }
  }

  lemma ReceivedConcat(word: Word, bd: Bound, r: Receiver, s: seq<byte>, t: seq<byte>)
    requires ValidReceiver(word, bd, r)
    ensures Received(word, bd, r, s + t) == Received(word, bd, Received(word, bd, r, s), t)
    ensures Events(word, bd, r, s + t) == Events(word, bd, r, s) + Events(word, bd, Received(word, bd, r, s), t)
  {
    RunConcat(bd, r.core, s, t);
    RxAfterConcat(word, r.rx, Outs(bd, r.core, s), Outs(bd, After(bd, r.core, s), t));
    EventsConcat(word, r.rx, Outs(bd, r.core, s), Outs(bd, After(bd, r.core, s), t));
  }

  /** One more byte. */
  lemma ReceivedStep(word: Word, bd: Bound, r: Receiver, s: seq<byte>, b: byte)
    requires ValidReceiver(word, bd, r)
    ensures var q := Received(word, bd, r, s);
            var (core, o) := Step(bd, q.core, b);
            var (rx, e) := HandleOutcome(word, q.rx, o);
            && Received(word, bd, r, s + [b]) == Receiver(core, rx)
            && Events(word, bd, r, s + [b]) == Events(word, bd, r, s) + e
  {
    assert (s + [b])[..|s|] == s;
    var o := Outs(bd, r.core, s + [b]);
    assert o[..|s|] == Outs(bd, r.core, s);
  }

  lemma EventsPrefix(word: Word, bd: Bound, r: Receiver, s: seq<byte>, p: seq<byte>)
    requires ValidReceiver(word, bd, r) && p <= s
    ensures Events(word, bd, r, p) <= Events(word, bd, r, s)
  {
    assert s == p + s[|p|..];
    ReceivedConcat(word, bd, r, p, s[|p|..]);
  }

  function Joined(chunks: seq<seq<byte>>): seq<byte> {
    if chunks == [] then [] else chunks[0] + Joined(chunks[1..])
  }

  /** The callbacks when the bytes are processed read by read. */
  function EventsByChunk(word: Word, bd: Bound, r: Receiver, chunks: seq<seq<byte>>): seq<Event>
    requires ValidReceiver(word, bd, r)
    decreases |chunks|
  {
    if chunks == [] then []
    else Events(word, bd, r, chunks[0]) + EventsByChunk(word, bd, Received(word, bd, r, chunks[0]), chunks[1..])
  }

  /** How the bytes are cut into reads makes no difference to the callbacks. */
  lemma {:induction false} ChunkIndependent(word: Word, bd: Bound, r: Receiver, chunks: seq<seq<byte>>)
    requires ValidReceiver(word, bd, r)
    ensures EventsByChunk(word, bd, r, chunks) == Events(word, bd, r, Joined(chunks))
    decreases |chunks|
  {
    if chunks != [] {
      ChunkIndependent(word, bd, Received(word, bd, r, chunks[0]), chunks[1..]);
      ReceivedConcat(word, bd, r, chunks[0], Joined(chunks[1..]));
    }
  }

  /** How many outcomes report something. */
  function Loud(o: seq<Outcome>): nat {
    if o == [] then 0 else Loud(o[..|o| - 1]) + (if o[|o| - 1] == Quiet then 0 else 1)
  }

  lemma {:induction false} OneCallbackEach(word: Word, rx: Rx, o: seq<Outcome>)
    requires ValidRx(word, rx)
    ensures |EventsOf(word, rx, o)| == Loud(o)
  {
    if o != [] { OneCallbackEach(word, rx, o[..|o| - 1]); }
  }

  lemma {:induction false} LoudPrefix(o: seq<Outcome>, i: nat)
    requires i < |o| && o[i] != Quiet
    ensures Loud(o[..i]) < Loud(o)
  {
    if i < |o| - 1 {
      assert o[..|o| - 1][..i] == o[..i];
      LoudPrefix(o[..|o| - 1], i);
    }
  }

  /** There is one callback for each outcome that reports something, in order: an error is passed
      on as it is, a frame is handled with the reception message as its predecessors left it. */
  lemma {:induction false} CallbackFor(word: Word, rx: Rx, o: seq<Outcome>, i: nat)
    requires ValidRx(word, rx) && i < |o| && o[i] != Quiet
    ensures |EventsOf(word, rx, o)| == Loud(o) && Loud(o[..i]) < Loud(o)
    ensures EventsOf(word, rx, o)[Loud(o[..i])] == match o[i]
                                                   case Error(e) => ErrorEvent(e)
                                                   case Delivered(f) => HandleFrame(word, RxAfter(word, rx, o[..i]), f).1
  {
    var n := |o| - 1;
    OneCallbackEach(word, rx, o);
    OneCallbackEach(word, rx, o[..n]);
    LoudPrefix(o, i);
    if i < n {
      CallbackFor(word, rx, o[..n], i);
      assert o[..n][..i] == o[..i];
    }
  }

  /** Outcomes that report nothing lead to no callback and leave the reception message alone. */
  lemma {:induction false} QuietEvents(word: Word, rx: Rx, o: seq<Outcome>)
    requires ValidRx(word, rx) && AllQuiet(o)
    ensures EventsOf(word, rx, o) == [] && RxAfter(word, rx, o) == rx
  {
    if o != [] { QuietEvents(word, rx, o[..|o| - 1]); }
  }

  /** An error leads to one callback, with that error, and leaves the reception message alone. */
  lemma {:induction false} ErrorEvents(word: Word, rx: Rx, o: seq<Outcome>, e: Types.Error)
    requires ValidRx(word, rx)
    ensures EventsOf(word, rx, o + [Error(e)]) == EventsOf(word, rx, o) + [ErrorEvent(e)]
    ensures RxAfter(word, rx, o + [Error(e)]) == RxAfter(word, rx, o)
  {
    assert (o + [Error(e)])[..|o|] == o;
  }

  // ---- Frame by frame -------------------------------------------------------------------

  function RxAfterFrames(word: Word, rx: Rx, fs: seq<seq<byte>>): (r: Rx)
    requires ValidRx(word, rx)
    ensures ValidRx(word, r) && (r.Some? <==> rx.Some?)
  {
    if fs == [] then rx else HandleFrame(word, RxAfterFrames(word, rx, fs[..|fs| - 1]), fs[|fs| - 1]).0
  }

  function FrameEvents(word: Word, rx: Rx, fs: seq<seq<byte>>): (e: seq<Event>)
    requires ValidRx(word, rx)
    ensures |e| == |fs|
  {
    if fs == [] then []
    else FrameEvents(word, rx, fs[..|fs| - 1])
         + [HandleFrame(word, RxAfterFrames(word, rx, fs[..|fs| - 1]), fs[|fs| - 1]).1]
  }

  lemma FramesSnoc(fs: seq<seq<byte>>, f: seq<byte>)
    ensures (fs + [f])[..|fs + [f]| - 1] == fs
  {
  }

  /** One more outcome that is not an error. */
  lemma NextFrameEvent(word: Word, rx: Rx, fs: seq<seq<byte>>, o: Outcome)
    requires ValidRx(word, rx) && !o.Error?
    ensures var r := RxAfterFrames(word, rx, fs);
            var gs := if o.Delivered? then fs + [o.frame] else fs;
            && RxAfterFrames(word, rx, gs) == HandleOutcome(word, r, o).0
            && FrameEvents(word, rx, gs) == FrameEvents(word, rx, fs) + HandleOutcome(word, r, o).1
  {
    if o.Delivered? { FramesSnoc(fs, o.frame); }
  }

  /** Without framing errors the callbacks are those of the delivered frames, one each. */
  lemma {:induction false} EventsAreFrameEvents(word: Word, rx: Rx, o: seq<Outcome>)
    requires ValidRx(word, rx) && NoError(o)
    ensures RxAfter(word, rx, o) == RxAfterFrames(word, rx, Frames(o))
    ensures EventsOf(word, rx, o) == FrameEvents(word, rx, Frames(o))
  {
    if o != [] {
      var n := |o| - 1;
      EventsAreFrameEvents(word, rx, o[..n]);
      NextFrameEvent(word, rx, Frames(o[..n]), o[n]);
      assert Frames(o) == if o[n].Delivered? then Frames(o[..n]) + [o[n].frame] else Frames(o[..n]);
    }
  }
}
