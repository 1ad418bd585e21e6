/** What a receiving context guarantees: end-to-end delivery, and when a callback depends on
    anything but its own frame. */
module ContextTheorems {
  import opened Bits
  import opened Types
  import opened LittleEndian
  import opened Frame
  import opened Deframer
  import opened DeframerRuns
  import opened DeframerErrors
  import opened MessageFormat
  import opened MessageDecode
  import opened MessageBuild
  import opened MessageFailures
  import opened MessageRoundTrip
  import opened ContextModel

  // ---- End to end -----------------------------------------------------------------------

  /** A message sent, with the bytes that precede its frame on the line. */
  datatype Sent = Sent(gap: seq<byte>, id: nat, values: seq<Value>)

  /** The message can be encoded at all. */
  ghost predicate Encodable(t: Sent) {
    t.id < Pow256(4) && AllProper(t.values) && |EncodeArgs(t.values)| < Pow256(4)
  }

  /** The frame fits the receiver's buffer, and a fixed reception message has enough slots. */
  ghost predicate Receivable(bd: Bound, rx: Rx, t: Sent) {
    && Encodable(t) && START !in t.gap
    && |EncodeMessage(t.id, t.values)| + 1 <= bd.limit
    && (rx.Some? && rx.value.fixed ==> |KeptOf(t.values)| <= |rx.value.values|)
  }

  ghost predicate AllReceivable(bd: Bound, rx: Rx, ts: seq<Sent>) {
    forall i :: 0 <= i < |ts| ==> Receivable(bd, rx, ts[i])
  }

  ghost predicate ClearedRx(rx: Rx) {
    rx.Some? ==> Cleared(rx.value)
  }

  /** The line: for each message, the preceding bytes and the frame send_message writes. */
  function Line(ts: seq<Sent>): seq<Item>
    requires forall i :: 0 <= i < |ts| ==> |EncodeArgs(ts[i].values)| < Pow256(4)
    ensures |Line(ts)| == |ts|
  {
    if ts == [] then []
    else var t := ts[|ts| - 1];
         Line(ts[..|ts| - 1]) + [Item(t.gap, EncodeMessage(t.id, t.values))]
  }

  /** The callback a sent message must lead to: its id, its values as far as the encoder keeps
      them, and empty slots behind them. */
  predicate Announces(e: Event, t: Sent) {
    && e.NewMessage? && e.id == t.id
    && |KeptOf(t.values)| <= |e.values|
    && e.values == KeptOf(t.values) + Empty(|e.values| - |KeptOf(t.values)|)
  }

  /** r is a cleared reception message like rx, with as many slots if it is fixed. */
  ghost predicate Ready(rx: Rx, r: Rx) {
    && ClearedRx(r) && (r.Some? <==> rx.Some?)
    && (rx.Some? && rx.value.fixed ==> r.value.fixed && |r.value.values| == |rx.value.values|)
  }

  lemma HandleSent(word: Word, bd: Bound, rx: Rx, r: Rx, t: Sent)
    requires ValidRx(word, r) && Ready(rx, r) && Receivable(bd, rx, t) && bd.limit < word.Modulus()
    requires rx.Some? ==> rx.value.fixed == r.value.fixed
    ensures var (r', e) := HandleFrame(word, r, EncodeMessage(t.id, t.values)); Announces(e, t) && Ready(rx, r')
  {
    RoundTrip(word, Target(r), t.id, t.values);
  }

  ghost predicate AnnouncesAll(e: seq<Event>, ts: seq<Sent>) {
    |e| == |ts| && forall i :: 0 <= i < |ts| ==> Announces(e[i], ts[i])
  }

  lemma AnnouncesSnoc(e: seq<Event>, ts: seq<Sent>, x: Event)
    requires ts != [] && AnnouncesAll(e, ts[..|ts| - 1]) && Announces(x, ts[|ts| - 1])
    ensures AnnouncesAll(e + [x], ts)
  {
    forall i | 0 <= i < |ts| ensures Announces((e + [x])[i], ts[i]) {
      if i < |ts| - 1 { assert Announces(e[i], ts[..|ts| - 1][i]); }
    }
  }

  lemma FrameSnoc(word: Word, rx: Rx, fs: seq<seq<byte>>, f: seq<byte>)
    requires ValidRx(word, rx)
    ensures var (r, e) := HandleFrame(word, RxAfterFrames(word, rx, fs), f);
            RxAfterFrames(word, rx, fs + [f]) == r && FrameEvents(word, rx, fs + [f]) == FrameEvents(word, rx, fs) + [e]
  {
    FramesSnoc(fs, f);
  }

  /** r is what rx may have become: the same kind of message, with the same slots if it is fixed. */
  predicate Becomes(rx: Rx, r: Rx) {
    && (r.Some? <==> rx.Some?)
    && (rx.Some? ==> r.value.fixed == rx.value.fixed)
    && (rx.Some? && rx.value.fixed ==> |r.value.values| == |rx.value.values|)
  }

  lemma {:induction false} RxBecomes(word: Word, rx: Rx, fs: seq<seq<byte>>)
    requires ValidRx(word, rx)
    ensures Becomes(rx, RxAfterFrames(word, rx, fs))
  {
    if fs != [] { RxBecomes(word, rx, fs[..|fs| - 1]); }
  }

  lemma {:induction false} PayloadsSnoc(ts: seq<Sent>)
    requires ts != [] && forall i :: 0 <= i < |ts| ==> |EncodeArgs(ts[i].values)| < Pow256(4)
    ensures var t := ts[|ts| - 1];
            Payloads(Line(ts)) == Payloads(Line(ts[..|ts| - 1])) + [EncodeMessage(t.id, t.values)]
  {
    var n := |ts| - 1;
    assert Line(ts)[..n] == Line(ts[..n]);
  }

  ghost predicate Handled(word: Word, rx: Rx, fs: seq<seq<byte>>, ts: seq<Sent>)
    requires ValidRx(word, rx)
  {
    Ready(rx, RxAfterFrames(word, rx, fs)) && AnnouncesAll(FrameEvents(word, rx, fs), ts)
  }

  lemma HandledSnoc(word: Word, bd: Bound, rx: Rx, fs: seq<seq<byte>>, ts: seq<Sent>)
    requires ValidRx(word, rx) && ts != [] && Handled(word, rx, fs, ts[..|ts| - 1])
    requires Receivable(bd, rx, ts[|ts| - 1]) && bd.limit < word.Modulus()
    ensures var t := ts[|ts| - 1]; Handled(word, rx, fs + [EncodeMessage(t.id, t.values)], ts)
  {
    var t, r := ts[|ts| - 1], RxAfterFrames(word, rx, fs);
    RxBecomes(word, rx, fs);
    HandleSent(word, bd, rx, r, t);
    FrameSnoc(word, rx, fs, EncodeMessage(t.id, t.values));
    AnnouncesSnoc(FrameEvents(word, rx, fs), ts, HandleFrame(word, r, EncodeMessage(t.id, t.values)).1);
  }

  lemma {:induction false} FramesOfLine(word: Word, bd: Bound, rx: Rx, ts: seq<Sent>)
    requires ValidRx(word, rx) && ClearedRx(rx) && AllReceivable(bd, rx, ts) && bd.limit < word.Modulus()
    ensures Handled(word, rx, Payloads(Line(ts)), ts)
  {
    if ts != [] {
      FramesOfLine(word, bd, rx, ts[..|ts| - 1]);
      PayloadsSnoc(ts);
      HandledSnoc(word, bd, rx, Payloads(Line(ts[..|ts| - 1])), ts);
    }
  }

  lemma {:induction false} LineIsClean(bd: Bound, rx: Rx, ts: seq<Sent>)
    requires AllReceivable(bd, rx, ts)
    ensures Clean(bd, Line(ts))
  {
    if ts != [] { LineIsClean(bd, rx, ts[..|ts| - 1]); }
  }

  /** Every message sent is announced exactly once, in order, with its id and its values, and no
      error is ever reported, whatever START-free bytes lie between the frames and however the
      line is cut into reads. */
  lemma {:induction false} EndToEnd(word: Word, bd: Bound, rx: Rx, ts: seq<Sent>, chunks: seq<seq<byte>>)
    requires ValidRx(word, rx) && ClearedRx(rx) && AllReceivable(bd, rx, ts) && bd.limit < word.Modulus()
    requires Joined(chunks) == Stream(Line(ts))
    ensures AnnouncesAll(Events(word, bd, Receiver(Idle, rx), Joined(chunks)), ts)
    ensures AnnouncesAll(EventsByChunk(word, bd, Receiver(Idle, rx), chunks), ts)
  {
    ChunkIndependent(word, bd, Receiver(Idle, rx), chunks);
    LineIsClean(bd, rx, ts);
    StreamRecovered(bd, Line(ts));
    EventsAreFrameEvents(word, rx, Outs(bd, Idle, Stream(Line(ts))));
    FramesOfLine(word, bd, rx, ts);
  }

  // ---- Errors on the line -----------------------------------------------------------------

  /** What a run of bytes that reports one error at its end leads to. */
  lemma {:induction false} OneError(word: Word, bd: Bound, r: Receiver, s: seq<byte>, e: Types.Error)
    requires ValidReceiver(word, bd, r) && s != []
    requires var o := Outs(bd, r.core, s); AllQuiet(o[..|o| - 1]) && o[|o| - 1] == Error(e)
    ensures Events(word, bd, r, s) == [ErrorEvent(e)] && Received(word, bd, r, s).rx == r.rx
  {
    var o := Outs(bd, r.core, s);
    var n := |o| - 1;
    QuietEvents(word, r.rx, o[..n]);
    ErrorEvents(word, r.rx, o[..n], e);
    assert o[..n] + [Error(e)] == o;
  }

  /** A frame with one byte changed on the line makes a waiting receiver call the error callback
      once, with BAD_MESSAGE, and no other; it is waiting again, its message untouched. */
  lemma {:induction false} CorruptionAnnounced(word: Word, bd: Bound, rx: Rx, p: seq<byte>, i: nat, b: byte)
    requires ValidRx(word, rx) && |p| + 1 <= bd.limit
    requires i <= |p| && b != Content(p)[i] && (IsMagic(Content(p)[i]) || !IsMagic(b))
    ensures Events(word, bd, Receiver(Idle, rx), Corrupted(p, i, b)) == [ErrorEvent(BadMessage)]
    ensures Received(word, bd, Receiver(Idle, rx), Corrupted(p, i, b)) == Receiver(Idle, rx)
  {
    CorruptionDetected(bd, Idle, p, i, b);
    CorruptionOnlyReport(bd, p, i, b);
    OneError(word, bd, Receiver(Idle, rx), Corrupted(p, i, b), BadMessage);
  }

  /** So do the two bytes START and END. */
  lemma {:induction false} StartEndAnnounced(word: Word, bd: Bound, rx: Rx)
    requires ValidRx(word, rx)
    ensures Events(word, bd, Receiver(Idle, rx), [0x10, 0xFF]) == [ErrorEvent(BadMessage)]
  {
    StartEnd(bd);
    OneError(word, bd, Receiver(Idle, rx), [0x10, 0xFF], BadMessage);
  }

  // ---- What one frame leads to --------------------------------------------------------------

  /** The SIZE in the header of a frame. */
  function DeclaredSize(f: seq<byte>): (n: nat)
    requires HEADER_SIZE <= |f|
    ensures n < Pow256(4)
  {
    ToFromLE(f[4..8]);
    FromLE(f[4..8])
  }

  /** The frame covers what its header asks for, in the arithmetic of size_t. */
  predicate Complete(word: Word, f: seq<byte>) {
    |f| >= 8 && |f| >= (8 + DeclaredSize(f)) % word.Modulus()
  }

  lemma {:induction false} CompleteBuild(word: Word, m: Msg, f: seq<byte>)
    requires ValidRx(word, Some(m)) && Complete(word, f)
    ensures FromLE(f[..4]) < Pow256(4)
    ensures var r := BuildArgs(word, m.fixed, m.values, 0, f[8..]);
            Build(word, m, f) == (Msg(FromLE(f[..4]), r.values, m.fixed), r.status)
  {
    ToFromLE(f[..4]);
    HeaderDemandIs(word, DeclaredSize(f));
  }

  lemma {:induction false} FaultyBuild(word: Word, m: Msg, b: seq<byte>)
    requires ValidRx(word, Some(m)) && |b| < word.Modulus() && Fault(word, b).Some?
    ensures BuildArgs(word, m.fixed, m.values, 0, b).status ==
            Failed(if m.fixed && |m.values| <= |GoodValues(word, b)| then TooBig
                   else if Fault(word, b).value == Beyond then Unspecified else BadMessage)
  {
    BuildFails(word, m.fixed, m.values, 0, b);
  }

  lemma {:induction false} FaultlessBuild(word: Word, m: Msg, b: seq<byte>)
    requires ValidRx(word, Some(m)) && |b| < word.Modulus() && Fault(word, b).None?
    ensures var r, vs := BuildArgs(word, m.fixed, m.values, 0, b), GoodValues(word, b);
            if m.fixed && |m.values| < |vs| then r.status == Failed(TooBig) else r.status == Ok && vs <= r.values
  {
    FaultIff(word, b);
    BuildArgsParsed(word, m.fixed, m.values, 0, b, GoodValues(word, b));
  }

  /** Every frame: refused with BAD_MESSAGE when it is shorter than its header asks for; refused
      with TOO_BIG when a fixed message runs out of slots; refused with BAD_MESSAGE at a faulty
      argument; otherwise announced with the id in its header and the values in its payload. */
  lemma {:induction false} CallbackOf(word: Word, m: Msg, f: seq<byte>)
    requires ValidRx(word, Some(m)) && |f| < word.Modulus()
    ensures var e := HandleFrame(word, Some(m), f).1;
            if !Complete(word, f) then e == ErrorEvent(BadMessage)
            else
              var vs, fault := GoodValues(word, f[8..]), Fault(word, f[8..]);
              if m.fixed && |m.values| < |vs| + (if fault.Some? then 1 else 0) then e == ErrorEvent(TooBig)
              else if fault.Some? then e == ErrorEvent(if fault.value == Beyond then Unspecified else BadMessage)
              else e.NewMessage? && e.id == FromLE(f[..4]) && vs <= e.values
  {
    if !Complete(word, f) {
      ShortFrame(word, m, f);
    } else {
      CompleteBuild(word, m, f);
      if Fault(word, f[8..]).Some? { FaultyBuild(word, m, f[8..]); } else { FaultlessBuild(word, m, f[8..]); }
    }
  }

  /** After its callback a message is empty again, with id 0; after a failure it has kept the id of
      the frame's header, if there was one. */
  lemma LeftIn(word: Word, m: Msg, f: seq<byte>)
    requires ValidRx(word, Some(m))
    ensures var (rx, e) := HandleFrame(word, Some(m), f);
            && rx.Some? && rx.value.fixed == m.fixed
            && (e.NewMessage? ==> rx.value.id == 0 && forall j :: 0 <= j < |rx.value.values| ==> rx.value.values[j] == NoValue)
            && (e.ErrorEvent? ==> rx.value.id == if |f| < 8 then m.id else FromLE(f[..4]))
  {
  }

  // ---- Independence of the past -----------------------------------------------------------

  /** The event a frame leads to by itself: in a message just created, or just cleared. */
  function FreshEvent(word: Word, rx: Rx, f: seq<byte>): Event
    requires ValidRx(word, rx)
  {
    HandleFrame(word, if rx.Some? then Some(Clear(rx.value)) else None, f).1
  }

  /** The frame can be built into m: it covers the size its header asks for, its payload parses,
      and a fixed message has a slot for each of the values. */
  predicate Buildable(word: Word, m: Msg, f: seq<byte>) {
    && HEADER_SIZE <= |f|
    && HeaderDemand(word, DeclaredSize(f)) <= |f|
    && ParseArgs(word, f[HEADER_SIZE..]).Some?
    && (m.fixed ==> |ParseArgs(word, f[HEADER_SIZE..]).value| <= |m.values|)
  }

  /** It covers every slot of m that is in use. */
  predicate Covers(word: Word, m: Msg, f: seq<byte>)
    requires HEADER_SIZE <= |f| && ParseArgs(word, f[HEADER_SIZE..]).Some?
  {
    forall j :: |ParseArgs(word, f[HEADER_SIZE..]).value| <= j < |m.values| ==> m.values[j] == NoValue
  }

  lemma BuildableIff(word: Word, m: Msg, f: seq<byte>)
    requires ValidRx(word, Some(m)) && |f| < word.Modulus()
    ensures Build(word, m, f).1 == Ok <==> Buildable(word, m, f)
  {
    if |f| >= HEADER_SIZE { BuildIff(word, m, f); }
  }

  lemma OverlaysEqualIff(u: seq<Value>, v: seq<Value>, cap: nat, vs: seq<Value>)
    requires |u| == |v| <= cap && |vs| <= cap && v == Empty(|v|)
    ensures Overlay(u, cap, 0, vs) == Overlay(v, cap, 0, vs) <==> forall j :: |vs| <= j < |u| ==> u[j] == NoValue
  {
    var x, y := Overlay(u, cap, 0, vs), Overlay(v, cap, 0, vs);
    assert forall j :: |vs| <= j < |u| ==> x[j] == u[j] && y[j] == NoValue;
    assert forall j :: 0 <= j < cap && !(|vs| <= j < |u|) ==> x[j] == y[j];
  }

  /** Slots left over from a message that could not be built show through exactly when a later
      frame is built and does not cover them. */
  lemma StaleSlotsIff(word: Word, m: Msg, f: seq<byte>)
    requires ValidRx(word, Some(m)) && |f| < word.Modulus()
    ensures HandleFrame(word, Some(m), f).1 == FreshEvent(word, Some(m), f)
       <==> (Buildable(word, m, f) ==> Covers(word, m, f))
  {
    var c := Clear(m);
    BuildableIff(word, m, f);
    if |f| >= HEADER_SIZE {
      StatusIgnoresSlots(word, m.fixed, m.values, c.values, 0, f[8..]);
      BuildIff(word, m, f);
      BuildIff(word, c, f);
      if Build(word, m, f).1 == Ok {
        var vs := ParseArgs(word, f[8..]).value;
        OverlaysEqualIff(m.values, c.values, FinalCapacity(m.fixed, |m.values|, |vs|), vs);
      }
    }
  }

  lemma {:induction false} EventAt(word: Word, rx: Rx, fs: seq<seq<byte>>, i: nat)
    requires ValidRx(word, rx) && i < |fs|
    ensures FrameEvents(word, rx, fs)[i] == HandleFrame(word, RxAfterFrames(word, rx, fs[..i]), fs[i]).1
  {
    var n := |fs| - 1;
    FrameSnoc(word, rx, fs[..n], fs[n]);
    assert fs[..n] + [fs[n]] == fs;
    if i < n {
      EventAt(word, rx, fs[..n], i);
      assert fs[..n][..i] == fs[..i];
      assert FrameEvents(word, rx, fs)[i] == FrameEvents(word, rx, fs[..n])[i];
    }
  }

  /** The context was given a reception message that can grow. */
  predicate Grows(rx: Rx) {
    rx.Some? && !rx.value.fixed
  }

  predicate Sized(word: Word, rx: Rx, f: seq<byte>) {
    Grows(rx) ==> |f| < word.Modulus()
  }

  lemma StatusOfFrame(word: Word, rx: Rx, r: Rx, f: seq<byte>)
    requires ValidRx(word, rx) && ValidRx(word, r) && Becomes(rx, r) && rx.Some? && Sized(word, rx, f)
    ensures Build(word, r.value, f).1 == Build(word, Clear(rx.value), f).1
  {
    if |f| >= HEADER_SIZE {
      var u, v := r.value.values, Clear(rx.value).values;
      if rx.value.fixed {
        StatusIgnoresSlots(word, true, u, v, 0, f[8..]);
      } else {
        StatusIgnoresCapacity(word, u, v, 0, f[8..]);
      }
    }
  }

  /** The same values, but for the number of empty slots behind them. */
  predicate SameValues(u: seq<Value>, v: seq<Value>) {
    var n := if |u| < |v| then |u| else |v|;
    && u[..n] == v[..n]
    && (forall j :: n <= j < |u| ==> u[j] == NoValue)
    && (forall j :: n <= j < |v| ==> v[j] == NoValue)
  }

  predicate SameEvent(e: Event, f: Event) {
    e == f || (e.NewMessage? && f.NewMessage? && e.id == f.id && SameValues(e.values, f.values))
  }

  lemma PaddedSame(vs: seq<Value>, a: nat, b: nat)
    ensures SameValues(vs + Empty(a), vs + Empty(b))
  {
  }

  lemma GrownSame(word: Word, m: Msg, c: Msg, f: seq<byte>)
    requires ValidRx(word, Some(m)) && ValidRx(word, Some(c)) && Cleared(m) && Cleared(c) && !m.fixed && !c.fixed
    requires HEADER_SIZE <= |f| < word.Modulus() && Build(word, m, f).1 == Build(word, c, f).1 == Ok
    ensures Build(word, m, f).0.id == Build(word, c, f).0.id
    ensures SameValues(Build(word, m, f).0.values, Build(word, c, f).0.values)
  {
    BuildIff(word, m, f);
    BuildIff(word, c, f);
    var vs := ParseArgs(word, f[8..]).value;
    var a, b := CapacityFor(|m.values|, |vs|), CapacityFor(|c.values|, |vs|);
    OverlayCleared(m, a, vs);
    OverlayCleared(c, b, vs);
    PaddedSame(vs, a - |vs|, b - |vs|);
  }

  /** In a cleared message a frame leads to the event it leads to by itself. */
  lemma ClearedEvent(word: Word, rx: Rx, r: Rx, f: seq<byte>)
    requires ValidRx(word, rx) && ValidRx(word, r) && Becomes(rx, r) && ClearedRx(r) && Sized(word, rx, f)
    ensures var e := HandleFrame(word, r, f).1;
            && SameEvent(e, FreshEvent(word, rx, f))
            && (!Grows(rx) ==> e == FreshEvent(word, rx, f))
  {
    if Grows(rx) {
      StatusOfFrame(word, rx, r, f);
      if Build(word, r.value, f).1 == Ok { GrownSame(word, r.value, Clear(rx.value), f); }
    } else if rx.Some? {
      assert r.value.values == Clear(rx.value).values;
    }
  }

  lemma ClearedAfter(word: Word, rx: Rx, fs: seq<seq<byte>>, i: nat)
    requires ValidRx(word, rx) && rx.Some? && 0 < i <= |fs|
    requires Sized(word, rx, fs[i - 1]) && FreshEvent(word, rx, fs[i - 1]).NewMessage?
    ensures ClearedRx(RxAfterFrames(word, rx, fs[..i]))
  {
    var q := RxAfterFrames(word, rx, fs[..i - 1]);
    assert fs[..i][..i - 1] == fs[..i - 1];
    RxBecomes(word, rx, fs[..i - 1]);
    StatusOfFrame(word, rx, q, fs[i - 1]);
  }

  /** Each callback depends on its own frame alone: always when the context makes a new message
      for each frame, and with a reception message as long as the frame just before it can be
      built. With a message that grows, the number of empty slots behind the values may differ. */
  lemma {:induction false} HistoryIndependent(word: Word, rx: Rx, fs: seq<seq<byte>>, i: nat)
    requires ValidRx(word, rx) && i < |fs| && Sized(word, rx, fs[i])
    requires i == 0 ==> ClearedRx(rx)
    requires rx.Some? && i > 0 ==> Sized(word, rx, fs[i - 1]) && FreshEvent(word, rx, fs[i - 1]).NewMessage?
    ensures var e := FrameEvents(word, rx, fs)[i];
            && SameEvent(e, FreshEvent(word, rx, fs[i]))
            && (!Grows(rx) ==> e == FreshEvent(word, rx, fs[i]))
  {
    var r := RxAfterFrames(word, rx, fs[..i]);
    EventAt(word, rx, fs, i);
    RxBecomes(word, rx, fs[..i]);
    if rx.Some? && i > 0 { ClearedAfter(word, rx, fs, i); }
    ClearedEvent(word, rx, r, fs[i]);
  }

  /** Over a whole run with a fixed message: a callback is that of its frame alone if and only if
      the frame cannot be built or covers all the slots its predecessors have left in use. */
  lemma StaleRunIff(word: Word, m: Msg, fs: seq<seq<byte>>, i: nat)
    requires ValidRx(word, Some(m)) && m.fixed && i < |fs| && |fs[i]| < word.Modulus()
    ensures var r := RxAfterFrames(word, Some(m), fs[..i]).value;
            && (FrameEvents(word, Some(m), fs)[i] == FreshEvent(word, Some(m), fs[i])
                <==> (Buildable(word, m, fs[i]) ==> Covers(word, r, fs[i])))
  {
    var r := RxAfterFrames(word, Some(m), fs[..i]).value;
    EventAt(word, Some(m), fs, i);
    RxBecomes(word, Some(m), fs[..i]);
    StaleSlotsIff(word, r, fs[i]);
    assert Clear(r) == Clear(m);
  }

  lemma {:induction false} RefusedLeaves(word: Word, m: Msg, id: nat, vs: seq<Value>)
    requires ValidRx(word, Some(m)) && m.fixed && Encodable(Sent([], id, vs))
    requires |EncodeMessage(id, vs)| < word.Modulus() && |KeptOf(vs)| > |m.values|
    ensures HandleFrame(word, Some(m), EncodeMessage(id, vs))
         == (Some(Msg(id, KeptOf(vs)[..|m.values|], true)), ErrorEvent(TooBig))
  {
    BuildEncoded(word, m, id, vs);
    ParseEncoded(word, vs);
    TooBigLeaves(word, m.values, 0, EncodeArgs(vs), KeptOf(vs));
    assert m.values[..0] + KeptOf(vs)[..|m.values|] == KeptOf(vs)[..|m.values|];
  }

  lemma EmptyMessageKeepsSlots(word: Word, m: Msg, id: nat)
    requires ValidRx(word, Some(m)) && id < Pow256(4)
    ensures EncodeArgs([]) == [] && HandleFrame(word, Some(m), EncodeMessage(id, [])).1 == NewMessage(id, m.values)
  {
    BuildEncoded(word, m, id, []);
  }

  lemma TwoFrames(word: Word, rx: Rx, f: seq<byte>, g: seq<byte>)
    requires ValidRx(word, rx)
    ensures var (rx1, e1) := HandleFrame(word, rx, f);
            FrameEvents(word, rx, [f, g]) == [e1, HandleFrame(word, rx1, g).1]
  {
    assert [f, g][..1] == [f] && [f][..0] == [];
  }

  /** With a fixed message the condition is needed: after a message with too many values has been
      refused, an empty one is announced with the values of the refused one. */
  lemma {:induction false} RefusedMessageShowsThrough(word: Word, m: Msg, id: nat, vs: seq<Value>, id': nat)
    requires ValidRx(word, Some(m)) && Cleared(m) && m.fixed && id' < Pow256(4)
    requires Encodable(Sent([], id, vs))
    requires |EncodeMessage(id, vs)| < word.Modulus() && |KeptOf(vs)| > |m.values|
    ensures EncodeArgs([]) == []
    ensures FrameEvents(word, Some(m), [EncodeMessage(id, vs), EncodeMessage(id', [])])
         == [ErrorEvent(TooBig), NewMessage(id', KeptOf(vs)[..|m.values|])]
  {
    RefusedLeaves(word, m, id, vs);
    EmptyMessageKeepsSlots(word, Msg(id, KeptOf(vs)[..|m.values|], true), id');
    TwoFrames(word, Some(m), EncodeMessage(id, vs), EncodeMessage(id', []));
  }
}
