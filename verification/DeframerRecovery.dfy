/** Self-stabilisation: one complete frame brings the receiver back in step from any state. */
module DeframerRecovery {
  import opened Bits
  import opened Frame
  import opened Deframer
  import opened DeframerRuns

  /** The states the receiver can be in at a boundary between escape units: an ESC is pending
      only if an escaped START was refused by a full buffer. */
  predicate AtBoundary(bd: Bound, m: Core) {
    Valid(bd, m) && (m.state == InFrameEsc ==> |m.data| >= bd.limit)
  }

  /** Where the content held at m' can come from after n more content bytes: from the frame open
      at m, or from a frame opened by an escaped START among those bytes. */
  predicate Origin(m: Core, n: nat, m': Core) {
    m'.state == InFrame ==> (m.state == InFrame && |m'.data| == |m.data| + n) || |m'.data| < n
  }

  lemma FeedEscapedByte(bd: Bound, m: Core, b: byte)
    requires AtBoundary(bd, m)
    ensures AtBoundary(bd, After(bd, m, EscapeByte(b)))
    ensures Origin(m, 1, After(bd, m, EscapeByte(b)))
    ensures NoFrame(Outs(bd, m, EscapeByte(b)))
  {
    if IsMagic(b) { RunTwo(bd, m, ESC, b); } else { RunOne(bd, m, b); }
  }

  lemma {:induction false} FeedEscaped(bd: Bound, m: Core, c: seq<byte>)
    requires AtBoundary(bd, m)
    ensures AtBoundary(bd, After(bd, m, Escape(c)))
    ensures Origin(m, |c|, After(bd, m, Escape(c)))
    ensures NoFrame(Outs(bd, m, Escape(c)))
  {
    if c != [] {
      var n := |c| - 1;
      FeedEscaped(bd, m, c[..n]);
      FeedEscapedByte(bd, After(bd, m, Escape(c[..n])), c[n]);
      RunConcat(bd, m, Escape(c[..n]), EscapeByte(c[n]));
    }
  }

  /** The state once START has been seen. */
  lemma FeedStart(bd: Bound, m: Core)
    requires Valid(bd, m)
    ensures var m' := After(bd, m, [START]);
            && AtBoundary(bd, m')
            && (m.state != InFrameEsc ==> m' == Core(InFrame, []))
            && (m.state == InFrameEsc && m'.state == InFrame ==> |m'.data| >= 1)
    ensures NoFrame(Outs(bd, m, [START]))
  {
    RunOne(bd, m, START);
  }

  lemma {:induction false} FeedFrame(bd: Bound, m: Core, p: seq<byte>) returns (e: Core)
    requires Valid(bd, m)
    ensures AtBoundary(bd, e)
    ensures m.state == InFrameEsc && e.state == InFrame ==> |e.data| != |p| + 1
    ensures e.state == InFrame ==> |e.data| <= bd.limit
    ensures After(bd, m, Wire(p)) == Step(bd, e, END).0
    ensures Outs(bd, m, Wire(p))[|Wire(p)| - 1] == Step(bd, e, END).1
    ensures NoFrame(Outs(bd, m, Wire(p))[..|Wire(p)| - 1])
  {
    var m1, body := After(bd, m, [START]), Escape(Content(p));
    FeedStart(bd, m);
    FeedEscaped(bd, m1, Content(p));
    e := After(bd, m1, body);
    RunConcat(bd, m, [START], body);
    RunConcat(bd, m, [START] + body, [END]);
    RunOne(bd, e, END);
    var o := Outs(bd, m, [START] + body);
    assert Outs(bd, m, Wire(p))[..|Wire(p)| - 1] == o;
  }

  /** From every valid state, with any payload, even one that does not fit, the receiver is idle
      after the frame. */
  lemma SelfStabilises(bd: Bound, m: Core, p: seq<byte>)
    requires Valid(bd, m)
    ensures After(bd, m, Wire(p)) == Idle
  {
    var e := FeedFrame(bd, m, p);
  }

  /** The frame is delivered at its END exactly when the payload fits and no ESC was pending;
      and no frame at all is delivered before that END. */
  lemma {:induction false} FirstFrameIff(bd: Bound, m: Core, p: seq<byte>)
    requires Valid(bd, m)
    ensures var o := Outs(bd, m, Wire(p));
            && (o[|o| - 1] == Delivered(p) <==> m.state != InFrameEsc && |p| + 1 <= bd.limit)
            && NoFrame(o[..|o| - 1])
  {
    var e := FeedFrame(bd, m, p);
    if m.state != InFrameEsc && |p| + 1 <= bd.limit {
      FeedWire(bd, m, p);
    }
  }

  ghost predicate GapsFree(items: seq<Item>) {
    forall i :: 0 <= i < |items| ==> START !in items[i].gap
  }

  lemma {:induction false} StreamLeavesIdle(bd: Bound, items: seq<Item>)
    requires GapsFree(items)
    ensures After(bd, Idle, Stream(items)) == Idle
  {
    if items != [] {
      var it := items[|items| - 1];
      StreamLeavesIdle(bd, items[..|items| - 1]);
      RunConcat(bd, Idle, Stream(items[..|items| - 1]), it.gap + Wire(it.payload));
      RunConcat(bd, Idle, it.gap, Wire(it.payload));
      FeedGap(bd, it.gap);
      SelfStabilises(bd, Idle, it.payload);
    }
  }

  /** After one frame, whatever it was and wherever the receiver stood, each later frame is
      delivered at its END if and only if it fits, even among frames that do not. */
  lemma {:induction false} InStepAfterOneFrame(bd: Bound, m: Core, q: seq<byte>, items: seq<Item>, it: Item, s: seq<byte>)
    requires Valid(bd, m) && GapsFree(items) && START !in it.gap
    requires s == Wire(q) + Stream(items) + it.gap + Wire(it.payload)
    ensures Outs(bd, m, s)[|s| - 1] == Delivered(it.payload) <==> |it.payload| + 1 <= bd.limit
  {
    var a := Wire(q) + Stream(items);
    SelfStabilises(bd, m, q);
    StreamLeavesIdle(bd, items);
    RunConcat(bd, m, Wire(q), Stream(items));
    FeedGap(bd, it.gap);
    RunConcat(bd, m, a, it.gap);
    FirstFrameIff(bd, Idle, it.payload);
    RunConcat(bd, m, a + it.gap, Wire(it.payload));
  }
}
