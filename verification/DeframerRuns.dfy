/** What every run of the receiving state machine guarantees. */
module DeframerRuns {
  import opened Bits
  import opened Types
  import opened Frame
  import opened Deframer

  // ---- One segment: START, a body, END --------------------------------------------------

  lemma RunTwo(bd: Bound, m: Core, b: byte, c: byte)
    requires Valid(bd, m)
    ensures var m1 := Step(bd, m, b).0;
            && After(bd, m, [b, c]) == Step(bd, m1, c).0
            && Outs(bd, m, [b, c]) == [Step(bd, m, b).1, Step(bd, m1, c).1]
  {
    assert [b, c] == [b] + [c];
    RunConcat(bd, m, [b], [c]);
    RunOne(bd, m, b);
    RunOne(bd, Step(bd, m, b).0, c);
  }

  /** The first byte of a body, or its first two when it starts with an ESC. */
  function UnitLength(w: seq<byte>): nat {
    if w != [] && w[0] == ESC then 2 else 1
  }

  lemma UnescapeUnit(w: seq<byte>)
    requires w != [] && Unescape(w).Some?
    ensures var k := UnitLength(w);
            && k <= |w| && Unescape(w[k..]).Some?
            && Unescape(w).value == [w[k - 1]] + Unescape(w[k..]).value
            && (k == 1 ==> !IsMagic(w[0]))
  {
  }

  /** Within a frame that has room, a plain byte or an escaped one is stored. */
  lemma FeedUnit(bd: Bound, m: Core, u: seq<byte>, b: byte)
    requires Valid(bd, m) && m.state == InFrame && |m.data| < bd.limit
    requires (u == [b] && !IsMagic(b)) || u == [ESC, b]
    ensures After(bd, m, u) == Core(InFrame, m.data + [b])
    ensures AllQuiet(Outs(bd, m, u))
  {
    if |u| == 1 { RunOne(bd, m, b); } else { RunTwo(bd, m, ESC, b); }
  }

  /** A well-formed body that fits is collected silently. */
  lemma {:induction false} FeedBody(bd: Bound, m: Core, w: seq<byte>)
    requires Valid(bd, m) && m.state == InFrame
    requires Unescape(w).Some? && |m.data| + |Unescape(w).value| <= bd.limit
    ensures After(bd, m, w) == Core(InFrame, m.data + Unescape(w).value)
    ensures AllQuiet(Outs(bd, m, w))
    decreases |w|
  {
    if w == [] {
      assert m.data + [] == m.data;
    } else {
      var k := UnitLength(w);
      UnescapeUnit(w);
      FeedUnit(bd, m, w[..k], w[k - 1]);
      var m', rest := Core(InFrame, m.data + [w[k - 1]]), Unescape(w[k..]).value;
      FeedBody(bd, m', w[k..]);
      assert m.data + ([w[k - 1]] + rest) == m'.data + rest;
      assert w == w[..k] + w[k..];
      RunConcat(bd, m, w[..k], w[k..]);
    }
  }

  /** A segment decides by its content alone, whatever came before it, unless the byte before
      its START was an ESC inside a frame. */
  lemma {:induction false} FeedSegment(bd: Bound, m: Core, w: seq<byte>)
    requires Valid(bd, m) && m.state != InFrameEsc
    requires Unescape(w).Some? && |Unescape(w).value| <= bd.limit
    ensures var s := [START] + w + [END];
            && After(bd, m, s) == Idle
            && Outs(bd, m, s)[|s| - 1] == Verdict(Unescape(w).value)
            && QuietInside(Outs(bd, m, s))
            && Outs(bd, m, s)[0] == if m.state == WaitHeader then Quiet else Error(BadMessage)
  {
    RunConcat(bd, m, [START] + w, [END]);
    RunConcat(bd, m, [START], w);
    RunOne(bd, m, START);
    var open := Core(InFrame, []);
    FeedBody(bd, open, w);
    RunOne(bd, Core(InFrame, Unescape(w).value), END);
    assert [] + Unescape(w).value == Unescape(w).value;
  }

  /** A payload that fits is delivered from every state but InFrameEsc, and from WaitHeader
      nothing else happens. */
  lemma FeedWire(bd: Bound, m: Core, p: seq<byte>)
    requires Valid(bd, m) && m.state != InFrameEsc && |p| + 1 <= bd.limit
    ensures After(bd, m, Wire(p)) == Idle
    ensures Outs(bd, m, Wire(p))[|Wire(p)| - 1] == Delivered(p)
    ensures QuietInside(Outs(bd, m, Wire(p)))
    ensures m.state == WaitHeader ==> Outs(bd, m, Wire(p))[0] == Quiet
  {
    UnescapeEscape(Content(p));
    FeedSegment(bd, m, Escape(Content(p)));
    assert Content(p)[..|p|] == p;
  }

  // ---- Recovery of frame streams --------------------------------------------------------

  /** A frame with the bytes that precede it on the line. */
  datatype Item = Item(gap: seq<byte>, payload: seq<byte>)

  function Stream(items: seq<Item>): seq<byte> {
    if items == [] then []
    else var it := items[|items| - 1];
         Stream(items[..|items| - 1]) + (it.gap + Wire(it.payload))
  }

  function Payloads(items: seq<Item>): seq<seq<byte>> {
    if items == [] then [] else Payloads(items[..|items| - 1]) + [items[|items| - 1].payload]
  }

  ghost predicate Clean(bd: Bound, items: seq<Item>) {
    forall i :: 0 <= i < |items| ==> START !in items[i].gap && |items[i].payload| + 1 <= bd.limit
  }

  lemma {:induction false} FeedGap(bd: Bound, g: seq<byte>)
    requires START !in g
    ensures After(bd, Idle, g) == Idle && AllQuiet(Outs(bd, Idle, g))
  {
    if g != [] { FeedGap(bd, g[..|g| - 1]); }
  }

  /** Feeding s to an idle decoder delivers exactly ps, with no error, and leaves it idle. */
  ghost predicate Recovers(bd: Bound, s: seq<byte>, ps: seq<seq<byte>>) {
    && After(bd, Idle, s) == Idle
    && Frames(Outs(bd, Idle, s)) == ps
    && NoError(Outs(bd, Idle, s))
  }

  lemma RecoversConcat(bd: Bound, s: seq<byte>, ps: seq<seq<byte>>, t: seq<byte>, qs: seq<seq<byte>>)
    requires Recovers(bd, s, ps) && Recovers(bd, t, qs)
    ensures Recovers(bd, s + t, ps + qs)
  {
    RunConcat(bd, Idle, s, t);
    FramesConcat(Outs(bd, Idle, s), Outs(bd, Idle, t));
  }

  lemma RecoverGap(bd: Bound, g: seq<byte>)
    requires START !in g
    ensures Recovers(bd, g, [])
  {
    FeedGap(bd, g);
    NoFramesIn(Outs(bd, Idle, g));
  }

  lemma RecoverFrame(bd: Bound, p: seq<byte>)
    requires |p| + 1 <= bd.limit
    ensures Recovers(bd, Wire(p), [p])
  {
    FeedWire(bd, Idle, p);
    var o := Outs(bd, Idle, Wire(p));
    var n := |o| - 1;
    assert o == o[..n] + [Delivered(p)];
    NoFramesIn(o[..n]);
  }

  lemma RecoverItem(bd: Bound, s: seq<byte>, ps: seq<seq<byte>>, it: Item)
    requires Recovers(bd, s, ps) && START !in it.gap && |it.payload| + 1 <= bd.limit
    ensures Recovers(bd, s + (it.gap + Wire(it.payload)), ps + [it.payload])
  {
    RecoverGap(bd, it.gap);
    RecoverFrame(bd, it.payload);
    RecoversConcat(bd, it.gap, [], Wire(it.payload), [it.payload]);
    assert [] + [it.payload] == [it.payload];
    RecoversConcat(bd, s, ps, it.gap + Wire(it.payload), [it.payload]);
  }

  /** Fitting frames with any START-free bytes between them are recovered exactly: each once,
      in order, unchanged, and without any error. */
  lemma {:induction false} StreamRecovered(bd: Bound, items: seq<Item>)
    requires Clean(bd, items)
    ensures Recovers(bd, Stream(items), Payloads(items))
  {
    if items != [] {
      var n := |items| - 1;
      StreamRecovered(bd, items[..n]);
      RecoverItem(bd, Stream(items[..n]), Payloads(items[..n]), items[n]);
    }
  }
}
