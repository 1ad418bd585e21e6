/** What becomes of a frame that does not fit: exactly which part of it, if any, the receiver
    delivers, computed from the bytes sent alone. */
module DeframerRefusals {
  import opened Bits
  import opened Types
  import opened Frame
  import opened Deframer
  import opened DeframerRuns
  import opened DeframerRecovery
  import opened DeframerErrors

  /** What the receiver ends up judging when c is sent to a buffer of the given limit: c itself
      when it fits. Otherwise the byte after the limit is refused, and the next START among the
      bytes after that opens a frame of its own. */
  function Judged(limit: nat, c: seq<byte>): (j: Option<seq<byte>>)
    ensures j.Some? ==> |j.value| <= limit && |j.value| <= |c|
    decreases |c|
  {
    if |c| <= limit then Some(c) else Reopened(limit, c[limit + 1..])
  }

  function Reopened(limit: nat, c: seq<byte>): (j: Option<seq<byte>>)
    ensures j.Some? ==> |j.value| <= limit && |j.value| < |c|
    decreases |c|
  {
    if c == [] then None
    else if c[0] == START then Judged(limit, c[1..])
    else Reopened(limit, c[1..])
  }

  /** The effect of one more byte on what is judged. */
  function Extended(limit: nat, j: Option<seq<byte>>, b: byte): Option<seq<byte>> {
    match j
    case None => if b == START then Some([]) else None
    case Some(d) => if |d| < limit then Some(d + [b]) else None
  }

  lemma {:induction false} JudgedSnoc(limit: nat, c: seq<byte>, b: byte)
    ensures Judged(limit, c + [b]) == Extended(limit, Judged(limit, c), b)
    decreases |c|, 1
  {
    if |c| > limit {
      assert (c + [b])[limit + 1..] == c[limit + 1..] + [b];
      ReopenedSnoc(limit, c[limit + 1..], b);
    } else if |c| == limit {
      assert (c + [b])[limit + 1..] == [];
    }
  }

  lemma {:induction false} ReopenedSnoc(limit: nat, c: seq<byte>, b: byte)
    ensures Reopened(limit, c + [b]) == Extended(limit, Reopened(limit, c), b)
    decreases |c|, 0
  {
    if c == [] {
      assert [b][1..] == [];
    } else {
      assert (c + [b])[1..] == c[1..] + [b];
      if c[0] == START { JudgedSnoc(limit, c[1..], b); } else { ReopenedSnoc(limit, c[1..], b); }
    }
  }

  /** The receiver has j open; without one it is idle, or stuck behind a refused START. */
  predicate HasOpen(bd: Bound, m: Core, j: Option<seq<byte>>) {
    match j
    case Some(d) => m == Core(InFrame, d)
    case None => m == Idle || (m.state == InFrameEsc && |m.data| >= bd.limit)
  }

  lemma FeedOneMore(bd: Bound, m: Core, j: Option<seq<byte>>, b: byte)
    requires Valid(bd, m) && HasOpen(bd, m, j)
    ensures HasOpen(bd, After(bd, m, EscapeByte(b)), Extended(bd.limit, j, b))
  {
    if IsMagic(b) { RunTwo(bd, m, ESC, b); } else { RunOne(bd, m, b); }
  }

  lemma {:induction false} FeedJudged(bd: Bound, m: Core, c0: seq<byte>, c: seq<byte>)
    requires Valid(bd, m) && HasOpen(bd, m, Judged(bd.limit, c0))
    ensures HasOpen(bd, After(bd, m, Escape(c)), Judged(bd.limit, c0 + c))
    decreases |c|
  {
    if c == [] {
      assert c0 + c == c0;
    } else {
      var n := |c| - 1;
      FeedJudged(bd, m, c0, c[..n]);
      FeedOneMore(bd, After(bd, m, Escape(c[..n])), Judged(bd.limit, c0 + c[..n]), c[n]);
      JudgedSnoc(bd.limit, c0 + c[..n], c[n]);
      RunConcat(bd, m, Escape(c[..n]), EscapeByte(c[n]));
      assert c0 + c[..n] + [c[n]] == c0 + c;
    }
  }

  /** The content already collected when the payload of a frame arrives: none, unless a pending
      ESC has turned the frame's START into content. */
  function Ahead(m: Core): seq<byte> {
    if m.state == InFrameEsc then m.data + [START] else []
  }

  lemma FeedOpening(bd: Bound, m: Core)
    requires Valid(bd, m)
    ensures HasOpen(bd, After(bd, m, [START]), Judged(bd.limit, Ahead(m)))
  {
    RunOne(bd, m, START);
    if m.state == InFrameEsc {
      JudgedSnoc(bd.limit, m.data, START);
    }
  }

  /** What the receiver holds when the END of a frame arrives. */
  lemma {:induction false} FeedToEnd(bd: Bound, m: Core, p: seq<byte>) returns (e: Core)
    requires Valid(bd, m)
    ensures Valid(bd, e) && HasOpen(bd, e, Judged(bd.limit, Ahead(m) + Content(p)))
    ensures Outs(bd, m, Wire(p))[|Wire(p)| - 1] == Step(bd, e, END).1
  {
    var m1, body := After(bd, m, [START]), Escape(Content(p));
    FeedOpening(bd, m);
    FeedJudged(bd, m1, Ahead(m), Content(p));
    e := After(bd, m1, body);
    RunConcat(bd, m, [START], body);
    RunConcat(bd, m, [START] + body, [END]);
    RunOne(bd, e, END);
  }

  lemma VerdictOf(bd: Bound, e: Core, j: Option<seq<byte>>, f: seq<byte>)
    requires Valid(bd, e) && HasOpen(bd, e, j)
    ensures Step(bd, e, END).1 == Delivered(f) <==> j == Some(Content(f))
    ensures Step(bd, e, END).1.Delivered? <==> j.Some? && j.value != [] && Checksum(j.value) == 0
  {
    if j.Some? {
      var c := j.value;
      if c != [] { ChecksumZeroIff(c); }
      if c == Content(f) { assert c[..|c| - 1] == f; }
    }
  }

  /** From every state, fitting or not, the END of the frame for p delivers f if and only if what
      is judged of the bytes sent is f and its checksum. */
  lemma WireDeliversIff(bd: Bound, m: Core, p: seq<byte>, f: seq<byte>)
    requires Valid(bd, m)
    ensures Outs(bd, m, Wire(p))[|Wire(p)| - 1] == Delivered(f)
       <==> Judged(bd.limit, Ahead(m) + Content(p)) == Some(Content(f))
  {
    var e := FeedToEnd(bd, m, p);
    VerdictOf(bd, e, Judged(bd.limit, Ahead(m) + Content(p)), f);
  }

  /** And the frame for p, fitting or not, delivers nothing at all if and only if nothing is
      judged, or something empty, or something that does not XOR to zero. */
  lemma WireDeliversNothingIff(bd: Bound, m: Core, p: seq<byte>)
    requires Valid(bd, m)
    ensures var j := Judged(bd.limit, Ahead(m) + Content(p));
            NoFrame(Outs(bd, m, Wire(p))) <==> j.None? || j.value == [] || Checksum(j.value) != 0
  {
    var e := FeedToEnd(bd, m, p);
    VerdictOf(bd, e, Judged(bd.limit, Ahead(m) + Content(p)), []);
    FirstFrameIff(bd, m, p);
    var o := Outs(bd, m, Wire(p));
    assert forall i :: 0 <= i < |o| - 1 ==> o[..|o| - 1][i] == o[i];
  }

  lemma {:induction false} NoStartNothing(limit: nat, c: seq<byte>)
    requires START !in c
    ensures Reopened(limit, c) == None
  {
    if c != [] { NoStartNothing(limit, c[1..]); }
  }

  /** In particular a payload that does not fit is dropped whole when no START comes after the
      first byte refused. */
  lemma DroppedWhole(bd: Bound, m: Core, p: seq<byte>)
    requires Valid(bd, m) && m.state != InFrameEsc
    requires |p| + 1 > bd.limit && START !in Content(p)[bd.limit + 1..]
    ensures NoFrame(Outs(bd, m, Wire(p)))
  {
    NoStartNothing(bd.limit, Content(p)[bd.limit + 1..]);
    assert Ahead(m) + Content(p) == Content(p);
    WireDeliversNothingIff(bd, m, p);
  }

  // ---- What is reported -------------------------------------------------------------------

  /** A body whose content fits is collected silently. */
  lemma {:induction false} Filled(bd: Bound, w: seq<byte>)
    requires Unescape(w).Some? && |Unescape(w).value| <= bd.limit
    ensures var s := [START] + w;
            After(bd, Idle, s) == Core(InFrame, Unescape(w).value) && AllQuiet(Outs(bd, Idle, s))
  {
    FeedBody(bd, Core(InFrame, []), w);
    assert [] + Unescape(w).value == Unescape(w).value;
    RunOne(bd, Idle, START);
    RunConcat(bd, Idle, [START], w);
  }

  lemma {:induction false} RefusedByte(bd: Bound, c: seq<byte>, b: byte)
    requires |c| == bd.limit
    ensures var o := Outs(bd, Core(InFrame, c), EscapeByte(b));
            o[|o| - 1] == Error(bd.full) && AllQuiet(o[..|o| - 1])
  {
    if IsMagic(b) { RunTwo(bd, Core(InFrame, c), ESC, b); } else { RunOne(bd, Core(InFrame, c), b); }
  }

  lemma QuietThen(o: seq<Outcome>, q: seq<Outcome>)
    requires AllQuiet(o) && q != [] && AllQuiet(q[..|q| - 1])
    ensures AllQuiet((o + q)[..|o + q| - 1]) && (o + q)[|o + q| - 1] == q[|q| - 1]
  {
  }

  /** After content that fills the buffer, the next content byte is refused with the error of a
      full buffer, and that is the first thing reported. */
  lemma {:induction false} LimitReported(bd: Bound, c: seq<byte>, b: byte)
    requires |c| == bd.limit
    ensures var o := Outs(bd, Idle, [START] + Escape(c) + EscapeByte(b));
            o[|o| - 1] == Error(bd.full) && AllQuiet(o[..|o| - 1])
  {
    UnescapeEscape(c);
    Filled(bd, Escape(c));
    RefusedByte(bd, c, b);
    RunConcat(bd, Idle, [START] + Escape(c), EscapeByte(b));
    QuietThen(Outs(bd, Idle, [START] + Escape(c)), Outs(bd, Core(InFrame, c), EscapeByte(b)));
  }

  lemma {:induction false} WireStartsWith(p: seq<byte>, k: nat)
    requires k <= |p|
    ensures var s := [START] + Escape(Content(p)[..k]) + EscapeByte(Content(p)[k]);
            |s| < |Wire(p)| && s == Wire(p)[..|s|]
  {
    WireSplit(p, k);
  }

  lemma SamePrefix(o: seq<Outcome>, q: seq<Outcome>, k: nat)
    requires k + 1 == |q| <= |o| && o[..k + 1] == q
    ensures o[k] == q[k] && o[..k] == q[..k]
  {
    assert o[k] == o[..k + 1][k];
  }

  /** A payload that does not fit is reported at the first content byte beyond the limit, and
      nothing is reported before. */
  lemma {:induction false} OversizedReported(bd: Bound, p: seq<byte>) returns (k: nat)
    requires |p| + 1 > bd.limit
    ensures k == |Escape(Content(p)[..bd.limit])| + |EscapeByte(Content(p)[bd.limit])| < |Wire(p)| - 1
    ensures Outs(bd, Idle, Wire(p))[k] == Error(bd.full) && AllQuiet(Outs(bd, Idle, Wire(p))[..k])
  {
    var c := Content(p);
    var s := [START] + Escape(c[..bd.limit]) + EscapeByte(c[bd.limit]);
    k := |s| - 1;
    LimitReported(bd, c[..bd.limit], c[bd.limit]);
    WireStartsWith(p, bd.limit);
    OutsPrefix(bd, Idle, Wire(p), k + 1);
    SamePrefix(Outs(bd, Idle, Wire(p)), Outs(bd, Idle, s), k);
  }

  /** Once the buffer is full, an escaped byte is refused; if it is a START, its ESC stays pending
      and costs the next frame. */
  lemma {:induction false} RefusedStartCostsNextFrame(bd: Bound, w: seq<byte>, b: byte, p: seq<byte>)
    requires Unescape(w).Some? && |Unescape(w).value| == bd.limit
    ensures var s := [START] + w + [ESC, b] + Wire(p);
            && Outs(bd, Idle, s)[|w| + 2] == Error(bd.full)
            && (Outs(bd, Idle, s)[|s| - 1] == Delivered(p) <==> b != START && |p| + 1 <= bd.limit)
  {
    var pre := [START] + w + [ESC, b];
    Filled(bd, w);
    RunTwo(bd, Core(InFrame, Unescape(w).value), ESC, b);
    RunConcat(bd, Idle, [START] + w, [ESC, b]);
    RunConcat(bd, Idle, pre, Wire(p));
    FirstFrameIff(bd, After(bd, Idle, pre), p);
  }

  // ---- An example -------------------------------------------------------------------------

  /** The payload 1, 0x11, START: its checksum is 0. */
  lemma ExampleContent()
    ensures Content([1, 0x11, START]) == [1, 0x11, START, 0]
  {
    var a: seq<byte>, p: seq<byte> := [1, 0x11], [1, 0x11, START];
    assert a[..1] == [1] && [1][..0] == [] && p[..2] == a;
    assert Xor(1, 0x11) == 0x10;
    XorZero(0x10, 0x10);
    assert Checksum(p) == 0;
  }

  lemma ExampleJudged()
    ensures Judged(1, [1, 0x11, START, 0]) == Some([0])
  {
    var c: seq<byte> := [1, 0x11, START, 0];
    var d: seq<byte> := [START, 0];
    assert c[2..] == d && d[1..] == [0];
    assert Reopened(1, d) == Judged(1, d[1..]);
  }

  /** So a payload that does not fit can make the receiver deliver a frame nobody sent: with room
      for one byte, the payload 1, 0x11, START delivers the empty frame. */
  lemma RefusedFrameCanDeliverItsTail()
    ensures var bd, p := Bound(1, TooBig), [1, 0x11, START];
            |p| + 1 > bd.limit && Outs(bd, Idle, Wire(p))[|Wire(p)| - 1] == Delivered([])
  {
    ExampleContent();
    ExampleJudged();
    assert Content([]) == [0];
    assert [] + Content([1, 0x11, START]) == Content([1, 0x11, START]);
    WireDeliversIff(Bound(1, TooBig), Idle, [1, 0x11, START], []);
  }
}
