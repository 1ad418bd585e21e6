/** What a delivered frame says about the bytes that were received, over any stream at all. */
module DeframerSoundness {
  import opened Bits
  import opened Types
  import opened Frame
  import opened Deframer
  import opened DeframerRuns

  /** The stream s has a frame open since its START at position a, with content c so far. */
  ghost predicate Opens(bd: Bound, s: seq<byte>, a: nat, c: seq<byte>) {
    && a < |s|
    && s[a] == START
    && After(bd, Idle, s[..a]).state != InFrameEsc
    && Unescape(s[a + 1..]) == Some(c)
  }

  /** s ends in an ESC and the k bytes START after it. */
  ghost predicate EndsInEscStarts(s: seq<byte>, k: nat) {
    && k + 1 <= |s|
    && s[|s| - k - 1] == ESC
    && forall i :: |s| - k <= i < |s| ==> s[i] == START
  }

  /** The history behind a state: what is in the buffer is exactly the unescaped bytes since a
      START. With an ESC pending, k bytes START have been refused behind that ESC; any at all only
      when the buffer is full. */
  ghost predicate History(bd: Bound, s: seq<byte>, a: nat, k: nat) {
    var m := After(bd, Idle, s);
    match m.state
    case WaitHeader => true
    case InFrame => Opens(bd, s, a, m.data)
    case InFrameEsc =>
      && EndsInEscStarts(s, k)
      && Opens(bd, s[..|s| - k - 1], a, m.data)
      && (k > 0 ==> |m.data| == bd.limit)
  }

  lemma OpenAt(bd: Bound, s: seq<byte>)
    requires s != [] && s[|s| - 1] == START
    requires After(bd, Idle, s[..|s| - 1]).state != InFrameEsc
    ensures Opens(bd, s, |s| - 1, [])
  {
    assert s[|s|..] == [];
  }

  /** The open frame grows by one unit. */
  lemma OpenGrows(bd: Bound, s: seq<byte>, a: nat, c: seq<byte>, u: seq<byte>, b: byte)
    requires Opens(bd, s, a, c)
    requires (u == [b] && !IsMagic(b)) || u == [ESC, b]
    ensures Opens(bd, s + u, a, c + [b])
  {
    assert (s + u)[a + 1..] == s[a + 1..] + u;
    assert (s + u)[..a] == s[..a];
    UnescapeConcat(s[a + 1..], u);
    assert u[|u|..] == [] && [b] + [] == [b];
  }

  lemma HistoryStep(bd: Bound, t: seq<byte>, b: byte, a: nat, k: nat) returns (a': nat, k': nat)
    requires History(bd, t, a, k)
    ensures History(bd, t + [b], a', k')
  {
    var m, s := After(bd, Idle, t), t + [b];
    assert s[..|t|] == t;
    a', k' := a, 0;
    if b == START && m.state != InFrameEsc {
      OpenAt(bd, s);
      a' := |t|;
    } else if m.state == InFrame && !IsMagic(b) {
      OpenGrows(bd, t, a, m.data, [b], b);
    } else if m.state == InFrameEsc && |m.data| < bd.limit {
      OpenGrows(bd, t[..|t| - 1], a, m.data, [ESC, b], b);
      assert t[..|t| - 1] + [ESC, b] == s;
    } else if m.state == InFrameEsc {
      k' := k + 1;
      assert s[..|s| - k' - 1] == t[..|t| - k - 1];
    }
  }

  lemma {:induction false} HistoryHolds(bd: Bound, s: seq<byte>) returns (a: nat, k: nat)
    ensures History(bd, s, a, k)
  {
    if s == [] {
      a, k := 0, 0;
    } else {
      var n := |s| - 1;
      a, k := HistoryHolds(bd, s[..n]);
      a, k := HistoryStep(bd, s[..n], s[n], a, k);
      assert s[..n] + [s[n]] == s;
    }
  }

  /** A stream that ends in a complete segment opened at a, whose content is f and its checksum. */
  ghost predicate EndsInFrame(bd: Bound, s: seq<byte>, a: nat, f: seq<byte>) {
    s != [] && s[|s| - 1] == END && Opens(bd, s[..|s| - 1], a, Content(f))
  }

  lemma VerdictIff(c: seq<byte>, f: seq<byte>)
    ensures Verdict(c) == Delivered(f) <==> c == Content(f)
  {
    if c != [] { ChecksumZeroIff(c); }
    if c == Content(f) { assert c[..|c| - 1] == f; }
  }

  lemma {:induction false} DeliverySound(bd: Bound, s: seq<byte>, f: seq<byte>) returns (a: nat)
    requires s != [] && Outs(bd, Idle, s)[|s| - 1] == Delivered(f)
    ensures EndsInFrame(bd, s, a, f) && |f| + 1 <= bd.limit
  {
    var t := s[..|s| - 1];
    var k;
    a, k := HistoryHolds(bd, t);
    VerdictIff(After(bd, Idle, t).data, f);
  }

  lemma SplitSegment(s: seq<byte>, a: nat)
    requires a < |s| - 1 && s[a] == START && s[|s| - 1] == END
    ensures s == s[..a] + ([START] + s[a + 1..|s| - 1] + [END])
    ensures s[..|s| - 1][a + 1..] == s[a + 1..|s| - 1] && s[..|s| - 1][..a] == s[..a]
  {
  }

  lemma DeliveryComplete(bd: Bound, s: seq<byte>, a: nat, f: seq<byte>)
    requires EndsInFrame(bd, s, a, f) && |f| + 1 <= bd.limit
    ensures Outs(bd, Idle, s)[|s| - 1] == Delivered(f)
  {
    var pre, w := s[..a], s[a + 1..|s| - 1];
    SplitSegment(s, a);
    RunConcat(bd, Idle, pre, [START] + w + [END]);
    FeedSegment(bd, After(bd, Idle, pre), w);
    VerdictIff(Content(f), f);
  }

  /** Over any stream, the last byte delivers f if and only if it is the END of a segment whose
      START was read outside an escape and whose body unescapes to f and the XOR of f, and f
      fits. */
  lemma {:induction false} DeliveredIff(bd: Bound, s: seq<byte>, f: seq<byte>)
    requires s != []
    ensures Outs(bd, Idle, s)[|s| - 1] == Delivered(f)
       <==> (exists a: nat :: EndsInFrame(bd, s, a, f)) && |f| + 1 <= bd.limit
  {
    if Outs(bd, Idle, s)[|s| - 1] == Delivered(f) {
      var a := DeliverySound(bd, s, f);
    } else if (exists a: nat :: EndsInFrame(bd, s, a, f)) && |f| + 1 <= bd.limit {
      var a: nat :| EndsInFrame(bd, s, a, f);
      DeliveryComplete(bd, s, a, f);
    }
  }

  // ---- Conservation ---------------------------------------------------------------------

  /** Wire bytes accounted for by the delivered frames: START, content and END of each. */
  function Accounted(o: seq<Outcome>): nat {
    if o == [] then 0
    else Accounted(o[..|o| - 1]) + (match o[|o| - 1]
                                    case Delivered(f) => |f| + 3
                                    case _ => 0)
  }

  function Pending(m: Core): nat {
    if m.state == WaitHeader then 0 else 1 + |m.data|
  }

  /** Delivered frames and the frame in progress never account for more bytes than were fed. */
  lemma {:induction false} Conservation(bd: Bound, m: Core, s: seq<byte>)
    requires Valid(bd, m)
    ensures Accounted(Outs(bd, m, s)) + Pending(After(bd, m, s)) <= |s| + Pending(m)
  {
    if s != [] {
      var n := |s| - 1;
      Conservation(bd, m, s[..n]);
      assert Outs(bd, m, s)[..n] == Outs(bd, m, s[..n]);
    }
  }

  // ---- Disjointness ---------------------------------------------------------------------

  /** Within a well-formed body that fits, the receiver stays inside the frame. */
  lemma {:induction false} BodyKeepsFrame(bd: Bound, m: Core, w: seq<byte>, k: nat)
    requires Valid(bd, m) && m.state == InFrame && k <= |w|
    requires Unescape(w).Some? && |m.data| + |Unescape(w).value| <= bd.limit
    ensures After(bd, m, w[..k]).state != WaitHeader
    decreases |w|
  {
    var u := UnitLength(w);
    if w != [] {
      UnescapeUnit(w);
      FeedUnit(bd, m, w[..u], w[u - 1]);
      if u <= k {
        BodyKeepsFrame(bd, Core(InFrame, m.data + [w[u - 1]]), w[u..], k - u);
        assert w[..k] == w[..u] + w[u..][..k - u];
        RunConcat(bd, m, w[..u], w[u..][..k - u]);
      } else if k == 1 {
        assert w[..1] == [ESC];
        RunOne(bd, m, ESC);
      }
    }
  }

  lemma SplitPrefix(t: seq<byte>, a: nat, k: nat)
    requires a < k <= |t| && t[a] == START
    ensures t[..k] == t[..a] + ([START] + t[a + 1..][..k - a - 1])
  {
  }

  /** From its START on, an open frame keeps the receiver away from WaitHeader. */
  lemma InsideOpenFrame(bd: Bound, t: seq<byte>, a: nat, c: seq<byte>, k: nat)
    requires Opens(bd, t, a, c) && |c| <= bd.limit && a < k <= |t|
    ensures After(bd, Idle, t[..k]).state != WaitHeader
  {
    var m, v := After(bd, Idle, t[..a]), t[a + 1..][..k - a - 1];
    RunOne(bd, m, START);
    BodyKeepsFrame(bd, Core(InFrame, []), t[a + 1..], k - a - 1);
    RunConcat(bd, m, [START], v);
    RunConcat(bd, Idle, t[..a], [START] + v);
    SplitPrefix(t, a, k);
  }

  lemma OutcomeAt(bd: Bound, s: seq<byte>, i: nat)
    requires i < |s|
    ensures Outs(bd, Idle, s)[i] == Step(bd, After(bd, Idle, s[..i]), s[i]).1
    ensures After(bd, Idle, s[..i + 1]) == Step(bd, After(bd, Idle, s[..i]), s[i]).0
  {
    OutsPrefix(bd, Idle, s, i + 1);
    assert Outs(bd, Idle, s)[i] == Outs(bd, Idle, s)[..i + 1][i];
    assert s[..i + 1][..i] == s[..i];
  }

  lemma {:induction false} AfterDelivery(bd: Bound, s: seq<byte>, i: nat, f: seq<byte>)
    requires i < |s| && Outs(bd, Idle, s)[i] == Delivered(f)
    ensures After(bd, Idle, s[..i + 1]) == Idle && |f| + 1 <= bd.limit
  {
    OutcomeAt(bd, s, i);
    VerdictIff(After(bd, Idle, s[..i]).data, f);
  }

  lemma OpensAfterIdle(bd: Bound, s: seq<byte>, j: nat, a: nat, c: seq<byte>, k: nat)
    requires k <= j <= |s| && Opens(bd, s[..j], a, c) && |c| <= bd.limit
    requires After(bd, Idle, s[..k]) == Idle
    ensures k <= a
  {
    if a < k {
      assert s[..j][..k] == s[..k];
      InsideOpenFrame(bd, s[..j], a, c, k);
    }
  }

  /** Two deliveries never share a byte: the segment of the later one starts after the END of
      the earlier one. */
  lemma SegmentsDisjoint(bd: Bound, s: seq<byte>, i: nat, j: nat, a: nat, f: seq<byte>, g: seq<byte>)
    requires i < j < |s|
    requires Outs(bd, Idle, s)[i] == Delivered(f) && Outs(bd, Idle, s)[j] == Delivered(g)
    requires EndsInFrame(bd, s[..j + 1], a, g)
    ensures i < a
  {
    AfterDelivery(bd, s, i, f);
    AfterDelivery(bd, s, j, g);
    assert Opens(bd, s[..j], a, Content(g)) by { assert s[..j + 1][..j] == s[..j]; }
    OpensAfterIdle(bd, s, j, a, Content(g), i + 1);
  }
}
