/** The receiving state machine, one byte at a time, over the content collected so far.
    The decoder object refines it; what holds of every run of it is proved in DeframerRuns. */
module Deframer {
  import opened Bits
  import opened Types
  import opened Frame

  datatype State = WaitHeader | InFrame | InFrameEsc

  /** How much content the buffer can ever hold, and the error a full buffer reports. */
  datatype Bound = Bound(limit: nat, full: Error)

  /** The protocol state with the content of the current frame; between frames there is none. */
  datatype Core = Core(state: State, data: seq<byte>)

  const Idle := Core(WaitHeader, [])

  /** What one call of process_byte reports: nothing, an error, or a complete frame. */
  datatype Outcome = Quiet | Error(error: Types.Error) | Delivered(frame: seq<byte>)

  predicate Valid(bd: Bound, m: Core) {
    && |m.data| <= bd.limit
    && (m.state == WaitHeader ==> m.data == [])
  }

  /** The END of a frame with content c. */
  function Verdict(c: seq<byte>): Outcome {
    if |c| < 1 then Error(BadMessage)
    else if Checksum(c[..|c| - 1]) != c[|c| - 1] then Error(BadMessage)
    else Delivered(c[..|c| - 1])
  }

  function Step(bd: Bound, m: Core, b: byte): (r: (Core, Outcome))
    requires Valid(bd, m)
    ensures Valid(bd, r.0)
  {
    match m.state
    case WaitHeader =>
      if b == START then (Core(InFrame, []), Quiet) else (m, Quiet)
    case InFrame =>
      if b == START then (Core(InFrame, []), Error(BadMessage))
      else if b == ESC then (Core(InFrameEsc, m.data), Quiet)
      else if b == END then (Idle, Verdict(m.data))
      else if |m.data| < bd.limit then (Core(InFrame, m.data + [b]), Quiet)
      else (Idle, Error(bd.full))
    case InFrameEsc =>
      if |m.data| < bd.limit then (Core(InFrame, m.data + [b]), Quiet)
      else if b == START then (m, Error(bd.full))
      else (Idle, Error(bd.full))
  }

  /** The state after a stream of bytes. */
  function After(bd: Bound, m: Core, s: seq<byte>): (m': Core)
    requires Valid(bd, m)
    ensures Valid(bd, m')
  {
    if s == [] then m else Step(bd, After(bd, m, s[..|s| - 1]), s[|s| - 1]).0
  }

  /** The outcomes of a stream of bytes, one for each byte. */
  function Outs(bd: Bound, m: Core, s: seq<byte>): (o: seq<Outcome>)
    requires Valid(bd, m)
    ensures |o| == |s|
  {
    if s == [] then []
    else Outs(bd, m, s[..|s| - 1]) + [Step(bd, After(bd, m, s[..|s| - 1]), s[|s| - 1]).1]
  }

  /** The frames among the outcomes, in order. */
  function Frames(o: seq<Outcome>): seq<seq<byte>> {
    if o == [] then []
    else Frames(o[..|o| - 1]) + (match o[|o| - 1]
                                 case Delivered(f) => [f]
                                 case _ => [])
  }

  predicate AllQuiet(o: seq<Outcome>) {
    forall i :: 0 <= i < |o| ==> o[i] == Quiet
  }

  /** All outcomes but the first and the last are quiet. */
  predicate QuietInside(o: seq<Outcome>) {
    forall i :: 0 < i < |o| - 1 ==> o[i] == Quiet
  }

  predicate NoFrame(o: seq<Outcome>) {
    forall i :: 0 <= i < |o| ==> !o[i].Delivered?
  }

  predicate NoError(o: seq<Outcome>) {
    forall i :: 0 <= i < |o| ==> !o[i].Error?
  }

  lemma {:induction false} RunConcat(bd: Bound, m: Core, s: seq<byte>, t: seq<byte>)
    requires Valid(bd, m)
    ensures After(bd, m, s + t) == After(bd, After(bd, m, s), t)
    ensures Outs(bd, m, s + t) == Outs(bd, m, s) + Outs(bd, After(bd, m, s), t)
    decreases |t|
  {
    if t == [] {
      assert s + t == s;
    } else {
      var n := |t| - 1;
      assert (s + t)[..|s + t| - 1] == s + t[..n];
      RunConcat(bd, m, s, t[..n]);
    }
  }

  lemma RunOne(bd: Bound, m: Core, b: byte)
    requires Valid(bd, m)
    ensures After(bd, m, [b]) == Step(bd, m, b).0
    ensures Outs(bd, m, [b]) == [Step(bd, m, b).1]
  {
    assert [b][..0] == [];
  }

  lemma {:induction false} OutsPrefix(bd: Bound, m: Core, s: seq<byte>, k: nat)
    requires Valid(bd, m) && k <= |s|
    ensures Outs(bd, m, s)[..k] == Outs(bd, m, s[..k])
  {
    RunConcat(bd, m, s[..k], s[k..]);
    assert s[..k] + s[k..] == s;
  }

  lemma {:induction false} FramesConcat(o: seq<Outcome>, p: seq<Outcome>)
    ensures Frames(o + p) == Frames(o) + Frames(p)
    decreases |p|
  {
    if p == [] {
      assert o + p == o;
    } else {
      assert (o + p)[..|o + p| - 1] == o + p[..|p| - 1];
      FramesConcat(o, p[..|p| - 1]);
    }
  }

  lemma {:induction false} NoFramesIn(o: seq<Outcome>)
    requires NoFrame(o)
    ensures Frames(o) == []
  {
    if o != [] { NoFramesIn(o[..|o| - 1]); }
  }
}
