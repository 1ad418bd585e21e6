/** The receive ring of the AVR serial device: an interrupt handler writes it while the main line
    reads it, without a lock. */
module UartRing {
  import opened Bits

  /** The index after i in a ring declared with n cells: an 8-bit increment, then the wrap. */
  function NextIndex(n: nat, i: byte): byte {
    var j: byte := (i + 1) % 256;
    if j >= n then 0 else j
  }

  /** The cells an 8-bit index can ever reach. */
  function Cells(n: nat): nat {
    if n < 256 then n else 256
  }

  /** The cell of the k-th byte in a ring of m cells: k modulo m. */
  function Cell(k: nat, m: nat): (c: nat)
    requires m > 0
    ensures c < m && c <= k
    decreases k
  {
    if k < m then k else Cell(k - m, m)
  }

  lemma {:induction false} CellNext(k: nat, m: nat)
    requires m > 0
    ensures Cell(k + 1, m) == if Cell(k, m) + 1 == m then 0 else Cell(k, m) + 1
    decreases k
  {
    if k >= m { CellNext(k - m, m); }
  }

  lemma CellTurn(k: nat, m: nat)
    requires m > 0
    ensures Cell(k + m, m) == Cell(k, m)
  {
  }

  /** Positions less than a turn apart share a cell only if they are equal. */
  lemma {:induction false} SameCell(a: nat, b: nat, m: nat)
    requires m > 0 && a <= b < a + m && Cell(a, m) == Cell(b, m)
    ensures a == b
    decreases a
  {
    if a >= m { SameCell(a - m, b - m, m); }
  }

  /** Advancing an index is counting on by one. */
  lemma NextIndexIs(n: nat, k: nat)
    requires n > 0
    ensures Cell(k, Cells(n)) < 256 && NextIndex(n, Cell(k, Cells(n))) == Cell(k + 1, Cells(n))
  {
    CellNext(k, Cells(n));
  }

  // ---- Interleaved steps ----------------------------------------------------------------

  /** Where the reader is in its loop. */
  datatype Pc = Outside | AtCheck | AtCopy | AtIncrement | AtWrap

  /** The device with its reader, and the whole history: bytes received and bytes read. */
  datatype State = State(cbuf: seq<byte>, rindex: byte, windex: byte, pc: Pc, want: nat, got: nat,
                         received: seq<byte>, read: seq<byte>)

  /** The interrupt, a call of read, or one step of the reader. */
  datatype Action = Interrupt(b: byte) | Call(size: nat) | ReaderStep

  predicate Sized(n: nat, s: State) {
    0 < Cells(n) && |s.cbuf| == n && s.windex < Cells(n)
    && (s.pc in {Outside, AtCheck, AtCopy, AtIncrement} ==> s.rindex < Cells(n))
  }

  function Act(n: nat, s: State, a: Action): (s': State)
    requires Sized(n, s)
    ensures Sized(n, s')
  {
    match a
    case Interrupt(b) =>
      s.(cbuf := s.cbuf[s.windex := b], windex := NextIndex(n, s.windex), received := s.received + [b])
    case Call(size) =>
      if s.pc == Outside then s.(pc := AtCheck, want := size, got := 0) else s
    case ReaderStep =>
      match s.pc
      case Outside => s
      case AtCheck =>
        if s.got >= s.want || s.rindex == s.windex then s.(pc := Outside) else s.(pc := AtCopy)
      case AtCopy => s.(read := s.read + [s.cbuf[s.rindex]], pc := AtIncrement)
      case AtIncrement => s.(rindex := (s.rindex + 1) % 256, pc := AtWrap)
      case AtWrap => s.(rindex := if s.rindex >= n then 0 else s.rindex, got := s.got + 1, pc := AtCheck)
  }

  function Start(n: nat, cbuf: seq<byte>): State {
    State(cbuf, 0, 0, Outside, 0, 0, [], [])
  }

  function Run(n: nat, s: State, acts: seq<Action>): (s': State)
    requires Sized(n, s)
    ensures Sized(n, s')
  {
    if acts == [] then s else Act(n, Run(n, s, acts[..|acts| - 1]), acts[|acts| - 1])
  }

  /** The most bytes that can be unread: one less than the cells, except that a reader about to
      copy has already looked at the indices and so tolerates one more. */
  function MaxUnread(n: nat, pc: Pc): nat
    requires Cells(n) > 0
  {
    if pc == AtCopy then Cells(n) else Cells(n) - 1
  }

  /** There is room for one more byte. */
  predicate HasRoom(n: nat, s: State)
    requires Cells(n) > 0
  {
    |s.received| + 1 <= |s.read| + MaxUnread(n, s.pc)
  }

  /** No interrupt comes when there is no room. */
  ghost predicate Paced(n: nat, s: State, acts: seq<Action>)
    requires Sized(n, s)
  {
    forall i :: 0 <= i < |acts| && acts[i].Interrupt? ==> HasRoom(n, Run(n, s, acts[..i]))
  }

  /** Where the read index stands for r bytes read. */
  predicate ReadIndexAt(n: nat, s: State)
    requires Cells(n) > 0
  {
    var m, r := Cells(n), |s.read|;
    match s.pc
    case AtIncrement => r > 0 && s.rindex == Cell(r - 1, m)
    case AtWrap => r > 0 && s.rindex == (Cell(r - 1, m) + 1) % 256
    case _ => s.rindex == Cell(r, m)
  }

  /** The ring holds exactly the bytes received and not yet read, each in its cell. */
  ghost predicate Fifo(n: nat, s: State)
    requires Sized(n, s)
  {
    var m, r, w := Cells(n), |s.read|, |s.received|;
    && r <= w <= r + MaxUnread(n, s.pc)
    && s.read == s.received[..r]
    && s.windex == Cell(w, m) && ReadIndexAt(n, s)
    && (s.pc == AtCopy ==> r < w)
    && forall k: nat :: r <= k < w ==> s.cbuf[Cell(k, m)] == s.received[k]
  }

  /** An interrupt keeps the ring a FIFO when there is room. */
  lemma InterruptKeeps(n: nat, s: State, b: byte)
    requires Sized(n, s) && Fifo(n, s) && HasRoom(n, s)
    ensures Fifo(n, Act(n, s, Interrupt(b)))
  {
    var s', m, w := Act(n, s, Interrupt(b)), Cells(n), |s.received|;
    NextIndexIs(n, w);
    forall k: nat | |s.read| <= k < w + 1 ensures s'.cbuf[Cell(k, m)] == s'.received[k] {
      if k < w && Cell(k, m) == Cell(w, m) { SameCell(k, w, m); }
    }
  }

  lemma CopyKeeps(n: nat, s: State)
    requires Sized(n, s) && Fifo(n, s) && s.pc == AtCopy
    ensures Fifo(n, Act(n, s, ReaderStep))
  {
    var r := |s.read|;
    assert s.received[..r + 1] == s.received[..r] + [s.received[r]];
  }

  /** A step after the look at the indices keeps the read index in step with the bytes read. */
  lemma StepAt(n: nat, s: State)
    requires Sized(n, s) && ReadIndexAt(n, s) && s.pc in {AtCopy, AtIncrement, AtWrap}
    ensures ReadIndexAt(n, Act(n, s, ReaderStep))
  {
    if s.pc == AtWrap { NextIndexIs(n, |s.read| - 1); }
  }

  lemma WrapKeeps(n: nat, s: State)
    requires Sized(n, s) && Fifo(n, s) && s.pc == AtWrap
    ensures Fifo(n, Act(n, s, ReaderStep))
  {
    StepAt(n, s);
  }

  lemma ReaderKeeps(n: nat, s: State)
    requires Sized(n, s) && Fifo(n, s)
    ensures Fifo(n, Act(n, s, ReaderStep))
  {
    match s.pc
    case AtCopy => CopyKeeps(n, s);
    case AtWrap => WrapKeeps(n, s);
    case Outside =>
    case AtCheck =>
    case AtIncrement =>
  }

  /** The reader's steps up to its next look at the indices. */
  function Finish(n: nat, s: State): (s': State)
    requires Sized(n, s)
    ensures Sized(n, s')
  {
    var s1 := if s.pc == AtCopy then Act(n, s, ReaderStep) else s;
    var s2 := if s1.pc == AtIncrement then Act(n, s1, ReaderStep) else s1;
    if s2.pc == AtWrap then Act(n, s2, ReaderStep) else s2
  }

  lemma FinishAt(n: nat, s: State)
    requires Sized(n, s) && ReadIndexAt(n, s)
    ensures var t := Finish(n, s);
            && ReadIndexAt(n, t) && t.pc in {Outside, AtCheck}
            && t.windex == s.windex && t.received == s.received
            && |t.read| == |s.read| + if s.pc == AtCopy then 1 else 0
  {
    if s.pc == AtCopy { StepAt(n, s); }
    var s1 := if s.pc == AtCopy then Act(n, s, ReaderStep) else s;
    if s1.pc == AtIncrement { StepAt(n, s1); }
    var s2 := if s1.pc == AtIncrement then Act(n, s1, ReaderStep) else s1;
    if s2.pc == AtWrap { StepAt(n, s2); }
  }

  lemma ReceivedAt(n: nat, s: State, b: byte)
    requires Sized(n, s) && s.windex == Cell(|s.received|, Cells(n))
    ensures var t := Act(n, s, Interrupt(b)); t.windex == Cell(|t.received|, Cells(n))
  {
    NextIndexIs(n, |s.received|);
  }

  lemma OverrunCount(n: nat, s: State, b: byte)
    requires Sized(n, s) && Fifo(n, s) && !HasRoom(n, s)
    ensures var t := Act(n, s, Interrupt(b));
            && ReadIndexAt(n, t) && t.windex == Cell(|t.received|, Cells(n))
            && |t.received| == |t.read| + Cells(n) + if t.pc == AtCopy then 1 else 0
  {
    ReceivedAt(n, s, b);
  }

  lemma TurnLater(n: nat, s: State)
    requires Sized(n, s) && ReadIndexAt(n, s) && s.windex == Cell(|s.received|, Cells(n))
    requires |s.received| == |s.read| + Cells(n) + if s.pc == AtCopy then 1 else 0
    ensures var t := Finish(n, s);
            t.rindex == t.windex && |t.received| == |t.read| + Cells(n)
  {
    FinishAt(n, s);
    CellTurn(|s.received| - Cells(n), Cells(n));
  }

  /** Without room, an interrupt makes a full ring look empty: wherever the reader is, at its next
      look the indices meet, with as many bytes unread as there are cells. */
  lemma OverrunLooksEmpty(n: nat, s: State, b: byte)
    requires Sized(n, s) && Fifo(n, s) && !HasRoom(n, s)
    ensures var t := Finish(n, Act(n, s, Interrupt(b)));
            t.rindex == t.windex && |t.received| == |t.read| + Cells(n)
  {
    var s1 := Act(n, s, Interrupt(b));
    OverrunCount(n, s, b);
    TurnLater(n, s1);
  }

  lemma FinishKeeps(n: nat, s: State)
    requires Sized(n, s) && Fifo(n, s)
    ensures var t := Finish(n, s);
            Fifo(n, t) && t.received == s.received && t.pc in {Outside, AtCheck}
            && |t.read| == |s.read| + if s.pc == AtCopy then 1 else 0
  {
    ReaderKeeps(n, s);
    var s1 := if s.pc == AtCopy then Act(n, s, ReaderStep) else s;
    ReaderKeeps(n, s1);
    var s2 := if s1.pc == AtIncrement then Act(n, s1, ReaderStep) else s1;
    ReaderKeeps(n, s2);
  }

  /** With room, it finds the new byte: the indices differ. */
  lemma ReceivedIsSeen(n: nat, s: State, b: byte)
    requires Sized(n, s) && Fifo(n, s) && HasRoom(n, s)
    ensures var t := Finish(n, Act(n, s, Interrupt(b)));
            Fifo(n, t) && t.rindex != t.windex
  {
    InterruptKeeps(n, s, b);
    var s1 := Act(n, s, Interrupt(b));
    FinishKeeps(n, s1);
    var t := Finish(n, s1);
    if t.rindex == t.windex { SameCell(|t.read|, |t.received|, Cells(n)); }
  }

  /** An interrupt at any point of the reader leaves it a byte to find at its next look if and
      only if there was room. */
  lemma InterruptSeenIff(n: nat, s: State, b: byte)
    requires Sized(n, s) && Fifo(n, s)
    ensures var t := Finish(n, Act(n, s, Interrupt(b)));
            t.rindex != t.windex <==> HasRoom(n, s)
  {
    if HasRoom(n, s) { ReceivedIsSeen(n, s, b); } else { OverrunLooksEmpty(n, s, b); }
  }

  /** In every run without overrun, whatever the interleaving, the bytes read are a prefix of the
      bytes received: in order, none lost, none twice, none before it arrived. */
  lemma {:induction false} EveryRunIsFifo(n: nat, cbuf: seq<byte>, acts: seq<Action>)
    requires 0 < n == |cbuf| && Paced(n, Start(n, cbuf), acts)
    ensures Fifo(n, Run(n, Start(n, cbuf), acts))
    ensures var s := Run(n, Start(n, cbuf), acts); s.read <= s.received
  {
    var s := Start(n, cbuf);
    if acts != [] {
      var i := |acts| - 1;
      var t := Run(n, s, acts[..i]);
      assert Paced(n, s, acts[..i]) by {
        assert forall j :: 0 <= j < i ==> acts[..i][..j] == acts[..j];
      }
      EveryRunIsFifo(n, cbuf, acts[..i]);
      match acts[i] {
        case Interrupt(b) => InterruptKeeps(n, t, b);
        case Call(_) =>
        case ReaderStep => ReaderKeeps(n, t);
      }
    }
  }

  /** The reader stops short exactly when every byte received has been read. */
  lemma StopsShortIff(n: nat, s: State)
    requires Sized(n, s) && Fifo(n, s) && s.pc == AtCheck && s.got < s.want
    ensures Act(n, s, ReaderStep).pc == Outside <==> s.read == s.received
  {
    if s.rindex == s.windex { SameCell(|s.read|, |s.received|, Cells(n)); }
  }

  // ---- One call of read -------------------------------------------------------------------

  /** The bytes read by the call in progress: those counted, and one copied but not yet counted. */
  function ByCall(s: State): nat {
    s.got + if s.pc in {AtIncrement, AtWrap} then 1 else 0
  }

  /** The call never goes beyond the bytes it was asked for. */
  predicate WithinWant(s: State) {
    ByCall(s) <= s.want && (s.pc == AtCopy ==> s.got < s.want)
  }

  lemma ActWithinWant(n: nat, s: State, a: Action)
    requires Sized(n, s) && WithinWant(s)
    ensures WithinWant(Act(n, s, a))
  {
  }

  /** At any point of any run, the call in progress has read at most what it was asked for. */
  lemma {:induction false} EveryRunWithinWant(n: nat, cbuf: seq<byte>, acts: seq<Action>)
    requires 0 < n == |cbuf|
    ensures var s := Run(n, Start(n, cbuf), acts); WithinWant(s) && s.got <= s.want
  {
    if acts != [] {
      var i := |acts| - 1;
      EveryRunWithinWant(n, cbuf, acts[..i]);
      ActWithinWant(n, Run(n, Start(n, cbuf), acts[..i]), acts[i]);
    }
  }

  /** The state t of a call for `size` bytes that began in state s. */
  predicate InCall(s: State, t: State, size: nat) {
    && WithinWant(t) && t.want == size
    && s.read <= t.read && |t.read| == |s.read| + ByCall(t)
  }

  lemma ActInCall(n: nat, s: State, t: State, size: nat, a: Action)
    requires Sized(n, t) && InCall(s, t, size) && t.pc != Outside
    ensures var u := Act(n, t, a);
            && InCall(s, u, size)
            && (u.pc == Outside ==> u.got == size || u.rindex == u.windex)
  {
  }

  /** A call for `size` bytes reads at most that many, whatever interrupts come in between; when it
      returns it has read that many, unless it found the indices equal. */
  lemma {:induction false} CallReads(n: nat, s: State, size: nat, acts: seq<Action>)
    requires Sized(n, s) && s.pc == Outside
    requires forall k :: 0 <= k < |acts| ==> Run(n, Act(n, s, Call(size)), acts[..k]).pc != Outside
    ensures var t := Run(n, Act(n, s, Call(size)), acts);
            && s.read <= t.read && |t.read| <= |s.read| + size && InCall(s, t, size)
            && (t.pc == Outside ==> |t.read| == |s.read| + size || t.rindex == t.windex)
  {
    if acts != [] {
      var i := |acts| - 1;
      var c := Act(n, s, Call(size));
      assert forall k :: 0 <= k < i ==> acts[..i][..k] == acts[..k];
      CallReads(n, s, size, acts[..i]);
      ActInCall(n, s, Run(n, c, acts[..i]), size, acts[i]);
    }
  }

  // ---- Overrun --------------------------------------------------------------------------

  /** The ring between whole operations. */
  datatype Ring = Ring(cbuf: seq<byte>, rindex: byte, windex: byte)

  predicate ValidRing(n: nat, g: Ring) {
    0 < n && |g.cbuf| == n && g.rindex < Cells(n) && g.windex < Cells(n)
  }

  /** rx_interrupt_handler */
  function Receive(n: nat, g: Ring, b: byte): (g': Ring)
    requires ValidRing(n, g)
    ensures ValidRing(n, g')
  {
    g.(cbuf := g.cbuf[g.windex := b], windex := NextIndex(n, g.windex))
  }

  /** One whole iteration of the read loop; nothing when the indices meet. */
  function Take(n: nat, g: Ring): (r: (Ring, seq<byte>))
    requires ValidRing(n, g)
    ensures ValidRing(n, r.0)
  {
    if g.rindex == g.windex then (g, [])
    else (g.(rindex := NextIndex(n, g.rindex)), [g.cbuf[g.rindex]])
  }

  /** The four steps of one iteration of the read loop, uninterrupted, are one Take. */
  lemma StepsAreTake(n: nat, s: State)
    requires Sized(n, s) && s.pc == AtCheck && s.got < s.want && s.rindex != s.windex
    ensures var t := Act(n, Act(n, Act(n, Act(n, s, ReaderStep), ReaderStep), ReaderStep), ReaderStep);
            var (g, out) := Take(n, Ring(s.cbuf, s.rindex, s.windex));
            && g == Ring(t.cbuf, t.rindex, t.windex) && t.read == s.read + out
            && t.pc == AtCheck && t.got == s.got + 1
  {
  }

  /** What the ring really is: a queue that empties itself when it becomes full. */
  function Enqueue(m: nat, q: seq<byte>, b: byte): seq<byte> {
    if |q| + 1 == m then [] else q + [b]
  }

  function Dequeue(q: seq<byte>): (seq<byte>, seq<byte>) {
    if q == [] then ([], []) else (q[1..], [q[0]])
  }

  /** The ring holds the queue q, its first byte being the r-th to be read. */
  ghost predicate Represents(n: nat, g: Ring, q: seq<byte>, r: nat)
    requires ValidRing(n, g)
  {
    var m := Cells(n);
    && |q| < m && g.rindex == Cell(r, m) && g.windex == Cell(r + |q|, m)
    && forall j: nat {:trigger g.cbuf[Cell(j, m)]} :: r <= j < r + |q| ==> g.cbuf[Cell(j, m)] == q[j - r]
  }

  /** The interrupt handler is Enqueue, overrun included. */
  lemma ReceiveIsEnqueue(n: nat, g: Ring, q: seq<byte>, r: nat, b: byte)
    requires ValidRing(n, g) && Represents(n, g, q, r)
    ensures Represents(n, Receive(n, g, b), Enqueue(Cells(n), q, b), r)
  {
    var m, w := Cells(n), r + |q|;
    NextIndexIs(n, w);
    CellTurn(r, m);
    if |q| + 1 < m {
      var g', q' := Receive(n, g, b), q + [b];
      forall j: nat | r <= j <= w ensures g'.cbuf[Cell(j, m)] == q'[j - r] {
        if j < w && Cell(j, m) == Cell(w, m) { SameCell(j, w, m); }
      }
    }
  }

  /** Reading a byte is Dequeue. */
  lemma TakeIsDequeue(n: nat, g: Ring, q: seq<byte>, r: nat)
    requires ValidRing(n, g) && Represents(n, g, q, r)
    ensures var (g', out) := Take(n, g);
            var (q', out') := Dequeue(q);
            out == out' && Represents(n, g', q', r + |out|)
  {
    var m := Cells(n);
    NextIndexIs(n, r);
    if g.rindex == g.windex { SameCell(r, r + |q|, m); }
  }

  /** The read loop with `size` iterations to go and buf read so far. */
  function TakeUpTo(n: nat, g: Ring, size: nat, buf: seq<byte>): (r: (Ring, seq<byte>))
    requires ValidRing(n, g)
    ensures ValidRing(n, r.0)
    decreases size
  {
    if size == 0 || g.rindex == g.windex then (g, buf)
    else var (g', out) := Take(n, g); TakeUpTo(n, g', size - 1, buf + out)
  }

  lemma MoveFirst(buf: seq<byte>, a: seq<byte>)
    requires a != []
    ensures (buf + [a[0]]) + a[1..] == buf + a
  {
  }

  lemma TakeNone(n: nat, g: Ring, b: seq<byte>, r: nat, size: nat)
    requires ValidRing(n, g) && Represents(n, g, [] + b, r) && (size == 0 || b == [])
    ensures size == 0 || g.rindex == g.windex
    ensures Represents(n, g, b, r)
  {
    assert [] + b == b;
  }

  lemma TakeStep(n: nat, g: Ring, a: seq<byte>, b: seq<byte>, r: nat) returns (g': Ring)
    requires ValidRing(n, g) && Represents(n, g, a + b, r) && a != []
    ensures g.rindex != g.windex && Take(n, g) == (g', [a[0]])
    ensures ValidRing(n, g') && Represents(n, g', a[1..] + b, r + 1)
  {
    TakeIsDequeue(n, g, a + b, r);
    assert (a + b)[1..] == a[1..] + b;
    g' := Take(n, g).0;
  }

  /** It returns the first bytes of the queue, as many as were asked for and are there: all of
      the part a when the queue is a + b and a is what was asked for, or all there is. */
  lemma {:induction false} TakeUpToIs(n: nat, g: Ring, a: seq<byte>, b: seq<byte>, r: nat, size: nat, buf: seq<byte>)
    requires ValidRing(n, g) && Represents(n, g, a + b, r)
    requires |a| == size || (|a| < size && b == [])
    ensures var (g', out) := TakeUpTo(n, g, size, buf);
            out == buf + a && Represents(n, g', b, r + |a|)
    decreases size
  {
    if a == [] {
      TakeNone(n, g, b, r, size);
      assert buf + [] == buf;
    } else {
      var g' := TakeStep(n, g, a, b, r);
      TakeUpToIs(n, g', a[1..], b, r + 1, size - 1, buf + [a[0]]);
      MoveFirst(buf, a);
    }
  }

  function EnqueueAll(m: nat, q: seq<byte>, bs: seq<byte>): seq<byte> {
    if bs == [] then q else Enqueue(m, EnqueueAll(m, q, bs[..|bs| - 1]), bs[|bs| - 1])
  }

  function ReceiveAll(n: nat, g: Ring, bs: seq<byte>): (g': Ring)
    requires ValidRing(n, g)
    ensures ValidRing(n, g')
  {
    if bs == [] then g else Receive(n, ReceiveAll(n, g, bs[..|bs| - 1]), bs[|bs| - 1])
  }

  /** The bytes of a queue of fewer than m, followed by the bytes received, that are left. */
  function Left(m: nat, all: seq<byte>): seq<byte>
    requires m > 0
  {
    all[|all| - Cell(|all|, m)..]
  }

  lemma LeftStep(m: nat, all: seq<byte>, b: byte)
    requires m > 0
    ensures Enqueue(m, Left(m, all), b) == Left(m, all + [b])
  {
    CellNext(|all|, m);
  }

  /** Of the bytes in a queue and those received after them, exactly the last are left: their
      number modulo m. */
  lemma {:induction false} LeftAfter(m: nat, q: seq<byte>, bs: seq<byte>)
    requires |q| < m
    ensures EnqueueAll(m, q, bs) == Left(m, q + bs)
    decreases |bs|
  {
    if bs == [] {
      assert q + bs == q;
    } else {
      var i := |bs| - 1;
      LeftAfter(m, q, bs[..i]);
      LeftStep(m, q + bs[..i], bs[i]);
      assert q + bs[..i] + [bs[i]] == q + bs;
    }
  }

  lemma {:induction false} ReceivedAll(n: nat, g: Ring, q: seq<byte>, r: nat, bs: seq<byte>)
    requires ValidRing(n, g) && Represents(n, g, q, r)
    ensures Represents(n, ReceiveAll(n, g, bs), EnqueueAll(Cells(n), q, bs), r)
    decreases |bs|
  {
    if bs != [] {
      var i := |bs| - 1;
      ReceivedAll(n, g, q, r, bs[..i]);
      ReceiveIsEnqueue(n, ReceiveAll(n, g, bs[..i]), EnqueueAll(Cells(n), q, bs[..i]), r, bs[i]);
    }
  }

  /** So with the bytes q unread, after any number of further bytes has come in, the next read
      returns the first of the bytes left, as many as are asked for and there, and leaves the
      rest of them in the ring. */
  lemma OverrunKeepsTail(n: nat, g: Ring, q: seq<byte>, r: nat, bs: seq<byte>, size: nat)
    requires ValidRing(n, g) && Represents(n, g, q, r)
    ensures var left := Left(Cells(n), q + bs);
            var k := if size < |left| then size else |left|;
            var (g', out) := TakeUpTo(n, ReceiveAll(n, g, bs), size, []);
            out == left[..k] && Represents(n, g', left[k..], r + k)
  {
    ReceivedAll(n, g, q, r, bs);
    LeftAfter(Cells(n), q, bs);
    var left := Left(Cells(n), q + bs);
    var k := if size < |left| then size else |left|;
    assert left == left[..k] + left[k..];
    TakeUpToIs(n, ReceiveAll(n, g, bs), left[..k], left[k..], r, size, []);
    assert [] + left[..k] == left[..k];
  }

  // ---- The device -----------------------------------------------------------------------

  class UartDevice {
    const cbuf: array<byte>
    var rindex: byte
    var windex: byte

    ghost predicate Valid()
      reads this
    {
      0 < cbuf.Length && rindex < Cells(cbuf.Length) && windex < Cells(cbuf.Length)
    }

    ghost function View(): (g: Ring)
      reads this, cbuf
      ensures Valid() ==> ValidRing(cbuf.Length, g)
    {
      Ring(cbuf[..], rindex, windex)
    }

    constructor (size: nat)
      requires size > 0
      ensures Valid() && cbuf.Length == size && Represents(size, View(), [], 0)
    {
      cbuf := new byte[size];
      rindex, windex := 0, 0;
    }

    /** rx_interrupt_handler, with the byte in the data register. */
    method RxInterruptHandler(dr: byte)
      requires Valid()
      modifies this`windex, cbuf
      ensures Valid() && View() == Receive(cbuf.Length, old(View()), dr)
    {
      cbuf[windex] := dr;
      windex := (windex + 1) % 256;
      if windex >= cbuf.Length { windex := 0; }
    }

    /** One iteration of the read loop. */
    method TakeByte() returns (found: bool, b: byte)
      requires Valid()
      modifies this`rindex
      ensures Valid() && Take(cbuf.Length, old(View())) == (View(), if found then [b] else [])
    {
      if rindex == windex { return false, 0; }
      found, b := true, cbuf[rindex];
      rindex := (rindex + 1) % 256;
      if rindex >= cbuf.Length { rindex := 0; }
    }

    /** The ring-reading loop of smp_serial_device_read, when no interrupt comes in between. */
    method Read(size: nat) returns (buf: seq<byte>)
      requires Valid()
      modifies this`rindex
      ensures Valid() && (View(), buf) == TakeUpTo(cbuf.Length, old(View()), size, [])
    {
      buf := [];
      for i := 0 to size
        invariant Valid()
        invariant TakeUpTo(cbuf.Length, View(), size - i, buf) == TakeUpTo(cbuf.Length, old(View()), size, [])
      {
        var found, b := TakeByte();
        if !found { break; }
        buf := buf + [b];
      }
    }
  }
}
