/** The receiving side of the serial protocol code: the decoder object with its growable buffer. */
module SerialProtocol {
  import opened Bits
  import opened Types
  import opened Frame
  import opened Deframer
  import opened SerialEncoder

  const DEFAULT_BUFFER_SIZE: nat := 1024
  const MAXIMUM_DECODER_BUFFER_SIZE: nat := 1024 * 1024
  const MAXIMUM_DECODER_BUFFER_SIZE_AVR: nat := 512

  // ---- Capacity -------------------------------------------------------------------------

  predicate CanGrow(word: Word, bufsize: nat, maxsize: nat, fixed: bool) {
    !fixed && bufsize + DEFAULT_BUFFER_SIZE < word.Modulus() && bufsize + DEFAULT_BUFFER_SIZE <= maxsize
  }

  /** The size at which a buffer that grows whenever it is full stops growing. */
  function Limit(word: Word, bufsize: nat, maxsize: nat, fixed: bool): (l: nat)
    ensures bufsize <= l && !CanGrow(word, l, maxsize, fixed)
    decreases maxsize - bufsize
  {
    if CanGrow(word, bufsize, maxsize, fixed)
    then Limit(word, bufsize + DEFAULT_BUFFER_SIZE, maxsize, fixed)
    else bufsize
  }

  /** That size in closed form. */
  lemma {:induction false} LimitClosedForm(word: Word, b: nat, m: nat, fixed: bool)
    requires m < word.Modulus()
    ensures Limit(word, b, m, fixed) == if fixed || m < b then b else b + 1024 * ((m - b) / 1024)
    decreases m - b
  {
    if CanGrow(word, b, m, fixed) {
      LimitClosedForm(word, b + 1024, m, fixed);
    }
  }

  /** Being full is reported as TOO_BIG, except where the new size would not fit in a size_t. */
  function BoundOf(word: Word, bufsize: nat, maxsize: nat, fixed: bool): Bound {
    var l := Limit(word, bufsize, maxsize, fixed);
    Bound(l, if l + DEFAULT_BUFFER_SIZE >= word.Modulus() then OverflowError else TooBig)
  }

  // ---- Decoder --------------------------------------------------------------------------

  class Decoder {
    const word: Word
    const staticallyAllocated: bool
    var state: State
    var buf: array<byte>
    var bufsize: nat
    var offset: nat
    var maxsize: nat
    ghost var initialSize: nat
    ghost var growths: nat

    ghost predicate Sound()
      reads this
    {
      && buf.Length == bufsize
      && bufsize < word.Modulus() && maxsize < word.Modulus()
      && (state != WaitHeader ==> offset <= bufsize)
    }

    /** The buffer has grown from its initial size by whole steps of 1024 only. */
    ghost predicate Valid()
      reads this
    {
      Sound() && bufsize == initialSize + DEFAULT_BUFFER_SIZE * growths
    }

    /** The protocol state. Outside a frame the offset means nothing: a statically allocated
        decoder starts with whatever its storage held. */
    ghost function Core(): Core
      requires Valid()
      reads this, buf
    {
      Deframer.Core(state, if state == WaitHeader then [] else buf[..offset])
    }

    ghost function Bound(): Bound
      reads this
    {
      BoundOf(word, bufsize, maxsize, staticallyAllocated)
    }

    constructor Allocate(word: Word, maxsize: nat)
      requires maxsize < word.Modulus()
      ensures Valid() && this.word == word && !staticallyAllocated
      ensures state == WaitHeader && bufsize == 0 && this.maxsize == maxsize && fresh(buf)
    {
      this.word := word;
      staticallyAllocated := false;
      state := WaitHeader;
      buf := new byte[0];
      bufsize := 0;
      offset := 0;
      this.maxsize := maxsize;
      initialSize, growths := 0, 0;
    }

    /** decoder_new: a bufsize of 0 means the default; no decoder when it exceeds the maximum. */
    static method New(word: Word, avr: bool, size: nat) returns (d: Decoder?)
      requires size < word.Modulus() && (avr <==> word == Word16)
      ensures var b := if size == 0 then DEFAULT_BUFFER_SIZE else size;
              var m := if avr then MAXIMUM_DECODER_BUFFER_SIZE_AVR else MAXIMUM_DECODER_BUFFER_SIZE;
              && (d != null <==> b <= m)
              && (d != null ==> fresh(d) && fresh(d.buf) && d.Valid() && d.Core() == Idle
                                && d.bufsize == d.initialSize == b && d.maxsize == m && !d.staticallyAllocated && d.word == word)
    {
      var b := if size == 0 then DEFAULT_BUFFER_SIZE else size;
      var m := if avr then MAXIMUM_DECODER_BUFFER_SIZE_AVR else MAXIMUM_DECODER_BUFFER_SIZE;
      var decoder := new Decoder.Allocate(word, m);
      var status := decoder.SetCapacity(b);
      decoder.initialSize := decoder.bufsize;
      d := if status == Ok then decoder else null;
    }

    /** decoder_new_from_static: the caller's buffer is used as it is and never grows. */
    constructor FromStatic(word: Word, buffer: array<byte>)
      requires 0 < buffer.Length < word.Modulus()
      ensures Valid() && Core() == Idle && this.word == word && staticallyAllocated
      ensures buf == buffer && bufsize == initialSize == maxsize == buffer.Length
    {
      this.word := word;
      staticallyAllocated := true;
      state := WaitHeader;
      buf := buffer;
      bufsize := buffer.Length;
      maxsize := buffer.Length;
      initialSize, growths := buffer.Length, 0;
    }

    method SetMaximumCapacity(max: nat) returns (status: Status)
      requires Valid() && max < word.Modulus()
      modifies this`maxsize
      ensures Valid() && Core() == old(Core())
      ensures status == (if max >= 5 then Ok else Failed(InvalidParam))
      ensures maxsize == if max >= 5 then max else old(maxsize)
    {
      if !(max >= 5) { return Failed(InvalidParam); }
      maxsize := max;
      status := Ok;
    }

    /** Reallocate the buffer: the content is kept as far as it fits and any new room is zeroed. */
    method SetCapacity(capacity: nat) returns (status: Status)
      requires Sound()
      modifies this`buf, this`bufsize
      ensures state == WaitHeader || offset <= capacity || status != Ok ==> Sound()
      ensures status == if staticallyAllocated || capacity > maxsize then Failed(TooBig) else Ok
      ensures status != Ok ==> buf == old(buf) && bufsize == old(bufsize)
      ensures status == Ok ==> fresh(buf) && buf.Length == bufsize == capacity
                               && (forall i :: 0 <= i < capacity ==>
                                     buf[i] == if i < old(bufsize) then old(buf[i]) else 0)
    {
      if staticallyAllocated { return Failed(TooBig); }
      if capacity > maxsize { return Failed(TooBig); }
      var grown := new byte[capacity];
      forall i | 0 <= i < capacity {
        grown[i] := if i < bufsize then buf[i] else 0;
      }
      buf := grown;
      bufsize := capacity;
      status := Ok;
    }

    /** Store a byte, growing the buffer by 1024 when it is full. It fails exactly at the limit. */
    method PutByte(b: byte) returns (status: Status)
      requires Valid() && state != WaitHeader
      modifies this`buf, this`bufsize, this`offset, this`growths, buf
      ensures Valid() && Bound() == old(Bound())
      ensures status == if old(offset) < Bound().limit then Ok else Failed(Bound().full)
      ensures buf[..offset] == if status == Ok then old(buf[..offset]) + [b] else old(buf[..offset])
      ensures bufsize == old(bufsize) + (if status == Ok && old(offset == bufsize) then DEFAULT_BUFFER_SIZE else 0)
      ensures if bufsize == old(bufsize) then buf == old(buf) else fresh(buf)
    {
      if offset >= bufsize {
        var size := bufsize + DEFAULT_BUFFER_SIZE;
        if size >= word.Modulus() { size := size - word.Modulus(); }
        if size < bufsize { return Failed(OverflowError); }
        status := SetCapacity(size);
        if status != Ok { return; }
        growths := growths + 1;
      }
      buf[offset] := b;
      offset := offset + 1;
      status := Ok;
    }

    method ProcessByteInFrame(b: byte) returns (status: Status, frame: Option<seq<byte>>)
      requires Valid() && state == InFrame
      modifies this`state, this`buf, this`bufsize, this`offset, this`growths, buf
      ensures Valid() && Bound() == old(Bound())
      ensures var refused := !IsMagic(b) && |old(Core()).data| >= Bound().limit;
              if refused then Core() == old(Core()) && status == Failed(Bound().full) && frame == None
              else Core() == Step(Bound(), old(Core()), b).0
                   && match Step(Bound(), old(Core()), b).1
                      case Quiet => status == Ok && frame == None
                      case Error(e) => status == Failed(e) && frame == None
                      case Delivered(f) => status == Ok && frame == Some(f)
      ensures bufsize >= old(bufsize)
      ensures if bufsize == old(bufsize) then buf == old(buf) else fresh(buf)
    {
      frame := None;
      if b == START {
        offset := 0;
        status := Failed(BadMessage);
      } else if b == ESC {
        state := InFrameEsc;
        status := Ok;
      } else if b == END {
        if offset < 1 {
          state := WaitHeader;
          return Failed(BadMessage), None;
        }
        var framesize := offset - 1;
        var cs := ComputeChecksum(buf, framesize);
        assert buf[..offset][..framesize] == buf[..framesize];
        if cs != buf[offset - 1] {
          status := Failed(BadMessage);
        } else {
          frame := Some(buf[..framesize]);
          status := Ok;
        }
        state := WaitHeader;
      } else {
        status := PutByte(b);
      }
    }

    /** One received byte moves the decoder as the state machine says, whatever the buffer has
        to do for it, and never both reports an error and hands over a frame. */
    method ProcessByte(b: byte) returns (status: Status, frame: Option<seq<byte>>)
      requires Valid()
      modifies this`state, this`buf, this`bufsize, this`offset, this`growths, buf
      ensures Valid() && Bound() == old(Bound())
      ensures Deframer.Valid(old(Bound()), old(Core()))
      ensures Core() == Step(old(Bound()), old(Core()), b).0
      ensures match Step(old(Bound()), old(Core()), b).1
              case Quiet => status == Ok && frame == None
              case Error(e) => status == Failed(e) && frame == None
              case Delivered(f) => status == Ok && frame == Some(f)
      ensures bufsize >= old(bufsize)
      ensures if bufsize == old(bufsize) then buf == old(buf) else fresh(buf)
    {
      frame := None;
      match state {
        case WaitHeader =>
          if b == START {
            state := InFrame;
            offset := 0;
          }
          status := Ok;
        case InFrame =>
          status, frame := ProcessByteInFrame(b);
        case InFrameEsc =>
          status := PutByte(b);
          if status == Ok {
            state := InFrame;
          }
      }
      if status != Ok && b != START {
        state := WaitHeader;
      }
    }
  }
}
