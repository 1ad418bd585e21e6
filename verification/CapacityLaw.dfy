/** How long a payload a decoder can deliver. */
module CapacityLaw {
  import opened Bits
  import opened Types
  import opened Frame
  import opened Deframer
  import opened DeframerRecovery
  import opened DeframerRefusals
  import opened SerialProtocol

  /** From WaitHeader a payload is delivered if and only if it fits, with its checksum, in the
      initial buffer plus as many whole steps of 1024 as the maximum leaves room for; a buffer
      that cannot grow, or already exceeds the maximum, stays as it is. */
  lemma PayloadLimit(word: Word, b: nat, m: nat, fixed: bool, p: seq<byte>)
    requires m < word.Modulus()
    ensures Outs(BoundOf(word, b, m, fixed), Idle, Wire(p))[|Wire(p)| - 1] == Delivered(p)
       <==> |p| + 1 <= if fixed || m < b then b else b + 1024 * ((m - b) / 1024)
  {
    FirstFrameIff(BoundOf(word, b, m, fixed), Idle, p);
    LimitClosedForm(word, b, m, fixed);
  }

  /** One that does not fit is reported at its first content byte beyond that limit, and nothing
      is before: as TOO_BIG, or as OVERFLOW where the size after one more step would wrap. */
  lemma PayloadReported(word: Word, b: nat, m: nat, fixed: bool, l: nat, p: seq<byte>) returns (k: nat)
    requires m < word.Modulus() && l == (if fixed || m < b then b else b + 1024 * ((m - b) / 1024))
    requires |p| + 1 > l
    ensures k == |Escape(Content(p)[..l])| + |EscapeByte(Content(p)[l])| < |Wire(p)| - 1
    ensures var o := Outs(BoundOf(word, b, m, fixed), Idle, Wire(p));
            && AllQuiet(o[..k])
            && o[k] == Error(if l + 1024 >= word.Modulus() then OverflowError else TooBig)
  {
    LimitClosedForm(word, b, m, fixed);
    k := OversizedReported(BoundOf(word, b, m, fixed), p);
  }

  /** Growing does not move the limit, so it is the same all through a run. */
  lemma {:induction false} LimitInvariant(word: Word, b: nat, m: nat, fixed: bool, k: nat)
    requires CanGrow(word, b + k * 1024, m, fixed)
    ensures BoundOf(word, b, m, fixed) == BoundOf(word, b + (k + 1) * 1024, m, fixed)
    decreases k
  {
    if k > 0 {
      LimitInvariant(word, b, m, fixed, k - 1);
    }
  }
}
