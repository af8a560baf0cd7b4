/**
 * The loop the daytimer and weather decoders share:
 * `for (i = start; i < buf.length; i += 24) { if (j >= numEntries) break; ...; j++ }`.
 */
module EntryLoop {
  import opened Wrappers
  import opened Bytes

  const Stride := 24

  /** How many entries the loop reads from offset `i` with `r` entries still announced. */
  function Iterations(len: nat, i: nat, r: nat): nat
    decreases len - i
  {
    if i >= len || r == 0 then 0 else 1 + Iterations(len, i + Stride, r - 1)
  }

  /**
   * The loop reads the announced number of entries, or fewer when the buffer ends first:
   * as many as start before the end of the buffer.
   */
  lemma {:induction false} IterationsClosedForm(len: nat, i: nat, r: nat)
    ensures Iterations(len, i, r) == if len <= i then 0 else Min(r, (len - i + Stride - 1) / Stride)
    decreases len - i
  {
    if i < len && r > 0 {
      IterationsClosedForm(len, i + Stride, r - 1);
    }
  }

  /** The last entry read starts inside the buffer; when the announced count is not reached, the next would not. */
  lemma {:induction false} IterationsBounds(len: nat, i: nat, r: nat)
    ensures var k := Iterations(len, i, r);
      k <= r && (k > 0 ==> i + Stride * (k - 1) < len) && (k < r ==> i + Stride * k >= len)
    decreases len - i
  {
    if i < len && r > 0 {
      IterationsBounds(len, i + Stride, r - 1);
    }
  }

  /** `acc` in front of the entries of `r`, or the error of `r`. */
  function Prepend<T>(acc: seq<T>, r: Result<seq<T>, Fault>): Result<seq<T>, Fault>
  {
    match r
    case Ok(v) => Ok(acc + v)
    case Err(e) => Err(e)
  }

  lemma PrependEmpty<T>(r: Result<seq<T>, Fault>)
    ensures Prepend([], r) == r
  {
    if r.Ok? {
      assert [] + r.value == r.value;
    }
  }

  lemma PrependCons<T>(acc: seq<T>, x: T, r: Result<seq<T>, Fault>)
    ensures Prepend(acc, Prepend([x], r)) == Prepend(acc + [x], r)
  {
    if r.Ok? {
      ConcatAssoc(acc, [x], r.value);
    }
  }
}
