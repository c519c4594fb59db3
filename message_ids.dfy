/**
 * The engine's message id generator: a signed 64-bit counter that starts
 * at 0 and is incremented before each id is handed out, wrapping from the
 * largest to the smallest value as a 64-bit atomic counter does.
 */
module MessageIds {

  const MinLong: int := -0x8000_0000_0000_0000
  const MaxLong: int := 0x7fff_ffff_ffff_ffff

  type Long = x: int | MinLong <= x <= MaxLong

  /** The value an increment-and-get leaves in the counter and returns. */
  function NextId(x: Long): (y: Long)
    ensures x < MaxLong ==> y == x + 1
    ensures x == MaxLong ==> y == MinLong
  {
    if x == MaxLong then MinLong else x + 1
  }

  /** The ids returned by n successive calls on a counter holding start. */
  function IdsIssued(start: Long, n: nat): (ids: seq<Long>)
    ensures |ids| == n
    decreases n
  {
    if n == 0 then [] else [NextId(start)] + IdsIssued(NextId(start), n - 1)
  }

  /** Until the counter reaches its largest value, the k-th call returns start + k. */
  lemma {:induction false} IdsCountUp(start: Long, n: nat)
    requires start + n <= MaxLong
    ensures forall i | 0 <= i < n :: IdsIssued(start, n)[i] == start + i + 1
    decreases n
  {
    if n > 0 {
      IdsCountUp(NextId(start), n - 1);
    }
  }

  /** From a fresh counter, the first call returns 1 and the ids are strictly increasing, hence distinct. */
  lemma IdsFromFreshCounter(n: nat)
    requires n <= MaxLong
    ensures n > 0 ==> IdsIssued(0, n)[0] == 1
    ensures forall i, j | 0 <= i < j < n :: IdsIssued(0, n)[i] < IdsIssued(0, n)[j]
  {
    IdsCountUp(0, n);
  }
}
