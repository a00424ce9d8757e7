/** The decompression loop: the output buffer doubles until the data fits or the limit is reached. */
module Uncompress {
  import opened Wrappers

  const INT_MAX := 0x7FFF_FFFF

  type Bytes = seq<int>

  /** What a compressed input stands for; `mz_uncompress` itself is not part of the model. */
  datatype Stream =
    | Valid(data: Bytes)
    | Corrupt(answer: nat -> Option<string>)  // by buffer size: an error, or None for MZ_BUF_ERROR

  datatype Outcome = Done(data: Bytes) | BufferError | Failed(error: string)

  /** `mz_uncompress` into a buffer of the given size: valid data fails with MZ_BUF_ERROR exactly when it does
      not fit. */
  function Attempt(input: Stream, size: nat): (r: Outcome) {
    match input
    case Corrupt(answer) => (match answer(size) case None => BufferError case Some(e) => Failed(e))
    case Valid(data) => if |data| <= size then Done(data) else BufferError
  }

  ghost function Doubled(g: nat, k: nat): (r: nat) {
    if k == 0 then g else 2 * Doubled(g, k - 1)
  }

  /** The buffer sizes that are offered: the first one, and its doublings below INT_MAX. */
  ghost predicate IsOffered(g: nat, size: nat) {
    size == g || (size < INT_MAX && exists k: nat :: size == Doubled(g, k))
  }

  lemma {:induction false} DoubledMonotone(g: nat, j: nat, k: nat)
    requires j <= k
    ensures Doubled(g, j) <= Doubled(g, k)
    decreases k
  {
    if j < k { DoubledMonotone(g, j, k - 1); }
  }

  lemma {:induction false} DoubledStep(g: nat, k: nat)
    ensures Doubled(g, 0) == g && Doubled(g, k + 1) == 2 * Doubled(g, k)
  {
  }

  lemma {:induction false} Offered(g: nat, k: nat)
    requires Doubled(g, k) == g || Doubled(g, k) < INT_MAX
    ensures IsOffered(g, Doubled(g, k))
  {
  }

  /** The exact bytes come back if and only if they fit into a buffer that is offered. */
  method UncompressAll(input: Stream, initialSize: int) returns (r: Result<Bytes, string>, ghost attempts: seq<nat>)
    ensures (initialSize < 1 || initialSize > INT_MAX) ==> r.Err? && attempts == []
    ensures 1 <= initialSize <= INT_MAX ==>
              (forall i :: 0 <= i < |attempts| ==> attempts[i] <= INT_MAX && attempts[i] == Doubled(initialSize, i))
    ensures 1 <= initialSize <= INT_MAX && input.Valid? ==>
              (r.Ok? <==> exists size :: IsOffered(initialSize, size) && |input.data| <= size)
    ensures r.Ok? ==> input.Valid? && r.value == input.data
  {
    hide IsOffered, Doubled;
    attempts := [];
    if initialSize < 1 || initialSize > INT_MAX {
      return Err("Initial buffer size must be between 1 and INT_MAX"), attempts;
    }
    var outLen := initialSize;
    var size := initialSize;
    var ret := Attempt(input, size);
    attempts := [size];
    ghost var k := 0;
    DoubledStep(initialSize, 0);
    while ret == BufferError
      invariant size == Doubled(initialSize, k) && 1 <= size <= INT_MAX && |attempts| == k + 1
      invariant ret == Attempt(input, size) && (size == initialSize || size < INT_MAX)
      invariant forall i :: 0 <= i < |attempts| ==> attempts[i] <= INT_MAX && attempts[i] == Doubled(initialSize, i)
      decreases INT_MAX - size
    {
      outLen := size * 2;
      if !(outLen > 1 && outLen < INT_MAX) {
        break;
      }
      DoubledStep(initialSize, k);
      size := outLen;
      k := k + 1;
      ret := Attempt(input, size);
      attempts := attempts + [size];
    }
    match ret {
      case Done(data) =>
        Offered(initialSize, k);
        return Ok(data), attempts;
      case BufferError =>
        if input.Valid? {
          NothingOfferedFits(initialSize, k, |input.data|);
        }
        return Err("buf error"), attempts;
      case Failed(e) => return Err(e), attempts;
    }
  }

  /** After the last attempt every further doubling is too large to be offered. */
  lemma {:induction false} NothingOfferedFits(g: nat, k: nat, n: nat)
    requires n > Doubled(g, k) && 2 * Doubled(g, k) >= INT_MAX
    ensures forall size :: IsOffered(g, size) ==> n > size
  {
    forall size | IsOffered(g, size)
      ensures n > size
    {
      if size == g {
        DoubledMonotone(g, 0, k);
      } else {
        var j: nat :| size == Doubled(g, j);
        if j <= k {
          DoubledMonotone(g, j, k);
        } else {
          DoubledMonotone(g, k + 1, j);
        }
      }
    }
  }
}
