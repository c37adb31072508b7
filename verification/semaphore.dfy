/**
 * A Zephyr kernel semaphore as a saturating counter. Blocking is not
 * modelled: a take on a zero count is reported as "would block" (`None`),
 * and the transition that needs it is simply not enabled.
 */
module Semaphore {
  import opened Common

  datatype Sem = Sem(count: nat, limit: nat)
  type KSem = s: Sem | 0 < s.limit && s.count <= s.limit witness Sem(0, 1)

  /** `K_SEM_DEFINE(name, initial, limit)`; the kernel rejects other arguments at build time. */
  function Define(initial: nat, limit: nat): (s: KSem)
    requires 0 < limit && initial <= limit
    ensures s.count == initial && s.limit == limit
  {
    Sem(initial, limit)
  }

  /** `k_sem_give`: one more unit, saturating at the limit. */
  function Give(s: KSem): (s': KSem)
    ensures s'.limit == s.limit
    ensures s'.count == Min(s.count + 1, s.limit)
  {
    if s.count < s.limit then Sem(s.count + 1, s.limit) else s
  }

  /** `k_sem_take(s, K_FOREVER)`: succeeds iff the count is positive, and uses up one unit. */
  function Take(s: KSem): (r: Option<KSem>)
    ensures r.None? <==> s.count == 0
    ensures r.Some? ==> r.value.limit == s.limit && r.value.count + 1 == s.count
  {
    if s.count == 0 then None else Some(Sem(s.count - 1, s.limit))
  }

  /** `k` gives in a row. */
  function Gives(s: KSem, k: nat): KSem
    decreases k
  {
    if k == 0 then s else Gives(Give(s), k - 1)
  }

  /** Repeated gives saturate: the count is the smaller of count + k and the limit. */
  lemma {:induction false} GivesSaturate(s: KSem, k: nat)
    ensures Gives(s, k).limit == s.limit
    ensures Gives(s, k).count == Min(s.count + k, s.limit)
    decreases k
  {
    if k > 0 {
      GivesSaturate(Give(s), k - 1);
    }
  }

  /**
   * For a binary semaphore (limit 1): after one or more gives, exactly one
   * take succeeds and the next take would block.
   */
  lemma BinarySignal(s: KSem, k: nat)
    requires s.limit == 1 && k >= 1
    ensures Take(Gives(s, k)).Some?
    ensures Take(Take(Gives(s, k)).value).None?
  {
    GivesSaturate(s, k);
  }
}
