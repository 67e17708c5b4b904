/** `TensorManager`: a per-device, single-slot pool of bf16 scratch buffers that
    the decode hook writes decoded weights into. */
module BufferPool {
  import opened Wrappers
  import opened Basics

  /** A torch device, already in canonical form (a string such as "cuda:0" is
      converted to one of these before it is used as a key). */
  datatype Device = Cpu | Cuda(index: nat)

  /** One bf16 allocation: `id` is its identity, `capacity` its element count. */
  datatype Buffer = Buffer(id: nat, capacity: nat)

  /** A zero-copy view of `length` elements of `buffer` starting at `offset`. */
  datatype View = View(buffer: Buffer, offset: nat, length: nat)

  /** The pool's state: the device-to-buffer dictionary, plus the identity the
      next allocation receives (allocation identities are never reused). */
  datatype Pool = Pool(tensors: map<Device, Buffer>, nextId: nat)

  /** Every live buffer was allocated before `nextId` was handed out. */
  predicate WellFormed(p: Pool) {
    forall d :: d in p.tensors ==> p.tensors[d].id < p.nextId
  }

  /** True when `get_tensor(d, n)` can serve the request from the existing buffer. */
  predicate Reuses(p: Pool, d: Device, n: nat) {
    d in p.tensors && p.tensors[d].capacity >= n
  }

  /** `TensorManager.get_tensor(d, n)`: the new pool and the view returned. */
  function Get(p: Pool, d: Device, n: nat): (Pool, View) {
    if Reuses(p, d, n) then
      (p, View(p.tensors[d], 0, n))
    else
      var created := Buffer(p.nextId, n);
      (Pool(p.tensors[d := created], p.nextId + 1), View(created, 0, n))
  }

  /** `TensorManager.clear_device(d)`; `None` stands for `device=None`. */
  function Clear(p: Pool, d: Option<Device>): Pool {
    match d
    case None => Pool(map[], p.nextId)
    case Some(e) => Pool(p.tensors - {e}, p.nextId)
  }

  /** The view returned always has exactly `n` elements, is a prefix of the
      buffer the pool now holds for `d`, and that buffer holds at least `n`. */
  lemma GetReturnsExactPrefix(p: Pool, d: Device, n: nat)
    ensures var (q, v) := Get(p, d, n);
      && v.length == n && v.offset == 0
      && d in q.tensors && v.buffer == q.tensors[d]
      && q.tensors[d].capacity >= n
  {
  }

  /** A large-enough entry is reused: the pool is left exactly as it was. */
  lemma GetReusesLargeEnough(p: Pool, d: Device, n: nat)
    requires d in p.tensors && p.tensors[d].capacity >= n
    ensures Get(p, d, n).0 == p
    ensures Get(p, d, n).1.buffer == p.tensors[d]
  {
  }

  /** Otherwise the entry for `d` is replaced by a buffer of capacity exactly
      `n` whose identity differs from every live buffer's, and every other
      device keeps its entry. */
  lemma GetReallocates(p: Pool, d: Device, n: nat)
    requires WellFormed(p)
    requires d !in p.tensors || p.tensors[d].capacity < n
    ensures var q := Get(p, d, n).0;
      && q.tensors.Keys == p.tensors.Keys + {d}
      && q.tensors[d].capacity == n
      && (forall e :: e in p.tensors ==> q.tensors[d].id != p.tensors[e].id)
      && (forall e :: e in p.tensors && e != d ==> q.tensors[e] == p.tensors[e])
  {
  }

  /** `get_tensor` keeps the pool valid. */
  lemma GetKeepsWellFormed(p: Pool, d: Device, n: nat)
    requires WellFormed(p)
    ensures WellFormed(Get(p, d, n).0)
  {
  }

  /** The backing allocation for `d` changes identity exactly when the request
      exceeds its capacity; its capacity becomes the larger of the two. */
  lemma IdentityChangesIffGrowth(p: Pool, d: Device, n: nat)
    requires WellFormed(p) && d in p.tensors
    ensures var q := Get(p, d, n).0;
      && (q.tensors[d].id != p.tensors[d].id <==> n > p.tensors[d].capacity)
      && q.tensors[d].capacity == if n > p.tensors[d].capacity then n else p.tensors[d].capacity
  {
  }

  /** A run of `get_tensor(d, n)` calls on one device. */
  function GetMany(p: Pool, d: Device, ns: seq<nat>): Pool
    decreases |ns|
  {
    if ns == [] then p else GetMany(Get(p, d, ns[0]).0, d, ns[1..])
  }

  /** How many of those calls allocated a new buffer. */
  function Reallocations(p: Pool, d: Device, ns: seq<nat>): nat
    decreases |ns|
  {
    if ns == [] then 0
    else (if Reuses(p, d, ns[0]) then 0 else 1) + Reallocations(Get(p, d, ns[0]).0, d, ns[1..])
  }

  /** How often a request is strictly larger than the one before it. */
  function Rises(ns: seq<nat>): nat
    decreases |ns|
  {
    if |ns| < 2 then 0 else (if ns[0] < ns[1] then 1 else 0) + Rises(ns[1..])
  }

  lemma LargestCons(ns: seq<nat>)
    requires |ns| > 1
    ensures Largest(ns) == Max(ns[0], Largest(ns[1..]))
  {
    var m, r := Largest(ns), Largest(ns[1..]);
    assert forall i :: 1 <= i < |ns| ==> ns[i] == ns[1..][i - 1];
    var k :| 0 <= k < |ns[1..]| && ns[1..][k] == r;
    assert ns[k + 1] == r;
  }

  /** After a run of requests the device's buffer holds exactly the largest of
      the requests and the capacity it started with: capacity never decreases. */
  lemma {:induction false} CapacityAfterMany(p: Pool, d: Device, ns: seq<nat>)
    requires ns != []
    ensures d in GetMany(p, d, ns).tensors
    ensures GetMany(p, d, ns).tensors[d].capacity
         == if d in p.tensors then Max(p.tensors[d].capacity, Largest(ns)) else Largest(ns)
    decreases |ns|
  {
    var q := Get(p, d, ns[0]).0;
    if |ns| > 1 {
      CapacityAfterMany(q, d, ns[1..]);
      LargestCons(ns);
    }
  }

  /** At most one reallocation per strict increase between consecutive requests
      (plus one for the first request when it does not fit): for a run of equal
      requests there is at most one allocation. */
  lemma {:induction false} ReallocationsBoundedByRises(p: Pool, d: Device, ns: seq<nat>)
    requires ns != []
    ensures Reallocations(p, d, ns) <= (if Reuses(p, d, ns[0]) then 0 else 1) + Rises(ns)
    decreases |ns|
  {
    var q := Get(p, d, ns[0]).0;
    if |ns| > 1 {
      ReallocationsBoundedByRises(q, d, ns[1..]);
      assert ns[1..][0] == ns[1];
      assert !Reuses(q, d, ns[1]) ==> ns[0] < ns[1];
    }
  }

  /** `clear_device(None)` empties the pool. `clear_device(d)` removes only
      `d`'s entry (nothing at all when `d` has none). */
  lemma ClearSemantics(p: Pool, d: Option<Device>)
    ensures d.None? ==> Clear(p, d).tensors == map[]
    ensures d.Some? ==> Clear(p, d).tensors.Keys == p.tensors.Keys - {d.value}
    ensures d.Some? ==> forall e :: e in p.tensors && e != d.value ==> Clear(p, d).tensors[e] == p.tensors[e]
    ensures d.Some? && d.value !in p.tensors ==> Clear(p, d) == p
  {
  }

  /** After a clear, the next request on the released device allocates a new
      buffer whose identity differs from every buffer that was live before. */
  lemma {:induction false} ClearThenGetAllocates(p: Pool, d: Device, n: nat)
    requires WellFormed(p)
    ensures var q := Get(Clear(p, Some(d)), d, n).0;
      && q.tensors[d].capacity == n
      && forall e :: e in p.tensors ==> q.tensors[d].id != p.tensors[e].id
  {
    var c := Clear(p, Some(d));
    assert WellFormed(c);
    assert d !in c.tensors;
  }

  /** The pool as the program holds it: one dictionary mutated in place. */
  class TensorManager {
    var tensors: map<Device, Buffer>
    var nextId: nat

    function State(): Pool
      reads this
    {
      Pool(tensors, nextId)
    }

    predicate Valid()
      reads this
    {
      WellFormed(State())
    }

    constructor ()
      ensures Valid() && tensors == map[]
    {
      tensors := map[];
      nextId := 0;
    }

    /** `get_tensor(device, n_elements)`: the view has exactly `n` elements;
        the pool is untouched when the current buffer is large enough, and
        otherwise holds a new buffer of exactly `n` for `d`. */
    method GetTensor(d: Device, n: nat) returns (v: View)
      requires Valid()
      modifies this
      ensures Valid()
      ensures (State(), v) == Get(old(State()), d, n)
      ensures v.length == n && v.offset == 0 && d in tensors && v.buffer == tensors[d]
      ensures old(Reuses(State(), d, n)) ==> tensors == old(tensors) && nextId == old(nextId)
      ensures !old(Reuses(State(), d, n)) ==>
        tensors == old(tensors)[d := Buffer(old(nextId), n)] && nextId == old(nextId) + 1
    {
      if d in tensors {
        var existing := tensors[d];
        if existing.capacity >= n {
          return View(existing, 0, n);
        }
        tensors := tensors - {d};
      }
      var created := Buffer(nextId, n);
      nextId := nextId + 1;
      tensors := tensors[d := created];
      assert tensors == old(tensors)[d := created];
      v := View(created, 0, n);
    }

    /** `clear_device(device)`: all entries for `None`, otherwise only `d`'s. */
    method ClearDevice(d: Option<Device>)
      requires Valid()
      modifies this
      ensures Valid()
      ensures State() == Clear(old(State()), d)
      ensures d.None? ==> tensors == map[]
      ensures d.Some? ==> tensors == old(tensors) - {d.value}
    {
      if d.None? {
        tensors := map[];
      } else if d.value in tensors {
        tensors := tensors - {d.value};
      }
    }
  }
}
