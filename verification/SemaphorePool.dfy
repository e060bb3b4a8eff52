/** Allocation of public semaphore ids from a free list threaded through an array. */
module SemaphorePool {

  import opened Wrappers

  datatype Error = UnableToAllocate

  const END := -1

  /** Following the links from `head` visits exactly the indices of `l`, then ends. */
  ghost predicate Chain(next: seq<int>, head: int, l: seq<int>)
    decreases |l|
  {
    if l == [] then head == END
    else head == l[0] && 0 <= head < |next| && Chain(next, next[head], l[1..])
  }

  ghost predicate Distinct(l: seq<int>) {
    forall i, j | 0 <= i < j < |l| :: l[i] != l[j]
  }

  /** The links from a head determine the list. */
  lemma {:induction false} ChainIsUnique(next: seq<int>, head: int, l: seq<int>, k: seq<int>)
    requires Chain(next, head, l) && Chain(next, head, k)
    ensures l == k
    decreases |l|
  {
    if l != [] && k != [] {
      ChainIsUnique(next, next[head], l[1..], k[1..]);
      assert l == [l[0]] + l[1..] && k == [k[0]] + k[1..];
    }
  }

  /** A list that ends never repeats an index. */
  lemma {:induction false} ChainHasNoCycle(next: seq<int>, head: int, l: seq<int>)
    requires Chain(next, head, l)
    ensures Distinct(l) && forall i | 0 <= i < |l| :: 0 <= l[i] < |next|
    decreases |l|
  {
    if l == [] {
    } else {
      ChainHasNoCycle(next, next[head], l[1..]);
      forall j | 0 < j < |l| ensures l[j] != l[0] {
        ChainFrom(next, head, l, j);
        if l[j] == l[0] { ChainIsUnique(next, l[0], l, l[j..]); }
      }
    }
  }

  /** Every tail of the list is the list from its own first index. */
  lemma {:induction false} ChainFrom(next: seq<int>, head: int, l: seq<int>, j: nat)
    requires Chain(next, head, l) && j < |l|
    ensures Chain(next, l[j], l[j..])
    decreases |l|
  {
    if j == 0 {
      assert l[0..] == l;
    } else {
      ChainFrom(next, next[head], l[1..], j - 1);
      assert l[1..][j - 1..] == l[j..];
    }
  }

  /** Changing the link of an index outside the list leaves the list alone. */
  lemma {:induction false} ChainFrame(next: seq<int>, head: int, l: seq<int>, k: nat, v: int)
    requires Chain(next, head, l) && k < |next| && k !in l
    ensures Chain(next[k := v], head, l)
    decreases |l|
  {
    if l == [] {
    } else {
      assert head == l[0];
      ChainFrame(next, next[head], l[1..], k, v);
    }
  }

  /** Pushing an index that is already on the list makes a cycle: no list starts there. */
  lemma {:induction false} DoubleFreeHasNoChain(next: seq<int>, head: int, l: seq<int>, k: nat, m: seq<int>)
    requires Chain(next, head, l) && k < |next| && k in l
    ensures !Chain(next[k := head], k, m)
    decreases |m|
  {
    var next' := next[k := head];
    if Chain(next', k, m) {
      ChainHasNoCycle(next, head, l);
      ChainHasNoCycle(next', k, m);
      // the links from head lead back to k without passing through it
      LeadsTo(next, head, l, k, head, m[1..]);
    }
  }

  /** With k re-linked to `v`, the old list still leads from its head to k. */
  lemma {:induction false} LeadsTo(next: seq<int>, head: int, l: seq<int>, k: nat, v: int, m: seq<int>)
    requires Chain(next, head, l) && k < |next| && k in l && Chain(next[k := v], head, m)
    ensures k in m
    decreases |l|
  {
    if head != k {
      LeadsTo(next, next[head], l[1..], k, v, m[1..]);
    }
  }

  class SynchObjects {
    const max: nat
    const next: array<int>
    var head: int
    var currused: int
    var maxused: int
    ghost var free: seq<int>

    /** The free list ends, its length and the used count make up the total. */
    ghost predicate Valid()
      reads this, next
    {
      && max >= 1 && next.Length == max
      && Chain(next[..], head, free)
      && |free| + currused == max
      && currused <= maxused <= max
    }

    ghost predicate Allocated(id: int)
      reads this
    {
      1 <= id <= max && id - 1 !in free
    }

    /** The list set-up: each entry links to the following one, the last ends the list. */
    constructor (max: nat)
      requires max >= 1
      ensures Valid() && this.max == max && currused == 0 && fresh(next)
      ensures forall id :: !Allocated(id)
    {
      this.max := max;
      var links := new int[max];
      var ofs := 1;
      while ofs < max
        invariant 1 <= ofs <= max
        invariant forall i | 0 <= i < ofs - 1 :: links[i] == i + 1
      {
        links[ofs - 1] := ofs;
        ofs := ofs + 1;
      }
      links[ofs - 1] := END;
      next := links;
      head := 0;
      currused := 0;
      maxused := 0;
      free := seq(max, i => i);
      Straight(links[..], 0, max);
      new;
      assert free == seq(max - 0, i => 0 + i) && next[..] == links[..];
      forall k | 0 <= k < max ensures k in free { assert free[k] == k; }
    }

    /** Hands out an id that is not in use; fails exactly when every id is. */
    method NextSemaphore() returns (r: Result<int, Error>)
      requires Valid()
      modifies this`head, this`currused, this`maxused, this`free
      ensures Valid()
      ensures r.Failure? <==> forall id | 1 <= id <= max :: old(Allocated(id))
      ensures r.Failure? ==> forall id :: Allocated(id) <==> old(Allocated(id))
      ensures r.Success? ==> 1 <= r.value <= max && !old(Allocated(r.value)) && currused == old(currused) + 1
      ensures r.Success? ==> forall id :: Allocated(id) <==> old(Allocated(id)) || id == r.value
    {
      ChainHasNoCycle(next[..], head, free);
      if head == END {
        return Failure(UnableToAllocate);
      }
      assert !Allocated(free[0] + 1);
      var ofs := head;
      head := next[head];
      free := free[1..];
      assert forall i :: i in old(free) <==> i == ofs || i in free;
      assert ofs !in free;
      FreeIsBounded();
      currused := currused + 1;
      if currused > maxused {
        maxused := currused;
      }
      r := Success(ofs + 1);
    }

    lemma FreeIsBounded()
      requires Chain(next[..], head, free)
      ensures |free| <= next.Length
    {
      ChainHasNoCycle(next[..], head, free);
      DistinctBounded(free, next.Length);
    }

    /** Returns an id to the list.  The list stays a list exactly when the id was in use. */
    method FreeSemaphore(semId: int)
      requires Valid() && 1 <= semId <= max
      modifies this`head, this`currused, this`free, next
      ensures old(Allocated(semId)) ==> exists l :: Chain(next[..], head, l)
      ensures !old(Allocated(semId)) ==> forall l :: !Chain(next[..], head, l)
      ensures old(Allocated(semId)) ==>
                && Valid() && currused == old(currused) - 1
                && forall id :: Allocated(id) <==> old(Allocated(id)) && id != semId
    {
      var idx := semId - 1;
      ghost var was := next[..];
      next[idx] := head;
      assert next[..] == was[idx := head];
      if idx !in free {
        ChainFrame(was, head, free, idx, head);
        free := [idx] + free;
        assert free[1..] == old(free);
        assert forall i :: i in free <==> i == idx || i in old(free);
      } else {
        forall l ensures !Chain(next[..], idx, l) {
          DoubleFreeHasNoChain(was, head, free, idx, l);
        }
      }
      head := idx;
      currused := currused - 1;
      assert idx !in old(free) ==> Chain(next[..], head, free);
      assert idx in old(free) ==> forall l :: !Chain(next[..], head, l);
    }
  }

  /** Links i -> i+1 up to the end make the list from, from+1, ..., n-1. */
  lemma {:induction false} Straight(next: seq<int>, from: nat, n: nat)
    requires from <= n == |next| && n >= 1
    requires forall i | 0 <= i < n :: next[i] == if i == n - 1 then END else i + 1
    ensures Chain(next, if from == n then END else from, seq(n - from, i => from + i))
    decreases n - from
  {
    if from == n {
    } else {
      Straight(next, from + 1, n);
      assert seq(n - from, i => from + i)[1..] == seq(n - from - 1, i => from + 1 + i);
    }
  }

  function First(l: seq<int>): int {
    if l == [] then END else l[0]
  }

  lemma {:induction false} DistinctBounded(l: seq<int>, n: nat)
    requires Distinct(l) && forall i | 0 <= i < |l| :: 0 <= l[i] < n
    ensures |l| <= n
    decreases n
  {
    if n == 0 {
      assert l == [] || First(l) < n;
    } else if i :| 0 <= i < |l| && l[i] == n - 1 {
      DistinctBounded(l[..i] + l[i + 1..], n - 1);
    } else {
      DistinctBounded(l, n - 1);
    }
  }
}
