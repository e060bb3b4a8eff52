/** The pool of TEID range values handed to remote nodes. */
module TeidRange {

  const NO_VALUE := -1

  class Holder {
    var trv: int

    constructor ()
      ensures trv == NO_VALUE
    {
      trv := NO_VALUE;
    }
  }

  function Pow2(n: nat): (r: nat)
    ensures r >= 1
  {
    if n == 0 then 1 else 2 * Pow2(n - 1)
  }

  /** The sizes of the ranges for the bit counts that are accepted. */
  lemma RangeSizes()
    ensures Pow2(0) == 1 && Pow2(1) == 2 && Pow2(2) == 4 && Pow2(3) == 8
    ensures Pow2(4) == 16 && Pow2(5) == 32 && Pow2(6) == 64 && Pow2(7) == 128
  {
    assert Pow2(3) == 8 && Pow2(5) == 32;
  }

  predicate Distinct(s: seq<int>) {
    forall i, j | 0 <= i < j < |s| :: s[i] != s[j]
  }

  class TeidRangeManager {
    const range: nat
    var free: seq<int>
    var used: map<int, Holder>

    /** Free and used values partition the range. */
    ghost predicate Valid()
      reads this
    {
      && Distinct(free)
      && (forall v :: v in free ==> v !in used)
      && (forall v :: 0 <= v < range <==> v in free || v in used)
    }

    /** Every used value is the one its holder carries. */
    ghost predicate Consistent()
      reads this, used.Values
    {
      forall v <- used :: used[v].trv == v
    }

    constructor (bits: int)
      requires 0 <= bits <= 7
      ensures Valid() && Consistent() && range == Pow2(bits)
      ensures free == seq(range, i => i) && used == map[]
    {
      var r := Pow2(bits);
      range := r;
      var values: seq<int> := [];
      for i := 0 to r
        invariant values == seq(i, k => k)
      {
        values := values + [i];
      }
      free := values;
      used := map[];
      forall v | 0 <= v < r ensures v in values { assert values[v] == v; }
    }

    /** A manager for a number of range bits, which must be from 0 to 7. */
    static method Create(bits: int) returns (m: TeidRangeManager?)
      ensures m == null <==> bits < 0 || bits > 7
      ensures m != null ==> fresh(m) && m.Valid() && m.range == Pow2(bits) && m.free == seq(m.range, i => i)
    {
      if bits < 0 || bits > 7 {
        return null;
      }
      m := new TeidRangeManager(bits);
    }

    /** Hands out the value that has been free longest; fails only when all are in
        use.  The pool of used values stays consistent exactly when the holder did
        not already carry one of them. */
    method Assign(n: Holder) returns (ok: bool)
      requires Valid() && Consistent()
      modifies this`free, this`used, n
      ensures Valid()
      ensures ok <==> exists v :: 0 <= v < range && v !in old(used)
      ensures ok ==> n.trv == old(free)[0] && n.trv !in old(used)
                     && free == old(free)[1..] && used == old(used)[n.trv := n]
      ensures !ok ==> free == old(free) && used == old(used) && n.trv == old(n.trv)
      ensures Consistent() <==> !ok || forall v <- old(used) :: old(used)[v] != n
    {
      if |free| == 0 {
        return false;
      }
      var trv := free[0];
      assert trv in free;
      assert 0 <= trv < range && trv !in used;
      assert forall v :: v in free[1..] ==> v in free && v != trv;
      assert forall v :: v in free ==> v == trv || v in free[1..];
      free := free[1..];
      n.trv := trv;
      used := used[trv := n];
      ok := true;
      if v :| v in old(used) && old(used)[v] == n {
        assert v in used && used[v].trv != v;
      }
    }

    /** Takes back the value a holder carries, if any. */
    method Release(n: Holder)
      requires Valid() && Consistent()
      modifies this`free, this`used, n
      ensures Valid() && Consistent() && n.trv == NO_VALUE && n !in used.Values
      ensures used == old(used) - {old(n.trv)}
      ensures free == if old(n.trv) in old(used) then old(free) + [old(n.trv)] else old(free)
    {
      var trv := n.trv;
      if trv in used {
        used := used - {trv};
        free := free + [trv];
        assert forall v :: v in free <==> v in old(free) || v == trv;
        assert forall v <- used :: used[v].trv == v && v != trv;
      }
      assert forall v <- used :: used[v] != n;
      n.trv := NO_VALUE;
    }
  }
}
