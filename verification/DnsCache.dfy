/** DNS query results, the cache they are kept in, and which of them are due for refresh. */
module DnsCache {
  import opened Bytes

  type Octets = seq<byte>

  const LONG_MAX := 0x7FFF_FFFF_FFFF_FFFF
  const UINT32_MAX := 0xFFFF_FFFF

  /** The times of a resource record: its signed 32-bit time to live and when it expires. */
  datatype Rec = Rec(ttl: int, expires: int)

  predicate ValidRec(r: Rec) {
    -0x8000_0000 <= r.ttl < 0x8000_0000 && r.expires < LONG_MAX
  }

  /** The time to live as the record returns it: unsigned. */
  function TtlOf(r: Rec): int {
    if r.ttl < 0 then r.ttl + 0x1_0000_0000 else r.ttl
  }

  /** The time to live as unsigned has the same 32 bits; only zero stays zero. */
  lemma TtlIsUnsigned(r: Rec)
    requires ValidRec(r)
    ensures 0 <= TtlOf(r) < 0x1_0000_0000 && (TtlOf(r) - r.ttl) % 0x1_0000_0000 == 0
    ensures TtlOf(r) == 0 <==> r.ttl == 0
  {
  }

  // ----- query results -----

  /** The earliest expiry of the records with a non-zero time to live, or never. */
  ghost predicate Earliest(e: int, rs: seq<Rec>) {
    && (forall r | r in rs && TtlOf(r) != 0 :: e <= r.expires)
    && (e == LONG_MAX || exists r | r in rs :: TtlOf(r) != 0 && e == r.expires)
  }

  /** The least non-zero time to live, or the greatest representable one. */
  ghost predicate Least(t: int, rs: seq<Rec>) {
    && (forall r | r in rs && TtlOf(r) != 0 :: t <= TtlOf(r))
    && (t == UINT32_MAX || exists r | r in rs :: TtlOf(r) != 0 && t == TtlOf(r))
  }

  ghost predicate Times(ttl: int, expires: int, rs: seq<Rec>) {
    (forall r <- rs :: ValidRec(r)) && Earliest(expires, rs) && Least(ttl, rs)
  }

  /** The times of a query with one more record, wherever among the others it is put. */
  lemma TimesInsert(ttl: int, expires: int, xs: seq<Rec>, ys: seq<Rec>, r: Rec)
    requires Times(ttl, expires, xs + ys) && ValidRec(r)
    ensures var counts := TtlOf(r) != 0;
            Times(if counts && TtlOf(r) < ttl then TtlOf(r) else ttl,
                  if counts && r.expires < expires then r.expires else expires,
                  xs + [r] + ys)
  {
    assert r in xs + [r] + ys;
    assert forall x :: x in xs + [r] + ys <==> x == r || x in xs + ys;
  }

  class Query {
    const rtype: nat
    const domain: Octets
    var ttl: int
    var expires: int
    var answers: seq<Rec>
    var authority: seq<Rec>
    var additional: seq<Rec>
    var err: bool

    ghost predicate Valid()
      reads this
    {
      Times(ttl, expires, Records())
    }

    /** The records of all three sections. */
    function Records(): seq<Rec>
      reads this
    {
      answers + authority + additional
    }

    constructor (rtype: nat, domain: Octets)
      ensures this.rtype == rtype && this.domain == domain && Valid() && Records() == [] && !err
    {
      this.rtype, this.domain, ttl, expires, err := rtype, domain, UINT32_MAX, LONG_MAX, false;
      answers, authority, additional := [], [], [];
    }

    /** Lowers the times of the query to those of a record that may be cached. */
    method Account(a: Rec)
      modifies this`ttl, this`expires
      ensures ttl == if TtlOf(a) != 0 && TtlOf(a) < old(ttl) then TtlOf(a) else old(ttl)
      ensures expires == if TtlOf(a) != 0 && a.expires < old(expires) then a.expires else old(expires)
    {
      if expires == 0 || TtlOf(a) != 0 {
        if TtlOf(a) != 0 {
          if a.expires < expires {
            expires := a.expires;
          }
          if TtlOf(a) < ttl {
            ttl := TtlOf(a);
          }
        }
      }
    }

    method AddAnswer(a: Rec)
      requires Valid() && ValidRec(a)
      modifies this`ttl, this`expires, this`answers
      ensures Valid() && answers == old(answers) + [a]
    {
      assert Records() == answers + (authority + additional);
      TimesInsert(ttl, expires, answers, authority + additional, a);
      assert (answers + [a]) + authority + additional == answers + [a] + (authority + additional);
      Account(a);
      answers := answers + [a];
    }

    method AddAuthority(a: Rec)
      requires Valid() && ValidRec(a)
      modifies this`ttl, this`expires, this`authority
      ensures Valid() && authority == old(authority) + [a]
    {
      TimesInsert(ttl, expires, answers + authority, additional, a);
      assert answers + (authority + [a]) + additional == (answers + authority) + [a] + additional;
      Account(a);
      authority := authority + [a];
    }

    method AddAdditional(a: Rec)
      requires Valid() && ValidRec(a)
      modifies this`ttl, this`expires, this`additional
      ensures Valid() && additional == old(additional) + [a]
    {
      assert Records() + [] == Records();
      TimesInsert(ttl, expires, answers + authority + additional, [], a);
      assert answers + authority + (additional + [a]) == answers + authority + additional + [a] + [];
      Account(a);
      additional := additional + [a];
    }

    predicate IsExpired(now: int)
      reads this
    {
      now >= expires
    }
  }

  // ----- keys -----

  datatype Key = Key(rtype: nat, domain: Octets)

  predicate TextLess(a: Octets, b: Octets) {
    if b == [] then false
    else if a == [] then true
    else a[0] < b[0] || (a[0] == b[0] && TextLess(a[1..], b[1..]))
  }

  predicate KeyLess(a: Key, b: Key) {
    if a.rtype < b.rtype then true
    else if a.rtype > b.rtype then false
    else if TextLess(a.domain, b.domain) then true else false
  }

  lemma {:induction false} TextIrreflexive(a: Octets)
    ensures !TextLess(a, a)
    decreases |a|
  {
    if a == [] {
    } else {
      TextIrreflexive(a[1..]);
    }
  }

  lemma {:induction false} TextOrder(a: Octets, b: Octets)
    ensures TextLess(a, b) ==> !TextLess(b, a)
    ensures !TextLess(a, b) && !TextLess(b, a) ==> a == b
    decreases |a| + |b|
  {
    if a != [] && b != [] {
      TextOrder(a[1..], b[1..]);
      assert a == [a[0]] + a[1..] && b == [b[0]] + b[1..];
    }
  }

  lemma {:induction false} TextTransitive(a: Octets, b: Octets, c: Octets)
    requires TextLess(a, b) && TextLess(b, c)
    ensures TextLess(a, c)
    decreases |a|
  {
    if a != [] && a[0] == b[0] == c[0] { TextTransitive(a[1..], b[1..], c[1..]); }
  }

  /** Keys are strictly ordered, and only equal keys are not told apart by the order. */
  lemma KeyOrder(a: Key, b: Key, c: Key)
    ensures !KeyLess(a, a)
    ensures KeyLess(a, b) && KeyLess(b, c) ==> KeyLess(a, c)
    ensures !KeyLess(a, b) && !KeyLess(b, a) <==> a == b
  {
    TextIrreflexive(a.domain);
    TextOrder(a.domain, b.domain);
    if TextLess(a.domain, b.domain) && TextLess(b.domain, c.domain) {
      TextTransitive(a.domain, b.domain, c.domain);
    }
  }

  // ----- which results to refresh -----

  /** Two's complement wrap-around to 2^bits values. */
  function Wrapped(x: int, span: int): int
    requires span > 0
  {
    var u := x % span;
    if u >= span / 2 then u - span else u
  }

  function Truncated(a: int, b: int): int
    requires b > 0
  {
    if a >= 0 then a / b else -(-a / b)
  }

  /** The percentage of its time to live a result has used up, in machine arithmetic. */
  function Percentage(ttl: int, expires: int, now: int): int
    requires ttl > 0
  {
    var diff := Wrapped((ttl - (expires - now)) * 100, 0x1_0000_0000_0000_0000);
    Wrapped(Truncated(diff, ttl), 0x1_0000_0000)
  }

  predicate Due(ttl: int, expires: int, percent: int, now: int)
    requires ttl > 0
  {
    now >= expires || Percentage(ttl, expires, now) >= percent
  }

  /** Wrapping around keeps a value modulo the span and brings it into the signed range. */
  lemma WrappedIs(x: int, half: int)
    requires half > 0
    ensures -half <= Wrapped(x, 2 * half) < half && (x - Wrapped(x, 2 * half)) % (2 * half) == 0
  {
    var span, w := 2 * half, Wrapped(x, 2 * half);
    var q := x / span;
    assert x == q * span + x % span;
    if w < 0 { assert x - w == (q + 1) * span; } else { assert x - w == q * span; }
    Multiple(if w < 0 then q + 1 else q, span);
  }

  lemma Multiple(q: int, d: int)
    requires d > 0
    ensures (q * d) % d == 0
  {
    var k := (q * d) / d - q;
    assert k * d == -((q * d) % d);
    assert k <= -1 ==> k * d <= -d;
    assert k >= 1 ==> k * d >= d;
  }

  /** Division drops the fraction. */
  lemma TruncatedIs(a: int, b: int)
    requires b > 0
    ensures a >= 0 ==> Truncated(a, b) * b <= a < Truncated(a, b) * b + b
    ensures a < 0 ==> Truncated(a, b) * b - b < a <= Truncated(a, b) * b
  {
    if a >= 0 {
      assert a == (a / b) * b + a % b;
    } else {
      assert -a == (-a / b) * b + (-a) % b;
    }
  }

  /** The percentage is a 32-bit number, of a product of 64 bits. */
  lemma PercentageBits(ttl: int, expires: int, now: int)
    requires ttl > 0
    ensures var diff := Wrapped((ttl - (expires - now)) * 100, 0x1_0000_0000_0000_0000);
            var p := Percentage(ttl, expires, now);
            -0x8000_0000 <= p < 0x8000_0000 && (Truncated(diff, ttl) - p) % 0x1_0000_0000 == 0
  {
    var diff := Wrapped((ttl - (expires - now)) * 100, 0x1_0000_0000_0000_0000);
    WrappedIs(Truncated(diff, ttl), 0x8000_0000);
  }

  lemma NoWrap(x: int, span: int)
    requires span > 0 && 0 <= x < span / 2
    ensures Wrapped(x, span) == x
  {
  }

  /** For a result with a record that can be cached, all of them received by now, no
      arithmetic wraps: it is due exactly when it has expired or the given part of its
      time to live, counted back from its expiry, has passed. */
  lemma DueIff(ttl: int, expires: int, rs: seq<Rec>, percent: int, now: int)
    requires Times(ttl, expires, rs) && (exists r <- rs :: TtlOf(r) != 0)
    requires 0 <= percent <= 100 && forall r <- rs :: r.expires <= now + TtlOf(r)
    ensures 0 < ttl && expires <= now + ttl
    ensures Due(ttl, expires, percent, now) <==> now >= expires || (ttl - (expires - now)) * 100 >= percent * ttl
  {
    var least :| least in rs && TtlOf(least) != 0 && TtlOf(least) == ttl;
    assert ValidRec(least);
    if now < expires {
      var used := ttl - (expires - now);
      PercentageIs(ttl, expires, now, used);
      QuotientBelow(used * 100, ttl, percent);
    }
  }

  /** A result with nothing that can be cached never expires, and yet the arithmetic
      wraps so that it is due at every look. */
  lemma UncachedIsAlwaysDue(ttl: int, expires: int, rs: seq<Rec>, percent: int, now: int)
    requires Times(ttl, expires, rs) && forall r <- rs :: TtlOf(r) == 0
    requires 0 <= now < 0x1_0000_0000 && percent <= 100
    ensures now < expires && ttl > 0 && Due(ttl, expires, percent, now)
  {
    var x := (ttl - (expires - now)) * 100;
    assert ttl == UINT32_MAX && expires == LONG_MAX;
    var y := (0x1_0000_0000 + now) * 100;
    assert x == y + (-50) * 0x1_0000_0000_0000_0000;
    assert Wrapped(x, 0x1_0000_0000_0000_0000) == y;
    QuotientBelow(y, ttl, 100);
    QuotientBelow(y, ttl, 1000);
    NoWrap(y / ttl, 0x1_0000_0000);
  }

  lemma PercentageIs(ttl: int, expires: int, now: int, used: int)
    requires 0 <= used < ttl < 0x1_0000_0000 && used == ttl - (expires - now)
    ensures Percentage(ttl, expires, now) == used * 100 / ttl
  {
    NoWrap(used * 100, 0x1_0000_0000_0000_0000);
    var q := used * 100 / ttl;
    assert 0 <= q < 100 by {
      QuotientBelow(used * 100, ttl, 100);
      QuotientBelow(used * 100, ttl, 0);
    }
    NoWrap(q, 0x1_0000_0000);
    hide Wrapped;
  }

  lemma QuotientBelow(x: int, d: int, k: int)
    requires d > 0
    ensures x / d >= k <==> x >= k * d
  {
    var q := x / d;
    assert q * d <= x < q * d + d;
    if q >= k { Scaled(k, q, d); } else { Scaled(q + 1, k, d); }
  }

  lemma Scaled(a: int, b: int, d: int)
    requires a <= b && d > 0
    ensures a * d <= b * d
    ensures (a + 1) * d == a * d + d
  {
  }

  // ----- the cache -----

  class Cache {
    var cache: map<Key, Query>
    var newQueryCount: int

    ghost predicate Valid()
      reads this`cache, cache.Values
    {
      forall k | k in cache :: cache[k].Valid() && cache[k].rtype == k.rtype && cache[k].domain == k.domain
    }

    constructor ()
      ensures Valid() && cache == map[] && newQueryCount == 0
    {
      cache, newQueryCount := map[], 0;
    }

    /** Stores a result that came back without error under its type and domain. */
    method UpdateCache(q: Query?)
      requires Valid() && (q != null ==> q.Valid())
      modifies this
      ensures Valid()
      ensures q == null || q.err ==> cache == old(cache) && newQueryCount == old(newQueryCount)
      ensures q != null && !q.err ==>
                var key := Key(q.rtype, q.domain);
                && cache == old(cache)[key := q]
                && newQueryCount == old(newQueryCount) + if key in old(cache) then 0 else 1
    {
      if q == null { return; }
      if !q.err {
        var key := Key(q.rtype, q.domain);
        if key !in cache {
          newQueryCount := newQueryCount + 1;
        }
        cache := cache[key := q];
      }
    }

    method LookupQuery(rtype: nat, domain: Octets) returns (q: Query?)
      ensures q == if Key(rtype, domain) in cache then cache[Key(rtype, domain)] else null
    {
      var key := Key(rtype, domain);
      q := if key in cache then cache[key] else null;
    }

    /** The stored result while none of its records has expired, and otherwise, or when
        asked to pass the cache over, a new query to be sent. */
    method Ask(rtype: nat, domain: Octets, ignoreCache: bool, now: int) returns (q: Query, cacheHit: bool)
      requires Valid()
      ensures var key := Key(rtype, domain);
              cacheHit <==> !ignoreCache && key in cache && now < cache[key].expires
      ensures cacheHit ==> q == cache[Key(rtype, domain)]
      ensures cacheHit ==> forall r <- q.Records() :: TtlOf(r) == 0 || now < r.expires
      ensures !cacheHit ==> fresh(q) && q.Valid() && q.rtype == rtype && q.domain == domain && q.Records() == []
    {
      var found := LookupQuery(rtype, domain);
      cacheHit := !(found == null || found.IsExpired(now));
      if !cacheHit || ignoreCache {
        q := new Query(rtype, domain);
        if ignoreCache {
          cacheHit := false;
        }
      } else {
        q := found;
      }
    }

    ghost predicate Stale(k: Key, percent: int, now: int)
      reads this`cache, cache.Values
    {
      k in cache && cache[k].ttl > 0 && Due(cache[k].ttl, cache[k].expires, percent, now)
    }

    method IsStale(k: Key, percent: int, now: int) returns (stale: bool)
      requires Valid() && k in cache
      ensures stale == Stale(k, percent, now)
    {
      var q := cache[k];
      TtlPositive(q.ttl, q.Records());
      stale := q.IsExpired(now) || Percentage(q.ttl, q.expires, now) >= percent;
    }

    /** The keys of exactly the results due for refresh, each once. */
    method IdentifyExpired(percent: int, now: int) returns (keys: seq<Key>)
      requires Valid()
      ensures forall k :: k in keys <==> Stale(k, percent, now)
      ensures forall i, j | 0 <= i < j < |keys| :: keys[i] != keys[j]
    {
      hide Stale, Valid;
      keys := [];
      ghost var done: set<Key> := {};
      var todo := cache.Keys;
      while todo != {}
        invariant done !! todo && done + todo == cache.Keys
        invariant forall k :: k in keys <==> k in done && Stale(k, percent, now)
        invariant forall i, j | 0 <= i < j < |keys| :: keys[i] != keys[j]
        decreases todo
      {
        var k :| k in todo;
        todo := todo - {k};
        var stale := IsStale(k, percent, now);
        if stale {
          keys := keys + [k];
        }
        done := done + {k};
      }
      OnlyCachedIsStale(percent, now);
    }

    /** The keys of all results, each once. */
    method GetCacheKeys() returns (keys: seq<Key>)
      ensures forall k :: k in keys <==> k in cache
      ensures forall i, j | 0 <= i < j < |keys| :: keys[i] != keys[j]
    {
      keys := [];
      var todo := cache.Keys;
      while todo != {}
        invariant todo <= cache.Keys && forall k :: k in keys <==> k in cache && k !in todo
        invariant forall i, j | 0 <= i < j < |keys| :: keys[i] != keys[j]
        decreases todo
      {
        var k :| k in todo;
        todo := todo - {k};
        keys := keys + [k];
      }
    }

    lemma OnlyCachedIsStale(percent: int, now: int)
      ensures forall k :: Stale(k, percent, now) ==> k in cache
    {
    }
  }

  lemma TtlPositive(t: int, rs: seq<Rec>)
    requires Least(t, rs) && forall r <- rs :: ValidRec(r)
    ensures 0 < t <= UINT32_MAX
  {
  }
}
