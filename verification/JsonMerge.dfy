/** Recursive merge of JSON documents: members of the source are merged one by one
    into the destination. */
module JsonMerge {
  import opened Wrappers

  /** JSON values; true and false are different types, as in the parser used. */
  datatype Json =
    | Null
    | False
    | True
    | Number(n: int)
    | Text(s: string)
    | Arr(elems: seq<Json>)
    | Obj(members: seq<Member>)

  datatype Member = Member(name: string, value: Json)

  /** Two values of the same type tag. */
  predicate SameType(a: Json, b: Json) {
    match a
    case Null => b.Null?
    case False => b.False?
    case True => b.True?
    case Number(_) => b.Number?
    case Text(_) => b.Text?
    case Arr(_) => b.Arr?
    case Obj(_) => b.Obj?
  }

  /** Position of the first member with a name, or the number of members. */
  function Find(ms: seq<Member>, name: string): (i: nat)
    ensures i <= |ms|
    ensures i < |ms| ==> ms[i].name == name
    ensures forall k | 0 <= k < i :: ms[k].name != name
  {
    if ms == [] then 0 else if ms[0].name == name then 0 else 1 + Find(ms[1..], name)
  }

  predicate Has(ms: seq<Member>, name: string) {
    Find(ms, name) < |ms|
  }

  /** The state of the destination when the loop stops, and whether it ran to the end. */
  datatype Outcome = Outcome(ok: bool, doc: Json)
  datatype MembersOutcome = MembersOutcome(ok: bool, ms: seq<Member>)

  // ----- what the code does -----

  /** Merging a source value into a destination value of the same name. */
  function MergeValue(d: Json, s: Json): Outcome
    decreases s, 2
  {
    if !SameType(d, s) then Outcome(false, d)
    else match s
      case Arr(es) => Outcome(true, Arr(d.elems + es))
      case Obj(ms) => var r := MergeFrom(d.members, ms); Outcome(r.ok, Obj(r.ms))
      case _ => Outcome(true, s)
  }

  /** Merging one source member. */
  function MergeOne(d: seq<Member>, m: Member): MembersOutcome
    decreases m, 3
  {
    var i := Find(d, m.name);
    if i == |d| then MembersOutcome(true, d + [m])
    else var r := MergeValue(d[i].value, m.value);
         MembersOutcome(r.ok, d[i := Member(m.name, r.doc)])
  }

  /** Merging source members in order, stopping at the first that fails. */
  function MergeFrom(d: seq<Member>, s: seq<Member>): MembersOutcome
    decreases s, 1
  {
    if s == [] then MembersOutcome(true, d)
    else var r := MergeOne(d, s[0]);
         if r.ok then MergeFrom(r.ms, s[1..]) else r
  }

  /** The merge routine: a loop over the source's members that updates the
      destination in place. */
  method Merge(dst: seq<Member>, src: seq<Member>) returns (ok: bool, doc: seq<Member>)
    ensures MembersOutcome(ok, doc) == MergeFrom(dst, src)
    decreases src
  {
    doc := dst;
    var k := 0;
    assert src[0..] == src;
    while k < |src|
      invariant 0 <= k <= |src|
      invariant MergeFrom(dst, src) == MergeFrom(doc, src[k..])
    {
      assert src[k..][0] == src[k] && src[k..][1..] == src[k + 1..];
      var i := Find(doc, src[k].name);
      ghost var one := MergeOne(doc, src[k]);
      assert MergeFrom(doc, src[k..]) == if one.ok then MergeFrom(one.ms, src[k + 1..]) else one;
      if i == |doc| {
        doc := doc + [src[k]];
      } else {
        ghost var r := MergeValue(doc[i].value, src[k].value);
        assert one == MembersOutcome(r.ok, doc[i := Member(src[k].name, r.doc)]);
        var s, d := src[k].value, doc[i].value;
        if !SameType(d, s) {
          assert doc[i := Member(src[k].name, d)] == doc;
          return false, doc;
        }
        if s.Arr? {
          d := Arr(d.elems + s.elems);
        } else if s.Obj? {
          var merged, ms := Merge(d.members, s.members);
          if !merged {
            doc := doc[i := Member(src[k].name, Obj(ms))];
            return false, doc;
          }
          d := Obj(ms);
        } else {
          d := s;
        }
        doc := doc[i := Member(src[k].name, d)];
      }
      k := k + 1;
    }
    ok := true;
  }

  // ----- what it means -----

  /** Names are unique at every level that merging descends to. */
  ghost predicate Unique(j: Json)
    decreases j, 0
  {
    j.Obj? ==> UniqueNames(j.members) && forall i | 0 <= i < |j.members| :: Unique(j.members[i].value)
  }

  ghost predicate UniqueNames(ms: seq<Member>) {
    forall i, j | 0 <= i < j < |ms| :: ms[i].name != ms[j].name
  }

  ghost predicate UniqueAll(ms: seq<Member>) {
    UniqueNames(ms) && forall i | 0 <= i < |ms| :: Unique(ms[i].value)
  }

  function Get(ms: seq<Member>, name: string): Json
    requires Has(ms, name)
  {
    ms[Find(ms, name)].value
  }

  /** Success of a merge, name by name. */
  ghost predicate Compatible(d: seq<Member>, s: seq<Member>) {
    forall name | Has(d, name) && Has(s, name) :: MergeValue(Get(d, name), Get(s, name)).ok
  }

  function UpdateMember(m: Member, s: seq<Member>): Member {
    if Has(s, m.name) then Member(m.name, MergeValue(m.value, Get(s, m.name)).doc) else m
  }

  /** The destination's members, each merged with the source's member of that name. */
  function Update(d: seq<Member>, s: seq<Member>): (r: seq<Member>)
    ensures |r| == |d|
  {
    seq(|d|, i requires 0 <= i < |d| => UpdateMember(d[i], s))
  }

  /** The source's members whose names the destination lacks, in order. */
  function Added(d: seq<Member>, s: seq<Member>): seq<Member> {
    if s == [] then []
    else (if Has(d, s[0].name) then [] else [s[0]]) + Added(d, s[1..])
  }

  function Merged(d: seq<Member>, s: seq<Member>): seq<Member> {
    Update(d, s) + Added(d, s)
  }

  // ----- names and lookup -----

  lemma {:induction false} HasIff(ms: seq<Member>, name: string)
    ensures Has(ms, name) <==> exists i | 0 <= i < |ms| :: ms[i].name == name
  {
  }

  lemma FindAt(ms: seq<Member>, i: nat)
    requires UniqueNames(ms) && i < |ms|
    ensures Has(ms, ms[i].name) && Find(ms, ms[i].name) == i
  {
    HasIff(ms, ms[i].name);
  }

  /** Lookup in a concatenation. */
  lemma {:induction false} FindConcat(a: seq<Member>, b: seq<Member>, name: string)
    ensures Find(a + b, name) == if Has(a, name) then Find(a, name) else |a| + Find(b, name)
    decreases |a|
  {
    if a == [] {
      assert a + b == b;
    } else {
      assert (a + b)[1..] == a[1..] + b;
      FindConcat(a[1..], b, name);
    }
  }

  lemma FindCons(m: Member, s: seq<Member>, name: string)
    ensures Find([m] + s, name) == if name == m.name then 0 else 1 + Find(s, name)
  {
    FindConcat([m], s, name);
  }

  /** Lookup does not depend on values. */
  lemma {:induction false} FindByNames(a: seq<Member>, b: seq<Member>, name: string)
    requires |a| == |b| && forall i | 0 <= i < |a| :: a[i].name == b[i].name
    ensures Find(a, name) == Find(b, name)
    decreases |a|
  {
    if a == [] {
    } else {
      FindByNames(a[1..], b[1..], name);
    }
  }

  lemma AddedStep(d: seq<Member>, s: seq<Member>)
    ensures Added(d, s) == if s == [] then []
                           else if Has(d, s[0].name) then Added(d, s[1..])
                           else [s[0]] + Added(d, s[1..])
  {
    if s != [] { assert [] + Added(d, s[1..]) == Added(d, s[1..]); }
  }

  lemma {:induction false} AddedHas(d: seq<Member>, s: seq<Member>, name: string)
    ensures Has(Added(d, s), name) <==> Has(s, name) && !Has(d, name)
    ensures Has(Added(d, s), name) ==> Get(Added(d, s), name) == Get(s, name)
    decreases |s|
  {
    hide Find, Added;
    AddedStep(d, s);
    if s == [] {
      assert !Has([], name) by { HasIff([], name); }
    } else {
      AddedHas(d, s[1..], name);
      var rest := Added(d, s[1..]);
      assert s == [s[0]] + s[1..];
      FindCons(s[0], s[1..], name);
      FindCons(s[0], rest, name);
    }
  }

  /** What a merge holds under each name: nothing is lost, and common names are merged. */
  lemma MergedLookup(d: seq<Member>, s: seq<Member>, name: string)
    ensures Has(Merged(d, s), name) <==> Has(d, name) || Has(s, name)
    ensures Has(Merged(d, s), name) ==>
              Get(Merged(d, s), name) ==
                if !Has(s, name) then Get(d, name)
                else if !Has(d, name) then Get(s, name)
                else MergeValue(Get(d, name), Get(s, name)).doc
  {
    FindConcat(Update(d, s), Added(d, s), name);
    FindByNames(Update(d, s), d, name);
    AddedHas(d, s, name);
  }

  // ----- the loop computes the closed form -----

  /** The destination after a source member has been merged into the member of its name. */
  function Replaced(d: seq<Member>, m: Member): (r: seq<Member>)
    requires Has(d, m.name)
    ensures |r| == |d|
  {
    d[Find(d, m.name) := Member(m.name, MergeValue(Get(d, m.name), m.value).doc)]
  }

  lemma OneUpdates(d: seq<Member>, m: Member, s: seq<Member>)
    requires UniqueNames(d) && Has(d, m.name) && !Has(s, m.name)
    ensures UniqueNames(Replaced(d, m))
    ensures Update(Replaced(d, m), s) == Update(d, [m] + s)
    ensures Added(Replaced(d, m), s) == Added(d, [m] + s)
  {
    hide MergeValue, Find;
    var d' := Replaced(d, m);
    forall k | 0 <= k < |d| ensures UpdateMember(d'[k], s) == UpdateMember(d[k], [m] + s) {
      FindAt(d, k);
      FindCons(m, s, d[k].name);
    }
    forall name ensures Has(d', name) <==> Has(d, name) { FindByNames(d', d, name); }
    assert ([m] + s)[1..] == s;
    AddedSame(d', d, s);
  }

  lemma OneUpdateCompatible(d: seq<Member>, m: Member, s: seq<Member>)
    requires UniqueNames(d) && Has(d, m.name) && !Has(s, m.name)
    ensures Compatible(Replaced(d, m), s) && MergeValue(Get(d, m.name), m.value).ok
            <==> Compatible(d, [m] + s)
  {
    hide MergeValue, Find;
    var d' := Replaced(d, m);
    forall name ensures Find(d', name) == Find(d, name) { FindByNames(d', d, name); }
    FindCons(m, s, m.name);
    if Compatible(d, [m] + s) {
      forall name | Has(d', name) && Has(s, name) ensures MergeValue(Get(d', name), Get(s, name)).ok {
        FindCons(m, s, name);
        assert MergeValue(Get(d, name), Get([m] + s, name)).ok;
      }
      assert MergeValue(Get(d, m.name), Get([m] + s, m.name)).ok;
    }
    if Compatible(d', s) && MergeValue(Get(d, m.name), m.value).ok {
      forall name | Has(d, name) && Has([m] + s, name) ensures MergeValue(Get(d, name), Get([m] + s, name)).ok {
        FindCons(m, s, name);
        if name != m.name { assert MergeValue(Get(d', name), Get(s, name)).ok; }
      }
    }
  }

  lemma {:induction false} AddedSame(a: seq<Member>, b: seq<Member>, s: seq<Member>)
    requires forall name :: Has(a, name) <==> Has(b, name)
    ensures Added(a, s) == Added(b, s)
    decreases |s|
  {
    if s == [] {
    } else {
      AddedSame(a, b, s[1..]);
    }
  }

  lemma {:induction false} AddedLonger(d: seq<Member>, m: Member, s: seq<Member>)
    requires !Has(s, m.name)
    ensures Added(d + [m], s) == Added(d, s)
    decreases |s|
  {
    if s == [] {
    } else {
      AddedLonger(d, m, s[1..]);
      FindConcat(d, [m], s[0].name);
    }
  }

  lemma OneAdds(d: seq<Member>, m: Member, s: seq<Member>)
    requires UniqueNames(d) && !Has(d, m.name) && !Has(s, m.name)
    ensures UniqueNames(d + [m])
    ensures Merged(d + [m], s) == Merged(d, [m] + s)
  {
    HasIff(d, m.name);
    hide MergeValue, Find;
    AddedLonger(d, m, s);
    assert ([m] + s)[1..] == s;
    forall k | 0 <= k < |d| ensures UpdateMember(d[k], s) == UpdateMember(d[k], [m] + s) {
      FindAt(d, k);
      FindCons(m, s, d[k].name);
    }
    assert Update(d + [m], s) == Update(d, [m] + s) + [m];
    assert Added(d, [m] + s) == [m] + Added(d, s);
  }

  lemma OneAddCompatible(d: seq<Member>, m: Member, s: seq<Member>)
    requires !Has(d, m.name) && !Has(s, m.name)
    ensures Compatible(d + [m], s) <==> Compatible(d, [m] + s)
  {
    forall name ensures Find(d + [m], name) ==
      if Has(d, name) then Find(d, name) else if name == m.name then |d| else |d| + 1
    {
      FindConcat(d, [m], name);
    }
    hide MergeValue, Find;
    if Compatible(d, [m] + s) {
      forall name | Has(d + [m], name) && Has(s, name) ensures MergeValue(Get(d + [m], name), Get(s, name)).ok {
        FindCons(m, s, name);
        assert MergeValue(Get(d, name), Get([m] + s, name)).ok;
      }
    }
    if Compatible(d + [m], s) {
      forall name | Has(d, name) && Has([m] + s, name) ensures MergeValue(Get(d, name), Get([m] + s, name)).ok {
        FindCons(m, s, name);
        assert MergeValue(Get(d + [m], name), Get(s, name)).ok;
      }
    }
  }

  /** For members with unique names the loop succeeds exactly when every common
      name can be merged, and then computes the closed form. */
  lemma {:induction false} LoopIsMerged(d: seq<Member>, s: seq<Member>)
    requires UniqueNames(d) && UniqueNames(s)
    ensures MergeFrom(d, s).ok <==> Compatible(d, s)
    ensures MergeFrom(d, s).ok ==> MergeFrom(d, s).ms == Merged(d, s)
    decreases |s|
  {
    if s == [] {
      assert Update(d, s) == d;
    } else {
      hide MergeFrom, Find, Compatible, Update, Added, Replaced;
      var m, rest := s[0], s[1..];
      assert s == [m] + rest;
      HasIff(rest, m.name);
      LoopStep(d, s);
      if Has(d, m.name) {
        OneUpdates(d, m, rest);
        OneUpdateCompatible(d, m, rest);
        LoopIsMerged(Replaced(d, m), rest);
      } else {
        OneAdds(d, m, rest);
        OneAddCompatible(d, m, rest);
        LoopIsMerged(d + [m], rest);
      }
    }
  }

  lemma LoopStep(d: seq<Member>, s: seq<Member>)
    requires s != []
    ensures Has(d, s[0].name) && !MergeValue(Get(d, s[0].name), s[0].value).ok ==> !MergeFrom(d, s).ok
    ensures Has(d, s[0].name) && MergeValue(Get(d, s[0].name), s[0].value).ok ==>
              MergeFrom(d, s) == MergeFrom(Replaced(d, s[0]), s[1..])
    ensures !Has(d, s[0].name) ==> MergeFrom(d, s) == MergeFrom(d + [s[0]], s[1..])
  {
  }

  // ----- when it succeeds -----

  /** Two documents agree when they have the same type and, where they are objects,
      their members of equal name agree. */
  ghost predicate Agree(d: Json, s: Json)
    decreases d
  {
    && SameType(d, s)
    && (d.Obj? ==>
          forall i, j | 0 <= i < |d.members| && 0 <= j < |s.members| && d.members[i].name == s.members[j].name ::
            Agree(d.members[i].value, s.members[j].value))
  }

  /** Merging succeeds exactly for documents that agree. */
  lemma {:induction false} SucceedsIffAgree(d: Json, s: Json)
    requires Unique(d) && Unique(s)
    ensures MergeValue(d, s).ok <==> Agree(d, s)
    decreases d
  {
    if d.Obj? && s.Obj? {
      var a, b := d.members, s.members;
      forall i, j | 0 <= i < |a| && 0 <= j < |b| && a[i].name == b[j].name
        ensures Get(a, a[i].name) == a[i].value && Get(b, a[i].name) == b[j].value
        ensures MergeValue(a[i].value, b[j].value).ok <==> Agree(a[i].value, b[j].value)
      {
        FindAt(a, i);
        FindAt(b, j);
        SucceedsIffAgree(a[i].value, b[j].value);
      }
      LoopIsMerged(a, b);
      CompatibleIffPairs(a, b);
    }
  }

  lemma CompatibleIffPairs(a: seq<Member>, b: seq<Member>)
    requires UniqueNames(a) && UniqueNames(b)
    ensures Compatible(a, b) <==>
              forall i, j | 0 <= i < |a| && 0 <= j < |b| && a[i].name == b[j].name :: MergeValue(a[i].value, b[j].value).ok
  {
    hide MergeValue, Find;
    forall i | 0 <= i < |a| ensures Find(a, a[i].name) == i { FindAt(a, i); }
    forall j | 0 <= j < |b| ensures Find(b, b[j].name) == j { FindAt(b, j); }
    if Compatible(a, b) {
      forall i, j | 0 <= i < |a| && 0 <= j < |b| && a[i].name == b[j].name
        ensures MergeValue(a[i].value, b[j].value).ok
      {
        assert Has(a, a[i].name) && Has(b, a[i].name);
      }
    }
  }

  /** An option that is switched on in one file and off in the other: the merge fails at
      it and drops every member after it. */
  lemma TrueIntoFalse(name: string, before: seq<Member>, later: seq<Member>)
    requires !Has(before, name)
    ensures MergeFrom(before + [Member(name, False)], [Member(name, True)] + later)
              == MembersOutcome(false, before + [Member(name, False)])
  {
    var d := before + [Member(name, False)];
    var s := [Member(name, True)] + later;
    FindConcat(before, [Member(name, False)], name);
    assert Find([Member(name, False)], name) == 0;
    assert d[|before| := Member(name, False)] == d;
    assert MergeOne(d, s[0]) == MembersOutcome(false, d);
  }

  // ----- what is in it -----

  predicate Scalar(j: Json) {
    !j.Arr? && !j.Obj?
  }

  predicate SameKind(a: Json, b: Json) {
    && (a.Null? <==> b.Null?) && (a.False? <==> b.False?) && (a.True? <==> b.True?)
    && (a.Number? <==> b.Number?) && (a.Text? <==> b.Text?)
    && (a.Arr? <==> b.Arr?) && (a.Obj? <==> b.Obj?)
  }

  /** Scalars of one kind give the source's, arrays the elements of both in order; values
      of different kinds do not merge. */
  lemma WhatValuesGive(d: Json, s: Json)
    ensures Scalar(s) && SameKind(d, s) ==> MergeValue(d, s) == Outcome(true, s)
    ensures d.Arr? && s.Arr? ==> MergeValue(d, s) == Outcome(true, Arr(d.elems + s.elems))
    ensures d.Obj? && s.Obj? ==> MergeValue(d, s).doc.Obj?
    ensures MergeValue(d, s).ok ==> SameKind(d, s)
    ensures !SameKind(d, s) ==> MergeValue(d, s) == Outcome(false, d)
  {
  }

  /** What a document holds at the end of a path of member names. */
  function At(j: Json, path: seq<string>): Option<Json> {
    if path == [] then Some(j)
    else if j.Obj? && Has(j.members, path[0]) then At(Get(j.members, path[0]), path[1..])
    else None
  }

  /** Wherever it is looked into, a merge holds what one document has there when the other
      has nothing; of two scalars the later one; and of two arrays the elements of the
      first followed by those of the second. */
  lemma {:induction false} MergedAt(d: Json, s: Json, path: seq<string>)
    requires Unique(d) && Unique(s) && MergeValue(d, s).ok
    ensures var r, x, y := At(MergeValue(d, s).doc, path), At(d, path), At(s, path);
            && (x.None? ==> r == y) && (y.None? ==> r == x)
            && (x.Some? && y.Some? ==>
                  && SameKind(x.value, y.value)
                  && (Scalar(y.value) ==> r == y)
                  && (y.value.Arr? ==> r == Some(Arr(x.value.elems + y.value.elems)))
                  && (y.value.Obj? ==> r.Some? && r.value.Obj?))
    decreases |path|
  {
    WhatValuesGive(d, s);
    if path == [] {
    } else if d.Obj? {
      hide MergeValue, Find, Merged;
      var a, b, name := d.members, s.members, path[0];
      ObjectsMerge(a, b);
      MergedLookup(a, b, name);
      if Has(a, name) && Has(b, name) {
        MemberUnique(d, name);
        MemberUnique(s, name);
        assert MergeValue(Get(a, name), Get(b, name)).ok;
        MergedAt(Get(a, name), Get(b, name), path[1..]);
      }
    }
  }

  lemma ObjectsMerge(a: seq<Member>, b: seq<Member>)
    requires UniqueNames(a) && UniqueNames(b) && MergeValue(Obj(a), Obj(b)).ok
    ensures MergeValue(Obj(a), Obj(b)).doc == Obj(Merged(a, b)) && Compatible(a, b)
  {
    LoopIsMerged(a, b);
  }

  lemma MemberUnique(j: Json, name: string)
    requires Unique(j) && j.Obj? && Has(j.members, name)
    ensures Unique(Get(j.members, name))
  {
  }

  /** An option set to two numbers in two files has the later one after the merge. */
  lemma LaterNumberWins(name: string, m: int, n: int)
    ensures MergeFrom([Member(name, Number(m))], [Member(name, Number(n))])
              == MembersOutcome(true, [Member(name, Number(n))])
  {
    var d, s := [Member(name, Number(m))], [Member(name, Number(n))];
    assert Find(d, name) == 0 && s[1..] == [];
    assert MergeOne(d, s[0]) == MembersOutcome(true, s);
  }

  // ----- the algebra -----

  lemma {:induction false} AddedConcat(d: seq<Member>, a: seq<Member>, b: seq<Member>)
    ensures Added(d, a + b) == Added(d, a) + Added(d, b)
    decreases |a|
  {
    if a == [] {
      assert a + b == b;
    } else {
      assert (a + b)[1..] == a[1..] + b;
      AddedConcat(d, a[1..], b);
    }
  }

  /** Filtering by name commutes with updating values. */
  lemma {:induction false} AddedUpdate(a: seq<Member>, b: seq<Member>, c: seq<Member>)
    ensures Update(Added(a, b), c) == Added(a, Update(b, c))
    decreases |b|
  {
    hide Added, Has, UpdateMember;
    AddedStep(a, b);
    AddedStep(a, Update(b, c));
    if b == [] {
    } else {
      AddedUpdate(a, b[1..], c);
      KeepsName(b[0], c);
      assert Update(b, c)[1..] == Update(b[1..], c);
      assert Update([b[0]] + Added(a, b[1..]), c) == [UpdateMember(b[0], c)] + Update(Added(a, b[1..]), c);
    }
  }

  lemma KeepsName(m: Member, s: seq<Member>)
    ensures UpdateMember(m, s).name == m.name
  {
  }

  lemma {:induction false} AddedTwice(a: seq<Member>, b: seq<Member>, c: seq<Member>)
    ensures Added(Merged(a, b), c) == Added(a, Added(b, c))
    decreases |c|
  {
    if c == [] {
    } else {
      AddedTwice(a, b, c[1..]);
      MergedLookup(a, b, c[0].name);
      assert [] + Added(b, c[1..]) == Added(b, c[1..]);
      if !Has(b, c[0].name) {
        assert ([c[0]] + Added(b, c[1..]))[1..] == Added(b, c[1..]);
      }
    }
  }

  /** Merging keeps names unique. */
  lemma {:induction false} MergedUnique(d: Json, s: Json)
    requires Unique(d) && Unique(s) && MergeValue(d, s).ok
    ensures Unique(MergeValue(d, s).doc)
    decreases d
  {
    if d.Obj? {
      var a, b := d.members, s.members;
      LoopIsMerged(a, b);
      AddedUnique(a, b);
      var u := Merged(a, b);
      forall i | 0 <= i < |u| ensures Unique(u[i].value) {
        if i < |a| {
          FindAt(a, i);
          if Has(b, a[i].name) {
            assert MergeValue(Get(a, a[i].name), Get(b, a[i].name)).ok;
            MergedUnique(a[i].value, Get(b, a[i].name));
          }
        }
      }
      MergedNamesUnique(a, b);
    }
  }

  lemma MergedNamesUnique(a: seq<Member>, b: seq<Member>)
    requires UniqueNames(a) && UniqueNames(Added(a, b))
    ensures UniqueNames(Merged(a, b))
  {
    hide Added;
    var u := Merged(a, b);
    forall i, j | 0 <= i < j < |u| ensures u[i].name != u[j].name {
      if i < |a| <= j {
        FindAt(a, i);
        HasIff(Added(a, b), u[j].name);
        assert Added(a, b)[j - |a|].name == u[j].name;
        AddedHas(a, b, u[j].name);
      }
    }
  }

  lemma {:induction false} AddedUnique(d: seq<Member>, s: seq<Member>)
    requires UniqueAll(s)
    ensures UniqueAll(Added(d, s))
    decreases |s|
  {
    if s == [] {
    } else {
      var rest := Added(d, s[1..]);
      AddedUnique(d, s[1..]);
      HasIff(s[1..], s[0].name);
      AddedHas(d, s[1..], s[0].name);
      HasIff(rest, s[0].name);
    }
  }

  /** Success and result of merging three documents do not depend on the grouping. */
  lemma {:induction false} Associative(a: Json, b: Json, c: Json)
    requires Unique(a) && Unique(b) && Unique(c)
    ensures MergeValue(a, b).ok && MergeValue(MergeValue(a, b).doc, c).ok <==>
              MergeValue(b, c).ok && MergeValue(a, MergeValue(b, c).doc).ok
    ensures MergeValue(a, b).ok && MergeValue(MergeValue(a, b).doc, c).ok ==>
              MergeValue(MergeValue(a, b).doc, c) == MergeValue(a, MergeValue(b, c).doc)
    decreases a
  {
    if a.Obj? && b.Obj? && c.Obj? {
      var x, y, z := a.members, b.members, c.members;
      forall name | Has(x, name) && Has(y, name) && Has(z, name)
        ensures var p, q, r := Get(x, name), Get(y, name), Get(z, name);
                && (MergeValue(p, q).ok && MergeValue(MergeValue(p, q).doc, r).ok <==>
                      MergeValue(q, r).ok && MergeValue(p, MergeValue(q, r).doc).ok)
                && (MergeValue(p, q).ok && MergeValue(MergeValue(p, q).doc, r).ok ==>
                      MergeValue(MergeValue(p, q).doc, r) == MergeValue(p, MergeValue(q, r).doc))
      {
        Associative(Get(x, name), Get(y, name), Get(z, name));
      }
      MembersAssociate(a, b, c);
    } else if a.Arr? && b.Arr? && c.Arr? {
      assert (a.elems + b.elems) + c.elems == a.elems + (b.elems + c.elems);
    }
  }

  /** Merging succeeds for each common name, in both groupings alike. */
  ghost predicate NamesAssociate(x: seq<Member>, y: seq<Member>, z: seq<Member>) {
    forall name | Has(x, name) && Has(y, name) && Has(z, name) ::
      var p, q, r := Get(x, name), Get(y, name), Get(z, name);
      && (MergeValue(p, q).ok && MergeValue(MergeValue(p, q).doc, r).ok <==>
            MergeValue(q, r).ok && MergeValue(p, MergeValue(q, r).doc).ok)
      && (MergeValue(p, q).ok && MergeValue(MergeValue(p, q).doc, r).ok ==>
            MergeValue(MergeValue(p, q).doc, r) == MergeValue(p, MergeValue(q, r).doc))
  }

  lemma CompatibleAssociates(x: seq<Member>, y: seq<Member>, z: seq<Member>)
    requires NamesAssociate(x, y, z)
    ensures Compatible(x, y) && Compatible(Merged(x, y), z) <==>
              Compatible(y, z) && Compatible(x, Merged(y, z))
  {
    forall name
      ensures Has(Merged(x, y), name) <==> Has(x, name) || Has(y, name)
      ensures Has(Merged(y, z), name) <==> Has(y, name) || Has(z, name)
    {
      MergedLookup(x, y, name);
      MergedLookup(y, z, name);
    }
    if Compatible(x, y) && Compatible(Merged(x, y), z) {
      forall name | Has(y, name) && Has(z, name) ensures MergeValue(Get(y, name), Get(z, name)).ok {
        MergedLookup(x, y, name);
        assert MergeValue(Get(Merged(x, y), name), Get(z, name)).ok;
        if Has(x, name) { assert MergeValue(Get(x, name), Get(y, name)).ok; }
      }
      forall name | Has(x, name) && Has(Merged(y, z), name)
        ensures MergeValue(Get(x, name), Get(Merged(y, z), name)).ok
      {
        MergedLookup(x, y, name);
        MergedLookup(y, z, name);
        if Has(y, name) { assert MergeValue(Get(x, name), Get(y, name)).ok; }
        if Has(z, name) { assert MergeValue(Get(Merged(x, y), name), Get(z, name)).ok; }
      }
    }
    if Compatible(y, z) && Compatible(x, Merged(y, z)) {
      forall name | Has(x, name) && Has(y, name) ensures MergeValue(Get(x, name), Get(y, name)).ok {
        MergedLookup(y, z, name);
        assert MergeValue(Get(x, name), Get(Merged(y, z), name)).ok;
        if Has(z, name) { assert MergeValue(Get(y, name), Get(z, name)).ok; }
      }
      forall name | Has(Merged(x, y), name) && Has(z, name)
        ensures MergeValue(Get(Merged(x, y), name), Get(z, name)).ok
      {
        MergedLookup(x, y, name);
        MergedLookup(y, z, name);
        if Has(y, name) { assert MergeValue(Get(y, name), Get(z, name)).ok; }
        if Has(x, name) { assert MergeValue(Get(x, name), Get(Merged(y, z), name)).ok; }
      }
    }
  }

  lemma MergedAssociates(x: seq<Member>, y: seq<Member>, z: seq<Member>)
    requires NamesAssociate(x, y, z) && UniqueNames(x)
    requires Compatible(x, y) && Compatible(Merged(x, y), z)
    ensures Merged(Merged(x, y), z) == Merged(x, Merged(y, z))
  {
    hide MergeValue, Find, Merged, Update, Added, UpdateMember, NamesAssociate, Compatible;
    UpdatesAssociate(x, y, z);
    UpdateConcat(Update(x, y), Added(x, y), z);
    MergedIs(x, y);
    MergedIs(y, z);
    MergedIs(Merged(x, y), z);
    MergedIs(x, Merged(y, z));
    AddedUpdate(x, y, z);
    AddedTwice(x, y, z);
    AddedConcat(x, Update(y, z), Added(y, z));
    assert Merged(Merged(x, y), z) == Update(Update(x, y), z) + Update(Added(x, y), z) + Added(Merged(x, y), z);
  }

  lemma UpdatesAssociate(x: seq<Member>, y: seq<Member>, z: seq<Member>)
    requires NamesAssociate(x, y, z) && UniqueNames(x)
    requires Compatible(x, y) && Compatible(Merged(x, y), z)
    ensures Update(Update(x, y), z) == Update(x, Merged(y, z))
  {
    hide MergeValue, Find, Merged, UpdateMember, NamesAssociate, Compatible;
    forall i | 0 <= i < |x|
      ensures UpdateMember(UpdateMember(x[i], y), z) == UpdateMember(x[i], Merged(y, z))
    {
      MemberAssociates(x, y, z, i);
    }
  }

  lemma MergedIs(d: seq<Member>, s: seq<Member>)
    ensures Merged(d, s) == Update(d, s) + Added(d, s)
  {
  }

  lemma UpdateConcat(a: seq<Member>, b: seq<Member>, s: seq<Member>)
    ensures Update(a + b, s) == Update(a, s) + Update(b, s)
  {
  }

  lemma MemberAssociates(x: seq<Member>, y: seq<Member>, z: seq<Member>, i: nat)
    requires NamesAssociate(x, y, z) && UniqueNames(x) && i < |x|
    requires Compatible(x, y) && Compatible(Merged(x, y), z)
    ensures UpdateMember(UpdateMember(x[i], y), z) == UpdateMember(x[i], Merged(y, z))
  {
    var name := x[i].name;
    FindAt(x, i);
    MergedLookup(y, z, name);
    MergedLookup(x, y, name);
    hide MergeValue, Find, Merged;
    if Has(y, name) { assert MergeValue(Get(x, name), Get(y, name)).ok; }
    if Has(z, name) { assert MergeValue(Get(Merged(x, y), name), Get(z, name)).ok; }
  }

  lemma MembersAssociate(a: Json, b: Json, c: Json)
    requires a.Obj? && b.Obj? && c.Obj? && Unique(a) && Unique(b) && Unique(c)
    requires NamesAssociate(a.members, b.members, c.members)
    ensures MergeValue(a, b).ok && MergeValue(MergeValue(a, b).doc, c).ok <==>
              MergeValue(b, c).ok && MergeValue(a, MergeValue(b, c).doc).ok
    ensures MergeValue(a, b).ok && MergeValue(MergeValue(a, b).doc, c).ok ==>
              MergeValue(MergeValue(a, b).doc, c) == MergeValue(a, MergeValue(b, c).doc)
  {
    var x, y, z := a.members, b.members, c.members;
    LoopIsMerged(x, y);
    LoopIsMerged(y, z);
    CompatibleAssociates(x, y, z);
    if Compatible(x, y) {
      MergedUnique(a, b);
      LoopIsMerged(Merged(x, y), z);
      if Compatible(Merged(x, y), z) { MergedAssociates(x, y, z); }
    }
    if Compatible(y, z) {
      MergedUnique(b, c);
      LoopIsMerged(x, Merged(y, z));
    }
  }

  /** The empty object is an identity on both sides. */
  lemma EmptyIsIdentity(a: Json)
    requires Unique(a) && a.Obj?
    ensures MergeValue(a, Obj([])) == Outcome(true, a)
    ensures MergeValue(Obj([]), a) == Outcome(true, a)
  {
    LoopIsMerged([], a.members);
    forall name ensures !Has([], name) {}
    AddedToNothing(a.members);
  }

  lemma {:induction false} AddedToNothing(s: seq<Member>)
    ensures Added([], s) == s
    decreases |s|
  {
    if s == [] {
    } else {
      AddedToNothing(s[1..]);
    }
  }

  /** No name of the destination is lost or moved, even when the merge fails half-way. */
  lemma {:induction false} NoNameLost(d: seq<Member>, s: seq<Member>)
    ensures var r := MergeFrom(d, s).ms;
            |d| <= |r| && forall i | 0 <= i < |d| :: r[i].name == d[i].name
    decreases |s|
  {
    if s == [] {
    } else {
      var r := MergeOne(d, s[0]);
      if r.ok { NoNameLost(r.ms, s[1..]); }
    }
  }

  /** A failed merge has merged the members before the one that failed, and that
      one as far as it went. */
  lemma {:induction false} FailureStopsAtFirst(d: seq<Member>, s: seq<Member>)
    requires !MergeFrom(d, s).ok
    ensures exists k | 0 <= k < |s| ::
              var before := MergeFrom(d, s[..k]);
              before.ok && !MergeOne(before.ms, s[k]).ok && MergeFrom(d, s).ms == MergeOne(before.ms, s[k]).ms
    decreases |s|
  {
    var r := MergeOne(d, s[0]);
    if r.ok {
      FailureStopsAtFirst(r.ms, s[1..]);
      var k :| 0 <= k < |s[1..]| &&
               var before := MergeFrom(r.ms, s[1..][..k]);
               before.ok && !MergeOne(before.ms, s[1..][k]).ok
               && MergeFrom(r.ms, s[1..]).ms == MergeOne(before.ms, s[1..][k]).ms;
      assert s[..k + 1][1..] == s[1..][..k] && s[..k + 1][0] == s[0];
      assert MergeFrom(d, s[..k + 1]) == MergeFrom(r.ms, s[1..][..k]);
    } else {
      assert MergeFrom(d, s[..0]) == MembersOutcome(true, d);
    }
  }
}
