/** Where the parser stands after a record compared with where the record's length field
    says the record ends.  The parsers for names do not look at that field. */
module DnsLength {
  import opened Bytes
  import opened DnsName
  import opened DnsMessage
  import opened DnsEncoding
  import opened Wrappers

  /** The end of a name in place: labels up to a zero octet or the first pointer, which
      is not followed. */
  function EndInPlace(m: Octets, p: nat): (r: Option<nat>)
    ensures r.Some? ==> p < |m| && p < r.value <= |m|
    decreases |m| - p
  {
    match FieldAt(m, p)
    case End => Some(p + 1)
    case Label(len) => EndInPlace(m, p + 1 + len)
    case Pointer(_) => Some(p + 2)
    case _ => None
  }

  function StringEnd(m: Octets, p: nat): (r: Option<nat>)
    ensures r.Some? ==> p < r.value <= |m|
  {
    if p < |m| && p + 1 + m[p] as nat <= |m| then Some(p + 1 + m[p] as nat) else None
  }

  /** Where the name begins in the data of a record that has one. */
  function NameStart(m: Octets, p: nat, rtype: nat): (r: Option<nat>)
    ensures r.Some? ==> p <= r.value
  {
    if rtype == TYPE_SRV then Some(p + SRV_FIXED_SIZE)
    else if rtype == TYPE_NAPTR then
      var flags := StringEnd(m, p + NAPTR_FIXED_SIZE);
      if flags.None? then None
      else
        var service := StringEnd(m, flags.value);
        if service.None? then None else StringEnd(m, service.value)
    else Some(p)
  }

  /** The data at `p` fill the length declared for them, as a scan of the octets tells. */
  predicate Fills(m: Octets, p: nat, rtype: nat, rclass: nat, rdlength: nat) {
    if !Known(rtype, rclass) then p + rdlength <= |m|
    else if rtype == TYPE_A then rdlength == 4
    else if rtype == TYPE_AAAA then rdlength == 16
    else
      var n := NameStart(m, p, rtype);
      n.Some? && EndInPlace(m, n.value) == Some(p + rdlength)
  }

  lemma {:induction false} WalkEnd(m: Octets, p: nat, n: nat)
    requires Walk(m, p, n).Ok?
    ensures EndInPlace(m, p) == Some(Walk(m, p, n).end)
    decreases n
  {
    match FieldAt(m, p)
    case Label(len) => WalkEnd(m, p + 1 + len, n - 1);
    case _ =>
  }

  /** However a name goes on elsewhere, the parser goes on behind its end in place. */
  lemma NameStopsInPlace(m: Octets, p: nat)
    requires NameResult(m, p).Ok?
    ensures EndInPlace(m, p) == Some(NameResult(m, p).end)
  {
    WalkEnd(m, p, |m|);
  }

  lemma NaptrStops(m: Octets, p: nat)
    requires NaptrResult(m, p).Ok?
    ensures var n := NameStart(m, p, TYPE_NAPTR);
            n.Some? && EndInPlace(m, n.value) == Some(NaptrResult(m, p).end)
  {
    hide NameResult, EndInPlace;
    NameStopsInPlace(m, NameStart(m, p, TYPE_NAPTR).value);
  }

  /** Reading a record's data stops where the record's length says if and only if the
      data fill that length. */
  lemma DataStopsAtLengthIff(m: Octets, p: nat, rtype: nat, rclass: nat, rdlength: nat)
    requires p <= |m| && DataResult(m, p, rtype, rclass, rdlength).Ok?
    ensures DataResult(m, p, rtype, rclass, rdlength).end == p + rdlength <==> Fills(m, p, rtype, rclass, rdlength)
  {
    hide NameResult, EndInPlace, NaptrResult;
    if Known(rtype, rclass) {
      if rtype == TYPE_NAPTR {
        NaptrStops(m, p);
      } else if rtype == TYPE_SRV {
        NameStopsInPlace(m, p + SRV_FIXED_SIZE);
      } else if rtype == TYPE_NS || rtype == TYPE_CNAME {
        NameStopsInPlace(m, p);
      }
    }
  }

  /** Data that are well-formed fill their length; the converse fails for names whose
      pointers do not go backwards. */
  lemma WellFormedFills(m: Octets, p: nat, end: nat, rtype: nat, rclass: nat)
    requires p <= end <= |m| && DataFilling(m, p, end, rtype, rclass).Some?
    ensures Fills(m, p, rtype, rclass, end - p)
  {
    hide DataFilling, DataResult, Fills;
    DataIsRead(m, p, end, rtype, rclass);
    DataStopsAtLengthIff(m, p, rtype, rclass, end - p);
  }

  // ----- records -----

  /** The end of the fixed part of a record whose name is read in place. */
  function FixedEnd(m: Octets, p: nat): (r: Option<nat>)
    ensures r.Some? ==> p + RR_FIXED_SIZE < r.value <= |m|
  {
    var e := EndInPlace(m, p);
    if e.Some? && e.value + RR_FIXED_SIZE <= |m| then Some(e.value + RR_FIXED_SIZE) else None
  }

  /** The end of a record by its length field. */
  function DeclaredEnd(m: Octets, p: nat): nat
    requires FixedEnd(m, p).Some?
  {
    var from := FixedEnd(m, p).value;
    from + Int16(m, from - RR_FIXED_SIZE + RR_RDLENGTH_OFS)
  }

  predicate RecordFills(m: Octets, p: nat)
    requires FixedEnd(m, p).Some?
  {
    var from := FixedEnd(m, p).value;
    var e := from - RR_FIXED_SIZE;
    Fills(m, from, Int16(m, e), Int16(m, e + RR_CLASS_OFS), Int16(m, e + RR_RDLENGTH_OFS))
  }

  lemma RecordStopsAtLengthIff(m: Octets, p: nat)
    requires RecordResult(m, p).Ok?
    ensures FixedEnd(m, p).Some?
    ensures RecordResult(m, p).end == DeclaredEnd(m, p) <==> RecordFills(m, p)
  {
    hide NameResult, EndInPlace, DataResult, Fills, Int16, Int32;
    NameStopsInPlace(m, p);
    var e := NameResult(m, p).end;
    DataStopsAtLengthIff(m, e + RR_FIXED_SIZE, Int16(m, e), Int16(m, e + RR_CLASS_OFS), Int16(m, e + RR_RDLENGTH_OFS));
  }

  // ----- sections -----

  /** Where the parser stands after each of `n` records. */
  function ParsedEnds(m: Octets, p: nat, n: nat): (r: seq<nat>)
    requires RecordsResult(m, p, n).Ok?
    decreases n
  {
    if n == 0 then []
    else
      var end := RecordResult(m, p).end;
      [end] + ParsedEnds(m, end, n - 1)
  }

  /** Where the records end when each is skipped by its length. */
  function DeclaredEnds(m: Octets, p: nat, n: nat): (r: seq<nat>)
    decreases n
  {
    if n == 0 || FixedEnd(m, p).None? then [] else [DeclaredEnd(m, p)] + DeclaredEnds(m, DeclaredEnd(m, p), n - 1)
  }

  /** Every one of the records, each found by the lengths of those before it, fills its length. */
  predicate AllFill(m: Octets, p: nat, n: nat)
    decreases n
  {
    n == 0 || (FixedEnd(m, p).Some? && RecordFills(m, p) && AllFill(m, DeclaredEnd(m, p), n - 1))
  }

  /** The parser finds every record of a section where the lengths put it if and only if
      each of them fills its length. */
  lemma {:induction false} SectionInStepIff(m: Octets, p: nat, n: nat)
    requires RecordsResult(m, p, n).Ok?
    ensures ParsedEnds(m, p, n) == DeclaredEnds(m, p, n) <==> AllFill(m, p, n)
    decreases n
  {
    hide RecordResult, FixedEnd, DeclaredEnd, RecordFills;
    if n == 0 {
    } else {
      RecordStopsAtLengthIff(m, p);
      var parsed, declared := RecordResult(m, p).end, DeclaredEnd(m, p);
      var rest, others := ParsedEnds(m, parsed, n - 1), DeclaredEnds(m, declared, n - 1);
      assert ([parsed] + rest)[0] == parsed && ([declared] + others)[0] == declared;
      assert ([parsed] + rest)[1..] == rest && ([declared] + others)[1..] == others;
      if RecordFills(m, p) {
        SectionInStepIff(m, parsed, n - 1);
      }
    }
  }

  // ----- octets on which the length is ignored -----

  /** The root and two octets that belong to nothing. */
  const ROOT_AND_MORE: Octets := [0, 9, 9]

  /** A name server record for the root whose data are these. */
  const LONG_RECORD: Octets := [0] + [0, 2, 0, 1, 0, 0, 0, 0, 0, 3] + ROOT_AND_MORE

  /** The data end after the first of three octets; the record is left there, and the next
      one is looked for inside it. */
  lemma LengthIgnored()
    ensures DataResult(ROOT_AND_MORE, 0, TYPE_NS, CLASS_IN, 3) == Ok(NS([DOT]), 1)
    ensures !Fills(ROOT_AND_MORE, 0, TYPE_NS, CLASS_IN, 3)
    ensures RecordResult(LONG_RECORD, 0).Ok? && RecordResult(LONG_RECORD, 0).end == 12
    ensures FixedEnd(LONG_RECORD, 0) == Some(11) && DeclaredEnd(LONG_RECORD, 0) == 14
  {
    assert FieldAt(ROOT_AND_MORE, 0) == End;
    var m := LONG_RECORD;
    assert FieldAt(m, 0) == End && FieldAt(m, 11) == End;
    assert Int16(m, 1) == TYPE_NS && Int16(m, 3) == CLASS_IN && Int16(m, 9) == 3;
  }

  /** Data of two octets whose pointer goes forward fill their length and are not well-formed. */
  const POINTS_FORWARD: Octets := [192, 2, 0]

  lemma FillsThoughNotWellFormed()
    ensures DataResult(POINTS_FORWARD, 0, TYPE_NS, CLASS_IN, 2) == Ok(NS([]), 2)
    ensures Fills(POINTS_FORWARD, 0, TYPE_NS, CLASS_IN, 2)
    ensures DataFilling(POINTS_FORWARD, 0, 2, TYPE_NS, CLASS_IN) == None
  {
    var m := POINTS_FORWARD;
    assert FieldAt(m, 0) == Pointer(2) && FieldAt(m, 2) == End;
    assert NameResult(m, 0) == Ok([], 2);
  }
}
