/** Questions and resource records of DNS messages (sections 4.1 and 3.2.1 of RFC 1035). */
module DnsMessage {
  import opened Bytes
  import opened DnsName
  import opened Wrappers

  const HDR_FIXED_SIZE := 12
  const HDR_QDCOUNT_OFS := 4
  const HDR_ANCOUNT_OFS := 6
  const HDR_NSCOUNT_OFS := 8
  const HDR_ARCOUNT_OFS := 10
  const Q_FIXED_SIZE := 4
  const RR_FIXED_SIZE := 10
  const RR_CLASS_OFS := 2
  const RR_TTL_OFS := 4
  const RR_RDLENGTH_OFS := 8
  const SRV_FIXED_SIZE := 6
  const SRV_WEIGHT_OFS := 2
  const SRV_PORT_OFS := 4
  const NAPTR_FIXED_SIZE := 4
  const NAPTR_PREFERENCE_OFS := 2

  const CLASS_IN := 1
  const TYPE_A := 1
  const TYPE_NS := 2
  const TYPE_CNAME := 5
  const TYPE_AAAA := 28
  const TYPE_SRV := 33
  const TYPE_NAPTR := 35

  datatype Question = Question(qname: Octets, qtype: nat, qclass: nat)

  /** The data of a record.  `Other` records keep nothing but their type and class. */
  datatype Data =
    | A(address: Octets)
    | NS(server: Octets)
    | CNAME(alias: Octets)
    | AAAA(address6: Octets)
    | SRV(priority: nat, weight: nat, port: nat, target: Octets)
    | NAPTR(order: nat, preference: nat, flags: Octets, service: Octets, regexp: Octets, replacement: Octets)
    | Other(rtype: nat, rclass: nat)

  datatype Record = Record(name: Octets, ttl: int, data: Data)

  // ----- numbers -----

  function Int16(m: Octets, p: nat): (v: nat)
    requires p + 2 <= |m|
    ensures v < 0x1_0000
  {
    m[p] as nat * 256 + m[p + 1] as nat
  }

  /** Thirty-two bits as a signed number. */
  function Int32(m: Octets, p: nat): (v: int)
    requires p + 4 <= |m|
    ensures -0x8000_0000 <= v < 0x8000_0000
  {
    var u := Int16(m, p) * 0x1_0000 + Int16(m, p + 2);
    if u < 0x8000_0000 then u else u - 0x1_0000_0000
  }

  // ----- what parsing returns on any octets -----

  function Failed<T, U>(o: Outcome<T>): (r: Outcome<U>)
    requires !o.Ok?
    ensures !r.Ok? && (r.NeverReturns? <==> o.NeverReturns?)
  {
    match o
    case InvalidData => InvalidData
    case LabelBeyondEnd => LabelBeyondEnd
    case UnexpectedField => UnexpectedField
    case BadRdLength => BadRdLength
    case PastEnd => PastEnd
    case NeverReturns => NeverReturns
  }

  function QuestionResult(m: Octets, ofs: nat): (r: Outcome<Question>)
    ensures r.Ok? ==> ofs < r.end <= |m|
  {
    var n := NameResult(m, ofs);
    if !n.Ok? then Failed(n)
    else if n.end + Q_FIXED_SIZE > |m| then PastEnd
    else Ok(Question(n.value, Int16(m, n.end), Int16(m, n.end + 2)), n.end + Q_FIXED_SIZE)
  }

  function StringResult(m: Octets, p: nat): (r: Outcome<Octets>)
    ensures r.Ok? ==> p < r.end <= |m|
  {
    if p >= |m| then PastEnd
    else if p + 1 + m[p] as nat > |m| then PastEnd
    else Ok(Lower(m[p + 1..p + 1 + m[p] as nat]), p + 1 + m[p] as nat)
  }

  /** The data part that starts at `p`; only addresses and skipped records heed its length. */
  function DataResult(m: Octets, p: nat, rtype: nat, rclass: nat, rdlength: nat): (r: Outcome<Data>)
    requires p <= |m|
    ensures r.Ok? ==> p <= r.end <= |m|
  {
    if rclass == CLASS_IN && rtype == TYPE_A then
      if rdlength != 4 then BadRdLength
      else if p + 4 > |m| then PastEnd
      else Ok(A(m[p..p + 4]), p + 4)
    else if rclass == CLASS_IN && rtype == TYPE_NS then
      var n := NameResult(m, p);
      if n.Ok? then Ok(NS(n.value), n.end) else Failed(n)
    else if rclass == CLASS_IN && rtype == TYPE_CNAME then
      var n := NameResult(m, p);
      if n.Ok? then Ok(CNAME(n.value), n.end) else Failed(n)
    else if rclass == CLASS_IN && rtype == TYPE_AAAA then
      if rdlength != 16 then BadRdLength
      else if p + 16 > |m| then PastEnd
      else Ok(AAAA(m[p..p + 16]), p + 16)
    else if rclass == CLASS_IN && rtype == TYPE_SRV then
      if p + SRV_FIXED_SIZE > |m| then PastEnd
      else
        var n := NameResult(m, p + SRV_FIXED_SIZE);
        if n.Ok? then
          Ok(SRV(Int16(m, p), Int16(m, p + SRV_WEIGHT_OFS), Int16(m, p + SRV_PORT_OFS), n.value), n.end)
        else Failed(n)
    else if rclass == CLASS_IN && rtype == TYPE_NAPTR then
      NaptrResult(m, p)
    else
      Ok(Other(rtype, rclass), if p + rdlength > |m| then |m| else p + rdlength)
  }

  function NaptrResult(m: Octets, p: nat): (r: Outcome<Data>)
    ensures r.Ok? ==> p <= r.end <= |m|
  {
    if p + NAPTR_FIXED_SIZE > |m| then PastEnd
    else
      var flags := StringResult(m, p + NAPTR_FIXED_SIZE);
      if !flags.Ok? then Failed(flags)
      else
        var service := StringResult(m, flags.end);
        if !service.Ok? then Failed(service)
        else
          var regexp := StringResult(m, service.end);
          if !regexp.Ok? then Failed(regexp)
          else
            var n := NameResult(m, regexp.end);
            if !n.Ok? then Failed(n)
            else Ok(NAPTR(Int16(m, p), Int16(m, p + NAPTR_PREFERENCE_OFS),
                          flags.value, service.value, regexp.value, n.value), n.end)
  }

  function RecordResult(m: Octets, ofs: nat): (r: Outcome<Record>)
    ensures r.Ok? ==> ofs < r.end <= |m|
  {
    var n := NameResult(m, ofs);
    if !n.Ok? then Failed(n)
    else if n.end + RR_FIXED_SIZE > |m| then PastEnd
    else
      var d := DataResult(m, n.end + RR_FIXED_SIZE, Int16(m, n.end), Int16(m, n.end + RR_CLASS_OFS),
                          Int16(m, n.end + RR_RDLENGTH_OFS));
      if d.Ok? then Ok(Record(n.value, Int32(m, n.end + RR_TTL_OFS), d.value), d.end) else Failed(d)
  }

  function QuestionsResult(m: Octets, ofs: nat, n: nat): (r: Outcome<seq<Question>>)
    decreases n
  {
    if n == 0 then Ok([], ofs)
    else
      var q := QuestionResult(m, ofs);
      if !q.Ok? then Failed(q)
      else
        var rest := QuestionsResult(m, q.end, n - 1);
        if rest.Ok? then Ok([q.value] + rest.value, rest.end) else rest
  }

  function RecordsResult(m: Octets, ofs: nat, n: nat): (r: Outcome<seq<Record>>)
    decreases n
  {
    if n == 0 then Ok([], ofs)
    else
      var q := RecordResult(m, ofs);
      if !q.Ok? then Failed(q)
      else
        var rest := RecordsResult(m, q.end, n - 1);
        if rest.Ok? then Ok([q.value] + rest.value, rest.end) else rest
  }

  /** The four sections of a message. */
  datatype Sections = Sections(questions: seq<Question>, answers: seq<Record>,
                               authority: seq<Record>, additional: seq<Record>)

  function MessageResult(m: Octets): Outcome<Sections> {
    if m == [] then InvalidData
    else if |m| < HDR_FIXED_SIZE then PastEnd
    else
      var q := QuestionsResult(m, HDR_FIXED_SIZE, Int16(m, HDR_QDCOUNT_OFS));
      if !q.Ok? then Failed(q)
      else
        var an := RecordsResult(m, q.end, Int16(m, HDR_ANCOUNT_OFS));
        if !an.Ok? then Failed(an)
        else
          var ns := RecordsResult(m, an.end, Int16(m, HDR_NSCOUNT_OFS));
          if !ns.Ok? then Failed(ns)
          else
            var ar := RecordsResult(m, ns.end, Int16(m, HDR_ARCOUNT_OFS));
            if !ar.Ok? then Failed(ar)
            else Ok(Sections(q.value, an.value, ns.value, ar.value), ar.end)
  }

  // ----- the parser -----

  /** A call that returned `r` and left the parser at `ofs` did what `spec` says. */
  ghost predicate Did<T>(r: Outcome<T>, ofs: nat, spec: Outcome<T>) {
    r == spec && (spec.Ok? ==> ofs == spec.end)
  }

  /** What a walk returns after `text` was collected, once the end in place is known. */
  function Resumed(text: Octets, fixed: bool, end: nat, w: Outcome<Octets>): Outcome<Octets> {
    if w.Ok? then Ok(text + w.value, if fixed then end else w.end) else w
  }

  class Parser {
    const data: Octets
    var ofs: nat
    var questions: seq<Question>
    var answers: seq<Record>
    var authority: seq<Record>
    var additional: seq<Record>

    constructor (data: Octets)
      ensures this.data == data && ofs == 0
      ensures questions == [] && answers == [] && authority == [] && additional == []
    {
      this.data, ofs := data, 0;
      questions, answers, authority, additional := [], [], [], [];
    }

    method IncrementOffset(len: nat)
      modifies this`ofs
      ensures ofs == if old(ofs) + len > |data| then |data| else old(ofs) + len
    {
      ofs := if ofs + len > |data| then |data| else ofs + len;
    }

    /** The loop over labels and pointers.  `n` is not in the program: after as many steps
        as there are octets the walk has come back to where it was, the program goes on
        for ever, and the outcome says so. */
    method ParseDomainName() returns (r: Outcome<Octets>)
      modifies this`ofs
      ensures Did(r, ofs, NameResult(data, old(ofs)))
      ensures !r.Ok? ==> ofs == old(ofs)
    {
      hide Walk, Ends, Resumed;
      var n: nat := |data|;
      ghost var spec := Walk(data, ofs, n);
      var compressedLength: nat, ptr: nat, offsetActive := 0, ofs, false;
      var dn: Octets := [];
      ResumedStart(spec, ofs);
      while true
        invariant ofs == old(ofs)
        invariant Resumed(dn, offsetActive, ofs + compressedLength, Walk(data, ptr, n)) == spec
        invariant !offsetActive ==> ptr == ofs + compressedLength
        decreases n
      {
        WalkStep(data, ptr, n, dn, offsetActive, ofs + compressedLength);
        if ptr >= |data| { return PastEnd; }
        if data[ptr] == 0 { break; }
        var val := data[ptr] as nat;
        if val / 64 == 0 {
          if ptr + val >= |data| { return LabelBeyondEnd; }
          if n == 0 { return NeverReturns; }
          dn := dn + data[ptr + 1..ptr + 1 + val];
          if !offsetActive {
            compressedLength := compressedLength + val + 1;
          }
          ptr := ptr + 1 + val;
          n := n - 1;
          if ptr >= |data| { return PastEnd; }
          if data[ptr] != 0 {
            dn := dn + [DOT];
          }
        } else if val / 64 == 3 {
          if ptr + 1 >= |data| { return PastEnd; }
          if n == 0 { return NeverReturns; }
          if !offsetActive {
            offsetActive := true;
            compressedLength := compressedLength + 2;
          }
          ptr := (val % 64) * 256 + data[ptr + 1] as nat;
          n := n - 1;
        } else {
          return UnexpectedField;
        }
      }
      if !offsetActive {
        compressedLength := compressedLength + 1;
      }
      assert spec == Ok(dn, ofs + compressedLength);
      var name := if compressedLength == 1 then [DOT] else Lower(dn);
      IncrementOffset(compressedLength);
      return Ok(name, ofs);
    }

    method ParseQuestion() returns (r: Outcome<Question>)
      modifies this`ofs
      ensures Did(r, ofs, QuestionResult(data, old(ofs)))
    {
      var qname := ParseDomainName();
      if !qname.Ok? { return Failed(qname); }
      if ofs + Q_FIXED_SIZE > |data| { return PastEnd; }
      var qtype, qclass := Int16(data, ofs), Int16(data, ofs + 2);
      IncrementOffset(Q_FIXED_SIZE);
      return Ok(Question(qname.value, qtype, qclass), ofs);
    }

    method ParseCharacterString() returns (r: Outcome<Octets>)
      requires ofs <= |data|
      modifies this`ofs
      ensures Did(r, ofs, StringResult(data, old(ofs)))
    {
      if ofs >= |data| { return PastEnd; }
      var len := data[ofs] as nat;
      IncrementOffset(1);
      if ofs + len > |data| { return PastEnd; }
      var cs := data[ofs..ofs + len];
      IncrementOffset(len);
      return Ok(Lower(cs), ofs);
    }

    method ParseAddress(size: nat, rdlength: nat) returns (r: Outcome<Octets>)
      modifies this`ofs
      ensures var p := old(ofs);
              Did(r, ofs, if rdlength != size then BadRdLength
                          else if p + size > |data| then PastEnd
                          else Ok(data[p..p + size], p + size))
    {
      if rdlength != size { return BadRdLength; }
      if ofs + size > |data| { return PastEnd; }
      var address := data[ofs..ofs + size];
      IncrementOffset(rdlength);
      return Ok(address, ofs);
    }

    method ParseSRV() returns (r: Outcome<Data>)
      requires ofs <= |data|
      modifies this`ofs
      ensures Did(r, ofs, DataResult(data, old(ofs), TYPE_SRV, CLASS_IN, 0))
    {
      if ofs + SRV_FIXED_SIZE > |data| { return PastEnd; }
      var priority, weight, port := Int16(data, ofs), Int16(data, ofs + SRV_WEIGHT_OFS), Int16(data, ofs + SRV_PORT_OFS);
      IncrementOffset(SRV_FIXED_SIZE);
      var target := ParseDomainName();
      if !target.Ok? { return Failed(target); }
      return Ok(SRV(priority, weight, port, target.value), ofs);
    }

    method ParseNAPTR() returns (r: Outcome<Data>)
      requires ofs <= |data|
      modifies this`ofs
      ensures Did(r, ofs, NaptrResult(data, old(ofs)))
    {
      if ofs + NAPTR_FIXED_SIZE > |data| { return PastEnd; }
      var order, preference := Int16(data, ofs), Int16(data, ofs + NAPTR_PREFERENCE_OFS);
      IncrementOffset(NAPTR_FIXED_SIZE);
      var flags := ParseCharacterString();
      if !flags.Ok? { return Failed(flags); }
      var service := ParseCharacterString();
      if !service.Ok? { return Failed(service); }
      var regexp := ParseCharacterString();
      if !regexp.Ok? { return Failed(regexp); }
      var replacement := ParseDomainName();
      if !replacement.Ok? { return Failed(replacement); }
      return Ok(NAPTR(order, preference, flags.value, service.value, regexp.value, replacement.value), ofs);
    }

    method ParseData(rtype: nat, rclass: nat, rdlength: nat) returns (r: Outcome<Data>)
      requires ofs <= |data|
      modifies this`ofs
      ensures Did(r, ofs, DataResult(data, old(ofs), rtype, rclass, rdlength))
    {
      if rclass == CLASS_IN && rtype == TYPE_A {
        var address := ParseAddress(4, rdlength);
        if !address.Ok? { return Failed(address); }
        return Ok(A(address.value), ofs);
      } else if rclass == CLASS_IN && rtype == TYPE_NS {
        var server := ParseDomainName();
        if !server.Ok? { return Failed(server); }
        return Ok(NS(server.value), ofs);
      } else if rclass == CLASS_IN && rtype == TYPE_CNAME {
        var alias := ParseDomainName();
        if !alias.Ok? { return Failed(alias); }
        return Ok(CNAME(alias.value), ofs);
      } else if rclass == CLASS_IN && rtype == TYPE_AAAA {
        var address := ParseAddress(16, rdlength);
        if !address.Ok? { return Failed(address); }
        return Ok(AAAA(address.value), ofs);
      } else if rclass == CLASS_IN && rtype == TYPE_SRV {
        r := ParseSRV();
      } else if rclass == CLASS_IN && rtype == TYPE_NAPTR {
        r := ParseNAPTR();
      } else {
        IncrementOffset(rdlength);
        return Ok(Other(rtype, rclass), ofs);
      }
    }

    method ParseResourceRecord() returns (r: Outcome<Record>)
      modifies this`ofs
      ensures Did(r, ofs, RecordResult(data, old(ofs)))
    {
      hide DataResult;
      var name := ParseDomainName();
      if !name.Ok? { return Failed(name); }
      if ofs + RR_FIXED_SIZE > |data| { return PastEnd; }
      var rtype, rclass := Int16(data, ofs), Int16(data, ofs + RR_CLASS_OFS);
      var ttl, rdlength := Int32(data, ofs + RR_TTL_OFS), Int16(data, ofs + RR_RDLENGTH_OFS);
      IncrementOffset(RR_FIXED_SIZE);
      var rdata := ParseData(rtype, rclass, rdlength);
      if !rdata.Ok? { return Failed(rdata); }
      return Ok(Record(name.value, ttl, rdata.value), ofs);
    }

    method ParseRecords(n: nat) returns (r: Outcome<seq<Record>>)
      modifies this`ofs
      ensures Did(r, ofs, RecordsResult(data, old(ofs), n))
    {
      hide RecordResult;
      ghost var spec := RecordsResult(data, ofs, n);
      var list: seq<Record> := [];
      PrefixedNone(spec);
      for i := 0 to n
        invariant spec == Prefixed(list, RecordsResult(data, ofs, n - i))
      {
        var rr := ParseResourceRecord();
        if !rr.Ok? { return Failed(rr); }
        PrefixedAgain(list, rr.value, RecordsResult(data, ofs, n - i - 1));
        list := list + [rr.value];
      }
      assert list + [] == list;
      return Ok(list, ofs);
    }

    method ParseQuestions(n: nat) returns (r: Outcome<seq<Question>>)
      modifies this`ofs
      ensures Did(r, ofs, QuestionsResult(data, old(ofs), n))
    {
      hide QuestionResult;
      ghost var spec := QuestionsResult(data, ofs, n);
      var list: seq<Question> := [];
      PrefixedNone(spec);
      for i := 0 to n
        invariant spec == Prefixed(list, QuestionsResult(data, ofs, n - i))
      {
        var q := ParseQuestion();
        if !q.Ok? { return Failed(q); }
        PrefixedAgain(list, q.value, QuestionsResult(data, ofs, n - i - 1));
        list := list + [q.value];
      }
      assert list + [] == list;
      return Ok(list, ofs);
    }

    /** Parses a whole message and files its questions and records by section. */
    method Parse() returns (r: Outcome<Sections>)
      requires ofs == 0
      modifies this
      ensures Did(r, ofs, MessageResult(data))
      ensures r.Ok? ==> Sections(questions, answers, authority, additional) == r.value
    {
      hide QuestionsResult, RecordsResult;
      if data == [] { return InvalidData; }
      if |data| < HDR_FIXED_SIZE { return PastEnd; }
      var qdcount, ancount := Int16(data, HDR_QDCOUNT_OFS), Int16(data, HDR_ANCOUNT_OFS);
      var nscount, arcount := Int16(data, HDR_NSCOUNT_OFS), Int16(data, HDR_ARCOUNT_OFS);
      IncrementOffset(HDR_FIXED_SIZE);
      var q := ParseQuestions(qdcount);
      if !q.Ok? { return Failed(q); }
      questions := q.value;
      var rs := ParseRecords(ancount);
      if !rs.Ok? { return Failed(rs); }
      answers := rs.value;
      rs := ParseRecords(nscount);
      if !rs.Ok? { return Failed(rs); }
      authority := rs.value;
      rs := ParseRecords(arcount);
      if !rs.Ok? { return Failed(rs); }
      additional := rs.value;
      return Ok(Sections(questions, answers, authority, additional), ofs);
    }
  }

  function Prefixed<T>(done: seq<T>, rest: Outcome<seq<T>>): Outcome<seq<T>> {
    if rest.Ok? then Ok(done + rest.value, rest.end) else rest
  }

  lemma PrefixedNone<T>(o: Outcome<seq<T>>)
    ensures Prefixed([], o) == o
  {
    if o.Ok? { assert [] + o.value == o.value; }
  }

  lemma PrefixedAgain<T>(done: seq<T>, x: T, rest: Outcome<seq<T>>)
    ensures Prefixed(done, if rest.Ok? then Ok([x] + rest.value, rest.end) else rest) == Prefixed(done + [x], rest)
  {
    if rest.Ok? { assert done + ([x] + rest.value) == done + [x] + rest.value; }
  }

  lemma ResumedStart(w: Outcome<Octets>, end: nat)
    ensures Resumed([], false, end, w) == w
  {
    if w.Ok? { assert [] + w.value == w.value; }
  }

  /** One turn of the loop: what was collected so far and the rest of the walk make the same whole. */
  lemma WalkStep(m: Octets, p: nat, n: nat, text: Octets, fixed: bool, end: nat)
    requires !fixed ==> p == end
    ensures var f, whole := FieldAt(m, p), Resumed(text, fixed, end, Walk(m, p, n));
            match f
            case End => whole == Ok(text, if fixed then end else end + 1)
            case Label(len) =>
              var next, l := p + 1 + len, text + m[p + 1..p + 1 + len];
              && (n == 0 ==> whole == NeverReturns)
              && (n > 0 && next >= |m| ==> whole == PastEnd)
              && (n > 0 && next < |m| ==>
                    whole == Resumed(if m[next] != 0 then l + [DOT] else l, fixed,
                                     if fixed then end else next, Walk(m, next, n - 1)))
            case Pointer(t) =>
              && (n == 0 ==> whole == NeverReturns)
              && (n > 0 ==> whole == Resumed(text, true, if fixed then end else end + 2, Walk(m, t, n - 1)))
            case TooLong => whole == LabelBeyondEnd
            case Bad => whole == UnexpectedField
            case Outside => whole == PastEnd
  {
    match FieldAt(m, p)
    case End => assert text + [] == text;
    case Label(len) =>
      var next := p + 1 + len;
      if n > 0 && Walk(m, next, n - 1).Ok? {
        var l, rest := m[p + 1..next], Walk(m, next, n - 1);
        var dot := if m[next] != 0 then [DOT] else [];
        assert text + (l + dot + rest.value) == (text + l + dot) + rest.value;
        assert m[next] == 0 ==> text + l + dot == text + l;
      }
    case _ =>
  }
}
