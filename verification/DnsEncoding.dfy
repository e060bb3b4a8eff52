/** Well-formed DNS messages, defined apart from the parser, and what parsing them returns. */
module DnsEncoding {
  import opened Bytes
  import opened DnsName
  import opened DnsMessage
  import opened Wrappers

  /** A part of a message and the offset where the part ends. */
  datatype Part<+T> = Part(value: T, end: nat)

  // ----- well-formed parts: compression allowed, lengths must be right -----

  function QuestionAt(m: Octets, p: nat): (r: Option<Part<Question>>)
  {
    var n := NameAt(m, p);
    if n.None? || n.value.end + 4 > |m| then None
    else
      var e := n.value.end;
      Some(Part(Question(NameText(m, p), Int16(m, e), Int16(m, e + 2)), e + 4))
  }

  function StringAt(m: Octets, p: nat): Option<Part<Octets>> {
    if p < |m| && p + 1 + m[p] as nat <= |m| then
      Some(Part(Lower(m[p + 1..p + 1 + m[p] as nat]), p + 1 + m[p] as nat))
    else None
  }

  /** A name that fills a stretch exactly. */
  function NameFilling(m: Octets, p: nat, end: nat): Option<Octets> {
    if NameAt(m, p).Some? && NameAt(m, p).value.end == end then Some(NameText(m, p)) else None
  }

  function NaptrFilling(m: Octets, p: nat, end: nat): Option<Data>
    requires p <= end <= |m|
  {
    if p + 4 > end then None
    else
      var flags := StringAt(m, p + 4);
      if flags.None? then None
      else
        var service := StringAt(m, flags.value.end);
        if service.None? then None
        else
          var regexp := StringAt(m, service.value.end);
          if regexp.None? then None
          else
            var n := NameFilling(m, regexp.value.end, end);
            if n.None? then None
            else Some(NAPTR(Int16(m, p), Int16(m, p + 2), flags.value.value, service.value.value,
                            regexp.value.value, n.value))
  }

  predicate Known(rtype: nat, rclass: nat) {
    rclass == CLASS_IN && rtype in {TYPE_A, TYPE_NS, TYPE_CNAME, TYPE_AAAA, TYPE_SRV, TYPE_NAPTR}
  }

  /** Record data that fills the stretch its length field declares. */
  function DataFilling(m: Octets, p: nat, end: nat, rtype: nat, rclass: nat): Option<Data>
    requires p <= end <= |m|
  {
    if !Known(rtype, rclass) then Some(Other(rtype, rclass))
    else if rtype == TYPE_A then if end == p + 4 then Some(A(m[p..end])) else None
    else if rtype == TYPE_AAAA then if end == p + 16 then Some(AAAA(m[p..end])) else None
    else if rtype == TYPE_NAPTR then NaptrFilling(m, p, end)
    else if rtype == TYPE_SRV then
      if p + 6 > end then None
      else
        var n := NameFilling(m, p + 6, end);
        if n.None? then None else Some(SRV(Int16(m, p), Int16(m, p + 2), Int16(m, p + 4), n.value))
    else
      var n := NameFilling(m, p, end);
      if n.None? then None else Some(if rtype == TYPE_NS then NS(n.value) else CNAME(n.value))
  }

  /** A record: owner, type, class, time to live, length, and data of that length. */
  function RecordAt(m: Octets, p: nat): (r: Option<Part<Record>>)
  {
    var n := NameAt(m, p);
    if n.None? || n.value.end + 10 > |m| then None
    else
      var e := n.value.end;
      var from := e + 10;
      var end := from + Int16(m, e + 8);
      if end > |m| then None
      else
        var d := DataFilling(m, from, end, Int16(m, e), Int16(m, e + 2));
        if d.None? then None else Some(Part(Record(NameText(m, p), Int32(m, e + 4), d.value), end))
  }

  function QuestionsAt(m: Octets, p: nat, n: nat): Option<Part<seq<Question>>>
    decreases n
  {
    if n == 0 then Some(Part([], p))
    else
      var q := QuestionAt(m, p);
      if q.None? then None
      else
        var rest := QuestionsAt(m, q.value.end, n - 1);
        if rest.None? then None else Some(Part([q.value.value] + rest.value.value, rest.value.end))
  }

  function RecordsAt(m: Octets, p: nat, n: nat): Option<Part<seq<Record>>>
    decreases n
  {
    if n == 0 then Some(Part([], p))
    else
      var q := RecordAt(m, p);
      if q.None? then None
      else
        var rest := RecordsAt(m, q.value.end, n - 1);
        if rest.None? then None else Some(Part([q.value.value] + rest.value.value, rest.value.end))
  }

  function MessageAt(m: Octets): Option<Part<Sections>> {
    if |m| < 12 then None
    else
      var q := QuestionsAt(m, 12, Int16(m, 4));
      if q.None? then None
      else
        var an := RecordsAt(m, q.value.end, Int16(m, 6));
        if an.None? then None
        else
          var ns := RecordsAt(m, an.value.end, Int16(m, 8));
          if ns.None? then None
          else
            var ar := RecordsAt(m, ns.value.end, Int16(m, 10));
            if ar.None? then None
            else Some(Part(Sections(q.value.value, an.value.value, ns.value.value, ar.value.value), ar.value.end))
  }

  // ----- well-formed parts are read as what they are, up to where they end -----

  lemma QuestionIsRead(m: Octets, p: nat)
    requires QuestionAt(m, p).Some?
    ensures var q := QuestionAt(m, p).value; QuestionResult(m, p) == Ok(q.value, q.end)
  {
    NameIsRead(m, p);
  }

  lemma NaptrIsRead(m: Octets, p: nat, end: nat)
    requires p <= end <= |m| && NaptrFilling(m, p, end).Some?
    ensures NaptrResult(m, p) == Ok(NaptrFilling(m, p, end).value, end)
  {
    hide NameAt, NameText, NameResult;
    var q := StringAt(m, StringAt(m, StringAt(m, p + 4).value.end).value.end).value.end;
    NameIsRead(m, q);
  }

  /** Whatever the kind of record, reading its data stops where its length says it does. */
  lemma DataIsRead(m: Octets, p: nat, end: nat, rtype: nat, rclass: nat)
    requires p <= end <= |m| && DataFilling(m, p, end, rtype, rclass).Some?
    ensures DataResult(m, p, rtype, rclass, end - p) == Ok(DataFilling(m, p, end, rtype, rclass).value, end)
  {
    hide NameAt, NameText, NameResult, NaptrFilling, NaptrResult;
    if Known(rtype, rclass) {
      if rtype == TYPE_NAPTR {
        NaptrIsRead(m, p, end);
      } else if rtype == TYPE_SRV {
        NameIsRead(m, p + 6);
      } else if rtype == TYPE_NS || rtype == TYPE_CNAME {
        NameIsRead(m, p);
      }
    }
  }

  lemma RecordIsRead(m: Octets, p: nat)
    requires RecordAt(m, p).Some?
    ensures var r := RecordAt(m, p).value; RecordResult(m, p) == Ok(r.value, r.end)
  {
    hide NameAt, NameText, NameResult, DataFilling, DataResult, Int16, Int32;
    NameIsRead(m, p);
    var e := NameAt(m, p).value.end;
    DataIsRead(m, e + 10, e + 10 + Int16(m, e + 8), Int16(m, e), Int16(m, e + 2));
  }

  lemma {:induction false} QuestionsAreRead(m: Octets, p: nat, n: nat)
    requires QuestionsAt(m, p, n).Some?
    ensures var q := QuestionsAt(m, p, n).value; QuestionsResult(m, p, n) == Ok(q.value, q.end)
    decreases n
  {
    hide QuestionAt, QuestionResult;
    if n == 0 {
    } else {
      QuestionIsRead(m, p);
      QuestionsAreRead(m, QuestionAt(m, p).value.end, n - 1);
    }
  }

  lemma {:induction false} RecordsAreRead(m: Octets, p: nat, n: nat)
    requires RecordsAt(m, p, n).Some?
    ensures var q := RecordsAt(m, p, n).value; RecordsResult(m, p, n) == Ok(q.value, q.end)
    decreases n
  {
    hide RecordAt, RecordResult;
    if n == 0 {
    } else {
      RecordIsRead(m, p);
      RecordsAreRead(m, RecordAt(m, p).value.end, n - 1);
    }
  }

  /** Parsing any well-formed message returns its questions and records. */
  lemma MessageIsRead(m: Octets)
    requires MessageAt(m).Some?
    ensures MessageResult(m) == Ok(MessageAt(m).value.value, MessageAt(m).value.end)
  {
    hide QuestionsAt, RecordsAt, QuestionsResult, RecordsResult;
    var q := QuestionsAt(m, 12, Int16(m, 4)).value;
    QuestionsAreRead(m, 12, Int16(m, 4));
    var an := RecordsAt(m, q.end, Int16(m, 6)).value;
    RecordsAreRead(m, q.end, Int16(m, 6));
    var ns := RecordsAt(m, an.end, Int16(m, 8)).value;
    RecordsAreRead(m, an.end, Int16(m, 8));
    RecordsAreRead(m, ns.end, Int16(m, 10));
  }

  // ----- writing messages -----

  function EncodeInt16(v: nat): (r: Octets)
    requires v < 0x1_0000
    ensures |r| == 2 && Int16(r, 0) == v
  {
    [(v / 256) as byte, (v % 256) as byte]
  }

  function EncodeInt32(v: int): (r: Octets)
    requires -0x8000_0000 <= v < 0x8000_0000
    ensures |r| == 4
  {
    var u := if v < 0 then v + 0x1_0000_0000 else v;
    EncodeInt16(u / 0x1_0000) + EncodeInt16(u % 0x1_0000)
  }

  function EncodeString(s: Octets): Octets
    requires |s| < 256
  {
    [|s| as byte] + s
  }

  /** Record data as its sender has it: names are lists of labels. */
  datatype WireData =
    | WireA(address: Octets)
    | WireNS(server: seq<Octets>)
    | WireCNAME(alias: seq<Octets>)
    | WireAAAA(address6: Octets)
    | WireSRV(priority: nat, weight: nat, port: nat, target: seq<Octets>)
    | WireNAPTR(order: nat, preference: nat, flags: Octets, service: Octets, regexp: Octets, replacement: seq<Octets>)
    | WireOther(rtype: nat, rclass: nat, octets: Octets)

  predicate ValidData(d: WireData) {
    match d
    case WireA(a) => |a| == 4
    case WireNS(n) => ValidLabels(n)
    case WireCNAME(n) => ValidLabels(n)
    case WireAAAA(a) => |a| == 16
    case WireSRV(p, w, q, n) => p < 0x1_0000 && w < 0x1_0000 && q < 0x1_0000 && ValidLabels(n)
    case WireNAPTR(o, p, f, s, r, n) =>
      o < 0x1_0000 && p < 0x1_0000 && |f| < 256 && |s| < 256 && |r| < 256 && ValidLabels(n)
    case WireOther(t, c, _) => t < 0x1_0000 && c < 0x1_0000 && !Known(t, c)
  }

  function TypeOf(d: WireData): (t: nat)
    requires ValidData(d)
    ensures t < 0x1_0000
  {
    match d
    case WireA(_) => TYPE_A
    case WireNS(_) => TYPE_NS
    case WireCNAME(_) => TYPE_CNAME
    case WireAAAA(_) => TYPE_AAAA
    case WireSRV(_, _, _, _) => TYPE_SRV
    case WireNAPTR(_, _, _, _, _, _) => TYPE_NAPTR
    case WireOther(t, _, _) => t
  }

  function ClassOf(d: WireData): (c: nat)
    requires ValidData(d)
    ensures c < 0x1_0000
  {
    if d.WireOther? then d.rclass else CLASS_IN
  }

  function EncodeData(d: WireData): Octets
    requires ValidData(d)
  {
    match d
    case WireA(a) => a
    case WireNS(n) => EncodeName(n)
    case WireCNAME(n) => EncodeName(n)
    case WireAAAA(a) => a
    case WireSRV(p, w, q, n) => EncodeInt16(p) + EncodeInt16(w) + EncodeInt16(q) + EncodeName(n)
    case WireNAPTR(o, p, f, s, r, n) =>
      EncodeInt16(o) + EncodeInt16(p) + (EncodeString(f) + (EncodeString(s) + (EncodeString(r) + EncodeName(n))))
    case WireOther(_, _, octets) => octets
  }

  /** What the reader shows of record data. */
  function ShownData(d: WireData): Data
    requires ValidData(d)
  {
    match d
    case WireA(a) => A(a)
    case WireNS(n) => NS(Shown(n))
    case WireCNAME(n) => CNAME(Shown(n))
    case WireAAAA(a) => AAAA(a)
    case WireSRV(p, w, q, n) => SRV(p, w, q, Shown(n))
    case WireNAPTR(o, p, f, s, r, n) => NAPTR(o, p, Lower(f), Lower(s), Lower(r), Shown(n))
    case WireOther(t, c, _) => Other(t, c)
  }

  lemma Int16Written(v: nat, before: Octets, after: Octets)
    requires v < 0x1_0000
    ensures Int16(before + EncodeInt16(v) + after, |before|) == v
  {
    var m := before + EncodeInt16(v) + after;
    assert m[|before|] == EncodeInt16(v)[0] && m[|before| + 1] == EncodeInt16(v)[1];
  }

  lemma Int32Written(v: int, before: Octets, after: Octets)
    requires -0x8000_0000 <= v < 0x8000_0000
    ensures Int32(before + EncodeInt32(v) + after, |before|) == v
  {
    var u := if v < 0 then v + 0x1_0000_0000 else v;
    var hi, lo := u / 0x1_0000, u % 0x1_0000;
    var m := before + EncodeInt32(v) + after;
    assert m == before + EncodeInt16(hi) + (EncodeInt16(lo) + after);
    assert m == (before + EncodeInt16(hi)) + EncodeInt16(lo) + after;
    Int16Written(hi, before, EncodeInt16(lo) + after);
    Int16Written(lo, before + EncodeInt16(hi), after);
  }

  lemma StringWritten(s: Octets, before: Octets, after: Octets)
    requires |s| < 256
    ensures StringAt(before + EncodeString(s) + after, |before|) == Some(Part(Lower(s), |before| + 1 + |s|))
  {
    var m := before + EncodeString(s) + after;
    assert m[|before|] == |s| as byte;
    assert m[|before| + 1..|before| + 1 + |s|] == s;
  }

  lemma NameWritten(labels: seq<Octets>, before: Octets, after: Octets)
    requires ValidLabels(labels)
    ensures NameFilling(before + EncodeName(labels) + after, |before|, |before| + |EncodeName(labels)|)
            == Some(Shown(labels))
  {
    WrittenNameIsRead(labels, before, after);
  }

  lemma Shift(a: Octets, b: Octets, c: Octets, d: Octets)
    ensures a + (b + c) + d == a + b + (c + d)
    ensures a + (b + c) + d == (a + b) + c + d
  {
  }

  lemma SrvWritten(d: WireData, before: Octets, after: Octets)
    requires ValidData(d) && d.WireSRV?
    ensures var m, p := before + EncodeData(d) + after, |before|;
            DataFilling(m, p, p + |EncodeData(d)|, TYPE_SRV, CLASS_IN) == Some(ShownData(d))
  {
    hide EncodeInt16, EncodeName, Int16, NameFilling, Shown;
    var a, b, c, n := EncodeInt16(d.priority), EncodeInt16(d.weight), EncodeInt16(d.port), EncodeName(d.target);
    var m := before + EncodeData(d) + after;
    assert m == before + a + (b + c + n + after);
    assert m == (before + a) + b + (c + n + after);
    assert m == (before + a + b) + c + (n + after);
    assert m == (before + a + b + c) + n + after;
    Int16Written(d.priority, before, b + c + n + after);
    Int16Written(d.weight, before + a, c + n + after);
    Int16Written(d.port, before + a + b, n + after);
    NameWritten(d.target, before + a + b + c, after);
  }

  lemma NaptrWritten(d: WireData, before: Octets, after: Octets)
    requires ValidData(d) && d.WireNAPTR?
    ensures var m, p := before + EncodeData(d) + after, |before|;
            NaptrFilling(m, p, p + |EncodeData(d)|) == Some(ShownData(d))
  {
    hide EncodeInt16, EncodeName, Int16, NameFilling, Shown, StringAt, EncodeString, Lower;
    var a, b := EncodeInt16(d.order), EncodeInt16(d.preference);
    var f, s, r, n := EncodeString(d.flags), EncodeString(d.service), EncodeString(d.regexp), EncodeName(d.replacement);
    var m := before + EncodeData(d) + after;
    assert m == before + a + (b + (f + (s + (r + n))) + after);
    assert m == (before + a) + b + ((f + (s + (r + n))) + after);
    var p0 := before + a + b;
    assert m == p0 + (f + (s + (r + n))) + after;
    Shift(p0, f, s + (r + n), after);
    Shift(p0 + f, s, r + n, after);
    Shift(p0 + f + s, r, n, after);
    Int16Written(d.order, before, b + (f + (s + (r + n))) + after);
    Int16Written(d.preference, before + a, (f + (s + (r + n))) + after);
    StringWritten(d.flags, p0, s + (r + n) + after);
    StringWritten(d.service, p0 + f, r + n + after);
    StringWritten(d.regexp, p0 + f + s, n + after);
    NameWritten(d.replacement, p0 + f + s + r, after);
    StringLength(d.flags);
    StringLength(d.service);
    StringLength(d.regexp);
  }

  lemma StringLength(s: Octets)
    requires |s| < 256
    ensures |EncodeString(s)| == 1 + |s|
  {
  }

  lemma DataWritten(d: WireData, before: Octets, after: Octets)
    requires ValidData(d)
    ensures var m, p := before + EncodeData(d) + after, |before|;
            DataFilling(m, p, p + |EncodeData(d)|, TypeOf(d), ClassOf(d)) == Some(ShownData(d))
  {
    hide EncodeName, NameFilling, Shown, NaptrFilling, EncodeInt16, EncodeString, Int16, Lower;
    match d {
      case WireA(a) => InMiddle(before, a, after);
      case WireAAAA(a) => InMiddle(before, a, after);
      case WireNS(n) => NameWritten(n, before, after);
      case WireCNAME(n) => NameWritten(n, before, after);
      case WireSRV(_, _, _, _) => SrvWritten(d, before, after);
      case WireNAPTR(_, _, _, _, _, _) => NaptrWritten(d, before, after);
      case _ =>
    }
  }

  datatype Wire = Wire(owner: seq<Octets>, ttl: int, data: WireData)

  predicate ValidWire(w: Wire) {
    && ValidLabels(w.owner) && -0x8000_0000 <= w.ttl < 0x8000_0000
    && ValidData(w.data) && |EncodeData(w.data)| < 0x1_0000
  }

  function EncodeFixed(w: Wire): (r: Octets)
    requires ValidWire(w)
    ensures |r| == 10
  {
    EncodeInt16(TypeOf(w.data)) + EncodeInt16(ClassOf(w.data)) + EncodeInt32(w.ttl) + EncodeInt16(|EncodeData(w.data)|)
  }

  function EncodeRecord(w: Wire): Octets
    requires ValidWire(w)
  {
    EncodeName(w.owner) + (EncodeFixed(w) + EncodeData(w.data))
  }

  function ShownRecord(w: Wire): Record
    requires ValidWire(w)
  {
    Record(Shown(w.owner), w.ttl, ShownData(w.data))
  }

  lemma FixedWritten(w: Wire, before: Octets, after: Octets)
    requires ValidWire(w)
    ensures var m, e := before + EncodeFixed(w) + after, |before|;
            && Int16(m, e) == TypeOf(w.data) && Int16(m, e + 2) == ClassOf(w.data)
            && Int32(m, e + 4) == w.ttl && Int16(m, e + 8) == |EncodeData(w.data)|
  {
    hide EncodeInt16, EncodeInt32, Int16, Int32, TypeOf, ClassOf, EncodeData;
    var a, b, c := EncodeInt16(TypeOf(w.data)), EncodeInt16(ClassOf(w.data)), EncodeInt32(w.ttl);
    var d := EncodeInt16(|EncodeData(w.data)|);
    var m := before + EncodeFixed(w) + after;
    assert m == before + a + (b + c + d + after);
    assert m == (before + a) + b + (c + d + after);
    assert m == (before + a + b) + c + (d + after);
    assert m == (before + a + b + c) + d + after;
    Int16Written(TypeOf(w.data), before, b + c + d + after);
    Int16Written(ClassOf(w.data), before + a, c + d + after);
    Int32Written(w.ttl, before + a + b, d + after);
    Int16Written(|EncodeData(w.data)|, before + a + b + c, after);
  }

  lemma RecordWritten(w: Wire, before: Octets, after: Octets)
    requires ValidWire(w)
    ensures RecordAt(before + EncodeRecord(w) + after, |before|)
            == Some(Part(ShownRecord(w), |before| + |EncodeRecord(w)|))
  {
    hide EncodeName, EncodeFixed, EncodeData, DataFilling, NameAt, NameText, Shown, ShownData, Int16, Int32;
    var n, f, d := EncodeName(w.owner), EncodeFixed(w), EncodeData(w.data);
    var m := before + EncodeRecord(w) + after;
    Shift(before, n, f + d, after);
    Shift(before + n, f, d, after);
    WrittenNameIsRead(w.owner, before, (f + d) + after);
    FixedWritten(w, before + n, d + after);
    DataWritten(w.data, before + n + f, after);
  }

  datatype WireQuestion = WireQuestion(qname: seq<Octets>, qtype: nat, qclass: nat)

  predicate ValidQuestion(q: WireQuestion) {
    ValidLabels(q.qname) && q.qtype < 0x1_0000 && q.qclass < 0x1_0000
  }

  function EncodeQuestion(q: WireQuestion): Octets
    requires ValidQuestion(q)
  {
    EncodeName(q.qname) + (EncodeInt16(q.qtype) + EncodeInt16(q.qclass))
  }

  function ShownQuestion(q: WireQuestion): Question
    requires ValidQuestion(q)
  {
    Question(Shown(q.qname), q.qtype, q.qclass)
  }

  lemma QuestionWritten(q: WireQuestion, before: Octets, after: Octets)
    requires ValidQuestion(q)
    ensures QuestionAt(before + EncodeQuestion(q) + after, |before|)
            == Some(Part(ShownQuestion(q), |before| + |EncodeQuestion(q)|))
  {
    hide EncodeName, NameAt, NameText, Shown, Int16, EncodeInt16;
    var n, t, c := EncodeName(q.qname), EncodeInt16(q.qtype), EncodeInt16(q.qclass);
    Shift(before, n, t + c, after);
    Shift(before + n, t, c, after);
    WrittenNameIsRead(q.qname, before, t + c + after);
    Int16Written(q.qtype, before + n, c + after);
    Int16Written(q.qclass, before + n + t, after);
  }

  function EncodeQuestions(qs: seq<WireQuestion>): Octets
    requires forall i | 0 <= i < |qs| :: ValidQuestion(qs[i])
  {
    if qs == [] then [] else EncodeQuestion(qs[0]) + EncodeQuestions(qs[1..])
  }

  function ShownQuestions(qs: seq<WireQuestion>): seq<Question>
    requires forall i | 0 <= i < |qs| :: ValidQuestion(qs[i])
  {
    if qs == [] then [] else [ShownQuestion(qs[0])] + ShownQuestions(qs[1..])
  }

  function EncodeRecords(ws: seq<Wire>): Octets
    requires forall i | 0 <= i < |ws| :: ValidWire(ws[i])
  {
    if ws == [] then [] else EncodeRecord(ws[0]) + EncodeRecords(ws[1..])
  }

  function ShownRecords(ws: seq<Wire>): seq<Record>
    requires forall i | 0 <= i < |ws| :: ValidWire(ws[i])
  {
    if ws == [] then [] else [ShownRecord(ws[0])] + ShownRecords(ws[1..])
  }

  lemma {:induction false} QuestionsWritten(qs: seq<WireQuestion>, before: Octets, after: Octets)
    requires forall i | 0 <= i < |qs| :: ValidQuestion(qs[i])
    ensures QuestionsAt(before + EncodeQuestions(qs) + after, |before|, |qs|)
            == Some(Part(ShownQuestions(qs), |before| + |EncodeQuestions(qs)|))
    decreases |qs|
  {
    hide EncodeQuestion, ShownQuestion, QuestionAt, ValidQuestion;
    if qs == [] {
    } else {
      var e, rest := EncodeQuestion(qs[0]), EncodeQuestions(qs[1..]);
      Shift(before, e, rest, after);
      QuestionWritten(qs[0], before, rest + after);
      QuestionsWritten(qs[1..], before + e, after);
    }
  }

  lemma {:induction false} RecordsWritten(ws: seq<Wire>, before: Octets, after: Octets)
    requires forall i | 0 <= i < |ws| :: ValidWire(ws[i])
    ensures RecordsAt(before + EncodeRecords(ws) + after, |before|, |ws|)
            == Some(Part(ShownRecords(ws), |before| + |EncodeRecords(ws)|))
    decreases |ws|
  {
    hide EncodeRecord, ShownRecord, RecordAt, ValidWire;
    if ws == [] {
    } else {
      var e, rest := EncodeRecord(ws[0]), EncodeRecords(ws[1..]);
      Shift(before, e, rest, after);
      RecordWritten(ws[0], before, rest + after);
      RecordsWritten(ws[1..], before + e, after);
    }
  }

  /** A message: identification and flags, then the four sections. */
  datatype WireMessage = WireMessage(
    start: Octets,
    questions: seq<WireQuestion>,
    answers: seq<Wire>,
    authority: seq<Wire>,
    additional: seq<Wire>)

  predicate ValidSection(ws: seq<Wire>) {
    |ws| < 0x1_0000 && forall i | 0 <= i < |ws| :: ValidWire(ws[i])
  }

  predicate ValidMessage(x: WireMessage) {
    && |x.start| == 4
    && |x.questions| < 0x1_0000 && (forall i | 0 <= i < |x.questions| :: ValidQuestion(x.questions[i]))
    && ValidSection(x.answers) && ValidSection(x.authority) && ValidSection(x.additional)
  }

  function EncodeHeader(x: WireMessage): (r: Octets)
    requires ValidMessage(x)
    ensures |r| == 12
  {
    x.start + EncodeInt16(|x.questions|) + EncodeInt16(|x.answers|)
    + EncodeInt16(|x.authority|) + EncodeInt16(|x.additional|)
  }

  function EncodeMessage(x: WireMessage): Octets
    requires ValidMessage(x)
  {
    EncodeHeader(x)
    + (EncodeQuestions(x.questions)
       + (EncodeRecords(x.answers) + (EncodeRecords(x.authority) + EncodeRecords(x.additional))))
  }

  function ShownMessage(x: WireMessage): Sections
    requires ValidMessage(x)
  {
    Sections(ShownQuestions(x.questions), ShownRecords(x.answers),
             ShownRecords(x.authority), ShownRecords(x.additional))
  }

  lemma HeaderWritten(x: WireMessage, after: Octets)
    requires ValidMessage(x)
    ensures var m := EncodeHeader(x) + after;
            && Int16(m, 4) == |x.questions| && Int16(m, 6) == |x.answers|
            && Int16(m, 8) == |x.authority| && Int16(m, 10) == |x.additional|
  {
    hide EncodeInt16, Int16;
    var a, b := EncodeInt16(|x.questions|), EncodeInt16(|x.answers|);
    var c, d := EncodeInt16(|x.authority|), EncodeInt16(|x.additional|);
    var s, m := x.start, EncodeHeader(x) + after;
    assert m == s + a + (b + c + d + after);
    assert m == (s + a) + b + (c + d + after);
    assert m == (s + a + b) + c + (d + after);
    assert m == (s + a + b + c) + d + after;
    Int16Written(|x.questions|, s, b + c + d + after);
    Int16Written(|x.answers|, s + a, c + d + after);
    Int16Written(|x.authority|, s + a + b, d + after);
    Int16Written(|x.additional|, s + a + b + c, after);
  }

  lemma MessageWritten(x: WireMessage)
    requires ValidMessage(x)
    ensures MessageAt(EncodeMessage(x)) == Some(Part(ShownMessage(x), |EncodeMessage(x)|))
  {
    hide EncodeHeader, EncodeQuestions, EncodeRecords, ShownQuestions, ShownRecords, QuestionsAt, RecordsAt, Int16, ValidWire;
    var h, q, an := EncodeHeader(x), EncodeQuestions(x.questions), EncodeRecords(x.answers);
    var ns, ar := EncodeRecords(x.authority), EncodeRecords(x.additional);
    var m := EncodeMessage(x);
    HeaderWritten(x, q + (an + (ns + ar)));
    Shift(h, q, an + (ns + ar), []);
    Shift(h + q, an, ns + ar, []);
    Shift(h + q + an, ns, ar, []);
    assert m + [] == m;
    QuestionsWritten(x.questions, h, an + (ns + ar) + []);
    RecordsWritten(x.answers, h + q, ns + ar + []);
    RecordsWritten(x.authority, h + q + an, ar + []);
    RecordsWritten(x.additional, h + q + an + ns, []);
  }

  /** Parsing the serialisation of a message returns its questions and records, with
      names displayed in lower case, and consumes every octet. */
  lemma MessageRoundTrip(x: WireMessage)
    requires ValidMessage(x)
    ensures MessageResult(EncodeMessage(x)) == Ok(ShownMessage(x), |EncodeMessage(x)|)
  {
    MessageWritten(x);
    MessageIsRead(EncodeMessage(x));
  }
}
