/** Domain names in DNS messages: labels and compression pointers (section 4.1.4 of RFC 1035). */
module DnsName {
  import opened Bytes
  import opened Wrappers

  type Octets = seq<byte>

  /** How parsing some part of a message ends: a value and the offset after it, an error
      the parser raises, a read outside the message, or not at all. */
  datatype Outcome<+T> =
    | Ok(value: T, end: nat)
    | InvalidData
    | LabelBeyondEnd
    | UnexpectedField
    | BadRdLength
    | PastEnd
    | NeverReturns

  /** What the octet at a position starts. */
  datatype Field = End | Label(len: nat) | TooLong | Pointer(target: nat) | Bad | Outside

  function FieldAt(m: Octets, p: nat): (f: Field)
    ensures f.Label? ==> 1 <= f.len < 64 && p + f.len < |m|
    ensures f.Pointer? ==> p + 1 < |m|
  {
    if p >= |m| then Outside
    else
      var a := m[p] as nat;
      if a == 0 then End
      else if a / 64 == 0 then if p + a >= |m| then TooLong else Label(a)
      else if a / 64 == 3 then if p + 1 >= |m| then Outside else Pointer((a % 64) * 256 + m[p + 1] as nat)
      else Bad
  }

  const DOT: byte := 46

  function Lower(s: Octets): (r: Octets)
    ensures |r| == |s|
  {
    seq(|s|, i requires 0 <= i < |s| => if 65 <= s[i] <= 90 then s[i] + 32 else s[i])
  }

  // ----- the walk over labels and pointers -----

  /** The walk from a position stops within `n` steps. */
  predicate Ends(m: Octets, p: nat, n: nat)
    decreases n
  {
    match FieldAt(m, p)
    case Label(len) => n > 0 && Ends(m, p + 1 + len, n - 1)
    case Pointer(t) => n > 0 && Ends(m, t, n - 1)
    case _ => true
  }

  ghost predicate Terminates(m: Octets, p: nat) {
    exists n: nat :: Ends(m, p, n)
  }

  /** The text collected by the walk within `n` steps and the end of the name in place. */
  function Walk(m: Octets, p: nat, n: nat): (r: Outcome<Octets>)
    ensures r.Ok? ==> p < |m| && p < r.end <= |m|
    ensures r.NeverReturns? <==> !Ends(m, p, n)
    decreases n
  {
    match FieldAt(m, p)
    case End => Ok([], p + 1)
    case Label(len) =>
      if n == 0 then NeverReturns
      else
        var next := p + 1 + len;
        var rest := Walk(m, next, n - 1);
        if rest.Ok? then Ok(m[p + 1..next] + (if m[next] != 0 then [DOT] else []) + rest.value, rest.end) else rest
    case Pointer(t) =>
      if n == 0 then NeverReturns
      else
        var rest := Walk(m, t, n - 1);
        if rest.Ok? then Ok(rest.value, p + 2) else rest
    case TooLong => LabelBeyondEnd
    case Bad => UnexpectedField
    case Outside => PastEnd
  }

  lemma {:induction false} WalkIsStable(m: Octets, p: nat, n: nat, k: nat)
    requires Ends(m, p, n) && Ends(m, p, k)
    ensures Walk(m, p, n) == Walk(m, p, k)
    decreases n
  {
    match FieldAt(m, p)
    case Label(len) => WalkIsStable(m, p + 1 + len, n - 1, k - 1);
    case Pointer(t) => WalkIsStable(m, t, n - 1, k - 1);
    case _ =>
  }

  // ----- when the walk ends -----

  lemma {:induction false} EndsLater(m: Octets, p: nat, n: nat, k: nat)
    requires Ends(m, p, n) && n <= k
    ensures Ends(m, p, k)
    decreases n
  {
    match FieldAt(m, p)
    case Label(len) => EndsLater(m, p + 1 + len, n - 1, k - 1);
    case Pointer(t) => EndsLater(m, t, n - 1, k - 1);
    case _ =>
  }

  /** A walk that needs `n` steps passes `n` different positions of the message. */
  lemma {:induction false} PositionsPassed(m: Octets, p: nat, n: nat) returns (ps: set<nat>)
    requires Ends(m, p, n) && (n == 0 || !Ends(m, p, n - 1))
    ensures |ps| == n && forall x <- ps :: x < |m| && Ends(m, x, n)
    decreases n
  {
    if n == 0 {
      ps := {};
    } else {
      var f := FieldAt(m, p);
      var next := if f.Label? then p + 1 + f.len else f.target;
      var rest := PositionsPassed(m, next, n - 1);
      assert p !in rest;
      ps := rest + {p};
      forall x | x in rest ensures Ends(m, x, n) { EndsLater(m, x, n - 1, n); }
    }
  }

  lemma {:induction false} BelowCount(ps: set<nat>, n: nat)
    requires forall x <- ps :: x < n
    ensures |ps| <= n
    decreases n
  {
    if n == 0 {
      assert ps == {};
    } else {
      BelowCount(ps - {n - 1}, n - 1);
      assert ps - {n - 1} == ps || ps == (ps - {n - 1}) + {n - 1};
    }
  }

  lemma {:induction false} Shortest(m: Octets, p: nat, n: nat) returns (k: nat)
    requires Ends(m, p, n)
    ensures Ends(m, p, k) && (k == 0 || !Ends(m, p, k - 1))
    decreases n
  {
    if n == 0 || !Ends(m, p, n - 1) {
      k := n;
    } else {
      k := Shortest(m, p, n - 1);
    }
  }

  /** Following a name ends if and only if it ends within as many steps as the message
      has octets: a longer walk has come back to where it was. */
  lemma TerminatesIffWithinLength(m: Octets, p: nat)
    ensures Terminates(m, p) <==> Ends(m, p, |m|)
  {
    if n: nat :| Ends(m, p, n) {
      var k := Shortest(m, p, n);
      var ps := PositionsPassed(m, p, k);
      BelowCount(ps, |m|);
      EndsLater(m, p, k, |m|);
    }
  }

  /** The name as displayed: a name of one octet is the root. */
  function Display(text: Octets, length: nat): Octets {
    if length == 1 then [DOT] else Lower(text)
  }

  /** The name at an offset as the parser reads it. */
  function NameResult(m: Octets, ofs: nat): (r: Outcome<Octets>)
    ensures r.Ok? ==> ofs < |m| && ofs < r.end <= |m|
    ensures r.NeverReturns? <==> !Ends(m, ofs, |m|)
  {
    var w := Walk(m, ofs, |m|);
    if w.Ok? then Ok(Display(w.value, w.end - ofs), w.end) else w
  }

  lemma NeverReturnsIff(m: Octets, ofs: nat)
    ensures NameResult(m, ofs).NeverReturns? <==> !Terminates(m, ofs)
  {
    TerminatesIffWithinLength(m, ofs);
  }

  lemma NameIsWalk(m: Octets, p: nat, n: nat)
    requires Ends(m, p, n)
    ensures var w := Walk(m, p, n);
            NameResult(m, p) == if w.Ok? then Ok(Display(w.value, w.end - p), w.end) else w
  {
    hide Walk, Ends;
    TerminatesIffWithinLength(m, p);
    WalkIsStable(m, p, n, |m|);
  }

  // ----- names whose pointers go strictly backwards -----

  /** The labels of a name and the end of the name in place. */
  datatype Name = Name(labels: seq<Octets>, end: nat)

  /** The labels from a position on, in a stretch of labels that began at `start`; every
      pointer must lead before the stretch it ends. */
  function NameFrom(m: Octets, start: nat, p: nat): (r: Option<Name>)
    requires start <= p
    ensures r.Some? ==> p < |m| && p < r.value.end <= |m|
    ensures r.Some? ==> forall l <- r.value.labels :: 1 <= |l| < 64
    decreases start, |m| - p
  {
    match FieldAt(m, p)
    case End => Some(Name([], p + 1))
    case Label(len) =>
      var rest := NameFrom(m, start, p + 1 + len);
      if rest.Some? then Some(Name([m[p + 1..p + 1 + len]] + rest.value.labels, rest.value.end)) else None
    case Pointer(t) =>
      if t < start then
        var rest := NameFrom(m, t, t);
        if rest.Some? then Some(Name(rest.value.labels, p + 2)) else None
      else None
    case _ => None
  }

  function NameAt(m: Octets, p: nat): (r: Option<Name>)
    ensures r.Some? ==> p < |m| && p < r.value.end <= |m|
  {
    NameFrom(m, p, p)
  }

  function Dotted(labels: seq<Octets>): Octets {
    if labels == [] then []
    else if |labels| == 1 then labels[0]
    else labels[0] + [DOT] + Dotted(labels[1..])
  }

  /** The last label is followed by a pointer to the root instead of the root itself. */
  predicate RootByPointer(m: Octets, start: nat, p: nat)
    requires start <= p && NameFrom(m, start, p).Some?
    decreases start, |m| - p
  {
    match FieldAt(m, p)
    case Label(len) =>
      var next := p + 1 + len;
      (FieldAt(m, next).Pointer? && NameFrom(m, start, next).value.labels == []) || RootByPointer(m, start, next)
    case Pointer(t) => RootByPointer(m, t, t)
    case _ => false
  }

  /** The text of a well-formed name: its labels joined by dots, with a dot at the end
      when the root is reached by a pointer from a label. */
  function Text(m: Octets, start: nat, p: nat): Octets
    requires start <= p && NameFrom(m, start, p).Some?
  {
    Dotted(NameFrom(m, start, p).value.labels) + if RootByPointer(m, start, p) then [DOT] else []
  }

  /** The walk over a name with backward pointers ends and collects its text. */
  lemma {:induction false} WalkReadsName(m: Octets, start: nat, p: nat) returns (n: nat)
    requires start <= p && NameFrom(m, start, p).Some?
    ensures Ends(m, p, n) && Walk(m, p, n) == Ok(Text(m, start, p), NameFrom(m, start, p).value.end)
    decreases start, |m| - p
  {
    hide NameFrom, Text;
    FieldText(m, start, p);
    match FieldAt(m, p)
    case End =>
      n := 0;
    case Label(len) =>
      n := WalkReadsName(m, start, p + 1 + len);
      n := n + 1;
      LabelText(m, start, p, len);
    case Pointer(t) =>
      n := WalkReadsName(m, t, t);
      n := n + 1;
  }

  /** What a name is by its first field. */
  lemma FieldText(m: Octets, start: nat, p: nat)
    requires start <= p && NameFrom(m, start, p).Some?
    ensures match FieldAt(m, p)
            case End => Text(m, start, p) == [] && NameFrom(m, start, p).value.end == p + 1
            case Label(len) =>
              && NameFrom(m, start, p + 1 + len).Some?
              && NameFrom(m, start, p).value.end == NameFrom(m, start, p + 1 + len).value.end
            case Pointer(t) =>
              && t < start && NameFrom(m, t, t).Some?
              && Text(m, start, p) == Text(m, t, t) && NameFrom(m, start, p).value.end == p + 2
            case _ => false
  {
  }

  lemma LabelText(m: Octets, start: nat, p: nat, len: nat)
    requires start <= p && NameFrom(m, start, p).Some? && FieldAt(m, p) == Label(len)
    ensures var next := p + 1 + len;
            && next < |m| && NameFrom(m, start, next).Some?
            && Text(m, start, p) == m[p + 1..next] + (if m[next] != 0 then [DOT] else []) + Text(m, start, next)
  {
    var next := p + 1 + len;
    var l, rest := m[p + 1..next], NameFrom(m, start, next).value.labels;
    assert NameFrom(m, start, p).value.labels == [l] + rest;
    if rest == [] { NoLabelsNoDot(m, start, next); } else { SomeLabels(m, start, next); }
    DottedMore(l, rest, if RootByPointer(m, start, next) then [DOT] else []);
  }

  lemma DottedMore(l: Octets, rest: seq<Octets>, tail: Octets)
    ensures rest == [] ==> Dotted([l] + rest) == l && Dotted(rest) == []
    ensures rest != [] ==> Dotted([l] + rest) + tail == l + [DOT] + (Dotted(rest) + tail)
  {
    assert ([l] + rest)[1..] == rest;
  }

  lemma SomeLabels(m: Octets, start: nat, p: nat)
    requires start <= p && NameFrom(m, start, p).Some? && NameFrom(m, start, p).value.labels != []
    ensures FieldAt(m, p).Label? || (FieldAt(m, p).Pointer? && NameFrom(m, start, p).value.labels != [])
  {
  }

  lemma {:induction false} NoLabelsNoDot(m: Octets, start: nat, p: nat)
    requires start <= p && NameFrom(m, start, p).Some? && NameFrom(m, start, p).value.labels == []
    ensures !RootByPointer(m, start, p) && (FieldAt(m, p).End? || FieldAt(m, p).Pointer?)
    decreases start, |m| - p
  {
    match FieldAt(m, p)
    case Pointer(t) => NoLabelsNoDot(m, t, t);
    case _ =>
  }

  /** The displayed form of a well-formed name. */
  function NameText(m: Octets, p: nat): Octets
    requires NameAt(m, p).Some?
  {
    Display(Text(m, p, p), NameAt(m, p).value.end - p)
  }

  /** Parsing a name with strictly backward pointers terminates, yields its displayed
      form and advances by the octets the name occupies in place. */
  lemma NameIsRead(m: Octets, p: nat)
    requires NameAt(m, p).Some?
    ensures NameResult(m, p) == Ok(NameText(m, p), NameAt(m, p).value.end)
  {
    var k := WalkReadsName(m, p, p);
    NameIsWalk(m, p, k);
  }

  /** What is displayed: a dot for the root in place, nothing for a pointer to the root,
      and otherwise the lower-cased labels joined by dots unless the root is reached by
      a pointer from a label. */
  lemma DisplayedName(m: Octets, p: nat)
    requires NameAt(m, p).Some?
    ensures var ls := NameAt(m, p).value.labels;
            && (m[p] == 0 <==> NameText(m, p) == [DOT] && ls == [])
            && (m[p] != 0 ==> (NameText(m, p) == Lower(Dotted(ls)) <==> !RootByPointer(m, p, p)))
            && (m[p] != 0 && ls == [] ==> NameText(m, p) == [])
  {
    var ls, end := NameAt(m, p).value.labels, NameAt(m, p).value.end;
    assert |Lower(Text(m, p, p))| == |Text(m, p, p)| >= |Lower(Dotted(ls))|;
    if m[p] == 0 {
      assert end - p == 1;
    } else {
      assert end - p > 1;
      if ls == [] { NoLabelsNoDot(m, p, p); }
      if !RootByPointer(m, p, p) { assert Text(m, p, p) == Dotted(ls); }
    }
  }

  /** The root at offset 0, and the label "a" followed by a pointer to it at offset 1. */
  const ROOT_REFERRED_TO: Octets := [0, 1, 97, 192, 0]

  /** The name at offset 1 is displayed with a dot at the end, the pointer alone as nothing. */
  lemma RootByPointerShows()
    ensures NameAt(ROOT_REFERRED_TO, 1) == Some(Name([[97]], 5))
    ensures NameResult(ROOT_REFERRED_TO, 1) == Ok([97, DOT], 5) && Lower(Dotted([[97]])) == [97]
    ensures NameResult(ROOT_REFERRED_TO, 3) == Ok([], 5)
  {
    var m := ROOT_REFERRED_TO;
    assert FieldAt(m, 0) == End && FieldAt(m, 1) == Label(1) && FieldAt(m, 3) == Pointer(0);
    assert m[2..3] == [97];
    hide FieldAt;
    assert NameFrom(m, 0, 0) == Some(Name([], 1)) && !RootByPointer(m, 0, 0);
    assert NameFrom(m, 3, 3) == Some(Name([], 5)) && !RootByPointer(m, 3, 3);
    assert NameFrom(m, 1, 3) == Some(Name([], 5)) && !RootByPointer(m, 1, 3);
    var none: seq<Octets> := [];
    assert [m[2..3]] + none == [[97]];
    assert NameFrom(m, 1, 1) == Some(Name([[97]], 5)) && RootByPointer(m, 1, 1);
    assert Dotted([[97]]) == [97] && Dotted(none) == [];
    assert Text(m, 1, 1) == [97, DOT] && Text(m, 3, 3) == [];
    assert Lower([97, DOT]) == [97, DOT];
    NameIsRead(m, 1);
    NameIsRead(m, 3);
  }

  // ----- pointers that do not go backwards -----

  /** Labels alone lead from one position to another. */
  ghost predicate LabelsLead(m: Octets, p: nat, q: nat)
    decreases |m| - p
  {
    p == q || (FieldAt(m, p).Label? && LabelsLead(m, p + 1 + FieldAt(m, p).len, q))
  }

  lemma {:induction false} LabelsTakeSteps(m: Octets, p: nat, q: nat, n: nat) returns (k: nat)
    requires LabelsLead(m, p, q) && Ends(m, p, n) && FieldAt(m, q).Pointer?
    ensures k <= n && Ends(m, q, k)
    decreases n
  {
    if p == q {
      k := n;
    } else {
      k := LabelsTakeSteps(m, p + 1 + FieldAt(m, p).len, q, n - 1);
    }
  }

  /** A pointer into the stretch of labels it ends is followed for ever. */
  lemma OwnStretchNeverReturns(m: Octets, t: nat, p: nat)
    requires LabelsLead(m, t, p) && FieldAt(m, p) == Pointer(t)
    ensures NameResult(m, t) == NeverReturns
  {
    NeverWithin(m, t, p, |m|);
  }

  lemma {:induction false} NeverWithin(m: Octets, t: nat, p: nat, n: nat)
    requires LabelsLead(m, t, p) && FieldAt(m, p) == Pointer(t)
    ensures !Ends(m, t, n)
    decreases n
  {
    if Ends(m, t, n) {
      var k := LabelsTakeSteps(m, t, p, n);
      NeverWithin(m, t, p, k - 1);
    }
  }

  /** Following labels and pointers for `k` steps leads from `p` to `q`. */
  predicate Follows(m: Octets, p: nat, q: nat, k: nat)
    decreases k
  {
    if k == 0 then p == q
    else
      match FieldAt(m, p)
      case Label(len) => Follows(m, p + 1 + len, q, k - 1)
      case Pointer(t) => Follows(m, t, q, k - 1)
      case _ => false
  }

  lemma {:induction false} FollowsTakesSteps(m: Octets, p: nat, q: nat, k: nat, n: nat)
    requires Follows(m, p, q, k) && Ends(m, p, n)
    ensures k <= n && Ends(m, q, n - k)
    decreases k
  {
    if k == 0 {
    } else {
      var f := FieldAt(m, p);
      FollowsTakesSteps(m, if f.Label? then p + 1 + f.len else f.target, q, k - 1, n - 1);
    }
  }

  /** A walk that comes to a cycle, through however many stretches, never ends. */
  lemma CycleNeverReturns(m: Octets, p: nat, j: nat, q: nat, k: nat)
    requires Follows(m, p, q, j) && Follows(m, q, q, k) && k >= 1
    ensures NameResult(m, p) == NeverReturns
  {
    if Ends(m, p, |m|) {
      FollowsTakesSteps(m, p, q, j, |m|);
      RoundAndRound(m, q, k, |m| - j);
    }
  }

  lemma {:induction false} RoundAndRound(m: Octets, q: nat, k: nat, n: nat)
    requires Follows(m, q, q, k) && k >= 1
    ensures !Ends(m, q, n)
    decreases n
  {
    if Ends(m, q, n) {
      FollowsTakesSteps(m, q, q, k, n);
      RoundAndRound(m, q, k, n - k);
    }
  }

  /** Two stretches whose pointers lead to each other. */
  const TWO_STRETCHES: Octets := [1, 97, 192, 4, 1, 98, 192, 0]

  lemma TwoStretchesNeverReturn()
    ensures NameResult(TWO_STRETCHES, 0) == NeverReturns
    ensures NameResult(TWO_STRETCHES, 4) == NeverReturns
  {
    var m := TWO_STRETCHES;
    assert FieldAt(m, 0) == Label(1) && FieldAt(m, 2) == Pointer(4);
    assert FieldAt(m, 4) == Label(1) && FieldAt(m, 6) == Pointer(0);
    hide FieldAt;
    assert Follows(m, 6, 0, 1) && Follows(m, 6, 4, 3) by {
      assert Follows(m, 0, 0, 0) && Follows(m, 2, 4, 1);
      assert Follows(m, 0, 4, 2);
    }
    assert Follows(m, 4, 0, 2) && Follows(m, 4, 4, 4) by { assert Follows(m, 6, 0, 1); }
    assert Follows(m, 2, 0, 3) && Follows(m, 0, 0, 4);
    assert Follows(m, 0, 0, 0) && Follows(m, 4, 4, 0);
    CycleNeverReturns(m, 0, 0, 0, 4);
    CycleNeverReturns(m, 4, 0, 4, 4);
  }

  // ----- writing names -----

  predicate ValidLabels(labels: seq<Octets>) {
    forall l <- labels :: 1 <= |l| < 64
  }

  function EncodeName(labels: seq<Octets>): (r: Octets)
    requires ValidLabels(labels)
    ensures |r| >= 1
  {
    if labels == [] then [0] else [|labels[0]| as byte] + labels[0] + EncodeName(labels[1..])
  }

  /** What a parser displays for a name written without compression. */
  function Shown(labels: seq<Octets>): Octets {
    if labels == [] then [DOT] else Lower(Dotted(labels))
  }

  lemma {:induction false} EncodedNameFrom(labels: seq<Octets>, before: Octets, after: Octets, start: nat)
    requires ValidLabels(labels) && start <= |before|
    ensures var m := before + EncodeName(labels) + after;
            && NameFrom(m, start, |before|) == Some(Name(labels, |before| + |EncodeName(labels)|))
            && !RootByPointer(m, start, |before|)
            && (FieldAt(m, |before|).Label? || FieldAt(m, |before|).End?)
    decreases |labels|
  {
    hide NameFrom, RootByPointer, FieldAt, EncodeName;
    EncodeNameStep(labels);
    var p, m := |before|, before + EncodeName(labels) + after;
    if labels == [] {
      RootHere(m, start, p);
    } else {
      var l, rest := labels[0], EncodeName(labels[1..]);
      var before' := before + [|l| as byte] + l;
      Parts(before, l, rest, after);
      EncodedNameFrom(labels[1..], before', after, start);
      LabelThenName(m, start, p, l, Name(labels[1..], |before'| + |rest|));
      assert [l] + labels[1..] == labels;
    }
  }

  lemma EncodeNameStep(labels: seq<Octets>)
    requires ValidLabels(labels)
    ensures EncodeName(labels) ==
              if labels == [] then [0] else [|labels[0]| as byte] + labels[0] + EncodeName(labels[1..])
  {
  }

  lemma RootHere(m: Octets, start: nat, p: nat)
    requires start <= p < |m| && m[p] == 0
    ensures NameFrom(m, start, p) == Some(Name([], p + 1)) && !RootByPointer(m, start, p) && FieldAt(m, p).End?
  {
  }

  lemma LabelThenName(m: Octets, start: nat, p: nat, l: Octets, rest: Name)
    requires start <= p && FieldAt(m, p) == Label(|l|) && m[p + 1..p + 1 + |l|] == l
    requires var next := p + 1 + |l|;
             && NameFrom(m, start, next) == Some(rest) && !RootByPointer(m, start, next)
             && (FieldAt(m, next).Label? || FieldAt(m, next).End?)
    ensures NameFrom(m, start, p) == Some(Name([l] + rest.labels, rest.end)) && !RootByPointer(m, start, p)
  {
  }

  lemma Parts(before: Octets, l: Octets, rest: Octets, after: Octets)
    requires 1 <= |l| < 64
    ensures var p, m := |before|, before + ([|l| as byte] + l + rest) + after;
            && m == (before + [|l| as byte] + l) + rest + after
            && FieldAt(m, p) == Label(|l|)
            && m[p + 1..p + 1 + |l|] == l
  {
    var p, m := |before|, before + ([|l| as byte] + l + rest) + after;
    assert m[p] == |l| as byte;
    assert p + |l| < |m|;
  }

  /** Reading back a written name displays its labels, whatever surrounds it. */
  lemma WrittenNameIsRead(labels: seq<Octets>, before: Octets, after: Octets)
    requires ValidLabels(labels)
    ensures var m := before + EncodeName(labels) + after;
            && NameAt(m, |before|) == Some(Name(labels, |before| + |EncodeName(labels)|))
            && NameText(m, |before|) == Shown(labels)
  {
    var p, m := |before|, before + EncodeName(labels) + after;
    EncodedNameFrom(labels, before, after, p);
    if labels != [] {
      assert Text(m, p, p) == Dotted(labels);
      assert |EncodeName(labels)| > 1;
    }
  }
}
