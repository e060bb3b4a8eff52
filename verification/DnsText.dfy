/** What is read, in terms of octets alone: letters of either case, dots, pointers, and the
    numbers of record types. */
module DnsText {
  import opened Bytes
  import opened DnsName
  import opened DnsMessage
  import opened DnsEncoding
  import opened Wrappers

  predicate Capital(c: byte) {
    65 <= c <= 90
  }

  /** Equal, or a letter and its other case. */
  predicate SameLetter(a: byte, b: byte) {
    a == b || (Capital(a) && b == a + 32) || (Capital(b) && a == b + 32)
  }

  /** Octet strings that differ at most in the case of letters. */
  predicate SameLetters(a: Octets, b: Octets) {
    |a| == |b| && forall i | 0 <= i < |a| :: SameLetter(a[i], b[i])
  }

  predicate NoCapitals(s: Octets) {
    forall c <- s :: !Capital(c)
  }

  /** What is put in lower case has no capitals, and differs only in them; strings that
      agree afterwards are exactly those that differ at most in case. */
  lemma LowerCase(s: Octets)
    ensures NoCapitals(Lower(s)) && SameLetters(s, Lower(s))
    ensures NoCapitals(s) ==> Lower(s) == s
  {
  }

  lemma LowerIff(a: Octets, b: Octets)
    ensures Lower(a) == Lower(b) <==> SameLetters(a, b)
  {
    if Lower(a) == Lower(b) {
      forall i | 0 <= i < |a| ensures SameLetter(a[i], b[i]) {
        assert Lower(a)[i] == Lower(b)[i];
      }
    }
    if SameLetters(a, b) {
      forall i | 0 <= i < |a| ensures Lower(a)[i] == Lower(b)[i] {
        assert SameLetter(a[i], b[i]);
      }
    }
  }

  // ----- names and strings -----

  /** No name is read with a capital letter in it. */
  lemma NameHasNoCapitals(m: Octets, p: nat)
    requires NameResult(m, p).Ok?
    ensures NoCapitals(NameResult(m, p).value)
  {
    hide Lower, Walk;
    LowerCase(Walk(m, p, |m|).value);
  }

  /** A counted string is read as its octets, in lower case. */
  lemma StringIsItsOctets(m: Octets, p: nat)
    requires StringResult(m, p).Ok?
    ensures var s := StringResult(m, p);
            && s.end == p + 1 + m[p] as nat <= |m|
            && SameLetters(m[p + 1..s.end], s.value) && NoCapitals(s.value)
  {
    hide Lower;
    LowerCase(m[p + 1..p + 1 + m[p] as nat]);
  }

  /** A name without capitals in its labels is shown as they are, joined by dots. */
  lemma ShownAsWritten(m: Octets, p: nat)
    requires NameAt(m, p).Some? && m[p] != 0 && !RootByPointer(m, p, p)
    requires NoCapitals(Dotted(NameAt(m, p).value.labels))
    ensures NameText(m, p) == Dotted(NameAt(m, p).value.labels)
  {
    hide NameAt, NameText, Lower, RootByPointer, Dotted;
    DisplayedName(m, p);
    LowerCase(Dotted(NameAt(m, p).value.labels));
  }

  /** Two lists of labels that differ at most in case. */
  predicate SameLabels(a: seq<Octets>, b: seq<Octets>) {
    |a| == |b| && forall i | 0 <= i < |a| :: SameLetters(a[i], b[i])
  }

  predicate Plain(labels: seq<Octets>) {
    forall l <- labels :: DOT !in l
  }

  /** Text made of labels without dots shows where each of them ends. */
  lemma {:induction false} DottedIff(a: seq<Octets>, b: seq<Octets>)
    requires a != [] && b != [] && Plain(a) && Plain(b)
    ensures SameLetters(Dotted(a), Dotted(b)) <==> SameLabels(a, b)
    decreases |a|
  {
    hide Dotted, SameLetter;
    DottedStep(a);
    DottedStep(b);
    if |a| > 1 && |b| > 1 {
      DottedIff(a[1..], b[1..]);
      HeadIff(a[0], Dotted(a[1..]), b[0], Dotted(b[1..]));
      FirstAndRest(a, b);
    } else if |a| > 1 {
      DotBeyond(b[0], a[0], Dotted(a[1..]));
    } else if |b| > 1 {
      DotBeyond(a[0], b[0], Dotted(b[1..]));
      SymmetricLetters(Dotted(a), Dotted(b));
    } else {
      assert SameLabels(a, b) ==> SameLetters(a[0], b[0]);
    }
  }

  lemma DottedStep(a: seq<Octets>)
    requires a != [] && Plain(a)
    ensures Dotted(a) == if |a| == 1 then a[0] else a[0] + [DOT] + Dotted(a[1..])
    ensures DOT !in a[0] && Plain(a[1..])
  {
  }

  lemma FirstAndRest(a: seq<Octets>, b: seq<Octets>)
    requires a != [] && b != []
    ensures SameLabels(a, b) <==> SameLetters(a[0], b[0]) && SameLabels(a[1..], b[1..])
  {
    if SameLetters(a[0], b[0]) && SameLabels(a[1..], b[1..]) {
      forall i | 0 <= i < |a| ensures SameLetters(a[i], b[i]) {
        if i > 0 { assert SameLetters(a[1..][i - 1], b[1..][i - 1]); }
      }
    }
    if SameLabels(a, b) {
      forall i | 0 <= i < |a[1..]| ensures SameLetters(a[1..][i], b[1..][i]) {
        assert SameLetters(a[i + 1], b[i + 1]);
      }
    }
  }

  lemma SymmetricLetters(a: Octets, b: Octets)
    ensures SameLetters(a, b) <==> SameLetters(b, a)
  {
    if SameLetters(a, b) {
      forall i | 0 <= i < |b| ensures SameLetter(b[i], a[i]) { assert SameLetter(a[i], b[i]); }
    }
    if SameLetters(b, a) {
      forall i | 0 <= i < |a| ensures SameLetter(a[i], b[i]) { assert SameLetter(b[i], a[i]); }
    }
  }

  /** A dot is not a letter of either case. */
  lemma DotIsNoLetter(c: byte)
    ensures SameLetter(DOT, c) || SameLetter(c, DOT) ==> c == DOT
  {
  }

  lemma DotBeyond(x: Octets, y: Octets, rest: Octets)
    requires DOT !in x
    ensures !SameLetters(y + [DOT] + rest, x)
  {
    hide SameLetter;
    var s := y + [DOT] + rest;
    if SameLetters(s, x) {
      assert SameLetter(s[|y|], x[|y|]);
      DotIsNoLetter(x[|y|]);
    }
  }

  lemma HeadIff(x: Octets, s: Octets, y: Octets, t: Octets)
    requires DOT !in x && DOT !in y
    ensures SameLetters(x + [DOT] + s, y + [DOT] + t) <==> SameLetters(x, y) && SameLetters(s, t)
  {
    hide SameLetter;
    var a, b := x + [DOT] + s, y + [DOT] + t;
    if SameLetters(a, b) {
      if |x| < |y| {
        assert SameLetter(a[|x|], b[|x|]) && b[|x|] == y[|x|];
        DotIsNoLetter(b[|x|]);
      } else if |y| < |x| {
        assert SameLetter(a[|y|], b[|y|]) && a[|y|] == x[|y|];
        DotIsNoLetter(a[|y|]);
      }
      forall i | 0 <= i < |x| ensures SameLetter(x[i], y[i]) { assert SameLetter(a[i], b[i]); }
      forall i | 0 <= i < |s| ensures SameLetter(s[i], t[i]) {
        assert SameLetter(a[|x| + 1 + i], b[|x| + 1 + i]);
      }
    }
    if SameLetters(x, y) && SameLetters(s, t) {
      forall i | 0 <= i < |a| ensures SameLetter(a[i], b[i]) {
        if i < |x| {
          assert SameLetter(x[i], y[i]);
        } else if i == |x| {
          Reflexive(DOT);
        } else {
          assert SameLetter(s[i - |x| - 1], t[i - |x| - 1]);
        }
      }
    }
  }

  lemma Reflexive(c: byte)
    ensures SameLetter(c, c)
  {
  }

  /** Two names, in whatever messages and however compressed, are read as the same text if
      and only if they have the same labels up to the case of letters. */
  lemma ReadAlikeIff(m: Octets, p: nat, k: Octets, q: nat)
    requires NameAt(m, p).Some? && !RootByPointer(m, p, p) && Plain(NameAt(m, p).value.labels)
    requires NameAt(k, q).Some? && !RootByPointer(k, q, q) && Plain(NameAt(k, q).value.labels)
    requires NameAt(m, p).value.labels != [] && NameAt(k, q).value.labels != []
    ensures NameResult(m, p).Ok? && NameResult(k, q).Ok?
    ensures NameResult(m, p).value == NameResult(k, q).value <==>
              SameLabels(NameAt(m, p).value.labels, NameAt(k, q).value.labels)
  {
    hide NameAt, NameText, NameResult, Lower, RootByPointer, Dotted;
    DisplayedName(m, p);
    DisplayedName(k, q);
    NameIsRead(m, p);
    NameIsRead(k, q);
    LowerIff(Dotted(NameAt(m, p).value.labels), Dotted(NameAt(k, q).value.labels));
    DottedIff(NameAt(m, p).value.labels, NameAt(k, q).value.labels);
  }

  // ----- octets -----

  /** The two top bits of a field's first octet say what it is. */
  lemma FieldByTopBits(m: Octets, p: nat)
    requires p < |m|
    ensures m[p] < 64 && m[p] > 0 && p + m[p] as nat < |m| ==> FieldAt(m, p) == Label(m[p] as nat)
    ensures m[p] < 64 && p + m[p] as nat >= |m| ==> NameResult(m, p) == LabelBeyondEnd
    ensures 64 <= m[p] < 192 ==> NameResult(m, p) == UnexpectedField
    ensures m[p] == 0 ==> NameResult(m, p) == Ok([46], p + 1)
  {
  }

  /** A pointer is fourteen bits, most significant first. */
  lemma PointerOctets(m: Octets, p: nat, t: nat)
    requires t < 0x4000 && p + 1 < |m| && m[p] as nat == 192 + t / 256 && m[p + 1] as nat == t % 256
    ensures FieldAt(m, p) == Pointer(t)
  {
    assert m[p] as nat / 64 == 3 && m[p] as nat % 64 == t / 256;
  }

  /** The labels "WWW" and "B" in capitals. */
  const CAPITALS: Octets := [3, 87, 87, 87, 1, 66, 0]

  lemma CapitalsAreLowered()
    ensures NameResult(CAPITALS, 0) == Ok([119, 119, 119, 46, 98], 7)
    ensures StringResult(CAPITALS, 0) == Ok([119, 119, 119], 4)
  {
    var m := CAPITALS;
    assert FieldAt(m, 0) == Label(3) && FieldAt(m, 4) == Label(1) && FieldAt(m, 6) == End;
    assert m[1..4] == [87, 87, 87] && m[5..6] == [66];
    assert Walk(m, 6, 5) == Ok([], 7);
    var none: Octets, letter: Octets, word: Octets := [], [66], [87, 87, 87];
    assert letter + none + none == letter && word + [DOT] + letter == [87, 87, 87, 46, 66];
    assert Walk(m, 4, 6) == Ok([66], 7);
    assert Walk(m, 0, 7) == Ok([87, 87, 87, 46, 66], 7);
    assert Lower([87, 87, 87, 46, 66]) == [119, 119, 119, 46, 98];
    assert Lower([87, 87, 87]) == [119, 119, 119];
  }

  /** Numbers are sent with the most significant octet first; times to live are signed. */
  lemma NumberOctets(a: byte, b: byte, c: byte, d: byte)
    ensures Int16([a, b], 0) == a as nat * 256 + b as nat
    ensures (Int32([a, b, c, d], 0) - (a as int * 0x100_0000 + b as int * 0x1_0000 + c as int * 256 + d as int)) % 0x1_0000_0000 == 0
    ensures Int32([a, b, c, d], 0) < 0 <==> a >= 128
  {
  }

  /** Types 1, 2, 5, 28, 33 and 35 of class 1 are what RFC 1035, RFC 3596, RFC 2782 and
      RFC 3403 make of them; data of other types and classes are skipped. */
  lemma TypesByNumber(m: Octets, p: nat, rtype: nat, rclass: nat, rdlength: nat)
    requires p <= |m| && DataResult(m, p, rtype, rclass, rdlength).Ok?
    ensures var d := DataResult(m, p, rtype, rclass, rdlength).value;
            && (d.A? <==> rclass == 1 && rtype == 1) && (d.NS? <==> rclass == 1 && rtype == 2)
            && (d.CNAME? <==> rclass == 1 && rtype == 5) && (d.AAAA? <==> rclass == 1 && rtype == 28)
            && (d.SRV? <==> rclass == 1 && rtype == 33) && (d.NAPTR? <==> rclass == 1 && rtype == 35)
            && (d.Other? ==> d == Other(rtype, rclass))
  {
    hide NameResult, NaptrResult;
    if rclass == CLASS_IN && rtype == TYPE_NAPTR { NaptrKind(m, p); }
  }

  lemma NaptrKind(m: Octets, p: nat)
    requires NaptrResult(m, p).Ok?
    ensures NaptrResult(m, p).value.NAPTR?
  {
  }
  /** Addresses must have the length of their kind, and are the octets themselves. */
  lemma AddressLengths(m: Octets, p: nat, rdlength: nat)
    requires p <= |m|
    ensures rdlength != 4 <==> DataResult(m, p, 1, 1, rdlength) == BadRdLength
    ensures rdlength != 16 <==> DataResult(m, p, 28, 1, rdlength) == BadRdLength
    ensures p + 4 <= |m| ==> DataResult(m, p, 1, 1, 4) == Ok(A(m[p..p + 4]), p + 4)
    ensures p + 16 <= |m| ==> DataResult(m, p, 28, 1, 16) == Ok(AAAA(m[p..p + 16]), p + 16)
  {
  }

  /** No octets are refused; fewer than a header are read past their end. */
  lemma HeaderNeeded(m: Octets)
    ensures |m| == 0 ==> MessageResult(m) == InvalidData
    ensures 0 < |m| < 12 ==> MessageResult(m) == PastEnd
  {
  }

  /** What is cut short is read past the end. */
  lemma CutShort(m: Octets, p: nat)
    ensures StringResult(m, p) == PastEnd <==> p >= |m| || p + 1 + m[p] as nat > |m|
    ensures !StringResult(m, p).Ok? ==> StringResult(m, p) == PastEnd
    ensures p >= |m| ==> NameResult(m, p) == PastEnd
    ensures NameResult(m, p).Ok? && NameResult(m, p).end + 4 > |m| ==> QuestionResult(m, p) == PastEnd
    ensures NameResult(m, p).Ok? && NameResult(m, p).end + 10 > |m| ==> RecordResult(m, p) == PastEnd
  {
  }

  /** The failure of a part is the failure of the whole. */
  lemma FailureIsPassedOn<T, U>(o: Outcome<T>)
    requires !o.Ok?
    ensures var f: Outcome<U> := Failed(o);
            && (o.InvalidData? <==> f.InvalidData?) && (o.LabelBeyondEnd? <==> f.LabelBeyondEnd?)
            && (o.UnexpectedField? <==> f.UnexpectedField?) && (o.BadRdLength? <==> f.BadRdLength?)
            && (o.PastEnd? <==> f.PastEnd?) && (o.NeverReturns? <==> f.NeverReturns?)
  {
  }

  /** A host record of "a": type 1, class 1, 300 seconds, four octets of address. */
  const HOST: Octets := [0, 1, 0, 1, 0, 0, 1, 44, 0, 4, 10, 0, 0, 7]

  lemma Fixed(m: Octets, e: nat)
    requires e + 14 <= |m| && m[e..e + 14] == HOST
    ensures Int16(m, e) == 1 && Int16(m, e + 2) == 1 && Int32(m, e + 4) == 300 && Int16(m, e + 8) == 4
  {
    var h := m[e..e + 14];
    assert m[e] == h[0] && m[e + 1] == h[1] && m[e + 2] == h[2] && m[e + 3] == h[3];
    assert m[e + 4] == h[4] && m[e + 5] == h[5] && m[e + 6] == h[6] && m[e + 7] == h[7];
    assert m[e + 8] == h[8] && m[e + 9] == h[9];
  }

  lemma HostRecordIsRead(m: Octets, p: nat, name: Octets, e: nat)
    requires NameResult(m, p) == Ok(name, e) && e + 14 <= |m| && m[e..e + 14] == HOST
    ensures RecordResult(m, p) == Ok(Record(name, 300, A([10, 0, 0, 7])), e + 14)
  {
    hide NameResult, Int16, Int32;
    Fixed(m, e);
    assert m[e + 10..e + 14] == m[e..e + 14][10..14] == [10, 0, 0, 7];
  }

  lemma NameOfA(m: Octets, p: nat)
    requires p + 3 <= |m| && m[p..p + 3] == [1, 97, 0]
    ensures NameResult(m, p) == Ok([97], p + 3)
  {
    assert m[p] == m[p..p + 3][0] && m[p + 1] == m[p..p + 3][1] && m[p + 2] == m[p..p + 3][2];
    assert FieldAt(m, p) == Label(1) && FieldAt(m, p + 2) == End;
    var none: Octets, letter: Octets := [], [97];
    assert m[p + 1..p + 2] == letter && letter + none + none == letter;
    assert Walk(m, p + 2, |m| - 1) == Ok([], p + 3);
    assert Walk(m, p, |m|) == Ok(letter, p + 3);
    assert Lower(letter) == letter;
  }

  /** The fields of a service record and of a naming authority record, in their places. */
  lemma ServiceFields()
    ensures DataResult([0, 1, 0, 2, 0, 3, 0], 0, 33, 1, 7) == Ok(SRV(1, 2, 3, [46]), 7)
    ensures DataResult([0, 1, 0, 2, 1, 65, 1, 66, 1, 67, 0], 0, 35, 1, 11)
              == Ok(NAPTR(1, 2, [97], [98], [99], [46]), 11)
  {
    FieldByTopBits([0, 1, 0, 2, 0, 3, 0], 6);
    var m: Octets := [0, 1, 0, 2, 1, 65, 1, 66, 1, 67, 0];
    FieldByTopBits(m, 10);
    assert m[5..6] == [65] && m[7..8] == [66] && m[9..10] == [67];
    assert Lower([65]) == [97] && Lower([66]) == [98] && Lower([67]) == [99];
    hide NameResult, Lower;
    assert StringResult(m, 4) == Ok([97], 6) && StringResult(m, 6) == Ok([98], 8) && StringResult(m, 8) == Ok([99], 10);
  }

  /** A message that asks for the host "a" and answers with a pointer to the question. */
  const ANSWERED: Octets :=
    [0, 1, 128, 0, 0, 1, 0, 1, 0, 0, 0, 0] + [1, 97, 0, 0, 1, 0, 1] + [192, 12] + HOST

  lemma AnsweredIsRead()
    ensures MessageResult(ANSWERED) ==
              Ok(Sections([Question([97], 1, 1)], [Record([97], 300, A([10, 0, 0, 7]))], [], []), 35)
  {
    hide NameResult, RecordResult, QuestionResult;
    var m := ANSWERED;
    var question, answer := Question([97], 1, 1), Record([97], 300, A([10, 0, 0, 7]));
    assert |m| == 35 && Int16(m, 4) == 1 && Int16(m, 6) == 1 && Int16(m, 8) == 0 && Int16(m, 10) == 0;
    AskedForA(m);
    assert m[21..35] == HOST;
    PointerToA(m, 19);
    HostRecordIsRead(m, 19, [97], 21);
    var none: seq<Question>, nothing: seq<Record> := [], [];
    assert [question] + none == [question] && [answer] + nothing == [answer];
    assert QuestionsResult(m, 12, 1) == Ok([question], 19) by { assert QuestionsResult(m, 19, 0) == Ok(none, 19); }
    assert RecordsResult(m, 19, 1) == Ok([answer], 35) by { assert RecordsResult(m, 35, 0) == Ok(nothing, 35); }
  }

  lemma AskedForA(m: Octets)
    requires m == ANSWERED
    ensures QuestionResult(m, 12) == Ok(Question([97], 1, 1), 19) && m[12..15] == [1, 97, 0]
  {
    assert m[12..15] == [1, 97, 0];
    NameOfA(m, 12);
    hide NameResult;
  }

  lemma PointerToA(m: Octets, p: nat)
    requires 15 <= p && p + 2 <= |m| && m[p] == 192 && m[p + 1] == 12 && m[12..15] == [1, 97, 0]
    ensures NameResult(m, p) == Ok([97], p + 2)
  {
    PointerOctets(m, p, 12);
    assert m[12] == m[12..15][0] && m[13] == m[12..15][1] && m[14] == m[12..15][2];
    assert FieldAt(m, 12) == Label(1) && FieldAt(m, 14) == End;
    var none: Octets, letter: Octets := [], [97];
    assert m[13..14] == letter && letter + none + none == letter;
    assert Walk(m, 14, |m| - 2) == Ok([], 15);
    assert Walk(m, 12, |m| - 1) == Ok(letter, 15);
    assert Walk(m, p, |m|) == Ok(letter, p + 2);
    assert Lower(letter) == letter;
  }
}
