/** Serialisation of message fields into a byte buffer at a moving offset. */
module MessagePacking {
  import opened Bytes
  import opened Wrappers

  /** A packed field.  Booleans, characters, integers and the raw bits of floating
      point values are `width`-byte numbers in host (little-endian) order; a time is
      two 8-byte numbers; a string is a 2-byte length and its bytes. */
  datatype Field =
    | Num(width: nat, signed: bool, v: int)
    | Time(sec: int, usec: int)
    | Text(s: seq<byte>)

  datatype Kind = NumKind(w: nat, sgn: bool) | TimeKind | TextKind

  function KindOf(f: Field): Kind {
    match f
    case Num(w, s, _) => NumKind(w, s)
    case Time(_, _) => TimeKind
    case Text(_) => TextKind
  }

  function Pow256(n: nat): (r: nat)
    ensures r >= 1
  {
    if n == 0 then 1 else 256 * Pow256(n - 1)
  }

  /** Range of a two's complement or unsigned number of a given width. */
  predicate Fits(width: nat, signed: bool, v: int) {
    if signed then width >= 1 && -(Pow256(width) / 2) <= v < Pow256(width) / 2
    else 0 <= v < Pow256(width)
  }

  ghost predicate InRange(f: Field) {
    match f
    case Num(w, s, v) => Fits(w, s, v)
    case Time(a, b) => Fits(8, true, a) && Fits(8, true, b)
    case Text(_) => true
  }

  // ----- numbers -----

  /** The low `n` bytes of `u`, least significant first. */
  function ToBytes(u: nat, n: nat): (r: seq<byte>)
    ensures |r| == n
  {
    if n == 0 then [] else [(u % 256) as byte] + ToBytes(u / 256, n - 1)
  }

  function FromBytes(b: seq<byte>): nat {
    if b == [] then 0 else b[0] as nat + 256 * FromBytes(b[1..])
  }

  lemma {:induction false} BytesRoundTrip(u: nat, n: nat)
    requires u < Pow256(n)
    ensures FromBytes(ToBytes(u, n)) == u
    decreases n
  {
    if n == 0 {
    } else {
      BytesRoundTrip(u / 256, n - 1);
    }
  }

  lemma {:induction false} FromBytesBounded(b: seq<byte>)
    ensures FromBytes(b) < Pow256(|b|)
  {
    if b == [] {
    } else {
      FromBytesBounded(b[1..]);
    }
  }

  /** The bytes of a number are its base-256 digits, the least significant first. */
  lemma {:induction false} BytesAreDigits(u: nat, n: nat, k: nat)
    requires k < n
    ensures ToBytes(u, n)[k] as nat == (u / Pow256(k)) % 256
    decreases n
  {
    if k == 0 {
    } else {
      BytesAreDigits(u / 256, n - 1, k - 1);
      DividedTwice(u, Pow256(k - 1));
    }
  }

  lemma DividedTwice(u: nat, d: nat)
    requires d >= 1
    ensures u / 256 / d == u / (256 * d)
  {
    var q := u / 256 / d;
    var x := u / 256;
    assert x == q * d + x % d && u == 256 * x + u % 256;
    assert u == q * (256 * d) + (256 * (x % d) + u % 256);
    assert 256 * (x % d) + u % 256 < 256 * d;
    Quotient(u, 256 * d, q, 256 * (x % d) + u % 256);
  }

  lemma Quotient(x: int, d: int, q: int, r: int)
    requires d > 0 && 0 <= r < d && x == q * d + r
    ensures x / d == q && x % d == r
  {
    var k := x / d - q;
    assert k * d == r - x % d;
    assert k >= 1 ==> k * d >= d;
    assert k <= -1 ==> k * d <= -d;
  }

  /** The memory representation of a number and the number it is read back as. */
  function Encoded(width: nat, v: int): (r: seq<byte>)
    ensures |r| == width
  {
    ToBytes(v % Pow256(width), width)
  }

  function Decoded(b: seq<byte>, signed: bool): int {
    var u := FromBytes(b);
    if signed && u >= Pow256(|b|) / 2 then u - Pow256(|b|) else u
  }

  lemma WrapsOnce(v: int, p: int)
    requires 0 < p && -p <= v < p
    ensures v % p == if v >= 0 then v else v + p
  {
    if v < 0 {
      var q, m := v / p, v % p;
      assert v + p == (q + 1) * p + m;
      assert (v + p) % p == v + p;
      assert q == -1 by { UniqueQuotient(q, m, v, p); }
    }
  }

  lemma UniqueQuotient(q: int, m: int, v: int, p: int)
    requires v == q * p + m && 0 <= m < p && -p <= v < 0
    ensures q == -1
  {
    assert q >= 0 ==> q * p >= 0;
    assert q <= -2 ==> q * p <= -2 * p;
  }

  lemma NumRoundTrip(width: nat, signed: bool, v: int)
    requires Fits(width, signed, v)
    ensures Decoded(Encoded(width, v), signed) == v
  {
    hide ToBytes, FromBytes;
    var p := Pow256(width);
    WrapsOnce(v, p);
    var u := if v >= 0 then v else v + p;
    assert v % p == u;
    BytesRoundTrip(u, width);
    if signed { assert p == 2 * (p / 2); }
  }

  // ----- fields -----

  const MAX_TEXT := 65536

  /** Number of string bytes the 2-byte length keeps. */
  function Kept(s: seq<byte>): (n: nat)
    ensures n <= |s| && n < MAX_TEXT
  {
    |s| % MAX_TEXT
  }

  function Encode(f: Field): seq<byte> {
    match f
    case Num(w, _, v) => Encoded(w, v)
    case Time(a, b) => Encoded(8, a) + Encoded(8, b)
    case Text(s) => Encoded(2, Kept(s)) + s[..Kept(s)]
  }

  /** What a field of some kind at an offset holds and where it ends, if it lies in the buffer. */
  function Decode(k: Kind, d: seq<byte>, ofs: nat): (r: Option<(Field, nat)>)
    ensures r.Some? ==> ofs <= r.value.1 <= |d| && KindOf(r.value.0) == k
  {
    match k
    case NumKind(w, s) =>
      if ofs + w > |d| then None else Some((Num(w, s, Decoded(d[ofs..ofs + w], s)), ofs + w))
    case TimeKind =>
      if ofs + 16 > |d| then None
      else Some((Time(Decoded(d[ofs..ofs + 8], true), Decoded(d[ofs + 8..ofs + 16], true)), ofs + 16))
    case TextKind =>
      if ofs + 2 > |d| then None
      else
        var n := FromBytes(d[ofs..ofs + 2]);
        if ofs + 2 + n > |d| then None else Some((Text(d[ofs + 2..ofs + 2 + n]), ofs + 2 + n))
  }

  /** The field as the receiver sees it: strings are cut to their length modulo 65536. */
  function Stored(f: Field): Field {
    if f.Text? then Text(f.s[..Kept(f.s)]) else f
  }

  /** Of a string only as many bytes arrive as its length leaves over when divided by 65536. */
  lemma LongTextLosesBlocks(s: seq<byte>, blocks: nat, rest: nat)
    requires |s| == blocks * 65536 + rest && rest < 65536
    ensures Stored(Text(s)) == Text(s[..rest])
  {
  }

  /** The receiver sees every field unchanged exactly when its strings are short enough. */
  lemma StoredUnchangedIff(f: Field)
    ensures Stored(f) == f <==> !f.Text? || |f.s| < MAX_TEXT
  {
    if f.Text? { assert |Stored(f).s| == Kept(f.s); }
  }

  lemma FieldRoundTrip(f: Field, before: seq<byte>, after: seq<byte>)
    requires InRange(f)
    ensures Decode(KindOf(f), before + Encode(f) + after, |before|)
            == Some((Stored(f), |before| + |Encode(f)|))
  {
    hide Encoded, Decoded, FromBytes, ToBytes;
    var d, o := before + Encode(f) + after, |before|;
    match f {
      case Num(w, s, v) =>
        NumRoundTrip(w, s, v);
        InMiddle(before, Encoded(w, v), after);
      case Time(a, b) => TimeRoundTrip(a, b, before, after);
      case Text(s) => TextRoundTrip(s, before, after);
    }
  }

  lemma TimeRoundTrip(a: int, b: int, before: seq<byte>, after: seq<byte>)
    requires InRange(Time(a, b))
    ensures Decode(TimeKind, before + Encode(Time(a, b)) + after, |before|) == Some((Time(a, b), |before| + 16))
  {
    hide Encoded, Decoded, Pow256;
    NumRoundTrip(8, true, a);
    NumRoundTrip(8, true, b);
    var d := before + Encode(Time(a, b)) + after;
    TwoInMiddle(before, Encoded(8, a), Encoded(8, b), after);
    var o := |before|;
    assert d[o..o + 8] == Encoded(8, a) && d[o + 8..o + 16] == Encoded(8, b);
  }

  lemma TextRoundTrip(s: seq<byte>, before: seq<byte>, after: seq<byte>)
    ensures var n := Kept(s);
            Decode(TextKind, before + Encode(Text(s)) + after, |before|) == Some((Text(s[..n]), |before| + 2 + n))
  {
    var n := Kept(s);
    assert Pow256(2) == 256 * Pow256(1) && Pow256(1) == 256;
    NumRoundTrip(2, false, n);
    DecodedUnsigned(Encoded(2, n));
    hide Encoded, Decoded, FromBytes, Pow256, Kept;
    var d := before + Encode(Text(s)) + after;
    TwoInMiddle(before, Encoded(2, n), s[..n], after);
    var o := |before|;
    assert d[o..o + 2] == Encoded(2, n) && d[o + 2..o + 2 + n] == s[..n];
  }

  lemma TwoInMiddle(a: seq<byte>, b: seq<byte>, c: seq<byte>, d: seq<byte>)
    ensures var all := a + (b + c) + d;
            && |all| == |a| + |b| + |c| + |d|
            && all[|a|..|a| + |b|] == b
            && all[|a| + |b|..|a| + |b| + |c|] == c
  {
  }

  lemma DecodedUnsigned(b: seq<byte>)
    ensures Decoded(b, false) == FromBytes(b)
  {
  }

  function EncodeAll(fs: seq<Field>): seq<byte> {
    if fs == [] then [] else Encode(fs[0]) + EncodeAll(fs[1..])
  }

  lemma EncodeAllStep(fs: seq<Field>)
    ensures EncodeAll(fs) == if fs == [] then [] else Encode(fs[0]) + EncodeAll(fs[1..])
  {
  }

  function DecodeAll(ks: seq<Kind>, d: seq<byte>, ofs: nat): (r: Option<(seq<Field>, nat)>)
    ensures r.Some? ==> |r.value.0| == |ks| && ofs <= r.value.1 <= |d|
    decreases |ks|
  {
    if ks == [] then if ofs <= |d| then Some(([], ofs)) else None
    else match Decode(ks[0], d, ofs)
      case None => None
      case Some((f, next)) =>
        match DecodeAll(ks[1..], d, next)
        case None => None
        case Some((fs, end)) => Some(([f] + fs, end))
  }

  function Kinds(fs: seq<Field>): seq<Kind> {
    seq(|fs|, i requires 0 <= i < |fs| => KindOf(fs[i]))
  }

  function StoredAll(fs: seq<Field>): seq<Field> {
    seq(|fs|, i requires 0 <= i < |fs| => Stored(fs[i]))
  }

  ghost predicate AllInRange(fs: seq<Field>) {
    forall i | 0 <= i < |fs| :: InRange(fs[i])
  }

  /** Unpacking with the kinds that were packed restores every field and ends at the
      offset packing ended at, whatever surrounds the fields in the buffer. */
  lemma {:induction false} FieldsRoundTrip(fs: seq<Field>, before: seq<byte>, after: seq<byte>)
    requires AllInRange(fs)
    ensures DecodeAll(Kinds(fs), before + EncodeAll(fs) + after, |before|)
            == Some((StoredAll(fs), |before| + |EncodeAll(fs)|))
    decreases |fs|
  {
    hide Encode, Decode, Stored, KindOf, InRange, EncodeAll;
    EncodeAllStep(fs);
    if fs == [] {
      assert before + [] + after == before + after;
      assert StoredAll(fs) == [];
    } else {
      var head, rest := Encode(fs[0]), EncodeAll(fs[1..]);
      var d := before + EncodeAll(fs) + after;
      assert d == before + head + (rest + after) && d == (before + head) + rest + after;
      FieldRoundTrip(fs[0], before, rest + after);
      FieldsRoundTrip(fs[1..], before + head, after);
      assert Kinds(fs)[1..] == Kinds(fs[1..]) && Kinds(fs)[0] == KindOf(fs[0]);
      assert StoredAll(fs) == [Stored(fs[0])] + StoredAll(fs[1..]);
    }
  }

  /** Fields are restored unchanged exactly when every string is shorter than 65536 bytes. */
  lemma AllRestoredIff(fs: seq<Field>, before: seq<byte>, after: seq<byte>)
    requires AllInRange(fs)
    ensures DecodeAll(Kinds(fs), before + EncodeAll(fs) + after, |before|)
              == Some((fs, |before| + |EncodeAll(fs)|))
            <==> forall i | 0 <= i < |fs| :: fs[i].Text? ==> |fs[i].s| < MAX_TEXT
  {
    FieldsRoundTrip(fs, before, after);
    forall i | 0 <= i < |fs| ensures Stored(fs[i]) == fs[i] <==> !fs[i].Text? || |fs[i].s| < MAX_TEXT {
      StoredUnchangedIff(fs[i]);
    }
    if StoredAll(fs) == fs {
      forall i | 0 <= i < |fs| ensures Stored(fs[i]) == fs[i] { assert StoredAll(fs)[i] == fs[i]; }
    } else {
      assert exists i | 0 <= i < |fs| :: StoredAll(fs)[i] != fs[i];
    }
  }

  // ----- declared lengths -----

  /** The length a message declares for a field. */
  function ElementLength(f: Field): nat {
    match f
    case Num(w, _, _) => w
    case Time(_, _) => 8 + 8
    case Text(s) => 2 + Kept(s)
  }

  function TotalLength(fs: seq<Field>): nat {
    if fs == [] then 0 else ElementLength(fs[0]) + TotalLength(fs[1..])
  }

  /** The declared length of a message is its serialised length. */
  lemma {:induction false} DeclaredIsSerialised(fs: seq<Field>)
    ensures TotalLength(fs) == |EncodeAll(fs)|
    decreases |fs|
  {
    if fs == [] {
    } else {
      DeclaredIsSerialised(fs[1..]);
    }
  }

  // ----- packing in place -----

  method PackNum(width: nat, v: int, buf: array<byte>, ofs: nat) returns (next: nat)
    requires ofs + width <= buf.Length
    modifies buf
    ensures next == ofs + width
    ensures buf[..] == old(buf[..ofs]) + Encoded(width, v) + old(buf[next..])
  {
    var u: nat := v % Pow256(width);
    ghost var all := u;
    for i := 0 to width
      invariant buf[..ofs] == old(buf[..ofs]) && buf[ofs + width..] == old(buf[ofs + width..])
      invariant buf[ofs..ofs + i] + ToBytes(u, width - i) == ToBytes(all, width)
    {
      ghost var done := buf[ofs..ofs + i];
      buf[ofs + i] := (u % 256) as byte;
      assert buf[ofs..ofs + i + 1] == done + [(u % 256) as byte];
      u := u / 256;
      assert done + ([buf[ofs + i]] + ToBytes(u, width - i - 1)) == ToBytes(all, width);
    }
    next := ofs + width;
    assert buf[..] == buf[..ofs] + buf[ofs..next] + buf[next..];
  }

  method PackBytes(s: seq<byte>, n: nat, buf: array<byte>, ofs: nat) returns (next: nat)
    requires n <= |s| && ofs + n <= buf.Length
    modifies buf
    ensures next == ofs + n
    ensures buf[..] == old(buf[..ofs]) + s[..n] + old(buf[next..])
  {
    forall i | 0 <= i < n { buf[ofs + i] := s[i]; }
    next := ofs + n;
  }

  /** Writes one field at the offset and moves the offset past it; nothing else changes. */
  method Pack(f: Field, buf: array<byte>, ofs: nat) returns (next: nat)
    requires ofs + |Encode(f)| <= buf.Length
    modifies buf
    ensures next == ofs + |Encode(f)|
    ensures buf[..] == old(buf[..ofs]) + Encode(f) + old(buf[next..])
  {
    hide Encoded;
    match f {
      case Num(w, _, v) =>
        next := PackNum(w, v, buf, ofs);
      case Time(a, b) =>
        next := PackNum(8, a, buf, ofs);
        assert buf[..next] == old(buf[..ofs]) + Encoded(8, a);
        next := PackNum(8, b, buf, next);
        assert old(buf[..ofs]) + Encoded(8, a) + Encoded(8, b) == old(buf[..ofs]) + Encode(f);
      case Text(s) =>
        var len := |s| % MAX_TEXT;
        next := PackNum(2, len, buf, ofs);
        assert buf[..next] == old(buf[..ofs]) + Encoded(2, len);
        next := PackBytes(s, len, buf, next);
        assert old(buf[..ofs]) + Encoded(2, len) + s[..len] == old(buf[..ofs]) + Encode(f);
    }
  }

  lemma Regroup(a: seq<byte>, b: seq<byte>, c: seq<byte>)
    ensures a + b + c == a + (b + c)
  {
  }

  /** A serialiser: packs the fields one after the other. */
  method PackAll(fs: seq<Field>, buf: array<byte>, ofs: nat) returns (next: nat)
    requires ofs + |EncodeAll(fs)| <= buf.Length
    modifies buf
    ensures next == ofs + |EncodeAll(fs)|
    ensures buf[..] == old(buf[..ofs]) + EncodeAll(fs) + old(buf[next..])
    decreases |fs|
  {
    if fs == [] {
      next := ofs;
      assert buf[..] == buf[..ofs] + [] + buf[ofs..];
    } else {
      hide Encode, EncodeAll;
      ghost var head, rest := Encode(fs[0]), EncodeAll(fs[1..]);
      assert EncodeAll(fs) == head + rest by { EncodeAllStep(fs); }
      next := Pack(fs[0], buf, ofs);
      assert buf[..next] == old(buf[..ofs]) + head;
      assert buf[next..] == old(buf[next..]);
      next := PackAll(fs[1..], buf, next);
      Regroup(old(buf[..ofs]), head, rest);
    }
  }

  /** Reads one field at the offset and moves the offset past it. */
  method Unpack(k: Kind, buf: array<byte>, ofs: nat) returns (f: Field, next: nat)
    requires Decode(k, buf[..], ofs).Some?
    ensures Decode(k, buf[..], ofs) == Some((f, next))
  {
    match k {
      case NumKind(w, s) =>
        f, next := Num(w, s, Decoded(buf[ofs..ofs + w], s)), ofs + w;
        assert buf[..][ofs..ofs + w] == buf[ofs..ofs + w];
      case TimeKind =>
        var a := Decoded(buf[ofs..ofs + 8], true);
        next := ofs + 8;
        var b := Decoded(buf[next..next + 8], true);
        next := next + 8;
        f := Time(a, b);
        assert buf[..][ofs..ofs + 8] == buf[ofs..ofs + 8] && buf[..][ofs + 8..ofs + 16] == buf[ofs + 8..ofs + 16];
      case TextKind =>
        var len := FromBytes(buf[ofs..ofs + 2]);
        next := ofs + 2;
        assert buf[..][ofs..ofs + 2] == buf[ofs..ofs + 2];
        f := Text(buf[next..next + len]);
        assert buf[..][next..next + len] == buf[next..next + len];
        next := next + len;
    }
  }

  method UnpackAll(ks: seq<Kind>, buf: array<byte>, ofs: nat) returns (fs: seq<Field>, next: nat)
    requires DecodeAll(ks, buf[..], ofs).Some?
    ensures DecodeAll(ks, buf[..], ofs) == Some((fs, next))
    decreases |ks|
  {
    if ks == [] {
      return [], ofs;
    }
    var f, rest;
    f, next := Unpack(ks[0], buf, ofs);
    rest, next := UnpackAll(ks[1..], buf, next);
    fs := [f] + rest;
  }
}
