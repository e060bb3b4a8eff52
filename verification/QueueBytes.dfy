/** The message queue at the byte level: messages are serialised, cut into slots of a
    flat ring and put together again.  Calls do not wait and do not overlap. */
module QueueBytes {
  import opened Bytes
  import opened MessagePacking
  import opened Wrappers
  import SlottedQueue

  const HEADER := 4
  const BUFFER := 65535

  // ----- cutting a message into slots -----

  function SlotsFor(length: nat, size: nat): nat
    requires size > 0
  {
    length / size + if length % size > 0 then 1 else 0
  }

  function Split(img: seq<byte>, size: nat): seq<seq<byte>>
    requires size > 0
  {
    if img == [] then [] else if |img| <= size then [img] else [img[..size]] + Split(img[size..], size)
  }

  lemma {:induction false} SplitCount(img: seq<byte>, size: nat)
    requires size > 0
    ensures |Split(img, size)| == SlotsFor(|img|, size)
    decreases |img|
  {
    if |img| > size {
      SplitCount(img[size..], size);
      OneMoreSlot(|img| - size, size);
    } else if |img| == size {
      assert size / size == 1 && size % size == 0;
    }
  }

  lemma OneMoreSlot(n: nat, size: nat)
    requires size > 0
    ensures SlotsFor(n + size, size) == SlotsFor(n, size) + 1
  {
    assert (n / size + 1) * size == (n / size) * size + size;
    Quotient(n + size, size, n / size + 1, n % size);
  }

  // ----- slots of the ring -----

  function Wrap(i: nat, count: nat): nat {
    if i < count then i else i - count
  }

  lemma SlotBounds(i: nat, count: nat, size: nat)
    requires i < count
    ensures i * size + size <= count * size
    ensures (i + 1) * size == i * size + size
  {
    var k := count - i - 1;
    assert k * size >= 0;
    assert (k + (i + 1)) * size == k * size + (i + 1) * size;
    assert k + (i + 1) == count;
  }

  ghost predicate Holds(d: seq<byte>, i: nat, size: nat, c: seq<byte>) {
    && |c| <= size && i * size + |c| <= |d|
    && d[i * size..i * size + |c|] == c
  }

  /** The ring holds these pieces from the tail slot on. */
  ghost predicate Layout(d: seq<byte>, tail: nat, count: nat, size: nat, chunks: seq<seq<byte>>) {
    && tail < count && |chunks| <= count && |d| == count * size
    && forall j {:trigger chunks[j]} | 0 <= j < |chunks| :: Holds(d, Wrap(tail + j, count), size, chunks[j])
  }

  lemma HoldsElsewhere(d: seq<byte>, i: nat, size: nat, c: seq<byte>, h: nat, b: seq<byte>)
    requires Holds(d, i, size, c) && i != h && |b| <= size && h * size + |b| <= |d|
    ensures Holds(d[..h * size] + b + d[h * size + |b|..], i, size, c)
  {
    if i < h { SlotBounds(i, h, size); } else { SlotBounds(h, i, size); }
    Elsewhere(d, h * size, b, i * size, |c|);
  }

  lemma Elsewhere(d: seq<byte>, at: nat, b: seq<byte>, lo: nat, n: nat)
    requires at + |b| <= |d| && lo + n <= |d|
    requires lo + n <= at || at + |b| <= lo
    ensures (d[..at] + b + d[at + |b|..])[lo..lo + n] == d[lo..lo + n]
  {
    var d' := d[..at] + b + d[at + |b|..];
    if lo + n <= at {
      assert forall k | lo <= k < lo + n :: d'[k] == d[k];
    } else {
      assert forall k | lo <= k < lo + n :: d'[k] == d[at + |b|..][k - at - |b|] == d[k];
    }
  }

  lemma LayoutAppend(d: seq<byte>, tail: nat, count: nat, size: nat, chunks: seq<seq<byte>>, h: nat, c: seq<byte>)
    requires Layout(d, tail, count, size, chunks)
    requires |chunks| < count && h == Wrap(tail + |chunks|, count)
    requires |c| <= size && h * size + |c| <= |d|
    ensures Layout(d[..h * size] + c + d[h * size + |c|..], tail, count, size, chunks + [c])
  {
    hide Holds;
    var d' := d[..h * size] + c + d[h * size + |c|..];
    NewHolds(d, h, size, c);
    forall j {:trigger (chunks + [c])[j]} | 0 <= j < |chunks + [c]|
      ensures Holds(d', Wrap(tail + j, count), size, (chunks + [c])[j])
    {
      if j < |chunks| {
        assert (chunks + [c])[j] == chunks[j];
        HoldsElsewhere(d, Wrap(tail + j, count), size, chunks[j], h, c);
      }
    }
  }

  lemma RingAppend(d: seq<byte>, tail: nat, count: nat, size: nat, chunks: seq<seq<byte>>, h: nat, c: seq<byte>)
      returns (d': seq<byte>)
    requires Layout(d, tail, count, size, chunks)
    requires |chunks| < count && h == Wrap(tail + |chunks|, count) && |c| <= size
    ensures h < count && h * size + |c| <= |d| && (h + 1) * size == h * size + size
    ensures d' == d[..h * size] + c + d[h * size + |c|..]
    ensures Layout(d', tail, count, size, chunks + [c])
    ensures Wrap(tail + |chunks + [c]|, count) == SlottedQueue.Advance(h, count)
  {
    SlotBounds(h, count, size);
    d' := d[..h * size] + c + d[h * size + |c|..];
    LayoutAppend(d, tail, count, size, chunks, h, c);
    WrapAdvance(tail + |chunks|, count);
  }

  lemma NewHolds(d: seq<byte>, h: nat, size: nat, c: seq<byte>)
    requires |c| <= size && h * size + |c| <= |d|
    ensures Holds(d[..h * size] + c + d[h * size + |c|..], h, size, c)
  {
    InMiddle(d[..h * size], c, d[h * size + |c|..]);
  }

  lemma LayoutDrop(d: seq<byte>, tail: nat, count: nat, size: nat, chunks: seq<seq<byte>>)
    requires Layout(d, tail, count, size, chunks) && chunks != []
    ensures Layout(d, SlottedQueue.Advance(tail, count), count, size, chunks[1..])
  {
    hide Holds;
    forall j {:trigger chunks[1..][j]} | 0 <= j < |chunks[1..]|
      ensures Holds(d, Wrap(SlottedQueue.Advance(tail, count) + j, count), size, chunks[1..][j])
    {
      assert chunks[1..][j] == chunks[j + 1];
    }
  }

  /** As long as they do not run past the end of the ring, the first bytes of the
      message at the tail lie one after the other whatever the slot size. */
  lemma {:induction false} Contiguous(d: seq<byte>, tail: nat, at: nat, count: nat, size: nat,
                                      img: seq<byte>, rest: seq<seq<byte>>, n: nat)
    requires size > 0 && Layout(d, tail, count, size, Split(img, size) + rest)
    requires at == tail * size && n <= |img| && at + n <= |d|
    ensures d[at..at + n] == img[..n]
    decreases |img|
  {
    hide Layout, Split;
    if n == 0 {
    } else if n <= size {
      FirstPiece(d, tail, count, size, img, rest);
      var m := if |img| > size then size else |img|;
      Shorter(d, at, m, n, img);
    } else {
      SkipPiece(d, tail, count, size, img, rest, n);
      Contiguous(d, tail + 1, at + size, count, size, img[size..], rest, n - size);
      Glue(d, at, size, n, img);
    }
  }

  lemma SkipPiece(d: seq<byte>, tail: nat, count: nat, size: nat, img: seq<byte>, rest: seq<seq<byte>>, n: nat)
    requires size > 0 && Layout(d, tail, count, size, Split(img, size) + rest)
    requires size < n <= |img| && tail * size + n <= |d|
    ensures tail + 1 < count && (tail + 1) * size == tail * size + size
    ensures d[tail * size..tail * size + size] == img[..size]
    ensures Layout(d, tail + 1, count, size, Split(img[size..], size) + rest)
  {
    hide Layout, Holds, Split;
    var all, first := Split(img, size) + rest, img[..size];
    LayoutSize(d, tail, count, size, all);
    NextSlot(tail, count, size, n);
    SplitStep(img, size);
    FirstPiece(d, tail, count, size, img, rest);
    LayoutDrop(d, tail, count, size, all);
    DropFirst(first, Split(img[size..], size), rest);
  }

  lemma Shorter(d: seq<byte>, at: nat, m: nat, n: nat, img: seq<byte>)
    requires n <= m <= |img| && at + m <= |d| && d[at..at + m] == img[..m]
    ensures d[at..at + n] == img[..n]
  {
    assert d[at..at + n] == d[at..at + m][..n] && img[..n] == img[..m][..n];
  }

  lemma DropFirst(c: seq<byte>, b: seq<seq<byte>>, rest: seq<seq<byte>>)
    ensures (([c] + b) + rest)[1..] == b + rest
  {
  }

  lemma LayoutSize(d: seq<byte>, tail: nat, count: nat, size: nat, chunks: seq<seq<byte>>)
    requires Layout(d, tail, count, size, chunks)
    ensures tail < count && |d| == count * size
  {
  }

  lemma NextSlot(i: nat, count: nat, size: nat, n: nat)
    requires i < count && n > size && i * size + n <= count * size
    ensures i + 1 < count && (i + 1) * size == i * size + size
  {
    SlotBounds(i, count, size);
  }

  lemma Glue(d: seq<byte>, at: nat, k: nat, n: nat, img: seq<byte>)
    requires k <= n <= |img| && at + n <= |d|
    requires d[at..at + k] == img[..k] && d[at + k..at + n] == img[k..][..n - k]
    ensures d[at..at + n] == img[..n]
  {
    assert d[at..at + n] == d[at..at + k] + d[at + k..at + n];
    assert img[..n] == img[..k] + img[k..][..n - k];
  }

  lemma FirstPiece(d: seq<byte>, tail: nat, count: nat, size: nat, img: seq<byte>, rest: seq<seq<byte>>)
    requires size > 0 && img != [] && Layout(d, tail, count, size, Split(img, size) + rest)
    ensures var n := if |img| > size then size else |img|;
            && |(Split(img, size) + rest)[0]| == n
            && tail * size + n <= |d| && d[tail * size..tail * size + n] == img[..n]
  {
    var all := Split(img, size) + rest;
    assert Holds(d, Wrap(tail + 0, count), size, all[0]);
    SplitStep(img, size);
  }

  /** The four-byte length can be read at every tail position exactly when a slot
      has room for it. */
  lemma HeaderInRingIff(count: nat, size: nat)
    requires count > 0
    ensures (forall t: nat | t < count :: t * size + HEADER <= count * size) <==> size >= HEADER
  {
    forall t: nat | t < count ensures t * size + size <= count * size { SlotBounds(t, count, size); }
    assert (count - 1) * size + size == count * size;
    if forall t: nat | t < count :: t * size + HEADER <= count * size {
      var t := count - 1;
      assert t * size + HEADER <= count * size;
    }
  }

  // ----- messages -----

  function Image(fs: seq<Field>): seq<byte> {
    Encoded(HEADER, HEADER + |EncodeAll(fs)|) + EncodeAll(fs)
  }

  function SplitAll(ms: seq<seq<Field>>, size: nat): seq<seq<byte>>
    requires size > 0
  {
    if ms == [] then [] else Split(Image(ms[0]), size) + SplitAll(ms[1..], size)
  }

  lemma {:induction false} SplitAllAppend(ms: seq<seq<Field>>, m: seq<Field>, size: nat)
    requires size > 0
    ensures SplitAll(ms + [m], size) == SplitAll(ms, size) + Split(Image(m), size)
    decreases |ms|
  {
    hide Split, Image;
    if ms == [] {
      assert (ms + [m])[1..] == [];
      assert SplitAll([], size) == [];
    } else {
      SplitAllAppend(ms[1..], m, size);
      assert (ms + [m])[1..] == ms[1..] + [m];
    }
  }

  /** Fields every queued message starts with. */
  const BASE := [TimeKind, NumKind(4, true)]

  type Factory = int -> Option<seq<Kind>>

  /** A message object: a time stamp and a type, then the fields the receiver's
      factory makes for that type. */
  ghost predicate IsMessage(fs: seq<Field>, alloc: Factory) {
    && |fs| >= 2 && KindOf(fs[0]) == BASE[0] && KindOf(fs[1]) == BASE[1]
    && AllInRange(fs)
    && (alloc(fs[1].v).Some? ==> alloc(fs[1].v).value == Kinds(fs))
  }

  /** A message that the work buffers have room for. */
  ghost predicate WellFormed(fs: seq<Field>, alloc: Factory) {
    IsMessage(fs, alloc) && |Image(fs)| <= BUFFER
  }

  /** What popping a message yields. */
  function Received(fs: seq<Field>, alloc: Factory): Option<seq<Field>>
    requires |fs| >= 2 && fs[1].Num?
  {
    if alloc(fs[1].v).None? then None else Some(StoredAll(fs))
  }

  /** A message whose type the receiver knows arrives field by field as sent, strings but
      for their length modulo 65536; any other is lost. */
  lemma ReceivedIs(fs: seq<Field>, alloc: Factory)
    requires |fs| >= 2 && fs[1].Num?
    ensures Received(fs, alloc).None? <==> alloc(fs[1].v).None?
    ensures Received(fs, alloc).Some? ==>
              var got := Received(fs, alloc).value;
              && |got| == |fs|
              && forall i | 0 <= i < |fs| ::
                   got[i] == if fs[i].Text? then Text(fs[i].s[..|fs[i].s| % 65536]) else fs[i]
  {
  }

  lemma {:induction false} EncodeAllSplit(fs: seq<Field>, k: nat)
    requires k <= |fs|
    ensures EncodeAll(fs) == EncodeAll(fs[..k]) + EncodeAll(fs[k..])
    decreases k
  {
    hide Encode;
    if k == 0 {
      assert fs[0..] == fs;
    } else {
      EncodeAllSplit(fs[1..], k - 1);
      assert fs[1..][..k - 1] == fs[..k][1..];
      assert fs[1..][k - 1..] == fs[k..];
    }
  }

  /** Time stamp and type are read correctly before the kind of message is known,
      and then all fields are. */
  lemma ImageDecodes(fs: seq<Field>, alloc: Factory, after: seq<byte>)
    requires WellFormed(fs, alloc)
    ensures var d := Image(fs) + after;
            && DecodeAll(BASE, d, HEADER).Some?
            && DecodeAll(BASE, d, HEADER).value.0[1] == fs[1]
            && DecodeAll(Kinds(fs), d, HEADER) == Some((StoredAll(fs), |Image(fs)|))
  {
    hide EncodeAll, DecodeAll, InRange;
    var hdr := Encoded(HEADER, HEADER + |EncodeAll(fs)|);
    FieldsRoundTrip(fs, hdr, after);
    EncodeAllSplit(fs, 2);
    var first, rest := EncodeAll(fs[..2]), EncodeAll(fs[2..]) + after;
    FieldsRoundTrip(fs[..2], hdr, rest);
    assert Kinds(fs[..2]) == BASE;
    assert StoredAll(fs[..2])[1] == fs[1];
    assert Image(fs) + after == hdr + first + rest;
  }

  lemma HeaderIsLength(fs: seq<Field>)
    requires |Image(fs)| <= BUFFER
    ensures |Image(fs)| >= HEADER && FromBytes(Image(fs)[..HEADER]) == |Image(fs)|
  {
    hide EncodeAll, Encoded, FromBytes;
    var n := HEADER + |EncodeAll(fs)|;
    assert Pow256(4) == 256 * Pow256(3) && Pow256(3) == 256 * Pow256(2) && Pow256(2) == 256 * Pow256(1) && Pow256(1) == 256;
    NumRoundTrip(HEADER, false, n);
    DecodedUnsigned(Encoded(HEADER, n));
    assert Image(fs)[..HEADER] == Encoded(HEADER, n);
  }

  // ----- the queue -----

  method Copy(dst: array<byte>, to: nat, src: array<byte>, from: nat, len: nat)
    requires dst != src && to + len <= dst.Length && from + len <= src.Length
    modifies dst
    ensures dst[..] == old(dst[..to]) + src[from..from + len] + old(dst[to + len..])
  {
    forall i | 0 <= i < len { dst[to + i] := src[from + i]; }
  }

  datatype Mode = ReadOnly | WriteOnly | ReadWrite

  /** `Overrun`: the message is longer than the work buffer and is written past its end. */
  datatype PushResult = Pushed | Full | NotOpenForWriting | Overrun

  /** `ReadOutside`: the length is read from beyond the end of the ring. */
  datatype PopResult = Popped(msg: Option<seq<Field>>) | NotOpenForReading | ReadOutside

  class EQueueBase {
    const mode: Mode
    const size: nat      // bytes in a slot
    const count: nat     // slots
    const alloc: Factory
    const data: array<byte>
    const wBuffer: array<byte>
    const rBuffer: array<byte>
    var head: nat
    var tail: nat
    var semFree: nat
    var semMsgs: nat
    ghost var chunks: seq<seq<byte>>
    ghost var msgs: seq<seq<Field>>

    ghost predicate Ring()
      reads this, data
    {
      && size > 0 && head < count
      && wBuffer.Length == BUFFER && rBuffer.Length == BUFFER
      && data != wBuffer && data != rBuffer && wBuffer != rBuffer
      && Layout(data[..], tail, count, size, chunks)
      && head == Wrap(tail + |chunks|, count)
    }

    ghost predicate Valid()
      reads this, data
    {
      && Ring()
      && semFree + |chunks| == count && semMsgs == |msgs|
      && chunks == SplitAll(msgs, size)
      && forall i | 0 <= i < |msgs| :: WellFormed(msgs[i], alloc)
    }

    constructor (mode: Mode, size: nat, count: nat, alloc: Factory)
      requires size > 0 && count > 0
      ensures Valid() && msgs == [] && semFree == count && tail == 0
      ensures this.mode == mode && this.size == size && this.count == count && this.alloc == alloc
      ensures fresh(data) && fresh(wBuffer) && fresh(rBuffer)
    {
      this.mode, this.size, this.count, this.alloc := mode, size, count, alloc;
      data := new byte[count * size];
      wBuffer := new byte[BUFFER];
      rBuffer := new byte[BUFFER];
      head, tail, semFree, semMsgs := 0, 0, count, 0;
      chunks, msgs := [], [];
    }

    /** Takes slots one by one; gives them all back when one is missing. */
    method Reserve(n: nat) returns (ok: bool)
      modifies this`semFree
      ensures ok <==> old(semFree) >= n
      ensures semFree == if ok then old(semFree) - n else old(semFree)
    {
      var i := 0;
      while i < n
        invariant 0 <= i <= n && semFree + i == old(semFree)
      {
        if semFree == 0 {
          while i > 0
            invariant 0 <= i < n && semFree + i == old(semFree) < n
          {
            semFree := semFree + 1;
            i := i - 1;
          }
          return false;
        }
        semFree := semFree - 1;
        i := i + 1;
      }
      return true;
    }

    /** Copies one piece of the work buffer to the slot at the head and moves the head on. */
    method WriteSlot(msgOfs: nat, len: nat, dataOfs: nat) returns (nextOfs: nat)
      requires Ring() && |chunks| < count && dataOfs == head * size
      requires len <= size && msgOfs + len <= BUFFER
      modifies this`head, this`chunks, data
      ensures Ring() && chunks == old(chunks) + [wBuffer[msgOfs..msgOfs + len]]
      ensures nextOfs == head * size
    {
      ghost var c, before := wBuffer[msgOfs..msgOfs + len], data[..];
      ghost var after := RingAppend(before, tail, count, size, chunks, head, c);
      hide Layout, Wrap;
      Copy(data, dataOfs, wBuffer, msgOfs, len);
      assert data[..] == after;
      chunks := chunks + [c];
      head := head + 1;
      nextOfs := dataOfs + size;
      if head >= count {
        head, nextOfs := 0, 0;
      }
    }

    /** Writes a serialised message over the next `n` slots. */
    method WriteSlots(length: nat, n: nat)
      requires Ring() && length <= BUFFER && n == SlotsFor(length, size)
      requires |chunks| + n <= count
      modifies this`head, this`chunks, data
      ensures Ring() && chunks == old(chunks) + Split(wBuffer[..length], size)
    {
      hide Layout, Split, SlotsFor, Wrap;
      ghost var img := wBuffer[..length];
      SplitCount(img, size);
      var amtWritten, msgOfs, i := 0, 0, 0;
      var dataOfs := head * size;
      assert img[0..] == img;
      while i < n
        invariant 0 <= i <= n && amtWritten <= length
        invariant i < n ==> msgOfs == amtWritten && dataOfs == head * size
        invariant Ring() && |chunks| == |old(chunks)| + i
        invariant |Split(img[amtWritten..], size)| == n - i
        invariant chunks + Split(img[amtWritten..], size) == old(chunks) + Split(img, size)
      {
        var len := if length - amtWritten > size then size else length - amtWritten;
        ghost var todo := img[amtWritten..];
        SplitStep(todo, size);
        assert todo[len..] == img[amtWritten + len..];
        assert todo[..len] == wBuffer[msgOfs..msgOfs + len];
        RegroupChunks(chunks, todo[..len], Split(todo[len..], size));
        dataOfs := WriteSlot(msgOfs, len, dataOfs);
        amtWritten := amtWritten + len;
        msgOfs := msgOfs + size;
        i := i + 1;
        SplitEmptyIff(todo[len..], size);
      }
      assert Split(img[amtWritten..], size) == [];
    }

    /** Serialises a message after its header and fills in the length. */
    method Serialise(fs: seq<Field>) returns (length: nat)
      requires wBuffer.Length == BUFFER && |Image(fs)| <= BUFFER
      modifies wBuffer
      ensures length == |Image(fs)| && wBuffer[..length] == Image(fs)
    {
      hide EncodeAll, Encoded;
      length := PackAll(fs, wBuffer, HEADER);
      ghost var body := wBuffer[HEADER..length];
      assert body == EncodeAll(fs);
      ghost var tail := wBuffer[length..];
      assert wBuffer[HEADER..] == body + tail;
      var _ := PackNum(HEADER, length, wBuffer, 0);
      assert wBuffer[..] == Encoded(HEADER, length) + (body + tail);
      assert wBuffer[..length] == Encoded(HEADER, length) + body;
    }

    /** Appends a message whose declared length needs as many slots as its
        serialised length, or changes nothing when they are not all free.  The length is
        not checked against the work buffer. */
    method Push(fs: seq<Field>, declared: nat) returns (r: PushResult)
      requires Valid() && IsMessage(fs, alloc)
      requires SlotsFor(HEADER + declared, size) == SlotsFor(HEADER + |EncodeAll(fs)|, size)
      modifies this, data, wBuffer
      ensures !r.Overrun? ==> Valid()
      ensures r.Overrun? <==>
                !mode.ReadOnly? && old(semFree) >= SlotsFor(|Image(fs)|, size) && |Image(fs)| > BUFFER
      ensures r.NotOpenForWriting? <==> mode.ReadOnly?
      ensures r.Full? <==> !mode.ReadOnly? && old(semFree) < SlotsFor(|Image(fs)|, size)
      ensures msgs == if r.Pushed? then old(msgs) + [fs] else old(msgs)
      ensures r.NotOpenForWriting? || r.Full? ==> semFree == old(semFree) && data[..] == old(data[..])
      ensures tail == old(tail)
    {
      hide Image, EncodeAll, SplitAll, Layout, SlotsFor, Split, WellFormed, Encoded, IsMessage, Wrap;
      if mode.ReadOnly? { return NotOpenForWriting; }
      var nSlots := SlotsFor(HEADER + declared, size);
      var ok := Reserve(nSlots);
      if !ok {
        ImageParts(fs);
        return Full;
      }
      if HEADER + |EncodeAll(fs)| > BUFFER {
        ImageParts(fs);
        return Overrun;
      }
      FitsIsWellFormed(fs, alloc);
      SplitCount(Image(fs), size);
      ImageParts(fs);
      var length := Serialise(fs);
      WriteSlots(length, nSlots);
      SplitAllAppend(msgs, fs, size);
      msgs := msgs + [fs];
      semMsgs := semMsgs + 1;
      return Pushed;
    }

    /** Copies the piece in the tail slot to the read buffer and gives the slot back. */
    method ReadSlot(amt: nat, len: nat)
      requires Ring() && chunks != [] && len == |chunks[0]| && amt + len <= BUFFER
      modifies this`tail, this`chunks, this`semFree, rBuffer
      ensures Ring() && chunks == old(chunks)[1..] && semFree == old(semFree) + 1
      ensures rBuffer[..amt + len] == old(rBuffer[..amt]) + old(chunks)[0]
    {
      assert Holds(data[..], Wrap(tail + 0, count), size, chunks[0]);
      assert data[..][tail * size..tail * size + len] == data[tail * size..tail * size + len];
      SlotBounds(tail, count, size);
      LayoutDrop(data[..], tail, count, size, chunks);
      hide Layout, Holds;
      Copy(rBuffer, amt, data, tail * size, len);
      chunks := chunks[1..];
      tail := tail + 1;
      if tail >= count {
        tail := 0;
      }
      semFree := semFree + 1;
    }

    /** Puts the message at the tail together in the read buffer. */
    method ReadSlots(length: nat, ghost img: seq<byte>, ghost rest: seq<seq<byte>>)
      requires Ring() && 0 < |img| == length <= BUFFER
      requires chunks == Split(img, size) + rest
      modifies this`tail, this`chunks, this`semFree, rBuffer
      ensures Ring() && chunks == rest && semFree == old(semFree) + |Split(img, size)|
      ensures rBuffer[..length] == img
    {
      hide Layout, Split;
      var amt := 0;
      assert img[0..] == img;
      while true
        invariant amt < length
        invariant Ring() && chunks == Split(img[amt..], size) + rest
        invariant semFree + |Split(img[amt..], size)| == old(semFree) + |Split(img, size)|
        invariant rBuffer[..amt] == img[..amt]
        decreases length - amt
      {
        var len := if length - amt > size then size else length - amt;
        ghost var todo := img[amt..];
        SplitEmptyIff(todo, size);
        SplitStep(todo, size);
        assert todo[len..] == img[amt + len..];
        ReadSlot(amt, len);
        assert img[..amt + len] == img[..amt] + todo[..len];
        assert chunks == Split(todo[len..], size) + rest;
        amt := amt + len;
        SplitEmptyIff(img[amt..], size);
        if amt >= length { break; }
      }
    }

    /** The length at the tail lies inside the ring. */
    predicate HeaderInside()
      reads this`tail
    {
      tail * size + HEADER <= count * size
    }

    lemma OldestIsAtTail()
      requires Valid() && msgs != [] && HeaderInside()
      ensures chunks == Split(Image(msgs[0]), size) + SplitAll(msgs[1..], size)
      ensures tail * size + HEADER <= data.Length && 0 < |Image(msgs[0])| <= BUFFER
      ensures FromBytes(data[tail * size..tail * size + HEADER]) == |Image(msgs[0])|
    {
      var fs, rest := msgs[0], SplitAll(msgs[1..], size);
      var img := Image(fs);
      assert chunks == Split(img, size) + rest;
      hide Image, EncodeAll, SlotsFor, Layout, Split, SplitAll, WellFormed, Encoded, FromBytes, Wrap;
      Bounded(fs, alloc);
      HeaderIsLength(fs);
      LayoutSize(data[..], tail, count, size, chunks);
      Contiguous(data[..], tail, tail * size, count, size, img, rest, HEADER);
      assert data[tail * size..tail * size + HEADER] == data[..][tail * size..tail * size + HEADER];
    }

    /** The head follows the tail at the distance of the occupied slots. */
    lemma HeadIs()
      requires Valid()
      ensures tail < count && semFree <= count && head == Wrap(tail + (count - semFree), count)
      ensures msgs == [] ==> semFree == count
    {
    }

    /** Takes the oldest message out of the ring and leaves it in the read buffer, unless
        its length would be read from beyond the ring. */
    method Take() returns (r: Option<nat>)
      requires Valid() && semMsgs > 0
      modifies this, rBuffer
      ensures r.None? <==> !old(HeaderInside())
      ensures r.Some? ==>
                && Valid() && msgs == old(msgs)[1..]
                && r.value == |Image(old(msgs)[0])| <= BUFFER && rBuffer[..r.value] == Image(old(msgs)[0])
                && semFree == old(semFree) + SlotsFor(r.value, size)
      ensures head == old(head)
    {
      hide Image, EncodeAll, SlotsFor, Layout, Split, SplitAll, WellFormed, Encoded, FromBytes, Wrap;
      if !HeaderInside() { return None; }
      ghost var img, rest := Image(msgs[0]), SplitAll(msgs[1..], size);
      OldestIsAtTail();
      semMsgs := semMsgs - 1;
      var length := FromBytes(data[tail * size..tail * size + HEADER]);
      ReadSlots(length, img, rest);
      SplitCount(img, size);
      msgs := msgs[1..];
      r := Some(length);
    }

    /** Takes the oldest message out and restores its fields; a message of a type the
        factory does not know is lost. */
    method Pop() returns (r: PopResult)
      requires Valid()
      modifies this, rBuffer
      ensures !r.ReadOutside? ==> Valid()
      ensures r.ReadOutside? <==> !mode.WriteOnly? && old(msgs) != [] && !old(HeaderInside())
      ensures r.NotOpenForReading? <==> mode.WriteOnly?
      ensures mode.WriteOnly? || old(msgs) == [] ==>
                msgs == old(msgs) && semFree == old(semFree) && tail == old(tail)
      ensures !mode.WriteOnly? && old(msgs) == [] ==> r == Popped(None)
      ensures !mode.WriteOnly? && old(msgs) != [] && old(HeaderInside()) ==>
                && msgs == old(msgs)[1..] && r == Popped(Received(old(msgs)[0], alloc))
                && semFree == old(semFree) + SlotsFor(|Image(old(msgs)[0])|, size)
      ensures head == old(head)
    {
      if mode.WriteOnly? { return NotOpenForReading; }
      if semMsgs == 0 { return Popped(None); }
      ghost var fs := msgs[0];
      var taken := Take();
      if taken.None? { return ReadOutside; }
      var length := taken.value;
      hide Image, SlotsFor, DecodeAll, StoredAll, Valid;
      ghost var after := rBuffer[length..];
      assert rBuffer[..] == Image(fs) + after;
      ImageDecodes(fs, alloc, after);
      var start, next := UnpackAll(BASE, rBuffer, HEADER);
      var kinds := alloc(start[1].v);
      if kinds.None? { return Popped(None); }
      var got;
      got, next := UnpackAll(kinds.value, rBuffer, HEADER);
      return Popped(Some(got));
    }
  }

  // ----- a length read from beyond the ring -----

  /** A message of base fields only: twenty bytes after its header. */
  const SHORT := [Time(0, 0), Num(4, true, 0)]

  function OnlyShort(t: int): Option<seq<Kind>> {
    Some(BASE)
  }

  lemma ShortIsMessage()
    ensures IsMessage(SHORT, OnlyShort) && |EncodeAll(SHORT)| == 20 && |Image(SHORT)| == 24
    ensures SlotsFor(24, 1) == 24
  {
    assert Pow256(4) == 256 * Pow256(3) && Pow256(3) == 256 * Pow256(2);
    assert Pow256(8) >= 2 && Pow256(4) >= 2;
    assert SHORT[1..][0] == Num(4, true, 0) && SHORT[1..][1..] == [];
    assert Kinds(SHORT) == BASE;
  }

  /** On a ring of 25 slots of one byte the second message starts in the last slot: the
      length of the first is read, that of the second is not inside the ring. */
  method SecondLengthIsOutside() returns (first: PopResult, second: PopResult)
    ensures first == Popped(Some(StoredAll(SHORT))) && second == ReadOutside
  {
    hide Image, EncodeAll, SlotsFor, IsMessage;
    ShortIsMessage();
    var q := new EQueueBase(ReadWrite, 1, 25, OnlyShort);
    var pushed := q.Push(SHORT, 20);
    q.HeadIs();
    first := q.Pop();
    q.HeadIs();
    pushed := q.Push(SHORT, 20);
    second := q.Pop();
  }

  // ----- a message longer than the work buffer -----

  function Long(): seq<Field> {
    SHORT + [Text(seq(65510, i => 0))]
  }

  function OnlyLong(t: int): Option<seq<Kind>> {
    Some(BASE + [TextKind])
  }

  lemma LongIsMessage()
    ensures IsMessage(Long(), OnlyLong) && |EncodeAll(Long())| == 65532
  {
    ShortIsMessage();
    var fs, text := Long(), Text(seq(65510, i => 0));
    EncodeAllSplit(fs, 2);
    assert fs[..2] == SHORT && fs[2..] == [text];
    LongText(text.s);
    assert Kinds(fs) == BASE + [TextKind];
  }

  lemma LongText(s: seq<byte>)
    requires |s| == 65510
    ensures |EncodeAll([Text(s)])| == 65512 && AllInRange([Text(s)])
  {
    assert Kept(s) == 65510;
  }

  /** Its 65536 bytes fit the one slot of the queue, but not the work buffer. */
  method LongMessageOverruns() returns (r: PushResult)
    ensures r == Overrun
  {
    hide Image, EncodeAll, IsMessage, Long;
    LongIsMessage();
    ImageParts(Long());
    var q := new EQueueBase(ReadWrite, 70000, 1, OnlyLong);
    r := q.Push(Long(), 65532);
  }

  lemma ImageParts(fs: seq<Field>)
    ensures |Image(fs)| == HEADER + |EncodeAll(fs)|
  {
  }

  lemma RegroupChunks(a: seq<seq<byte>>, c: seq<byte>, b: seq<seq<byte>>)
    ensures a + ([c] + b) == (a + [c]) + b
  {
  }

  lemma FitsIsWellFormed(fs: seq<Field>, alloc: Factory)
    requires IsMessage(fs, alloc) && HEADER + |EncodeAll(fs)| <= BUFFER
    ensures WellFormed(fs, alloc) && |Image(fs)| <= BUFFER
  {
  }

  lemma Bounded(fs: seq<Field>, alloc: Factory)
    requires WellFormed(fs, alloc)
    ensures |Image(fs)| <= BUFFER
  {
  }

  lemma SplitStep(img: seq<byte>, size: nat)
    requires size > 0 && (img != [] || Split(img, size) != [])
    ensures var n := if |img| > size then size else |img|;
            n > 0 && Split(img, size) == [img[..n]] + Split(img[n..], size)
  {
    if |img| <= size { assert img[..|img|] == img; }
  }

  lemma SplitEmptyIff(img: seq<byte>, size: nat)
    requires size > 0
    ensures Split(img, size) == [] <==> img == []
  {
  }

  lemma WrapAdvance(i: nat, count: nat)
    requires 0 < count && i < 2 * count - 1
    ensures Wrap(i + 1, count) == SlottedQueue.Advance(Wrap(i, count), count)
  {
  }
}
