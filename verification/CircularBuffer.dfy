/** The circular byte buffer: the array with its head, tail and used counters,
    proved to behave as a sequence of bytes. */
module CircularBuffer {

  import opened Bytes
  import opened Wrappers

  datatype BufferError =
    | HeadAndTailOutOfSync
    | UsedLessThanZero
    | TailExceededCapacity
    | AttemptToExceedCapacity
    | BufferSizeHasBeenExceeded
    | HeadHasExceededCapacity
    | AttemptToModifyOutsideBounds
    | BeforeMemory   // the program would go on with memory in front of the array

  /** Position `k` bytes after `from` in a ring of `n` cells. */
  function Wrap(from: nat, k: nat, n: nat): (r: nat)
    requires from < n && k <= n
    ensures r < n
  {
    if from + k >= n then from + k - n else from + k
  }

  /** `k` bytes of the ring starting at position `from`. */
  function Slice(d: seq<byte>, from: nat, k: nat): (r: seq<byte>)
    requires k > 0 ==> from < |d| && k <= |d|
    ensures |r| == k
  {
    seq(k, i requires 0 <= i < k => d[Wrap(from, i, |d|)])
  }

  /** The ring read in two chunks is the ring read in one. */
  lemma SliceSplits(d: seq<byte>, from: nat, j: nat, k: nat)
    requires from < |d| && j + k <= |d|
    ensures Slice(d, from, j + k) == Slice(d, from, j) + Slice(d, Wrap(from, j, |d|), k)
  {
  }

  lemma StartOfRun(d: seq<byte>, from: nat)
    requires from < |d|
    ensures Slice(d, from, 0) == [] && Wrap(from, 0, |d|) == from
  {
  }

  /** A chunk that does not wrap is a plain slice of the array. */
  lemma SliceIsFlat(d: seq<byte>, from: nat, k: nat)
    requires from < |d| && from + k <= |d|
    ensures Slice(d, from, k) == d[from..from + k]
  {
  }

  lemma NextChunk(d: seq<byte>, from: nat, j: nat, at: nat, k: nat)
    requires from < |d| && j + k <= |d| && at == Wrap(from, j, |d|) && at + k <= |d|
    ensures Slice(d, from, j + k) == Slice(d, from, j) + d[at..at + k]
  {
    SliceSplits(d, from, j, k);
    SliceIsFlat(d, at, k);
  }

  /** Copy `n` elements of `src` from `from` into the array at `at`. */
  method Memcpy(dst: array<byte>, at: nat, src: seq<byte>, from: nat, n: nat)
    requires at + n <= dst.Length && from + n <= |src|
    modifies dst
    ensures dst[..] == Patch(old(dst[..]), at, src[from..from + n])
  {
    forall i | 0 <= i < n { dst[at + i] := src[from + i]; }
  }

  /** `d` with `chunk` written over it at position `at`. */
  function Patch(d: seq<byte>, at: nat, chunk: seq<byte>): (r: seq<byte>)
    requires at + |chunk| <= |d|
    ensures |r| == |d|
  {
    d[..at] + chunk + d[at + |chunk|..]
  }

  function Max0(n: int): nat {
    if n < 0 then 0 else n
  }

  function Min(a: int, b: int): int {
    if a < b then a else b
  }

  class ECircularBuffer {
    const capacity: nat
    const data: array<byte>
    var head: nat
    var tail: nat
    var used: nat

    ghost predicate Valid()
      reads this
    {
      && data.Length == capacity
      && used <= capacity
      && if capacity == 0 then head == 0 && tail == 0
         else tail < capacity && head == Wrap(tail, used, capacity)
    }

    /** The bytes in the buffer, oldest first. */
    ghost function Contents(): (s: seq<byte>)
      requires Valid()
      reads this, data
      ensures |s| == used
    {
      Slice(data[..], tail, used)
    }

    constructor (capacity: nat)
      ensures Valid() && Contents() == [] && this.capacity == capacity && fresh(data)
    {
      this.capacity := capacity;
      data := new byte[capacity](i => 0);
      head := 0;
      tail := 0;
      used := 0;
    }

    /** Space that can be written at the head without wrapping. */
    function Room(): nat
      requires head <= capacity
      reads this
    {
      if head < tail then tail - head else capacity - head
    }

    /** One pass of the write loop: copy a chunk to the head and advance it. */
    method WriteChunk(src: seq<byte>, from: nat, n: nat)
      requires Valid() && 0 < n <= Room() && used + n <= capacity && from + n <= |src|
      modifies this`head, this`used, data
      ensures Valid() && used == old(used) + n
      ensures Contents() == old(Contents()) + src[from..from + n]
    {
      hide Slice, Patch;
      Appended(data[..], tail, used, head, src[from..from + n]);
      Memcpy(data, head, src, from, n);
      used := used + n;
      if used > capacity {
        assert false;
      }
      head := head + n;
      if head == capacity {
        head := 0;
      } else if head > capacity {
        assert false;
      }
    }

    /** Appends the first `length` bytes of `src`; fails exactly when they do not
        fit, and then changes nothing. */
    method WriteData(src: seq<byte>, length: int) returns (r: Result<(), BufferError>)
      requires Valid() && length <= |src|
      modifies this`head, this`used, data
      ensures Valid()
      ensures r == if old(used) + length > capacity then Failure(AttemptToExceedCapacity) else Success(())
      ensures Contents() == old(Contents()) + (if r.Success? then src[..Max0(length)] else [])
    {
      hide Contents;
      if used + length > capacity {
        assert Contents() == old(Contents()) + [];
        return Failure(AttemptToExceedCapacity);
      }
      var amtWritten := 0;
      ghost var was := Contents();
      assert was + src[..0] == was;
      while amtWritten < length
        invariant 0 <= amtWritten <= Max0(length)
        invariant Valid() && used == old(used) + amtWritten
        invariant Contents() == was + src[..amtWritten]
      {
        var writeLen := if head < tail then tail - head else capacity - head;
        if writeLen > length - amtWritten {
          writeLen := length - amtWritten;
        }
        WriteChunk(src, amtWritten, writeLen);
        assert was + src[..amtWritten] + src[amtWritten..amtWritten + writeLen]
            == was + src[..amtWritten + writeLen];
        amtWritten := amtWritten + writeLen;
      }
      r := Success(());
    }

    /** How far the next pass of the read loop reads from position `at`. */
    function ReadLen(at: nat, wanted: nat): (n: nat)
      requires at < capacity && head <= capacity
      reads this
      ensures n <= wanted && at + n <= capacity && (wanted > 0 ==> n > 0)
    {
      var run := if at < head then head - at else capacity - at;
      if run > wanted then wanted else run
    }

    /** One pass of the read loop: copies a run of the ring and says where the next one is. */
    method ReadChunk(dest: array?<byte>, start: nat, done: nat, at: nat, n: nat) returns (next: nat)
      requires Valid() && start < capacity && done + n <= capacity && at == Wrap(start, done, capacity)
      requires at + n <= capacity
      requires dest != null ==> dest != data && done + n <= dest.Length && dest[..done] == Slice(data[..], start, done)
      modifies if dest == null then {} else {dest}
      ensures next == Wrap(start, done + n, capacity)
      ensures dest != null ==> dest[..done + n] == Slice(data[..], start, done + n)
    {
      hide Slice;
      NextChunk(data[..], start, done, at, n);
      if dest != null {
        CopyOut(dest, done, at, n);
      }
      next := at + n;
      if next == capacity {
        next := 0;
      } else if next > capacity {
        assert false;
      }
    }

    /** A run starting inside the contents does not pass their end. */
    lemma RunStaysInside(offset: nat, done: nat, wanted: nat)
      requires Valid() && offset + done < used
      ensures done + ReadLen(Wrap(Wrap(tail, offset, capacity), done, capacity), wanted) <= used - offset
    {
    }

    /** The read loop: copy chunks starting at position `start` until `length` bytes
        are read or `used` bytes are accounted for. */
    method Gather(dest: array?<byte>, ghost offset: int, start: nat, length: int)
      returns (ok: bool, amtRead: nat, newTail: nat)
      requires Valid() && start < capacity
      requires 0 <= offset < used ==> start == Wrap(tail, offset, capacity)
      requires dest != null ==> dest != data && length <= dest.Length
      modifies if dest == null then {} else {dest}
      ensures 0 <= offset < used && Fits(offset, length) ==> ok && amtRead == Max0(Min(length, used - offset))
      ensures ok ==> amtRead == Max0(length) || amtRead == used
      ensures length <= used ==> ok
      ensures ok ==> amtRead <= used && amtRead <= Max0(length) && newTail == Wrap(start, amtRead, capacity)
      ensures ok && dest != null ==> dest[..amtRead] == Slice(data[..], start, amtRead)
    {
      hide Slice, Wrap;
      amtRead := 0;
      newTail := start;
      var newUsed: int := used;
      StartOfRun(data[..], start);
      while amtRead < length && newUsed > 0
        invariant 0 <= amtRead <= Max0(length) && 0 <= newUsed == used - amtRead
        invariant 0 <= offset < used && Fits(offset, length) ==> amtRead <= used - offset
        invariant newTail == Wrap(start, amtRead, capacity)
        invariant dest != null ==> dest[..amtRead] == Slice(data[..], start, amtRead)
        decreases length - amtRead
      {
        var readLen := ReadLen(newTail, length - amtRead);
        if 0 <= offset && offset + amtRead < used { RunStaysInside(offset, amtRead, length - amtRead); }
        newUsed := newUsed - readLen;
        if newUsed < 0 {
          ok := false;
          return;
        }
        newTail := ReadChunk(dest, start, amtRead, newTail, readLen);
        amtRead := amtRead + readLen;
      }
      ok := true;
    }

    /** What a read at an offset inside the contents comes to: within them it gets all
        there is, otherwise it fails or runs past their end. */
    ghost predicate Gathered(offset: nat, length: int, ok: bool, amtRead: nat, newTail: nat)
      requires Valid() && offset < used
      reads this
    {
      && (Fits(offset, length) ==> ok && amtRead == Max0(Min(length, used - offset)))
      && (ok && !Fits(offset, length) ==> amtRead > used - offset)
      && (length <= used ==> ok && amtRead == Max0(length))
      && (ok ==> amtRead <= used && amtRead <= Max0(length)
                 && newTail == Wrap(Wrap(tail, offset, capacity), amtRead, capacity))
    }

    lemma WhenGathered(offset: nat, length: int, ok: bool, amtRead: nat, newTail: nat)
      requires Valid() && offset < used && Gathered(offset, length, ok, amtRead, newTail)
      ensures Fits(offset, length) ==> ok && amtRead == Max0(Min(length, used - offset))
      ensures ok && !Fits(offset, length) ==> amtRead > used - offset
      ensures length <= used ==> ok && amtRead == Max0(length)
      ensures ok ==> amtRead <= used && amtRead <= Max0(length) && newTail < capacity
      ensures ok ==> (newTail == Wrap(tail, amtRead, capacity) <==> offset == 0)
    {
    }

    /** Finds the starting position and reads. */
    method Collect(dest: array?<byte>, offset: nat, length: int) returns (ok: bool, amtRead: nat, newTail: nat)
      requires Valid() && offset < used
      requires dest != null ==> dest != data && length <= dest.Length
      modifies if dest == null then {} else {dest}
      ensures Gathered(offset, length, ok, amtRead, newTail)
      ensures ok && dest != null && amtRead <= used - offset ==> dest[..amtRead] == Contents()[offset..][..amtRead]
    {
      hide Slice;
      var start := tail + offset;
      if start >= capacity {
        start := start - capacity;
      }
      ok, amtRead, newTail := Gather(dest, offset, start, length);
      if amtRead <= used - offset {
        SliceOfContents(data[..], tail, used, offset, amtRead);
      }
    }

    /** Reads up to `length` bytes from `offset` into `dest` (when it is given),
        removing them unless `peek`.  The amount and the bytes are those of the
        contents from `offset` exactly when `offset` is zero, past the end, or
        leaves `length` bytes; otherwise the read runs into the part of the ring
        beyond the contents, or, for a negative offset, starts in front of them. */
    method ReadData(dest: array?<byte>, offset: int, length: int, peek: bool) returns (r: Result<nat, BufferError>)
      requires Valid()
      requires dest != null ==> dest != data && length <= dest.Length
      modifies if peek then {} else {this}, if dest == null then {} else {dest}
      ensures peek ==> Valid() && Contents() == old(Contents())
      ensures old(Fits(offset, length)) ==>
                && r == Success(Max0(Min(length, old(used) - offset)))
                && (dest != null ==> dest[..r.value] == old(Contents())[Min(offset, old(used))..][..r.value])
      ensures !old(Fits(offset, length)) && offset >= 0 ==> r.Failure? || r.value > old(used) - offset
      ensures offset < old(used) && old(tail) + offset >= 0 && length <= old(used) ==> r == Success(Max0(length))
      ensures head == old(head) && (r.Failure? || peek ==> used == old(used) && tail == old(tail))
      ensures !peek && r.Success? && offset < old(used) && old(used) > 0 ==>
                && old(tail) + offset >= 0
                && var start := if offset < 0 then old(tail) + offset else Wrap(old(tail), offset, capacity);
                   used == old(used) - r.value && tail == Wrap(start, r.value, capacity)
      ensures offset < 0 && old(used) == 0 ==> r == Success(0)
      ensures offset < 0 && old(used) > 0 && old(tail) + offset < 0 ==> r == Failure(BeforeMemory)
      ensures r.Success? ==> r.value <= Max0(length) && r.value <= old(used)
      ensures offset < 0 && old(used) > 0 && old(tail) + offset >= 0 && r.Success? && dest != null ==>
                dest[..r.value] == Slice(data[..], old(tail) + offset, r.value)
      ensures !peek && offset == 0 ==>
                Valid() && r.Success? && Contents() == old(Contents())[r.value..]
      ensures !peek && r.Success? ==> (Valid() <==> offset == 0 || offset >= old(used) || old(used) == 0)
    {
      if used == 0 {
        if head != tail {
          assert false;
        }
        return Success(0);
      }
      if offset >= used {
        return Success(0);
      }
      if offset < 0 {
        r := ReadInFront(dest, offset, length, peek);
        return;
      }
      hide Contents, Gathered;
      var ok, amtRead, newTail := Collect(dest, offset, length);
      WhenGathered(offset, length, ok, amtRead, newTail);
      if !ok {
        return Failure(UsedLessThanZero);
      }
      r := Success(amtRead);
      if !peek {
        Consume(amtRead, newTail);
      }
    }

    /** The same with a negative offset: reads the ring from in front of the tail. */
    method ReadInFront(dest: array?<byte>, offset: int, length: int, peek: bool) returns (r: Result<nat, BufferError>)
      requires Valid() && used > 0 && offset < 0
      requires dest != null ==> dest != data && length <= dest.Length
      modifies if peek then {} else {this}, if dest == null then {} else {dest}
      ensures peek ==> Valid() && Contents() == old(Contents())
      ensures old(tail) + offset < 0 ==> r == Failure(BeforeMemory)
      ensures r.Success? ==> r.value <= Max0(length) && old(tail) + offset >= 0 && r.value <= old(used)
      ensures r.Success? && dest != null ==> dest[..r.value] == Slice(data[..], old(tail) + offset, r.value)
      ensures !peek && r.Success? ==> !Valid()
      ensures old(tail) + offset >= 0 && length <= old(used) ==> r == Success(Max0(length))
      ensures head == old(head) && (r.Failure? || peek ==> used == old(used) && tail == old(tail))
      ensures !peek && r.Success? ==>
                used == old(used) - r.value && tail == Wrap(old(tail) + offset, r.value, capacity)
    {
      hide Contents, Slice;
      if tail + offset < 0 {
        return Failure(BeforeMemory);
      }
      var ok, amtRead, newTail := Gather(dest, offset, tail + offset, length);
      if !ok {
        return Failure(UsedLessThanZero);
      }
      r := Success(amtRead);
      if !peek {
        Consume(amtRead, newTail);
      }
    }

    /** Move the tail forward; this drops the oldest bytes when the new tail is
        `n` past the old one, and breaks the ring otherwise. */
    method Consume(n: nat, newTail: nat)
      requires Valid() && n <= used && newTail < capacity
      modifies this`used, this`tail
      ensures used == old(used) - n && tail == newTail
      ensures Valid() <==> newTail == Wrap(old(tail), n, capacity)
      ensures Valid() ==> Contents() == old(Contents())[n..]
    {
      SliceOfContents(data[..], tail, used, n, 0);
      used := used - n;
      tail := newTail;
    }

    method CopyOut(dest: array<byte>, at: nat, from: nat, n: nat)
      requires dest != data && at + n <= dest.Length && from + n <= data.Length
      modifies dest
      ensures dest[..at + n] == old(dest[..at]) + data[from..from + n]
    {
      forall i | 0 <= i < n { dest[at + i] := data[from + i]; }
    }

    /** The read stays within the contents. */
    predicate Fits(offset: int, length: int)
      reads this
    {
      offset == 0 || offset >= used || (offset > 0 && offset + length <= used)
    }

    /** One pass of the modify loop: overwrite a chunk of the contents. */
    method ModifyChunk(src: seq<byte>, from: nat, ofs: nat, idx: nat, n: nat)
      requires Valid() && from + n <= |src| && ofs + n <= used && capacity > 0
      requires idx == Wrap(tail, ofs, capacity) && idx + n <= capacity
      modifies data
      ensures Contents() == Patch(old(Contents()), ofs, src[from..from + n])
    {
      hide Slice, Patch;
      Overwritten(data[..], tail, used, ofs, idx, src[from..from + n]);
      Memcpy(data, idx, src, from, n);
    }

    /** Overwrites `length` bytes of the contents from `offset`; fails exactly when
        they are not all there, and then changes nothing.  A negative offset overwrites
        what is in front of the contents, in the array or before it. */
    method ModifyData(src: seq<byte>, offset: int, length: int) returns (r: Result<(), BufferError>)
      requires Valid() && length <= |src|
      modifies data
      ensures r == if offset + length > used then Failure(AttemptToModifyOutsideBounds)
                   else if length > 0 && tail + offset < 0 then Failure(BeforeMemory) else Success(())
      ensures r.Failure? || length <= 0 ==> Contents() == old(Contents())
      ensures r.Success? && length > 0 && offset >= 0 ==> Contents() == Patch(old(Contents()), offset, src[..length])
      ensures r.Success? && 0 < length <= capacity && offset < 0 ==>
                tail + offset >= 0 && Slice(data[..], tail + offset, length) == src[..length]
    {
      hide Contents, Patch;
      if offset + length > used {
        return Failure(AttemptToModifyOutsideBounds);
      }
      var idx := tail + offset;
      if idx >= capacity {
        idx := idx - capacity;
      }
      if length > 0 && idx < 0 {
        return Failure(BeforeMemory);
      }
      var amtWritten := 0;
      ghost var was := Contents();
      if 0 <= offset <= |was| { PatchGrows(was, offset, src, 0, 0); }
      while amtWritten < length
        invariant 0 <= amtWritten <= Max0(length)
        invariant length > 0 ==> 0 <= idx < capacity
        invariant length > 0 && offset >= 0 ==> idx == Wrap(tail, offset + amtWritten, capacity)
        invariant length > 0 && offset >= 0 ==> Contents() == Patch(was, offset, src[..amtWritten])
        invariant length <= 0 ==> Contents() == was
        invariant 0 < length <= capacity && offset < 0 ==>
                    idx == Wrap(tail + offset, amtWritten, capacity)
                    && Slice(data[..], tail + offset, amtWritten) == src[..amtWritten]
      {
        var writeLen := length - amtWritten;
        if idx + writeLen > capacity {
          writeLen := capacity - idx;
        }
        if offset >= 0 {
          ModifyChunk(src, amtWritten, offset + amtWritten, idx, writeLen);
          PatchGrows(was, offset, src, amtWritten, writeLen);
        } else {
          if length <= capacity {
            RunGrows(data[..], tail + offset, amtWritten, idx, src, writeLen);
          }
          Memcpy(data, idx, src, amtWritten, writeLen);
        }
        amtWritten := amtWritten + writeLen;
        idx := idx + writeLen;
        if idx == capacity {
          idx := 0;
        }
      }
      r := Success(());
    }
  }

  /** Any run inside the contents is a run of the ring. */
  lemma SliceOfContents(d: seq<byte>, tail: nat, used: nat, offset: nat, n: nat)
    requires tail < |d| && offset + n <= used <= |d|
    ensures Slice(d, Wrap(tail, offset, |d|), n) == Slice(d, tail, used)[offset..][..n]
    ensures Slice(d, Wrap(tail, offset + n, |d|), used - offset - n) == Slice(d, tail, used)[offset + n..]
  {
  }

  /** Two adjacent patches make one; an empty patch changes nothing. */
  lemma PatchGrows(d: seq<byte>, at: nat, src: seq<byte>, done: nat, n: nat)
    requires done + n <= |src| && at + done + n <= |d|
    ensures Patch(Patch(d, at, src[..done]), at + done, src[done..done + n]) == Patch(d, at, src[..done + n])
    ensures Patch(d, at, src[..0]) == d
  {
  }

  /** Filling a chunk at the head lengthens the contents by that chunk. */
  lemma Appended(d: seq<byte>, tail: nat, used: nat, head: nat, chunk: seq<byte>)
    requires tail < |d| && used + |chunk| <= |d|
    requires head == Wrap(tail, used, |d|) && head + |chunk| <= |d|
    requires head < tail ==> head + |chunk| <= tail
    ensures Slice(Patch(d, head, chunk), tail, used + |chunk|) == Slice(d, tail, used) + chunk
  {
    var e := Patch(d, head, chunk);
    SliceSplits(e, tail, used, |chunk|);
    if chunk != [] { SliceIsFlat(e, head, |chunk|); }
    assert Slice(e, tail, used) == Slice(d, tail, used);
  }

  lemma RunGrows(d: seq<byte>, from: nat, done: nat, at: nat, src: seq<byte>, n: nat)
    requires from < |d| && done + n <= |d| && done + n <= |src|
    requires at == Wrap(from, done, |d|) && at + n <= |d| && Slice(d, from, done) == src[..done]
    ensures Slice(Patch(d, at, src[done..done + n]), from, done + n) == src[..done + n]
  {
    Appended(d, from, done, at, src[done..done + n]);
    assert src[..done] + src[done..done + n] == src[..done + n];
  }

  /** Overwriting a chunk inside the contents replaces just that part. */
  lemma Overwritten(d: seq<byte>, tail: nat, used: nat, ofs: nat, idx: nat, chunk: seq<byte>)
    requires tail < |d| && used <= |d| && ofs + |chunk| <= used
    requires idx == Wrap(tail, ofs, |d|) && idx + |chunk| <= |d|
    ensures Slice(Patch(d, idx, chunk), tail, used) == Patch(Slice(d, tail, used), ofs, chunk)
  {
  }

  // ----- whole runs -----

  datatype Op = Put(bytes: seq<byte>) | Take(n: nat)

  /** The buffer as a bounded sequence: what WriteData and a consuming ReadData at
      offset zero do to the contents, and the bytes they accept and hand out. */
  function Apply(capacity: nat, c: seq<byte>, op: Op): (r: (seq<byte>, seq<byte>, seq<byte>)) {
    match op
    case Put(b) => if |c| + |b| > capacity then (c, [], []) else (c + b, b, [])
    case Take(n) => var k := if n < |c| then n else |c|; (c[k..], [], c[..k])
  }

  function RunOps(capacity: nat, c: seq<byte>, ops: seq<Op>): (r: (seq<byte>, seq<byte>, seq<byte>))
    decreases |ops|
  {
    if ops == [] then (c, [], [])
    else
      var (c1, in1, out1) := Apply(capacity, c, ops[0]);
      var (c2, in2, out2) := RunOps(capacity, c1, ops[1..]);
      (c2, in1 + in2, out1 + out2)
  }

  /** One operation on a buffer: a refused write leaves it alone, a read consumes. */
  method ApplyTo(b: ECircularBuffer, op: Op) returns (accepted: seq<byte>, taken: seq<byte>)
    requires b.Valid()
    modifies b, b.data
    ensures b.Valid()
    ensures (b.Contents(), accepted, taken) == Apply(b.capacity, old(b.Contents()), op)
  {
    match op
    case Put(bytes) =>
      var r := b.WriteData(bytes, |bytes|);
      assert bytes[..|bytes|] == bytes;
      accepted, taken := if r.Success? then bytes else [], [];
      assert old(b.Contents()) + [] == old(b.Contents());
    case Take(n) =>
      var dest := new byte[n];
      var r := b.ReadData(dest, 0, n, false);
      accepted, taken := [], dest[..r.value];
      assert taken == old(b.Contents())[..r.value];
  }

  /** The buffer in use: whatever is written to it and read from it, its contents, the
      bytes it accepts and the bytes it hands out are those of the bounded sequence,
      and none is lost, repeated or reordered. */
  method RunOn(b: ECircularBuffer, ops: seq<Op>) returns (accepted: seq<byte>, taken: seq<byte>)
    requires b.Valid()
    modifies b, b.data
    ensures b.Valid()
    ensures (b.Contents(), accepted, taken) == RunOps(b.capacity, old(b.Contents()), ops)
    ensures taken + b.Contents() == old(b.Contents()) + accepted
    decreases |ops|
  {
    FirstInFirstOut(b.capacity, b.Contents(), ops);
    if ops == [] {
      return [], [];
    }
    var accepted1, taken1 := ApplyTo(b, ops[0]);
    var accepted2, taken2 := RunOn(b, ops[1..]);
    accepted, taken := accepted1 + accepted2, taken1 + taken2;
  }

  /** Two bytes are written to a buffer of four and two are read from the second on: the
      read succeeds, one byte more than there is comes back, and the buffer is broken. */
  method ReadPastContents() returns (b: ECircularBuffer, r: Result<nat, BufferError>)
    ensures fresh(b) && fresh(b.data) && b.capacity == 4
    ensures r == Success(2) && !b.Valid()
  {
    b := new ECircularBuffer(4);
    var written := b.WriteData([7, 8], 2);
    assert b.used == 2 by { assert |b.Contents()| == 2; }
    var dest := new byte[2];
    r := b.ReadData(dest, 1, 2, false);
  }

  /** Conservation: in every run, the bytes handed out followed by those still
      buffered are the initial contents followed by the bytes accepted, in order. */
  lemma {:induction false} FirstInFirstOut(capacity: nat, c: seq<byte>, ops: seq<Op>)
    ensures var (left, accepted, taken) := RunOps(capacity, c, ops);
            taken + left == c + accepted && (|c| <= capacity ==> |left| <= capacity)
    decreases |ops|
  {
    if ops == [] {
    } else {
      var (c1, in1, out1) := Apply(capacity, c, ops[0]);
      FirstInFirstOut(capacity, c1, ops[1..]);
      var (c2, in2, out2) := RunOps(capacity, c1, ops[1..]);
      Shuffle(c, c1, c2, in1, out1, in2, out2);
    }
  }

  lemma Shuffle(c: seq<byte>, c1: seq<byte>, c2: seq<byte>, in1: seq<byte>, out1: seq<byte>,
                in2: seq<byte>, out2: seq<byte>)
    requires out1 + c1 == c + in1 && out2 + c2 == c1 + in2
    ensures (out1 + out2) + c2 == c + (in1 + in2)
  {
    assert (out1 + out2) + c2 == out1 + (out2 + c2);
    assert out1 + (c1 + in2) == (out1 + c1) + in2;
    assert (c + in1) + in2 == c + (in1 + in2);
  }
}
