/** `TStream`: a byte queue in one buffer that is compacted, or grown by whole
    steps, when a write does not fit behind the last byte. */
module ByteStream {
  import opened Prelude

  // -------------------------------------------------------------- memory copies

  /** `n` bytes from `a` on and `n` bytes from `b` on share a byte. */
  predicate RangesMeet(a: nat, b: nat, n: nat) {
    a < b + n && b < a + n
  }

  /** A copy within one buffer or between two. */
  datatype Copy = Copy(sameBuffer: bool, at: nat, from: nat, n: nat) {
    predicate IsDefined() {
      !(sameBuffer && RangesMeet(at, from, n))
    }
  }

  predicate AllDefined(copies: seq<Copy>) {
    forall i :: 0 <= i < |copies| ==> copies[i].IsDefined()
  }

  /** `SafeMemcpy`: a `memcpy` of at most `max` bytes.  `memcpy` is defined only
      on memory that does not overlap: nothing is promised of what an undefined
      copy leaves at its destination. */
  method SafeMemcpy(dest: array<Byte>, at: nat, max: nat, src: array<Byte>, from: nat, n: nat)
      returns (ghost copy: Copy)
    requires at + Min(max, n) <= dest.Length && from + Min(max, n) <= src.Length
    modifies dest
    ensures copy == Copy(dest == src, at, from, Min(max, n))
    ensures copy.IsDefined() ==> dest[at..at + Min(max, n)] == old(src[from..from + Min(max, n)])
    ensures dest[..at] == old(dest[..at]) && dest[at + Min(max, n)..] == old(dest[at + Min(max, n)..])
  {
    var k := Min(max, n);
    copy := Copy(dest == src, at, from, k);
    for i := 0 to k
      invariant forall j :: 0 <= j < at || at + k <= j < dest.Length ==> dest[j] == old(dest[j])
      invariant copy.IsDefined() ==> forall j :: from <= j < from + k ==> src[j] == old(src[j])
      invariant copy.IsDefined() ==> forall j :: at <= j < at + i ==> dest[j] == old(src[j - at + from])
    {
      dest[at + i] := src[from + i];
    }
  }

  /** `SafeMemset`, on a whole buffer. */
  method SafeMemset(dest: array<Byte>, value: Byte)
    modifies dest
    ensures forall j :: 0 <= j < dest.Length ==> dest[j] == value
  {
    for i := 0 to dest.Length
      invariant forall j :: 0 <= j < i ==> dest[j] == value
    {
      dest[i] := value;
    }
  }

  // -------------------------------------------------------------------- cursors

  /** Where the bytes of a stream are: `read` to `write` in a buffer of `max`. */
  datatype Cursors = Cursors(read: nat, write: nat, max: nat) {
    predicate Ok() {
      read <= write <= max
    }

    /** A write of `size` bytes needs the live bytes moved to the front. */
    predicate Compacts(size: nat) {
      size > max - write && max - (write - read) > size
    }

    predicate Grows(size: nat) {
      size > max - write && max - (write - read) <= size
    }

    /** The move copies memory onto itself: more bytes are live than were read. */
    predicate OverlappingCompaction(size: nat) {
      Compacts(size) && read < write - read
    }

    function AfterIn(size: nat, step: nat): (r: Cursors)
      requires Ok() && step > 0
      ensures r.Ok() && r.write - r.read == write - read + size
    {
      if Compacts(size) then Cursors(0, write - read + size, max)
      else if Grows(size) then Cursors(0, write - read + size, Grown(max + step, write - read, size, step))
      else Cursors(read, write + size, max)
    }

    function AfterOut(size: nat): (r: Cursors)
      requires Ok()
      ensures r.Ok() && r.max == max
    {
      if size > write - read then Cursors(write, write, max) else Cursors(read + size, write, max)
    }
  }

  /** The first size that leaves more room than is asked for, from `newSize` on
      in whole steps. */
  function Grown(newSize: nat, cursize: nat, size: nat, step: nat): (r: nat)
    requires step > 0
    ensures r >= newSize && r - cursize > size
    ensures r == newSize || r - cursize <= size + step
    decreases cursize + size - newSize
  {
    if newSize - cursize > size then newSize else Grown(newSize + step, cursize, size, step)
  }

  /** The copies a write makes; the bytes written come from memory of their own. */
  function CopiesOf(c: Cursors, size: nat, step: nat): seq<Copy>
    requires c.Ok() && step > 0
  {
    var live := c.write - c.read;
    (if c.Grows(size) then [Copy(false, 0, c.read, live)]
     else if c.Compacts(size) then [Copy(true, 0, c.read, live)]
     else [])
    + [Copy(false, c.AfterIn(size, step).write - size, 0, size)]
  }

  /** Every copy of a write is a defined one if and only if the write does not
      have to move more bytes than were read before. */
  lemma CopiesDefined(c: Cursors, size: nat, step: nat)
    requires c.Ok() && step > 0
    ensures AllDefined(CopiesOf(c, size, step)) <==> !c.OverlappingCompaction(size)
  {
    var live := c.write - c.read;
    var last := Copy(false, c.AfterIn(size, step).write - size, 0, size);
    if c.Compacts(size) {
      var move := Copy(true, 0, c.read, live);
      assert CopiesOf(c, size, step) == [move, last];
      assert CopiesOf(c, size, step)[0] == move;
      assert move.IsDefined() <==> !(c.read < live);
    }
  }

  /** Where a write of `size` bytes goes, with `live` bytes in the stream: behind
      them if there is room; behind them at the front of the same buffer if less
      than the whole buffer is needed for both; else behind them in a new buffer,
      the first one that is some steps longer and leaves more room than needed. */
  lemma WriteGoes(c: Cursors, size: nat, step: nat)
    requires c.Ok() && step > 0
    ensures var live := c.write - c.read;
            var t := c.AfterIn(size, step);
            if c.write + size <= c.max then
              t == Cursors(c.read, c.write + size, c.max) && CopiesOf(c, size, step) == [Copy(false, c.write, 0, size)]
            else if live + size < c.max then
              && t == Cursors(0, live + size, c.max)
              && CopiesOf(c, size, step) == [Copy(true, 0, c.read, live), Copy(false, live, 0, size)]
            else
              && t.read == 0 && t.write == live + size && t.write < t.max
              && (t.max == c.max + step || t.max - step <= t.write)
              && (exists k: nat :: k > 0 && t.max == c.max + k * step)
              && CopiesOf(c, size, step) == [Copy(false, 0, c.read, live), Copy(false, live, 0, size)]
  {
    if c.write + size > c.max && c.write - c.read + size >= c.max {
      var k := StepsGrown(c.max + step, c.write - c.read, size, step);
      assert c.max + step + k * step == c.max + (k + 1) * step;
    }
  }

  lemma {:induction false} StepsGrown(newSize: nat, cursize: nat, size: nat, step: nat) returns (k: nat)
    requires step > 0
    ensures Grown(newSize, cursize, size, step) == newSize + k * step
    decreases cursize + size - newSize
  {
    if newSize - cursize > size {
      k := 0;
    } else {
      var more := StepsGrown(newSize + step, cursize, size, step);
      k := more + 1;
      assert step + more * step == k * step;
    }
  }

  /** A buffer of sixteen bytes: twelve in, two out, five in. */
  lemma OverlapWitness()
    ensures var c := Cursors(0, 0, 16).AfterIn(12, 16).AfterOut(2);
            c == Cursors(2, 12, 16) && c.OverlappingCompaction(5)
            && CopiesOf(c, 5, 16) == [Copy(true, 0, 2, 10), Copy(false, 10, 0, 5)] && !Copy(true, 0, 2, 10).IsDefined()
  {
    hide Grown, AllDefined;
    var c := Cursors(0, 0, 16).AfterIn(12, 16).AfterOut(2);
    assert c == Cursors(2, 12, 16) && c.Compacts(5);
    assert RangesMeet(0, 2, 10);
    assert Cursors(2, 12, 16).AfterIn(5, 16).write == 15;
  }

  // --------------------------------------------------------------------- stream

  ghost predicate WholeSteps(size: nat, steps: nat, step: nat) {
    size == steps * step
  }

  lemma OneMoreStep(size: nat, steps: nat, step: nat)
    requires WholeSteps(size, steps, step)
    ensures WholeSteps(size + step, steps + 1, step)
  {
  }

  class TStream {
    const buffLength: nat
    var buffer: array<Byte>
    var read: nat
    var write: nat
    var max: nat
    /** The most bytes that were in the stream since it was last cleared. */
    ghost var peak: nat

    /** All of the invariant but the bound on the size of the buffer. */
    ghost predicate Shaped()
      reads this, buffer
    {
      && buffLength > 0
      && read <= write <= max == buffer.Length
      && (exists n: nat :: WholeSteps(max, n, buffLength)) && max >= buffLength
      && write - read <= peak
    }

    ghost predicate Valid()
      reads this, buffer
    {
      Shaped() && max <= peak + buffLength
    }

    ghost function At(): (c: Cursors)
      requires Valid()
      reads this, buffer
      ensures c.Ok()
    {
      Cursors(read, write, max)
    }

    /** The bytes put in and not yet taken out, in order. */
    ghost function Contents(): Bytes
      requires Valid()
      reads this, buffer
    {
      buffer[read..write]
    }

    constructor (buffLength: nat)
      requires buffLength > 0
      ensures Valid() && Contents() == [] && fresh(buffer) && this.buffLength == buffLength && peak == 0
      ensures At() == Cursors(0, 0, buffLength)
    {
      this.buffLength := buffLength;
      buffer := new Byte[buffLength](_ => 0);
      read, write, max := 0, 0, buffLength;
      peak := 0;
      assert WholeSteps(buffLength, 1, buffLength);
    }

    method Clear()
      requires Valid()
      modifies this, buffer
      ensures Valid() && Contents() == [] && peak == 0 && At() == Cursors(0, 0, buffLength)
      ensures buffer == old(buffer) || fresh(buffer)
    {
      read, write := 0, 0;
      if max > buffLength {
        buffer := new Byte[buffLength];
        max := buffLength;
      }
      peak := 0;
      assert WholeSteps(max, 1, buffLength);
      SafeMemset(buffer, 0);
    }

    function Size(): nat
      requires Valid()
      reads this, buffer
    {
      write - read
    }

    /** The bytes a reader sees; no more than `Size` of them mean anything. */
    function Buff(): Bytes
      requires Valid()
      reads this, buffer
    {
      buffer[read..]
    }

    /** Drops bytes from the front; all of them when fewer are left. */
    method Out(size: nat)
      requires Valid()
      modifies this`read
      ensures Valid() && At() == old(At()).AfterOut(size)
      ensures Contents() == if size > |old(Contents())| then [] else old(Contents())[size..]
    {
      if size > write - read {
        read := write;
      } else {
        read := read + size;
      }
    }

    /** Appends the first `size` bytes of memory that is not the stream's own.
        All copies made are defined unless a compaction overlaps itself, and then
        nothing is lost or reordered.  Whatever is copied, nothing is written out
        of bounds and the buffer never exceeds the peak by more than one step. */
    method In(pbuff: array<Byte>, size: nat) returns (ghost copies: seq<Copy>)
      requires Valid() && pbuff != buffer && size <= pbuff.Length
      modifies this, buffer
      ensures Valid() && At() == old(At()).AfterIn(size, buffLength)
      ensures copies == CopiesOf(old(At()), size, buffLength)
      ensures AllDefined(copies) <==> !old(At()).OverlappingCompaction(size)
      ensures AllDefined(copies) ==> Contents() == old(Contents()) + old(pbuff[..size])
      ensures peak == Max(old(peak), |Contents()|) && max >= old(max)
      ensures buffer == old(buffer) || fresh(buffer)
    {
      hide Grown, AllDefined, RangesMeet, WholeSteps;
      CopiesDefined(At(), size, buffLength);
      copies := [];
      if size > max - write {
        var cursize := write - read;
        if max - cursize <= size {
          var newSize := GrownSize(cursize, size);
          ghost var move := MallocNewSize(newSize);
          copies := [move];
        } else {
          ghost var move := Compact();
          copies := [move];
        }
      }
      ghost var last := Append(pbuff, size);
      copies := copies + [last];
    }

    /** The growth loop. */
    method GrownSize(cursize: nat, size: nat) returns (newSize: nat)
      requires Valid() && max - cursize <= size
      ensures exists n: nat :: WholeSteps(newSize, n, buffLength)
      ensures newSize == Grown(max + buffLength, cursize, size, buffLength)
      ensures newSize > max && size < newSize - cursize <= size + buffLength
    {
      newSize := max + buffLength;
      ghost var n: nat :| WholeSteps(max, n, buffLength);
      OneMoreStep(max, n, buffLength);
      n := n + 1;
      hide WholeSteps;
      while newSize - cursize <= size
        invariant WholeSteps(newSize, n, buffLength) && newSize > max
        invariant newSize <= cursize + size + buffLength
        invariant Grown(newSize, cursize, size, buffLength) == Grown(max + buffLength, cursize, size, buffLength)
        decreases size + cursize - newSize
      {
        OneMoreStep(newSize, n, buffLength);
        newSize := newSize + buffLength;
        n := n + 1;
      }
    }

    /** Moves the live bytes to the front of a bigger buffer, which the write
        in progress will fill to within one step. */
    method MallocNewSize(newSize: nat) returns (ghost copy: Copy)
      requires Valid() && newSize > max && exists n: nat :: WholeSteps(newSize, n, buffLength)
      modifies this
      ensures fresh(buffer) && max == newSize
      ensures copy == Copy(false, 0, old(read), old(write - read))
      ensures Shaped() && peak == old(peak)
      ensures read == 0 && write == old(write - read) && buffer[read..write] == old(Contents())
    {
      var cursize := write - read;
      max := newSize;
      var temp := buffer;
      buffer := new Byte[max];
      copy := SafeMemcpy(buffer, 0, max, temp, read, cursize);
      write := cursize;
      read := 0;
    }

    /** Moves the live bytes to the front of the same buffer, which is a defined
        copy exactly when no more bytes are live than were read. */
    method Compact() returns (ghost copy: Copy)
      requires Valid() && read > 0
      modifies this, buffer
      ensures Valid() && buffer == old(buffer) && max == old(max) && peak == old(peak)
      ensures read == 0 && write == old(write - read)
      ensures copy == Copy(true, 0, old(read), write) && (copy.IsDefined() <==> !old(read < write - read))
      ensures copy.IsDefined() ==> Contents() == old(Contents())
    {
      var cursize := write - read;
      copy := SafeMemcpy(buffer, 0, max, buffer, read, cursize);
      write := cursize;
      read := 0;
    }

    /** Writes bytes that fit behind the live ones. */
    method Append(pbuff: array<Byte>, size: nat) returns (ghost copy: Copy)
      requires Shaped() && size <= max - write && pbuff != buffer && size <= pbuff.Length
      requires max <= Max(peak, write - read + size) + buffLength
      modifies this, buffer
      ensures Valid() && buffer == old(buffer) && At() == Cursors(old(read), old(write) + size, old(max))
      ensures Contents() == old(buffer[read..write]) + old(pbuff[..size])
      ensures peak == Max(old(peak), |Contents()|)
      ensures copy == Copy(false, old(write), 0, size)
    {
      ghost var before := buffer[read..write];
      copy := SafeMemcpy(buffer, write, max - write, pbuff, 0, size);
      assert buffer[read..write] == before;
      write := write + size;
      peak := Max(peak, write - read);
    }
  }
}
