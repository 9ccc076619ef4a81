/** The queue of fw/common/queue.c: head and tail run freely and wrap modulo the machine word; their low
    bits select a unit in a buffer of a power of two units. */
module Queue {
  import opened Bits
  import opened WrappedIndex

  function Min(a: nat, b: nat): nat { if a < b then a else b }

  class Queue<T(0)> {
    /** The machine word has this many bits, and the buffer 2^log units. */
    const wordBits: nat
    const log: nat
    const buffer: array<T>
    var head: nat
    var tail: nat

    /** The units in the queue, and how many were removed since queue_init. */
    ghost var contents: seq<T>
    ghost var removed: nat

    predicate Shape()
    {
      log < wordBits && buffer.Length == Pow2(log)
    }

    /** The unit in the buffer for position i of the log of everything ever queued. */
    function UnitAt(i: nat): T
      requires Shape()
      reads buffer
    {
      buffer[Wrap(i, log)]
    }

    ghost predicate Valid()
      reads this, buffer
    {
      && Shape() && |contents| <= buffer.Length
      && head == Wrap(removed, wordBits) && tail == Wrap(removed + |contents|, wordBits)
      && forall i: nat :: removed <= i < removed + |contents| ==> UnitAt(i) == contents[i - removed]
    }

    constructor (wordBits: nat, log: nat)
      requires log < wordBits
      ensures Valid() && contents == [] && this.wordBits == wordBits && this.log == log && fresh(buffer)
    {
      this.wordBits := wordBits;
      this.log := log;
      buffer := new T[Pow2(log)];
      head, tail := 0, 0;
      contents, removed := [], 0;
      new;
      WrapSmall(0, wordBits);
    }

    /** queue_init */
    method Init()
      requires Shape()
      modifies this
      ensures Valid() && contents == []
    {
      head, tail := 0, 0;
      contents, removed := [], 0;
      WrapSmall(0, wordBits);
    }

    /** q->state->head & (q->buffer_units - 1) */
    function HeadSlot(): (s: nat)
      requires Shape()
      reads this
      ensures s == Wrap(head, log)
    {
      AndLow(head, log);
      And(head, buffer.Length - 1)
    }

    function TailSlot(): (s: nat)
      requires Shape()
      reads this
      ensures s == Wrap(tail, log)
    {
      AndLow(tail, log);
      And(tail, buffer.Length - 1)
    }

    lemma Slots()
      requires Valid()
      ensures HeadSlot() == Wrap(removed, log) && TailSlot() == Wrap(removed + |contents|, log)
    {
      WrapSum(removed, 0, wordBits, log);
      WrapSum(removed + |contents|, 0, wordBits, log);
    }

    /** queue_count: the difference of the indices as machine words. */
    function Count(): (n: nat)
      requires Valid()
      reads this, buffer
      ensures n == |contents|
    {
      WrapDifference(removed + |contents|, removed, wordBits);
      Pow2Add(log, wordBits - log);
      LargerPower(log, wordBits);
      WrapSmall(|contents|, wordBits);
      Wrap(tail - head, wordBits)
    }

    /** queue_space */
    function Space(): (n: nat)
      requires Valid()
      reads this, buffer
      ensures n == buffer.Length - |contents|
    {
      buffer.Length - Count()
    }

    /** queue_is_empty compares the indices without counting. */
    predicate IsEmpty()
      requires Valid()
      reads this, buffer
      ensures IsEmpty() <==> contents == []
    {
      WrapDifference(removed + |contents|, removed, wordBits);
      LargerPower(log, wordBits);
      WrapSmall(|contents|, wordBits);
      WrapSmall(0, wordBits);
      head == tail
    }

    predicate IsFull()
      requires Valid()
      reads this, buffer
      ensures IsFull() <==> |contents| == buffer.Length
    {
      Space() == 0
    }

    /** queue_get_write_chunk: the largest contiguous part of the free space from the tail. */
    method GetWriteChunk() returns (offset: nat, length: nat)
      requires Valid()
      ensures offset == Wrap(removed + |contents|, log)
      ensures offset + length <= buffer.Length
      ensures length == Min(buffer.Length - |contents|, buffer.Length - offset)
    {
      hide Wrap;
      Slots();
      SlotAfter(removed, |contents|, log);
      var h, t := HeadSlot(), TailSlot();
      var last := if IsFull() then t else if t < h then h else buffer.Length;
      offset, length := t, last - t;
    }

    /** queue_get_read_chunk: the largest contiguous run of queued units from the head. */
    method GetReadChunk() returns (offset: nat, length: nat)
      requires Valid()
      ensures offset + length <= buffer.Length
      ensures length == Min(|contents|, buffer.Length - offset)
      ensures buffer[offset..offset + length] == contents[..length]
    {
      hide Wrap;
      Slots();
      SlotAfter(removed, |contents|, log);
      var h, t := HeadSlot(), TailSlot();
      var last := if IsEmpty() then h else if h < t then t else buffer.Length;
      offset, length := h, last - h;
      forall j | 0 <= j < length
        ensures buffer[offset + j] == contents[j]
      {
        SlotAfter(removed, j, log);
        assert UnitAt(removed + j) == contents[j];
      }
    }

    /** queue_advance_head */
    method AdvanceHead(count: nat) returns (transfer: nat)
      requires Valid()
      modifies `head, `contents, `removed
      ensures Valid() && transfer == Min(count, |old(contents)|)
      ensures contents == old(contents)[transfer..] && removed == old(removed) + transfer
    {
      hide Wrap, UnitAt;
      transfer := Min(count, Count());
      WrapSum(removed, transfer, wordBits, wordBits);
      head := Wrap(head + transfer, wordBits);
      contents, removed := contents[transfer..], removed + transfer;
    }

    /** queue_advance_tail: the units already in the buffer after the tail join the queue. */
    method AdvanceTail(count: nat) returns (transfer: nat)
      requires Valid()
      modifies `tail, `contents
      ensures Valid() && transfer == Min(count, buffer.Length - |old(contents)|)
      ensures |contents| == |old(contents)| + transfer && contents[..|old(contents)|] == old(contents)
      ensures forall i: nat :: removed + |old(contents)| <= i < removed + |contents| ==>
        contents[i - removed] == UnitAt(i)
    {
      hide Wrap, UnitAt;
      transfer := Min(count, Space());
      WrapSum(removed + |contents|, transfer, wordBits, wordBits);
      tail := Wrap(tail + transfer, wordBits);
      ghost var t := removed + |contents|;
      contents := contents + seq(transfer, j requires 0 <= j reads buffer => UnitAt(t + j));
    }

    /** The two-part copy into the buffer, for n units from position t of the log: the ones of the round
        before it that are not overwritten stay. */
    method CopyIn(ghost t: nat, slot: nat, src: seq<T>, n: nat)
      requires Shape() && n <= buffer.Length && n <= |src| && slot == Wrap(t, log)
      modifies buffer
      ensures forall i: nat :: t <= i < t + n ==> UnitAt(i) == src[i - t]
      ensures forall i: nat :: i < t && t + n <= i + buffer.Length ==> UnitAt(i) == old(UnitAt(i))
    {
      hide Wrap;
      var first := Min(n, buffer.Length - slot);
      forall j | 0 <= j < first { buffer[slot + j] := src[j]; }
      if first < n {
        forall j | 0 <= j < n - first { buffer[j] := src[first + j]; }
      }
      forall i: nat | t <= i < t + n
        ensures UnitAt(i) == src[i - t]
      {
        SlotAfter(t, i - t, log);
        if i - t >= first { assert buffer[i - t - first] == src[first + (i - t - first)]; }
      }
      forall i: nat | i < t && t + n <= i + buffer.Length
        ensures UnitAt(i) == old(UnitAt(i))
      {
        Untouched(t, slot, n, first, i);
      }
    }

    lemma Untouched(t: nat, slot: nat, n: nat, first: nat, i: nat)
      requires Shape() && n <= buffer.Length && slot == Wrap(t, log) && first == Min(n, buffer.Length - slot)
      requires i < t && t + n <= i + buffer.Length
      ensures var s := Wrap(i, log); !(slot <= s < slot + first) && !(s < n - first)
    {
      hide Wrap;
      SlotAfter(i, t - i, log);
    }

    /** Writes n units to a contiguous part of the free space, as a client does with a chunk. */
    method FillChunk(ghost t: nat, offset: nat, src: seq<T>, n: nat)
      requires Shape() && offset + n <= buffer.Length && n <= |src| && offset == Wrap(t, log)
      modifies buffer
      ensures forall i: nat :: t <= i < t + n ==> UnitAt(i) == src[i - t]
      ensures forall i: nat :: i < t && t + n <= i + buffer.Length ==> UnitAt(i) == old(UnitAt(i))
    {
      hide Wrap;
      forall j | 0 <= j < n { buffer[offset + j] := src[j]; }
      forall i: nat | t <= i < t + n
        ensures UnitAt(i) == src[i - t]
      {
        SlotAfter(t, i - t, log);
        assert buffer[offset + (i - t)] == src[i - t];
      }
      forall i: nat | i < t && t + n <= i + buffer.Length
        ensures UnitAt(i) == old(UnitAt(i))
      {
        Untouched(t, offset, n, n, i);
      }
    }

    /** queue_add_units */
    method AddUnits(src: seq<T>, count: nat) returns (transfer: nat)
      requires Valid() && count <= |src|
      modifies this, buffer
      ensures Valid() && transfer == Min(count, buffer.Length - |old(contents)|)
      ensures contents == old(contents) + src[..transfer]
    {
      hide Wrap, UnitAt;
      transfer := Min(count, Space());
      Slots();
      CopyIn(removed + |contents|, TailSlot(), src, transfer);
      ghost var n := transfer;
      transfer := AdvanceTail(transfer);
      Appended(src, n, old(contents));
    }

    /** The queue has the first n units of src after its old contents. */
    lemma Appended(src: seq<T>, n: nat, before: seq<T>)
      requires Valid() && n <= |src| && |contents| == |before| + n && contents[..|before|] == before
      requires forall i: nat :: removed + |before| <= i < removed + |contents| ==>
        UnitAt(i) == src[i - removed - |before|]
      ensures contents == before + src[..n]
    {
      hide UnitAt;
      forall k | 0 <= k < |contents|
        ensures contents[k] == (before + src[..n])[k]
      {
        assert UnitAt(removed + k) == contents[k];
        if k < |before| { assert contents[k] == contents[..|before|][k]; }
      }
    }

    /** queue_add_unit */
    method AddUnit(src: T) returns (transfer: nat)
      requires Valid()
      modifies this, buffer
      ensures Valid() && transfer == Min(1, buffer.Length - |old(contents)|)
      ensures contents == old(contents) + [src][..transfer]
    {
      hide Wrap, UnitAt;
      Slots();
      var t := TailSlot();
      if Space() == 0 {
        return 0;
      }
      FillChunk(removed + |contents|, t, [src], 1);
      transfer := AdvanceTail(1);
      Appended([src], 1, old(contents));
      assert [src][..1] == [src];
    }

    /** queue_read_safe: the two-part copy out of the buffer. */
    method ReadSafe(dest: array<T>, ghost t: nat, slot: nat, n: nat)
      requires Shape() && n <= buffer.Length && n <= dest.Length && slot == Wrap(t, log) && dest != buffer
      modifies dest
      ensures forall i: nat :: t <= i < t + n ==> dest[i - t] == UnitAt(i)
      ensures forall j :: n <= j < dest.Length ==> dest[j] == old(dest[j])
    {
      hide Wrap;
      var first := Min(n, buffer.Length - slot);
      forall j | 0 <= j < first { dest[j] := buffer[slot + j]; }
      if first < n {
        forall j | 0 <= j < n - first { dest[first + j] := buffer[j]; }
      }
      forall i: nat | t <= i < t + n
        ensures dest[i - t] == UnitAt(i)
      {
        SlotAfter(t, i - t, log);
        if i - t >= first { assert dest[first + (i - t - first)] == buffer[i - t - first]; }
      }
    }

    lemma Copied(dest: array<T>, i: nat, n: nat)
      requires Valid() && i + n <= |contents| && n <= dest.Length
      requires forall k: nat :: removed + i <= k < removed + i + n ==> dest[k - (removed + i)] == UnitAt(k)
      ensures dest[..n] == contents[i..i + n]
    {
      hide UnitAt;
      forall j | 0 <= j < n
        ensures dest[j] == contents[i + j]
      {
        assert UnitAt(removed + i + j) == contents[i + j];
      }
    }

    /** queue_remove_units */
    method RemoveUnits(dest: array<T>, count: nat) returns (transfer: nat)
      requires Valid() && count <= dest.Length && dest != buffer
      modifies this, dest
      ensures Valid() && transfer == Min(count, |old(contents)|)
      ensures dest[..transfer] == old(contents)[..transfer] && dest[transfer..] == old(dest[transfer..])
      ensures contents == old(contents)[transfer..]
    {
      hide Wrap, UnitAt;
      transfer := Min(count, Count());
      Slots();
      ReadSafe(dest, removed, HeadSlot(), transfer);
      Copied(dest, 0, transfer);
      transfer := AdvanceHead(transfer);
    }

    /** queue_remove_unit */
    method RemoveUnit(dest: array<T>) returns (transfer: nat)
      requires Valid() && dest.Length == 1 && dest != buffer
      modifies this, dest
      ensures Valid() && transfer == Min(1, |old(contents)|)
      ensures dest[..transfer] == old(contents)[..transfer] && dest[transfer..] == old(dest[transfer..])
      ensures contents == old(contents)[transfer..]
    {
      hide Wrap;
      Slots();
      var h := HeadSlot();
      if Count() == 0 {
        return 0;
      }
      dest[0] := buffer[h];
      assert UnitAt(removed + 0) == contents[0];
      assert dest[..1] == contents[..1];
      transfer := AdvanceHead(1);
    }

    lemma PeekSlot(i: nat)
      requires Valid()
      ensures And(Wrap(head + i, wordBits), buffer.Length - 1) == Wrap(removed + i, log)
    {
      hide Wrap, And;
      WrapSum(removed, i, wordBits, wordBits);
      WrapSum(removed + i, 0, wordBits, log);
      AndIsWrap(Wrap(head + i, wordBits), log);
    }

    /** queue_peek_units. For i beyond the queued units, the unsigned difference wraps: nothing is copied,
        but the number returned is not 0. */
    method PeekUnits(dest: array<T>, i: nat, count: nat) returns (transfer: nat)
      requires Valid() && i < Pow2(wordBits) && count <= dest.Length && dest != buffer
      modifies dest
      ensures i <= |contents| ==> transfer == Min(count, |contents| - i)
      ensures i <= |contents| ==>
        dest[..transfer] == contents[i..i + transfer] && dest[transfer..] == old(dest[transfer..])
      ensures i > |contents| ==> transfer == Min(count, Pow2(wordBits) + |contents| - i) && dest[..] == old(dest[..])
    {
      hide Wrap, UnitAt, And, Pow2;
      var available := Count();
      LargerPower(log, wordBits);
      if i <= available { WrapSmall(available - i, wordBits); } else { WrapNegative(available - i, wordBits); }
      transfer := Min(count, Wrap(available - i, wordBits));
      if i < available {
        PeekSlot(i);
        var slot := And(Wrap(head + i, wordBits), buffer.Length - 1);
        ReadSafe(dest, removed + i, slot, transfer);
        Copied(dest, i, transfer);
      }
    }

    /** Filling a write chunk and advancing the tail is an ordinary append. */
    method AddThroughChunk(src: seq<T>) returns (n: nat)
      requires Valid()
      modifies this, buffer
      ensures Valid() && n <= |src| && contents == old(contents) + src[..n]
      ensures src != [] && |old(contents)| < buffer.Length ==> n > 0
    {
      hide Wrap, UnitAt;
      var offset, length := GetWriteChunk();
      n := Min(|src|, length);
      FillChunk(removed + |contents|, offset, src, n);
      var m := AdvanceTail(n);
      Appended(src, n, old(contents));
    }
  }

  lemma WrapNegative(x: int, n: nat)
    requires -Pow2(n) <= x < 0
    ensures Wrap(x, n) == x + Pow2(n)
  {
    WrapIs(x, n, -1, x + Pow2(n));
  }

  lemma AndIsWrap(x: int, n: nat)
    ensures And(x, Pow2(n) - 1) == Wrap(x, n)
  {
    AndLow(x, n);
  }

  lemma {:induction false} LargerPower(m: nat, n: nat)
    requires m < n
    ensures Pow2(m) < Pow2(n)
    decreases n
  {
    if m < n - 1 { LargerPower(m, n - 1); }
  }
}
