/**
 * The fixed-capacity ring buffer `CircularBuffer<T, Size>`, in its sequential
 * (single-threaded) semantics: an array of Size slots, a read index and a write
 * index, both kept below Size by masking with Size - 1, one slot always left free.
 */
module CircularBuffer {
  import opened Bits

  // ---------------------------------------------------------------------------
  // The abstract contents: the circular slice [read, write) of the slots

  /** The items stored between read index r (inclusive) and write index w (exclusive), oldest first. */
  function Slice<T>(slots: seq<T>, r: nat, w: nat): seq<T>
    requires r < |slots| && w < |slots|
  {
    if r <= w then slots[r..w] else slots[r..] + slots[..w]
  }

  /** The number of stored items is the circular distance from read to write, below the slot count. */
  lemma SliceLength<T>(slots: seq<T>, r: nat, w: nat)
    requires r < |slots| && w < |slots|
    ensures |Slice(slots, r, w)| == (w - r) % |slots|
    ensures |Slice(slots, r, w)| <= |slots| - 1
  {
    var n := |slots|;
    if r <= w {
      DivModUnique(w - r, n, 0, w - r);
    } else {
      DivModUnique(w - r, n, -1, w - r + n);
    }
  }

  lemma DistanceZero(w: nat, r: nat, n: nat)
    requires w < n && r < n
    ensures (w - r) % n == 0 <==> w == r
  {
    if r <= w {
      DivModUnique(w - r, n, 0, w - r);
    } else {
      DivModUnique(w - r, n, -1, w - r + n);
    }
  }

  /** Read and write indices coincide exactly when nothing is stored. */
  lemma SliceEmpty<T>(slots: seq<T>, r: nat, w: nat)
    requires r < |slots| && w < |slots|
    ensures Slice(slots, r, w) == [] <==> r == w
  {
    if r > w {
      assert |slots[r..]| > 0;
    }
  }

  /** The write index one step ahead meets the read index exactly when Size - 1 items are stored. */
  lemma SliceFull<T>(slots: seq<T>, r: nat, w: nat)
    requires r < |slots| && w < |slots|
    ensures (w + 1) % |slots| == r <==> |Slice(slots, r, w)| == |slots| - 1
  {
    var n := |slots|;
    if w + 1 < n {
      DivModUnique(w + 1, n, 0, w + 1);
    } else {
      DivModUnique(w + 1, n, 1, 0);
    }
  }

  /** Storing v at the write slot and advancing the write index appends v to the contents. */
  lemma SlicePush<T>(slots: seq<T>, r: nat, w: nat, v: T)
    requires r < |slots| && w < |slots|
    requires (w + 1) % |slots| != r
    ensures Slice(slots[w := v], r, (w + 1) % |slots|) == Slice(slots, r, w) + [v]
  {
    var n := |slots|;
    var s' := slots[w := v];
    if w + 1 < n {
      DivModUnique(w + 1, n, 0, w + 1);
      if r <= w {
        assert s'[r..w + 1] == slots[r..w] + [v];
      } else {
        assert s'[r..] == slots[r..];
        assert s'[..w + 1] == slots[..w] + [v];
      }
    } else {
      DivModUnique(w + 1, n, 1, 0);
      assert r <= w;
      assert s'[r..] + s'[..0] == slots[r..w] + [v];
    }
  }

  /** Advancing the read index past a non-empty slice drops exactly its oldest item, the one at r. */
  lemma SlicePop<T>(slots: seq<T>, r: nat, w: nat)
    requires r < |slots| && w < |slots|
    requires r != w
    ensures Slice(slots, r, w)[0] == slots[r]
    ensures Slice(slots, (r + 1) % |slots|, w) == Slice(slots, r, w)[1..]
  {
    var n := |slots|;
    SliceEmpty(slots, r, w);
    if r + 1 < n {
      DivModUnique(r + 1, n, 0, r + 1);
      if r < w {
        assert slots[r + 1..w] == slots[r..w][1..];
      } else {
        assert slots[r + 1..] + slots[..w] == (slots[r..] + slots[..w])[1..];
      }
    } else {
      DivModUnique(r + 1, n, 1, 0);
      assert w < r;
      assert slots[0..w] == (slots[r..] + slots[..w])[1..];
    }
  }

  // ---------------------------------------------------------------------------
  // The buffer object

  class CircularBuffer<T(0)> {
    /** The Size slots; the array itself never changes, only its elements. */
    const buffer: array<T>
    /** Size - 1, the mask that wraps an index around the buffer. */
    const mask: nat
    /** Slot of the oldest stored item. */
    var readIndex: nat
    /** Slot the next pushed item goes to. */
    var writeIndex: nat
    /** Whether the producer has declared the buffer ready. */
    var isReady: bool

    ghost predicate Valid()
      reads this
    {
      IsPowerOfTwo(buffer.Length) && buffer.Length < SizeTModulus &&
      mask == buffer.Length - 1 &&
      readIndex < buffer.Length && writeIndex < buffer.Length
    }

    /** The stored items, oldest first. */
    ghost function Contents(): seq<T>
      reads this, buffer
      requires Valid()
    {
      Slice(buffer[..], readIndex, writeIndex)
    }

    /** A buffer of `size` slots, both indices at 0, not ready. */
    constructor (size: nat)
      requires ValidSize(size)
      ensures Valid() && fresh(buffer)
      ensures buffer.Length == size
      ensures readIndex == 0 && writeIndex == 0 && !isReady
      ensures Contents() == []
    {
      ValidSizeIsPowerOfTwo(size);
      buffer := new T[size];
      mask := SizeTSub(size, 1);
      readIndex, writeIndex := 0, 0;
      isReady := false;
    }

    /**
     * Appends `value` unless Size - 1 items are already stored; on failure nothing changes.
     * The read index and the readiness flag are outside the frame.
     */
    method TryPush(value: T) returns (ok: bool)
      requires Valid()
      modifies this`writeIndex, buffer
      ensures Valid()
      ensures ok <==> |old(Contents())| < buffer.Length - 1
      ensures ok ==> Contents() == old(Contents()) + [value]
      ensures ok ==> writeIndex == (old(writeIndex) + 1) % buffer.Length
      ensures ok ==> buffer[..] == old(buffer[..])[old(writeIndex) := value]
      ensures !ok ==> writeIndex == old(writeIndex) && buffer[..] == old(buffer[..])
      ensures readIndex == old(readIndex) && isReady == old(isReady)
    {
      var currentWrite := writeIndex;
      // indices stay below Size <= 2^63, so the increment cannot wrap in size_t
      var nextWrite := BitAnd(currentWrite + 1, mask);
      MaskIsMod(currentWrite + 1, buffer.Length);
      SliceFull(buffer[..], readIndex, writeIndex);
      if nextWrite == readIndex {
        return false;
      }
      SlicePush(buffer[..], readIndex, currentWrite, value);
      buffer[currentWrite] := value;
      writeIndex := nextWrite;
      ok := true;
    }

    /**
     * Removes the oldest item and returns it in `item`; on an empty buffer returns false,
     * hands back the caller's `value` untouched and changes nothing.
     */
    method TryPop(value: T) returns (ok: bool, item: T)
      requires Valid()
      modifies this`readIndex
      ensures Valid()
      ensures ok <==> old(Contents()) != []
      ensures ok ==> item == old(Contents())[0] && Contents() == old(Contents())[1..]
      ensures ok ==> readIndex == (old(readIndex) + 1) % buffer.Length
      ensures !ok ==> item == value && readIndex == old(readIndex)
      ensures writeIndex == old(writeIndex) && isReady == old(isReady)
    {
      var currentRead := readIndex;
      SliceEmpty(buffer[..], readIndex, writeIndex);
      if currentRead == writeIndex {
        return false, value;
      }
      SlicePop(buffer[..], currentRead, writeIndex);
      item := buffer[currentRead];
      var nextRead := BitAnd(currentRead + 1, mask);
      MaskIsMod(currentRead + 1, buffer.Length);
      readIndex := nextRead;
      ok := true;
    }

    /**
     * Peeks at the oldest item, the one TryPop would return, without removing it;
     * on an empty buffer returns false and hands back the caller's `value`.
     */
    method TryRead(value: T) returns (ok: bool, item: T)
      requires Valid()
      ensures ok <==> Contents() != []
      ensures ok ==> item == Contents()[0]
      ensures !ok ==> item == value
    {
      var currentRead := readIndex;
      SliceEmpty(buffer[..], readIndex, writeIndex);
      if currentRead == writeIndex {
        return false, value;
      }
      SlicePop(buffer[..], currentRead, writeIndex);
      item := buffer[currentRead];
      ok := true;
    }

    /** The number of stored items: the circular distance from read to write, at most Size - 1. */
    function Size(): (n: nat)
      reads this
      requires Valid()
      ensures n == (writeIndex - readIndex) % buffer.Length
      ensures n <= buffer.Length - 1
    {
      MaskedDistance(writeIndex, readIndex, buffer.Length);
      BitAnd(SizeTSub(writeIndex, readIndex), mask)
    }

    /** Size() counts exactly the stored items. */
    lemma SizeIsContentsLength()
      requires Valid()
      ensures Size() == |Contents()|
    {
      SliceLength(buffer[..], readIndex, writeIndex);
    }

    /** True exactly when nothing is stored, that is when the two indices coincide. */
    function Empty(): (e: bool)
      reads this
      requires Valid()
      ensures e <==> readIndex == writeIndex
    {
      DistanceZero(writeIndex, readIndex, buffer.Length);
      Size() == 0
    }

    /** The slot count Size, one more than the number of items the buffer can hold. */
    function MaxSize(): (n: nat)
      reads this
      requires Valid()
      ensures n == buffer.Length && n >= 1
    {
      buffer.Length
    }

    /** The readiness flag: the value last given to SetIsReady, false before any call. */
    function GetIsReady(): (flag: bool)
      reads this
      ensures flag == isReady
    {
      isReady
    }

    /** Stores `state` as the readiness flag; the indices and slots are outside the frame. */
    method SetIsReady(state: bool)
      requires Valid()
      modifies this`isReady
      ensures Valid()
      ensures isReady == state
      ensures readIndex == old(readIndex) && writeIndex == old(writeIndex)
    {
      isReady := state;
    }
  }
}
