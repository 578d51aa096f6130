/*******************************************************************************
 *  General purpose FIFO buffer implemented as a ring buffer.
 *
 *  The buffer descriptor holds four positions into a caller-supplied storage
 *  region:
 *    - begin: the first slot of the region;
 *    - end:   the LAST slot of the region (inclusive, not one past it);
 *    - head:  the slot to be read next;
 *    - tail:  the slot following the last write.
 *  A cursor that advances past `end` is reset to `begin`. One slot is always
 *  kept free, so `head == tail` means empty and "tail just behind head" means
 *  full.
 *
 *  The C code mutates a descriptor in place; here a descriptor together with
 *  its storage is a value, and each operation maps the old value to the new
 *  one. The element type is a parameter, so the byte buffer and the 16-bit
 *  (q15) buffer are the same model.
 *******************************************************************************/
module FifoBuf {

  /** A ring buffer over positions `begin..end`; the element at position `p`
      is kept in `slots[p - begin]`. */
  datatype Fifo<T> = Fifo(slots: seq<T>, begin: int, end: int, head: int, tail: int)

  /** The result of a pop: the buffer afterwards and the element read. */
  datatype Popped<T> = Popped(fifo: Fifo<T>, value: T)

  /** Well-formed descriptor: the storage covers exactly `begin..end` and
      both cursors lie inside it. */
  predicate Valid<T>(f: Fifo<T>)
  {
    && f.begin <= f.end
    && |f.slots| == f.end - f.begin + 1
    && f.begin <= f.head <= f.end
    && f.begin <= f.tail <= f.end
  }

  /** Number of slots of the storage region. */
  function Size<T>(f: Fifo<T>): int
  {
    f.end - f.begin + 1
  }

  /** The position after `p` in circular order: `end` wraps to `begin`. */
  function Next<T>(f: Fifo<T>, p: int): (r: int)
    requires Valid(f)
    requires f.begin <= p <= f.end
    ensures f.begin <= r <= f.end
  {
    if p == f.end then f.begin else p + 1
  }

  /** The wrap step is addition of one modulo the number of slots. */
  lemma NextModular<T>(f: Fifo<T>, p: int)
    requires Valid(f)
    requires f.begin <= p <= f.end
    ensures Next(f, p) - f.begin == (p - f.begin + 1) % Size(f)
  {
    if p == f.end {
      ModWrap(p - f.begin + 1, Size(f));
    } else {
      ModSmall(p - f.begin + 1, Size(f));
    }
  }

  /** The elements held, oldest first: the slots from `head` up to (not
      including) `tail`, going round the end of the region when needed. */
  function Contents<T>(f: Fifo<T>): (r: seq<T>)
    requires Valid(f)
    ensures |r| < Size(f)
  {
    var h := f.head - f.begin;
    var t := f.tail - f.begin;
    if h <= t then f.slots[h..t] else f.slots[h..] + f.slots[..t]
  }

  /** `Contents` read the modular way: its length is the distance from
      `head` to `tail` modulo the number of slots, and its `i`-th element is
      `i` slots after `head`, modulo the number of slots. */
  lemma ContentsModular<T>(f: Fifo<T>)
    requires Valid(f)
    ensures |Contents(f)| == (f.tail - f.head) % Size(f)
    ensures forall i :: 0 <= i < |Contents(f)| ==>
              Contents(f)[i] == f.slots[(f.head - f.begin + i) % Size(f)]
  {
    var h, t, n := f.head - f.begin, f.tail - f.begin, Size(f);
    var r := Contents(f);
    if h <= t {
      ModSmall(t - h, n);
    } else {
      ModNeg(t - h, n);
    }
    forall i | 0 <= i < |r|
      ensures r[i] == f.slots[(h + i) % n]
    {
      if h + i < n {
        ModSmall(h + i, n);
      } else {
        ModWrap(h + i, n);
      }
    }
  }

  /** fifo_init: an empty buffer over the whole of `buf`, whose first slot is
      at position `base`. */
  function Init<T>(buf: seq<T>, base: int): (r: Fifo<T>)
    requires |buf| > 1
    ensures Valid(r)
    ensures r.slots == buf
    ensures r.head == r.begin == base && r.tail == base
    ensures r.end == base + |buf| - 1
    ensures Contents(r) == []
    ensures IsEmpty(r) && !IsFull(r)
    ensures Room(r) == |buf| - 1
  {
    Fifo(buf, base, base + |buf| - 1, base, base)
  }

  /** fifo_isempty: true exactly when nothing is held. */
  function IsEmpty<T>(f: Fifo<T>): (r: bool)
    requires Valid(f)
    ensures r <==> Contents(f) == []
  {
    f.head == f.tail
  }

  /** fifo_isfull: the two-clause test; true exactly when the buffer holds
      `Len(f)` elements, that is, all slots but one. */
  function IsFull<T>(f: Fifo<T>): (r: bool)
    requires Valid(f)
    ensures r <==> |Contents(f)| == Len(f)
  {
    (f.head == f.begin && f.tail == f.end) || f.tail == f.head - 1
  }

  /** Full means that one more step of `tail` would land on `head`. */
  lemma FullIffTailBehindHead<T>(f: Fifo<T>)
    requires Valid(f)
    ensures IsFull(f) <==> Next(f, f.tail) == f.head
  {
  }

  /** fifo_room: number of elements that can still be pushed. */
  function Room<T>(f: Fifo<T>): (r: int)
    requires Valid(f)
    ensures 0 <= r <= Len(f)
    ensures r == Len(f) - |Contents(f)|
    ensures r == 0 <==> IsFull(f)
    ensures r == Len(f) <==> IsEmpty(f)
  {
    if f.tail < f.head then
      f.head - f.tail - 1
    else
      f.head - f.tail + f.end - f.begin
  }

  /** fifo_len: the usable capacity `end - begin`, one less than the number
      of slots. It is not the number of elements held. */
  function Len<T>(f: Fifo<T>): (r: int)
    requires Valid(f)
    ensures r == |f.slots| - 1
    ensures r >= 0
  {
    f.end - f.begin
  }

  /** fifo_push: write `c` at `tail`, then advance `tail`, wrapping at `end`.
      Pushing onto a full buffer is undefined in the source. */
  function Push<T>(f: Fifo<T>, c: T): (r: Fifo<T>)
    requires Valid(f)
    requires !IsFull(f)
    ensures Valid(r)
    ensures Contents(r) == Contents(f) + [c]
    ensures r.head == f.head && r.begin == f.begin && r.end == f.end
    ensures r.tail == Next(f, f.tail)
  {
    var slots := f.slots[f.tail - f.begin := c];
    var r := if f.tail == f.end then f.(slots := slots, tail := f.begin)
             else f.(slots := slots, tail := f.tail + 1);
    r
  }

  /** fifo_pop: read the element at `head` and advance `head`, wrapping at
      `end`. Popping from an empty buffer is undefined in the source. */
  function Pop<T>(f: Fifo<T>): (r: Popped<T>)
    requires Valid(f)
    requires !IsEmpty(f)
    ensures Valid(r.fifo)
    ensures r.value == Contents(f)[0]
    ensures Contents(r.fifo) == Contents(f)[1..]
    ensures r.value == f.slots[f.head - f.begin]
    ensures r.fifo.head == Next(f, f.head)
    ensures r.fifo.slots == f.slots && r.fifo.tail == f.tail
    ensures r.fifo.begin == f.begin && r.fifo.end == f.end
  {
    var r := if f.head == f.end then Popped(f.(head := f.begin), f.slots[f.end - f.begin])
             else Popped(f.(head := f.head + 1), f.slots[f.head - f.begin]);
    r
  }

  /** A push stores its value in the slot `tail` designated and leaves every
      other slot as it was. */
  lemma PushStorage<T>(f: Fifo<T>, c: T)
    requires Valid(f) && !IsFull(f)
    ensures |Push(f, c).slots| == |f.slots|
    ensures Push(f, c).slots[f.tail - f.begin] == c
    ensures forall i :: 0 <= i < |f.slots| && i != f.tail - f.begin ==>
              Push(f, c).slots[i] == f.slots[i]
  {
  }

  /** A push uses up one slot of room and a pop frees one; neither changes
      the capacity. */
  lemma PushPopRoom<T>(f: Fifo<T>, c: T)
    requires Valid(f)
    ensures !IsFull(f) ==> Room(Push(f, c)) == Room(f) - 1 && Len(Push(f, c)) == Len(f)
    ensures !IsEmpty(f) ==> Room(Pop(f).fifo) == Room(f) + 1 && Len(Pop(f).fifo) == Len(f)
  {
  }

  /** fifo_flush: discard everything by moving `head` onto `tail`; the
      storage is not cleared. */
  function Flush<T>(f: Fifo<T>): (r: Fifo<T>)
    requires Valid(f)
    ensures Valid(r)
    ensures Contents(r) == []
    ensures Room(r) == Len(f)
    ensures r.slots == f.slots && r.tail == f.tail
    ensures r.begin == f.begin && r.end == f.end
  {
    f.(head := f.tail)
  }

  /** A value already in `0..n-1` is its own remainder. */
  lemma ModSmall(x: int, n: int)
    requires 0 <= x < n
    ensures x % n == x
  {
  }

  /** A value in `n..2n-1` wraps once. */
  lemma ModWrap(x: int, n: int)
    requires n <= x < 2 * n
    ensures x % n == x - n
  {
  }

  /** A value in `-n..-1` wraps once the other way. */
  lemma ModNeg(x: int, n: int)
    requires -n <= x < 0
    ensures x % n == x + n
  {
  }
}
