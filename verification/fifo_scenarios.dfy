/*******************************************************************************
 *  The two element types the buffer is instantiated with, and worked runs of
 *  the buffer over them: the minimum two-slot buffer, a five-slot buffer
 *  filled, partly drained and refilled, and a run that wraps `tail`.
 *******************************************************************************/
module FifoScenarios {
  import opened FifoBuf
  import opened FifoRuns

  /** The `unsigned char` element of the byte buffer. */
  newtype Byte = x: int | 0 <= x < 0x100

  /** The `int16_t` element of the q15 buffer. */
  newtype Q15 = x: int | -0x8000 <= x < 0x8000

  /** Two slots, one usable: a single push fills the buffer, and the pop
      that follows returns that element and empties it. */
  lemma TwoSlotBuffer(buf: seq<Byte>, base: int, c: Byte)
    requires |buf| == 2
    ensures var f := Push(Init(buf, base), c);
            && IsFull(f) && Room(f) == 0
            && Pop(f).value == c && IsEmpty(Pop(f).fifo)
  {
    var f := Push(Init(buf, base), c);
    assert Contents(f) == [c];
  }

  /** Five slots, four usable, with the bytes 65 to 69 standing for 'A' to
      'E': push A, B, C, D (full); pop gives A and frees one slot; push E
      (full again); four pops give B, C, D, E and leave the buffer empty. */
  lemma FiveSlotBuffer(buf: seq<Byte>, base: int)
    requires |buf| == 5
    ensures var f4 := Push(Push(Push(Push(Init(buf, base), 65), 66), 67), 68);
            && IsFull(f4)
            && var p1 := Pop(f4);
            && p1.value == 65 && !IsFull(p1.fifo) && Room(p1.fifo) == 1
            && var g := Push(p1.fifo, 69);
            && IsFull(g)
            && var q1 := Pop(g);
            && var q2 := Pop(q1.fifo);
            && var q3 := Pop(q2.fifo);
            && var q4 := Pop(q3.fifo);
            && [q1.value, q2.value, q3.value, q4.value] == [66, 67, 68, 69]
            && IsEmpty(q4.fifo)
  {
    FillFour(buf, base, 65, 66, 67, 68);
    var f4 := Push(Push(Push(Push(Init(buf, base), 65), 66), 67), 68);
    PopOneRefillOne(f4, 65, 66, 67, 68, 69);
    PopFour(Push(Pop(f4).fifo, 69), 66, 67, 68, 69);
  }

  /** On a full four-element buffer, a pop returns the oldest element and
      leaves exactly one slot of room, which one push fills again. */
  lemma PopOneRefillOne<T>(f: Fifo<T>, w: T, x: T, y: T, z: T, e: T)
    requires Valid(f) && Len(f) == 4 && Contents(f) == [w, x, y, z]
    ensures Pop(f).value == w
    ensures !IsFull(Pop(f).fifo) && Room(Pop(f).fifo) == 1
    ensures IsFull(Push(Pop(f).fifo, e))
    ensures Contents(Push(Pop(f).fifo, e)) == [x, y, z, e]
  {
    assert [w, x, y, z][1..] + [e] == [x, y, z, e];
  }

  /** Four pushes fill a fresh five-slot buffer, in order. */
  lemma FillFour<T>(buf: seq<T>, base: int, w: T, x: T, y: T, z: T)
    requires |buf| == 5
    ensures IsFull(Push(Push(Push(Push(Init(buf, base), w), x), y), z))
    ensures Contents(Push(Push(Push(Push(Init(buf, base), w), x), y), z)) == [w, x, y, z]
  {
    assert [w] + [x] + [y] + [z] == [w, x, y, z];
    var f1 := Push(Init(buf, base), w);
    var f2 := Push(f1, x);
    var f3 := Push(f2, y);
    var f4 := Push(f3, z);
    assert |Contents(f4)| == 4;
  }

  /** Four pops from a buffer holding `w, x, y, z` return them in that order
      and leave it empty. */
  lemma PopFour<T>(f: Fifo<T>, w: T, x: T, y: T, z: T)
    requires Valid(f) && Contents(f) == [w, x, y, z]
    ensures var q1 := Pop(f);
            && var q2 := Pop(q1.fifo);
            && var q3 := Pop(q2.fifo);
            && var q4 := Pop(q3.fifo);
            && [q1.value, q2.value, q3.value, q4.value] == [w, x, y, z]
            && IsEmpty(q4.fifo)
  {
    assert [w, x, y, z][1..][1..][1..] == [z];
    var q1 := Pop(f);
    var q2 := Pop(q1.fifo);
    var q3 := Pop(q2.fifo);
  }

  /** Five slots, four usable: push three, pop two, push three more so that
      `tail` wraps past `end` and the buffer is full; the four left then
      come out in the order they were pushed. */
  lemma WrappingRun(buf: seq<Q15>, base: int, a: Q15, b: Q15, c: Q15, d: Q15, e: Q15, g: Q15)
    requires |buf| == 5
    ensures var f := Push(Push(Push(Init(buf, base), a), b), c);
            && var p1 := Pop(f);
            && var p2 := Pop(p1.fifo);
            && [p1.value, p2.value] == [a, b]
            && var h := Push(Push(Push(p2.fifo, d), e), g);
            && h.tail < h.head
            && IsFull(h)
            && Drain(h).out == [c, d, e, g]
  {
    var f := Push(Push(Push(Init(buf, base), a), b), c);
    var p1 := Pop(f);
    var p2 := Pop(p1.fifo);
    FillThreeDrainTwo(buf, base, a, b, c);
    FillThreeDrainTwoPositions(buf, base, a, b, c);
    RefillWraps(p2.fifo, c, d, e, g);
  }

  /** Three pushes then two pops give back the first two values and leave the third. */
  lemma FillThreeDrainTwo<T>(buf: seq<T>, base: int, a: T, b: T, c: T)
    requires |buf| == 5
    ensures Pop(Push(Push(Push(Init(buf, base), a), b), c)).value == a
    ensures Pop(Pop(Push(Push(Push(Init(buf, base), a), b), c)).fifo).value == b
    ensures Contents(Pop(Pop(Push(Push(Push(Init(buf, base), a), b), c)).fifo).fifo) == [c]
  {
    assert ([a] + [b] + [c])[1..][1..] == [c];
    assert ([a] + [b] + [c])[1..] == [b, c];
    var f1 := Push(Init(buf, base), a);
    var f2 := Push(f1, b);
    var f := Push(f2, c);
    assert |Contents(f)| == 3;
  }

  /** Where the cursors stand after those three pushes and two pops. */
  lemma FillThreeDrainTwoPositions<T>(buf: seq<T>, base: int, a: T, b: T, c: T)
    requires |buf| == 5
    ensures var p := Pop(Pop(Push(Push(Push(Init(buf, base), a), b), c)).fifo).fifo;
            p.begin == base && p.end == base + 4 && p.head == base + 2 && p.tail == base + 3
  {
    var f1 := Push(Init(buf, base), a);
    var f2 := Push(f1, b);
    var f := Push(f2, c);
    assert |Contents(f)| == 3;
    assert f.tail == base + 3;
  }

  /** The second half of `WrappingRun`: three pushes onto a five-slot buffer
      holding one value at the slot two after `begin` take `tail` round the
      end and fill the buffer. */
  lemma RefillWraps<T>(s: Fifo<T>, c: T, d: T, e: T, g: T)
    requires Valid(s) && s.end == s.begin + 4
    requires s.head == s.begin + 2 && s.tail == s.begin + 3
    requires Contents(s) == [c]
    ensures var h := Push(Push(Push(s, d), e), g);
            && h.tail < h.head
            && IsFull(h)
            && Contents(h) == [c, d, e, g]
  {
    assert [c] + [d] + [e] + [g] == [c, d, e, g];
    var h1 := Push(s, d);
    assert h1.tail == h1.end;
    var h2 := Push(h1, e);
    assert h2.tail == s.begin;
  }
}
