/*******************************************************************************
 *  Sequences of buffer operations, as a producer and a consumer drive them,
 *  and the ordering and capacity facts the ring buffer guarantees over them.
 *******************************************************************************/
module FifoRuns {
  import opened FifoBuf

  /** One call a client makes: a push of a value or a pop. */
  datatype Op<T> = PushOp(value: T) | PopOp

  /** The outcome of a run: the final buffer and the popped values in order,
      or `Undefined` when some push met a full buffer or some pop met an
      empty one (behaviour the source leaves undefined). */
  datatype Outcome<T> = Done(fifo: Fifo<T>, out: seq<T>) | Undefined

  /** The buffer after popping until empty, and the values read in order. */
  datatype Drained<T> = Drained(fifo: Fifo<T>, out: seq<T>)

  /** The values pushed by `ops`, in order. */
  function Pushed<T>(ops: seq<Op<T>>): seq<T>
  {
    if ops == [] then []
    else if ops[0].PushOp? then [ops[0].value] + Pushed(ops[1..])
    else Pushed(ops[1..])
  }

  /** The number of pops in `ops`. */
  function Pops<T>(ops: seq<Op<T>>): nat
  {
    if ops == [] then 0
    else if ops[0].PopOp? then 1 + Pops(ops[1..])
    else Pops(ops[1..])
  }

  /** Apply `ops` one after another, starting from `f`. Every pop yields one
      value, and the values popped are exactly the values held at the start
      followed by the values pushed, in order, minus whatever is still held
      at the end. */
  function Run<T>(f: Fifo<T>, ops: seq<Op<T>>): (r: Outcome<T>)
    requires Valid(f)
    ensures r.Done? ==> Valid(r.fifo)
    ensures r.Done? ==> |r.out| == Pops(ops)
    ensures r.Done? ==> r.out + Contents(r.fifo) == Contents(f) + Pushed(ops)
    ensures r.Done? ==> Len(r.fifo) == Len(f)
    decreases |ops|
  {
    if ops == [] then Done(f, [])
    else match ops[0]
      case PushOp(x) =>
        if IsFull(f) then Undefined
        else Run(Push(f, x), ops[1..])
      case PopOp =>
        if IsEmpty(f) then Undefined
        else
          var p := Pop(f);
          var r := Run(p.fifo, ops[1..]);
          if r.Undefined? then Undefined
          else
            assert Pushed(ops) == Pushed(ops[1..]);
            assert Contents(f) == [p.value] + Contents(p.fifo);
            ConsBalance(p.value, r.out, Contents(r.fifo), Contents(p.fifo), Pushed(ops[1..]));
            Done(r.fifo, [p.value] + r.out)
  }

  /** Prefixing one value to both what was popped and what was held keeps
      the two sides of the run equation equal. */
  lemma ConsBalance<T>(v: T, out: seq<T>, rem: seq<T>, held: seq<T>, pushed: seq<T>)
    requires out + rem == held + pushed
    ensures ([v] + out) + rem == ([v] + held) + pushed
  {
    assert ([v] + out) + rem == [v] + (out + rem);
    assert ([v] + held) + pushed == [v] + (held + pushed);
  }

  /** Appending one value to what is held and then the rest of the input is
      appending the whole input. */
  lemma SnocBalance<T>(held: seq<T>, x: T, rest: seq<T>, all: seq<T>)
    requires all == [x] + rest
    ensures (held + [x]) + rest == held + all
  {
  }

  /** The calls that push each value of `xs` in order. */
  function PushOps<T>(xs: seq<T>): (ops: seq<Op<T>>)
    ensures |ops| == |xs| && Pops(ops) == 0 && Pushed(ops) == xs
  {
    if xs == [] then [] else [PushOp(xs[0])] + PushOps(xs[1..])
  }

  /** `k` pops in a row. */
  function PopOps<T>(k: nat): (ops: seq<Op<T>>)
    ensures |ops| == k && Pops(ops) == k && Pushed(ops) == []
  {
    if k == 0 then [] else [PopOp] + PopOps(k - 1)
  }

  /** Pushes that fit in the room never fail: running them first is the same
      as starting from the buffer they fill. */
  lemma {:induction false} RunPushes<T>(f: Fifo<T>, xs: seq<T>, rest: seq<Op<T>>)
    requires Valid(f)
    requires |xs| <= Room(f)
    ensures Run(f, PushOps(xs) + rest) == Run(PushAll(f, xs), rest)
    decreases |xs|
  {
    if xs == [] {
      assert PushOps(xs) + rest == rest;
    } else {
      var ops := PushOps(xs) + rest;
      assert ops[0] == PushOp(xs[0]);
      assert ops[1..] == PushOps(xs[1..]) + rest;
      PushPopRoom(f, xs[0]);
      RunPushes(Push(f, xs[0]), xs[1..], rest);
    }
  }

  /** Pops that stay within what is held never fail. */
  lemma {:induction false} RunPops<T>(f: Fifo<T>, k: nat)
    requires Valid(f)
    requires k <= |Contents(f)|
    ensures Run(f, PopOps(k)).Done?
    decreases k
  {
    if k > 0 {
      var ops := PopOps<T>(k);
      assert ops[0] == PopOp;
      assert ops[1..] == PopOps(k - 1);
      RunPops(Pop(f).fifo, k - 1);
    }
  }

  /** A producer that pushes `xs` within the room, followed by a consumer
      that pops no more than is then held, completes, and the consumer reads
      the oldest `k` values of what was held followed by `xs`. */
  lemma PushesThenPopsComplete<T>(f: Fifo<T>, xs: seq<T>, k: nat)
    requires Valid(f)
    requires |xs| <= Room(f)
    requires k <= |Contents(f)| + |xs|
    ensures Run(f, PushOps(xs) + PopOps(k)).Done?
    ensures Run(f, PushOps(xs) + PopOps(k)).out == (Contents(f) + xs)[..k]
  {
    RunPushes(f, xs, PopOps(k));
    var g := PushAll(f, xs);
    RunPops(g, k);
    var r := Run(g, PopOps(k));
    assert r.out == (r.out + Contents(r.fifo))[..k];
  }

  /** Push every value of `xs` in order. */
  function PushAll<T>(f: Fifo<T>, xs: seq<T>): (r: Fifo<T>)
    requires Valid(f)
    requires |xs| <= Room(f)
    ensures Valid(r)
    ensures Contents(r) == Contents(f) + xs
    ensures Room(r) == Room(f) - |xs|
    ensures Len(r) == Len(f) && r.begin == f.begin
    decreases |xs|
  {
    if xs == [] then f
    else
      var r := PushAll(Push(f, xs[0]), xs[1..]);
      SnocBalance(Contents(f), xs[0], xs[1..], xs);
      r
  }

  /** Pop until the buffer is empty, collecting the values read. */
  function Drain<T>(f: Fifo<T>): (r: Drained<T>)
    requires Valid(f)
    ensures r.out == Contents(f)
    ensures Valid(r.fifo) && IsEmpty(r.fifo)
    ensures r.fifo.slots == f.slots && r.fifo.tail == f.tail
    decreases |Contents(f)|
  {
    if IsEmpty(f) then Drained(f, [])
    else
      var p := Pop(f);
      var r := Drain(p.fifo);
      Drained(r.fifo, [p.value] + r.out)
  }

  /** Values come out in the order they went in: filling a fresh buffer with
      `xs` and draining it yields `xs`. */
  lemma {:induction false} FillThenDrain<T>(buf: seq<T>, base: int, xs: seq<T>)
    requires |buf| > 1
    requires |xs| < |buf|
    ensures Drain(PushAll(Init(buf, base), xs)).out == xs
  {
    var f := Init(buf, base);
    assert Contents(PushAll(f, xs)) == [] + xs;
  }

  /** Pushing `Room(f)` values fills the buffer on the last push and not
      before. */
  lemma {:induction false} FillExactly<T>(f: Fifo<T>, xs: seq<T>)
    requires Valid(f)
    requires |xs| == Room(f)
    ensures IsFull(PushAll(f, xs))
    ensures forall k :: 0 <= k < |xs| ==> !IsFull(PushAll(f, xs[..k]))
  {
    forall k | 0 <= k < |xs|
      ensures !IsFull(PushAll(f, xs[..k]))
    {
      assert Room(PushAll(f, xs[..k])) == Room(f) - k;
    }
  }

  /** Popping the held values empties the buffer on the last pop and not
      before: `k` pops, up to the number held, leave it empty exactly when
      `k` is that number. */
  lemma {:induction false} DrainExactly<T>(f: Fifo<T>, k: nat)
    requires Valid(f)
    requires k <= |Contents(f)|
    ensures Run(f, PopOps(k)).Done?
    ensures IsEmpty(Run(f, PopOps(k)).fifo) <==> k == |Contents(f)|
    ensures !IsEmpty(f) ==> (!IsEmpty(Pop(f).fifo) <==> |Contents(f)| > 1)
  {
    RunPops(f, k);
    var r := Run(f, PopOps(k));
    assert |r.out| + |Contents(r.fifo)| == |Contents(f)|;
    if !IsEmpty(f) {
      assert |Contents(Pop(f).fifo)| == |Contents(f)| - 1;
    }
  }

  /** After a run of `k` pushes and `j` pops from a freshly initialised
      buffer of `size` slots, the room is `(size - 1) - (k - j)`. */
  lemma {:induction false} RoomAfterRun<T>(buf: seq<T>, base: int, ops: seq<Op<T>>)
    requires |buf| > 1
    ensures var r := Run(Init(buf, base), ops);
            r.Done? ==> Room(r.fifo) == (|buf| - 1) - (|Pushed(ops)| - Pops(ops))
  {
    var f := Init(buf, base);
    var r := Run(f, ops);
    if r.Done? {
      assert |r.out| + |Contents(r.fifo)| == |Contents(f)| + |Pushed(ops)|;
    }
  }

  /** fifo_flush twice is fifo_flush once. */
  lemma FlushIdempotent<T>(f: Fifo<T>)
    requires Valid(f)
    ensures Flush(Flush(f)) == Flush(f)
  {
  }

  /** Whatever `head` and `tail` were, a flushed buffer is empty with all of
      its capacity free; the capacity itself never changes. */
  lemma FlushEmpties<T>(f: Fifo<T>)
    requires Valid(f)
    ensures IsEmpty(Flush(f))
    ensures Len(f) > 0 ==> !IsFull(Flush(f))
    ensures Room(Flush(f)) == Len(f) == Len(Flush(f))
  {
  }

  /** A one-slot region, which the initialisation forbids, is empty and full
      at once: it can hold nothing. */
  lemma OneSlotIsEmptyAndFull<T>(f: Fifo<T>)
    requires Valid(f) && Size(f) == 1
    ensures IsEmpty(f) && IsFull(f) && Room(f) == 0
  {
  }
}
