/**
 * The overwrite-on-full ring of frame handles shared by the capture
 * producer and the HTTP consumer.
 *
 * The ring is a fixed array of BUFFER_SIZE slots with a write index
 * (`head`) and a read index (`tail`).  It is empty exactly when the two
 * are equal, and a write that makes `head` catch up with `tail` pushes
 * `tail` forward, dropping the oldest unread entry.  Because "full" and
 * "empty" would otherwise look the same, at most BUFFER_SIZE - 1 entries
 * are ever readable.
 */
module FrameRing {
  import opened Base

  /** Number of slots in the ring. */
  const BUFFER_SIZE: nat := 10

  /** Largest number of entries the ring can hold unread. */
  const READABLE_MAX: nat := BUFFER_SIZE - 1

  /** Number of readable entries for given write and read indices. */
  function Count(head: nat, tail: nat): (n: nat)
    requires head < BUFFER_SIZE && tail < BUFFER_SIZE
    ensures n <= READABLE_MAX
    ensures n == 0 <==> head == tail
    ensures Slot(tail, n) == head
  {
    (head - tail) % BUFFER_SIZE
  }

  /** The slot `i` places after slot `tail`, going round the ring. */
  function Slot(tail: nat, i: nat): (k: nat)
    requires tail < BUFFER_SIZE && i < BUFFER_SIZE
    ensures k < BUFFER_SIZE && k == (tail + i) % BUFFER_SIZE
  {
    if tail + i < BUFFER_SIZE then tail + i else tail + i - BUFFER_SIZE
  }

  /** The readable entries after one write of `x`, oldest first. */
  function AfterWrite<T>(c: seq<T>, x: T): (r: seq<T>)
    requires |c| <= READABLE_MAX
    ensures |r| <= READABLE_MAX
    ensures |r| > 0 && r[|r| - 1] == x
  {
    if |c| == READABLE_MAX then c[1..] + [x] else c + [x]
  }

  /** The readable entries after writing every element of `xs`, in order. */
  function AfterWrites<T>(c: seq<T>, xs: seq<T>): seq<T>
    requires |c| <= READABLE_MAX
    decreases |xs|
  {
    if xs == [] then c else AfterWrites(AfterWrite(c, xs[0]), xs[1..])
  }

  function Min(a: int, b: int): int { if a <= b then a else b }

  /** The newest (at most READABLE_MAX) elements of `s`, in order. */
  function Newest<T>(s: seq<T>): seq<T>
  {
    s[|s| - Min(|s|, READABLE_MAX)..]
  }

  lemma NewestOfNewest<T>(s: seq<T>, t: seq<T>)
    ensures Newest(Newest(s) + t) == Newest(s + t)
  {
    var n := Newest(s);
    if |t| < READABLE_MAX {
      var k := READABLE_MAX - |t|;
      assert (n + t)[|n + t| - Min(|n + t|, READABLE_MAX)..] == (s + t)[|s + t| - Min(|s + t|, READABLE_MAX)..];
    } else {
      assert (n + t)[|n + t| - READABLE_MAX..] == t[|t| - READABLE_MAX..];
      assert (s + t)[|s + t| - READABLE_MAX..] == t[|t| - READABLE_MAX..];
    }
  }

  /**
   * Overwrite with eviction, stated over whole histories: starting from
   * readable entries `c` and writing `xs` with no reads in between leaves
   * exactly the newest READABLE_MAX of `c + xs`, in write order.
   */
  lemma {:induction false} AfterWritesKeepsNewest<T>(c: seq<T>, xs: seq<T>)
    requires |c| <= READABLE_MAX
    ensures AfterWrites(c, xs) == Newest(c + xs)
    decreases |xs|
  {
    if xs == [] {
      assert c + xs == c;
    } else {
      var c' := AfterWrite(c, xs[0]);
      assert c' == Newest(c + [xs[0]]);
      AfterWritesKeepsNewest(c', xs[1..]);
      NewestOfNewest(c + [xs[0]], xs[1..]);
      assert c + [xs[0]] + xs[1..] == c + xs;
    }
  }

  /**
   * `c` is what a reader would get from slots `e` with write index `head`
   * and read index `tail`: the Count(head, tail) slots from `tail` on.
   */
  ghost predicate Readable<T>(e: seq<T>, head: nat, tail: nat, c: seq<T>)
  {
    && |e| == BUFFER_SIZE && head < BUFFER_SIZE && tail < BUFFER_SIZE
    && |c| == Count(head, tail)
    && forall i :: 0 <= i < |c| ==> c[i] == e[Slot(tail, i)]
  }

  /** One write, at the level of slots and indices, keeps the readable view in step with AfterWrite. */
  lemma WriteStep<T>(e: seq<T>, head: nat, tail: nat, c: seq<T>, x: T)
    requires Readable(e, head, tail, c)
    ensures var head' := Slot(head, 1);
            var tail' := if head' == tail then Slot(tail, 1) else tail;
            Readable(e[head := x], head', tail', AfterWrite(c, x))
    ensures Slot(head, 1) == tail <==> |c| == READABLE_MAX
  {
    var head' := Slot(head, 1);
    var tail' := if head' == tail then Slot(tail, 1) else tail;
    var e', c' := e[head := x], AfterWrite(c, x);
    assert |c'| == Count(head', tail');
    forall i | 0 <= i < |c'|
      ensures c'[i] == e'[Slot(tail', i)]
    {
      // the slot the new entry goes into was not readable before
      var j := if |c| == READABLE_MAX then i + 1 else i;
      if i < |c'| - 1 {
        assert j < |c| && c'[i] == c[j] == e[Slot(tail, j)];
        assert Slot(tail', i) == Slot(tail, j) != head;
      } else {
        assert Slot(tail', i) == head;
      }
    }
  }

  /** One read of a non-empty ring drops the oldest readable entry. */
  lemma ReadStep<T>(e: seq<T>, head: nat, tail: nat, c: seq<T>)
    requires Readable(e, head, tail, c) && head != tail
    ensures c != [] && c[0] == e[tail]
    ensures Readable(e, head, Slot(tail, 1), c[1..])
  {
    var c' := c[1..];
    assert c[0] == e[Slot(tail, 0)];
    forall i | 0 <= i < |c'|
      ensures c'[i] == e[Slot(Slot(tail, 1), i)]
    {
      assert c'[i] == c[i + 1];
      assert Slot(Slot(tail, 1), i) == Slot(tail, i + 1);
    }
  }

  class CircularBuffer<T(0)> {
    /** The slots; a slot keeps its handle until a later write overwrites it. */
    var entries: array<T>
    /** Write index. */
    var head: nat
    /** Read index. */
    var tail: nat
    /** The readable entries, oldest first. */
    ghost var Contents: seq<T>

    ghost predicate Valid()
      reads this, entries
    {
      Readable(entries[..], head, tail, Contents)
    }

    /** The ring as declared and then initialised: both indices zero, nothing readable. */
    constructor Init()
      ensures Valid() && fresh(entries)
      ensures head == 0 && tail == 0 && Contents == []
    {
      entries := new T[BUFFER_SIZE];
      head, tail := 0, 0;
      Contents := [];
    }

    /**
     * Store `frame` at the write index and advance it; if that makes the
     * indices meet, advance the read index too.  Never fails.  The handle
     * that stops being readable is reported in the ghost `evicted`: the
     * ring does not release it, and its slot is overwritten by a later write.
     */
    method Write(frame: T) returns (ghost evicted: Option<T>)
      requires Valid()
      modifies this, entries
      ensures Valid() && entries == old(entries)
      ensures entries[..] == old(entries[..])[old(head) := frame]
      ensures head == (old(head) + 1) % BUFFER_SIZE
      ensures tail == if head == old(tail) then (old(tail) + 1) % BUFFER_SIZE else old(tail)
      ensures Contents == AfterWrite(old(Contents), frame)
      ensures evicted.Some? <==> |old(Contents)| == READABLE_MAX
      ensures evicted.Some? ==> evicted.value == old(Contents)[0]
    {
      ghost var e := entries[..][head := frame];
      ghost var c := AfterWrite(Contents, frame);
      WriteStep(entries[..], head, tail, Contents, frame);
      var next := (head + 1) % BUFFER_SIZE;
      assert next == Slot(head, 1);
      entries[head] := frame;
      assert entries[..] == e;
      head := next;
      evicted := None;
      if head == tail {
        evicted := Some(Contents[0]);
        tail := (tail + 1) % BUFFER_SIZE;
        assert tail == Slot(old(tail), 1);
      }
      Contents := c;
    }

    /**
     * Non-blocking FIFO removal.  On an empty ring it reports false and the
     * caller's `output` is left as it was; otherwise it hands out the oldest
     * readable handle and advances the read index.  The slots are not touched.
     */
    method Read(output: T) returns (ok: bool, out: T)
      requires Valid()
      modifies this
      ensures Valid() && entries == old(entries) && head == old(head)
      ensures entries[..] == old(entries[..])
      ensures ok <==> old(head) != old(tail)
      ensures ok <==> old(Contents) != []
      ensures ok ==> out == old(Contents)[0] && out == entries[old(tail)]
      ensures ok ==> tail == (old(tail) + 1) % BUFFER_SIZE && Contents == old(Contents)[1..]
      ensures !ok ==> out == output && tail == old(tail) && Contents == old(Contents)
    {
      if head == tail {
        return false, output;
      }
      ReadStep(entries[..], head, tail, Contents);
      out := entries[tail];
      tail := (tail + 1) % BUFFER_SIZE;
      Contents := Contents[1..];
      ok := true;
    }
  }

  /**
   * Write every frame of `frames` into a freshly initialised ring, then read
   * until the ring reports empty: what comes out is the newest
   * READABLE_MAX frames in write order (writing 1..15 reads back 7..15).
   */
  method FillThenDrain<T(0)>(frames: seq<T>) returns (drained: seq<T>)
    ensures drained == frames[|frames| - Min(|frames|, READABLE_MAX)..]
  {
    var ring := new CircularBuffer<T>.Init();
    WriteAll(ring, frames);
    AfterWritesKeepsNewest([], frames);
    assert [] + frames == frames;
    drained := DrainAll(ring);
  }

  /** Write the frames of `frames` in order. */
  method WriteAll<T(0)>(ring: CircularBuffer<T>, frames: seq<T>)
    requires ring.Valid() && |ring.Contents| <= READABLE_MAX
    modifies ring, ring.entries
    ensures ring.Valid() && ring.entries == old(ring.entries)
    ensures ring.Contents == AfterWrites(old(ring.Contents), frames)
  {
    var i := 0;
    while i < |frames|
      invariant 0 <= i <= |frames|
      invariant ring.Valid() && ring.entries == old(ring.entries)
      invariant ring.Contents == AfterWrites(old(ring.Contents), frames[..i])
    {
      PrefixStep(frames, i);
      AfterWritesAppend(old(ring.Contents), frames[..i], frames[i]);
      var _ := ring.Write(frames[i]);
      i := i + 1;
    }
    assert frames[..i] == frames;
  }

  /** Read until the ring reports empty; the reads return the readable entries in order. */
  method DrainAll<T(0)>(ring: CircularBuffer<T>) returns (drained: seq<T>)
    requires ring.Valid()
    modifies ring
    ensures ring.Valid() && ring.Contents == []
    ensures drained == old(ring.Contents)
  {
    drained := [];
    var ok := true;
    var out := ring.entries[0];
    while ok
      invariant ring.Valid() && ring.entries == old(ring.entries)
      invariant drained + ring.Contents == old(ring.Contents)
      invariant !ok ==> ring.Contents == []
      decreases |ring.Contents| + (if ok then 1 else 0)
    {
      ghost var before := ring.Contents;
      ok, out := ring.Read(out);
      if ok {
        assert before == [out] + ring.Contents;
        drained := drained + [out];
      }
    }
  }

  lemma PrefixStep<T>(s: seq<T>, i: nat)
    requires i < |s|
    ensures s[..i + 1] == s[..i] + [s[i]]
  {
  }

  lemma {:induction false} AfterWritesAppend<T>(c: seq<T>, xs: seq<T>, x: T)
    requires |c| <= READABLE_MAX
    ensures |AfterWrites(c, xs)| <= READABLE_MAX
    ensures AfterWrites(c, xs + [x]) == AfterWrite(AfterWrites(c, xs), x)
    decreases |xs|
  {
    if xs == [] {
      assert [] + [x] == [x];
    } else {
      assert (xs + [x])[1..] == xs[1..] + [x];
      AfterWritesAppend(AfterWrite(c, xs[0]), xs[1..], x);
    }
  }
}
