/**
  The fixed-capacity circular byte buffer `RingBuffer<S>`.

  The C++ class owns an array of S bytes and two cursors. Here the array is
  the sequence `cells` (its length is S and never changes) and the cursors
  are `start` and `end`. The cursor encoding is the source's own:
    - (0, 0) is the empty buffer;
    - start == end != 0, or (0, S), is the full buffer;
    - `end` may legitimately equal S.
  `Contents` is the abstraction: the bytes held, oldest first. Every
  operation is stated against it.
 */
module RingBuffer {
  import opened Bytes

  datatype Ring = Ring(cells: seq<uint8>, start: nat, end: nat)

  /** The cursor ranges every operation keeps: `start` never reaches S,
      `end` may equal S. Every such pair is a meaningful state. */
  predicate Valid(r: Ring)
  {
    0 < |r.cells| && r.start < |r.cells| && r.end <= |r.cells|
  }

  predicate IsEmpty(r: Ring)
  {
    r.start == 0 && r.end == 0
  }

  predicate IsFull(r: Ring)
  {
    (r.start == r.end && r.start != 0) || (r.start == 0 && r.end == |r.cells|)
  }

  /** The bytes held, oldest first. When the data wraps, it runs from `start`
      to the physical end of the array and continues from index 0 to `end`. */
  function Contents(r: Ring): seq<uint8>
    requires Valid(r)
  {
    if r.start < r.end then r.cells[r.start..r.end]
    else if IsEmpty(r) then []
    else r.cells[r.start..] + r.cells[..r.end]
  }

  /** `capacity()`. */
  function Capacity(r: Ring): (s: nat)
    requires Valid(r)
    ensures s == |r.cells| && |Contents(r)| <= s
  {
    |r.cells|
  }

  /** `available()`: the number of bytes held. */
  function Available(r: Ring): (a: nat)
    requires Valid(r)
    ensures a == |Contents(r)|
    ensures a <= |r.cells|
    ensures a == 0 <==> IsEmpty(r)
    ensures a == |r.cells| <==> IsFull(r)
  {
    if r.end == r.start then
      if r.end == 0 then 0 else |r.cells|
    else if r.end > r.start then r.end - r.start
    else |r.cells| - (r.start - r.end)
  }

  /** `availableTogether()`: the bytes readable without crossing the
      physical end of the array. */
  function Together(r: Ring): (t: nat)
    requires Valid(r)
    ensures t <= |Contents(r)|
    ensures r.start + t <= |r.cells|
    ensures t == 0 <==> IsEmpty(r)
    ensures Contents(r)[..t] == r.cells[r.start..r.start + t]
    ensures r.start < r.end ==> t == |Contents(r)|
    ensures t == Min(|Contents(r)|, |r.cells| - r.start)
  {
    if r.start == r.end && r.start == 0 then 0
    else if r.start >= r.end then |r.cells| - r.start
    else r.end - r.start
  }

  /** `advanceStart(n)`: drop the first n bytes. Emptying the buffer resets
      the cursors to (0, 0). As written, a zero-length advance on a full
      buffer whose cursors are equal (and non-zero) also satisfies
      `_start == _end` and resets the buffer to empty. */
  function AdvanceStart(r: Ring, n: nat): (r': Ring)
    requires Valid(r) && n <= Together(r)
    ensures Valid(r') && r'.cells == r.cells
    ensures Contents(r') ==
      if n == 0 && r.start == r.end && r.start != 0 then [] else Contents(r)[n..]
    ensures Contents(r') == [] ==> r'.start == 0 && r'.end == 0
    ensures n > 0 ==> !IsFull(r') && (|r.cells| >= 2 ==> !PutBackLoses(r'))
  {
    var s := r.start + n;
    var r' :=
      if s == r.end then Ring(r.cells, 0, 0)
      else if s >= |r.cells| then Ring(r.cells, s % |r.cells|, r.end)
      else Ring(r.cells, s, r.end);
    AdvanceStartContents(r, n, r');
    r'
  }

  lemma AdvanceStartContents(r: Ring, n: nat, r': Ring)
    requires Valid(r) && n <= Together(r)
    requires r' == if r.start + n == r.end then Ring(r.cells, 0, 0)
                   else if r.start + n >= |r.cells| then Ring(r.cells, (r.start + n) % |r.cells|, r.end)
                   else Ring(r.cells, r.start + n, r.end)
    ensures Valid(r')
    ensures Contents(r') ==
      if n == 0 && r.start == r.end && r.start != 0 then [] else Contents(r)[n..]
  {
    var s := r.start + n;
    if s == r.end {
      if n > 0 {
        assert r.start < r.end;
      }
    } else if s >= |r.cells| {
      AdvanceToSeam(r, n);
    } else if r.start < r.end {
      assert Contents(r)[n..] == r.cells[s..r.end];
    } else {
      AdvanceWithinWrap(r, n);
    }
  }

  /** Advancing wrapped data exactly to the end of the array leaves the
      part that was wrapped to the front. */
  lemma AdvanceToSeam(r: Ring, n: nat)
    requires Valid(r) && n <= Together(r)
    requires r.start + n >= |r.cells| && r.start + n != r.end
    ensures (r.start + n) % |r.cells| == 0
    ensures Contents(Ring(r.cells, 0, r.end)) == Contents(r)[n..]
  {
    var S := |r.cells|;
    assert r.start + n == S && r.start >= r.end;
    assert S % S == 0;
    assert Contents(r) == r.cells[r.start..] + r.cells[..r.end];
    assert |r.cells[r.start..]| == n;
    assert Contents(r)[n..] == r.cells[..r.end];
  }

  /** Advancing wrapped data within the tail segment leaves the rest of
      that segment followed by the wrapped part. */
  lemma AdvanceWithinWrap(r: Ring, n: nat)
    requires Valid(r) && n <= Together(r) && r.start >= r.end
    requires r.start + n < |r.cells| && r.start + n != r.end
    ensures Contents(Ring(r.cells, r.start + n, r.end)) == Contents(r)[n..]
  {
    var s := r.start + n;
    var front, back := r.cells[r.start..], r.cells[..r.end];
    assert !IsEmpty(r) && s > r.end;
    assert Contents(r) == front + back;
    assert n <= |front| && front[n..] == r.cells[s..];
    assert (front + back)[n..] == front[n..] + back;
    assert Contents(Ring(r.cells, s, r.end)) == r.cells[s..] + back;
  }

  /** `read()`: remove and return the oldest byte, or -1 (leaving the buffer
      alone) when there is none. */
  function ReadByte(r: Ring): (res: (Ring, int))
    requires Valid(r)
    ensures Valid(res.0) && res.0.cells == r.cells
    ensures |Contents(r)| == 0 ==> res == (r, -1)
    ensures |Contents(r)| > 0 ==>
      res.1 == Contents(r)[0] as int && Contents(res.0) == Contents(r)[1..]
    ensures |Contents(r)| > 0 ==> !IsFull(res.0) && (|r.cells| >= 2 ==> !PutBackLoses(res.0))
  {
    if Available(r) == 0 then (r, -1)
    else (AdvanceStart(r, 1), r.cells[r.start] as int)
  }

  /** `peek()`: the byte `read()` would return, or -1 when empty. */
  function Peek(r: Ring): (v: int)
    requires Valid(r)
    ensures |Contents(r)| == 0 ==> v == -1
    ensures |Contents(r)| > 0 ==> v == Contents(r)[0] as int
  {
    if Available(r) == 0 then -1 else r.cells[r.start] as int
  }

  /** `read(dest, n)`: copy out and remove the first min(n, contiguous
      available) bytes. The copied bytes are the returned sequence. */
  function ReadBlock(r: Ring, n: nat): (res: (Ring, seq<uint8>))
    requires Valid(r)
    ensures Valid(res.0) && res.0.cells == r.cells
    ensures |res.1| == Min(n, Together(r))
    ensures res.1 == Contents(r)[..|res.1|]
    ensures Contents(res.0) ==
      if |res.1| == 0 && r.start == r.end && r.start != 0 then []
      else Contents(r)[|res.1|..]
  {
    var k := Min(n, Together(r));
    (AdvanceStart(r, k), r.cells[r.start..r.start + k])
  }

  /** The count `memccpy(dest, src, c, |span|)` copies: up to and including
      the first `c`, or all of `span` when `c` does not occur. */
  function MemCcpyCount(span: seq<uint8>, c: uint8): (k: nat)
    ensures k <= |span|
    ensures c in span ==> 0 < k && span[k - 1] == c && c !in span[..k - 1]
    ensures c !in span ==> k == |span|
  {
    if |span| == 0 then 0
    else if span[0] == c then 1
    else
      var k := 1 + MemCcpyCount(span[1..], c);
      assert span[1..][..k - 1] == span[1..k];
      assert span[..k] == [span[0]] + span[1..k];
      assert span == [span[0]] + span[1..];
      k
  }

  /** `readUntil(dest, c, n)`: copy and remove bytes of the contiguous span,
      at most n of them, stopping just after the first `c`. */
  function ReadUntil(r: Ring, c: uint8, n: nat): (res: (Ring, seq<uint8>))
    requires Valid(r)
    ensures Valid(res.0) && res.0.cells == r.cells
    ensures |res.1| <= Min(n, Together(r))
    ensures res.1 == Contents(r)[..|res.1|]
    ensures c in Contents(r)[..Min(n, Together(r))] ==>
      0 < |res.1| && res.1[|res.1| - 1] == c && c !in res.1[..|res.1| - 1]
    ensures c !in Contents(r)[..Min(n, Together(r))] ==>
      |res.1| == Min(n, Together(r))
    ensures Contents(res.0) ==
      if |res.1| == 0 && r.start == r.end && r.start != 0 then []
      else Contents(r)[|res.1|..]
    ensures |res.1| > 0 ==> !IsFull(res.0) && (|r.cells| >= 2 ==> !PutBackLoses(res.0))
  {
    var bound := Min(n, Together(r));
    var span := r.cells[r.start..r.start + bound];
    var k := MemCcpyCount(span, c);
    SpanIsFront(r, bound, k);
    (AdvanceStart(r, k), span[..k])
  }

  /** The contiguous span copied out is the front of the contents. */
  lemma SpanIsFront(r: Ring, bound: nat, k: nat)
    requires Valid(r) && bound <= Together(r) && k <= bound
    ensures r.cells[r.start..r.start + bound] == Contents(r)[..bound]
    ensures r.cells[r.start..r.start + bound][..k] == Contents(r)[..k]
  {
    var t := Together(r);
    assert Contents(r)[..bound] == Contents(r)[..t][..bound];
  }

  /** The cursor states where the source's `putBack` leaves both cursors at
      0, which reads back as the empty buffer. */
  predicate PutBackLoses(r: Ring)
  {
    r.end == 0 && (r.start == 1 || |r.cells| == 1)
  }

  /** `putBack(c)`: step the start cursor back (wrapping) and store `c`
      there. Nothing is checked: on a full buffer the byte overwrites the
      newest one and the cursors then describe a one-byte buffer. */
  function PutBack(r: Ring, c: uint8): (r': Ring)
    requires Valid(r)
    ensures Valid(r') && |r'.cells| == |r.cells|
    ensures Contents(r') ==
      if PutBackLoses(r) then [] else if IsFull(r) then [c] else [c] + Contents(r)
  {
    var s := if r.start == 0 then |r.cells| else r.start;
    var r' := Ring(r.cells[s - 1 := c], s - 1, r.end);
    PutBackContents(r, c, r');
    r'
  }

  lemma PutBackContents(r: Ring, c: uint8, r': Ring)
    requires Valid(r)
    requires r' == Ring(r.cells[(if r.start == 0 then |r.cells| else r.start) - 1 := c],
                        (if r.start == 0 then |r.cells| else r.start) - 1, r.end)
    ensures Valid(r')
    ensures Contents(r') ==
      if PutBackLoses(r) then [] else if IsFull(r) then [c] else [c] + Contents(r)
  {
    var s := r'.start;
    if IsFull(r) {
      assert s + 1 == r.end;
      assert r'.cells[s..r.end] == [c];
    } else if !PutBackLoses(r) {
      if s < r.end {
        assert r'.cells[s..r.end] == [c] + r.cells[s + 1..r.end];
      } else {
        assert r'.cells[s..] == [c] + r.cells[s + 1..];
        assert r'.cells[..r.end] == r.cells[..r.end];
      }
    }
  }

  /** The free slots `readFrom` may fill in one call: where writing starts
      and how many contiguous slots follow it. */
  function WriteWindow(r: Ring): (w: (nat, nat))
    requires Valid(r)
    ensures w.0 + w.1 <= |r.cells|
    ensures w.1 <= |r.cells| - |Contents(r)|
    ensures IsFull(r) <==> w.1 == 0
    ensures IsEmpty(r) ==> w == (0, |r.cells|)
    ensures w.0 == (if r.end == |r.cells| then 0 else r.end)
    ensures w.1 == Min(|r.cells| - |Contents(r)|, |r.cells| - w.0)
  {
    if r.end == r.start then
      if r.end == 0 then (r.end, |r.cells|) else (r.end, 0)
    else if r.end == |r.cells| then (0, r.start)
    else if r.end > r.start then (r.end, |r.cells| - r.end)
    else (r.end, r.start - r.end)
  }

  /** `readFrom(source)`: append the bytes the source offers right now, as
      many as fit in the contiguous free slots. The source is the finite
      sequence `offered` of bytes it would yield before reporting none. */
  function ReadFrom(r: Ring, offered: seq<uint8>): (res: (Ring, nat))
    requires Valid(r)
    ensures Valid(res.0) && |res.0.cells| == |r.cells|
    ensures res.1 == Min(|offered|, WriteWindow(r).1)
    ensures Contents(res.0) == Contents(r) + offered[..res.1]
    ensures IsFull(r) ==> res.1 == 0 && res.0 == r
    ensures !IsFull(r) && |offered| > 0 ==> res.1 > 0
    ensures IsEmpty(r) ==> res.1 == Min(|offered|, |r.cells|)
    ensures r.start == res.0.start
  {
    if r.end == r.start && r.end != 0 then (r, 0)
    else
      var (p, room) := WriteWindow(r);
      var count := Min(|offered|, room);
      var cells := r.cells[..p] + offered[..count] + r.cells[p + count..];
      var e := r.end + count;
      var r' := Ring(cells, r.start, if e > |r.cells| then e % |r.cells| else e);
      ReadFromContents(r, offered, p, count, r');
      (r', count)
  }

  lemma ReadFromContents(r: Ring, offered: seq<uint8>, p: nat, count: nat, r': Ring)
    requires Valid(r) && !(r.end == r.start && r.end != 0)
    requires (p, count) == (WriteWindow(r).0, Min(|offered|, WriteWindow(r).1))
    requires r'.cells == r.cells[..p] + offered[..count] + r.cells[p + count..]
    requires r'.start == r.start
    requires r'.end == if r.end + count > |r.cells| then (r.end + count) % |r.cells| else r.end + count
    ensures Valid(r')
    ensures Contents(r') == Contents(r) + offered[..count]
  {
    var S := |r.cells|;
    var w := offered[..count];
    if r.end == r.start {
      assert p == 0 && r'.end == count;
      assert r'.cells == w + r.cells[|w|..];
      ReadFromIntoEmpty(r, w, r');
    } else if r.end == S {
      assert p == 0 && count <= r.start;
      assert r'.cells == w + r.cells[|w|..];
      if count > 0 {
        WrapAround(S, count);
        ReadFromWrapping(r, w, r');
      } else {
        assert r' == r;
      }
    } else if r.end > r.start {
      assert p == r.end && r'.end == r.end + count;
      ReadFromAfterEnd(r, w, r');
    } else {
      assert p == r.end && r'.end == r.end + count;
      ReadFromIntoGap(r, w, r');
    }
  }

  lemma WrapAround(s: nat, k: nat)
    requires 0 < k < s
    ensures (s + k) % s == k
  {
  }

  lemma ReadFromIntoEmpty(r: Ring, w: seq<uint8>, r': Ring)
    requires Valid(r) && IsEmpty(r) && |w| <= |r.cells|
    requires r' == Ring(w + r.cells[|w|..], 0, |w|)
    ensures Valid(r') && Contents(r') == Contents(r) + w
  {
    if |w| > 0 {
      assert r'.cells[0..|w|] == w;
    }
  }

  lemma ReadFromWrapping(r: Ring, w: seq<uint8>, r': Ring)
    requires Valid(r) && r.end == |r.cells| && 0 < |w| <= r.start
    requires r' == Ring(w + r.cells[|w|..], r.start, |w|)
    ensures Valid(r') && Contents(r') == Contents(r) + w
  {
    assert r'.cells[r.start..] == r.cells[r.start..];
    assert r'.cells[..|w|] == w;
  }

  lemma ReadFromAfterEnd(r: Ring, w: seq<uint8>, r': Ring)
    requires Valid(r) && r.start < r.end < |r.cells| && |w| <= |r.cells| - r.end
    requires r' == Ring(r.cells[..r.end] + w + r.cells[r.end + |w|..], r.start, r.end + |w|)
    ensures Valid(r') && Contents(r') == Contents(r) + w
  {
    assert r'.cells[r.start..r.end + |w|] == r.cells[r.start..r.end] + w;
  }

  lemma ReadFromIntoGap(r: Ring, w: seq<uint8>, r': Ring)
    requires Valid(r) && r.end < r.start && |w| <= r.start - r.end
    requires r' == Ring(r.cells[..r.end] + w + r.cells[r.end + |w|..], r.start, r.end + |w|)
    ensures Valid(r') && Contents(r') == Contents(r) + w
  {
    assert r'.cells[r.start..] == r.cells[r.start..];
    assert r'.cells[..r.end + |w|] == r.cells[..r.end] + w;
  }

  /** `putBack` undoes `read()`: on a buffer of at least two bytes, putting
      back the byte just read restores the contents. */
  lemma ReadThenPutBack(r: Ring)
    requires Valid(r) && |r.cells| >= 2 && !IsEmpty(r)
    ensures ReadByte(r).1 >= 0
    ensures Contents(PutBack(ReadByte(r).0, ReadByte(r).1 as uint8)) == Contents(r)
  {
    Fullness(r);
    var (r1, b) := ReadByte(r);
    assert [Contents(r)[0]] + Contents(r)[1..] == Contents(r);
  }

  /** `read()` returns the byte just put back and leaves the contents as
      they were before, whenever `putBack` did not lose them. */
  lemma PutBackThenRead(r: Ring, c: uint8)
    requires Valid(r) && !IsFull(r) && !PutBackLoses(r)
    ensures Peek(PutBack(r, c)) == c as int
    ensures ReadByte(PutBack(r, c)).1 == c as int
    ensures Contents(ReadByte(PutBack(r, c)).0) == Contents(r)
    ensures |Contents(PutBack(r, c))| == |Contents(r)| + 1
  {
    var r' := PutBack(r, c);
    assert Contents(r') == [c] + Contents(r);
    assert Contents(r')[1..] == Contents(r);
  }

  /** `putBack` as written: with the end cursor at 0 and the start cursor at
      1, the new start is 0, the cursors read (0, 0), and the buffer that
      held [8, 9] is left empty instead of holding [5, 8, 9]. */
  lemma PutBackLosesContents()
    ensures Contents(Ring([7, 8, 9], 1, 0)) == [8, 9]
    ensures !IsFull(Ring([7, 8, 9], 1, 0))
    ensures Contents(PutBack(Ring([7, 8, 9], 1, 0), 5)) == []
  {
    assert PutBackLoses(Ring([7, 8, 9], 1, 0));
  }

  /** A zero-length `read(dest, 0)` on a full buffer whose cursors are equal
      and non-zero empties it: three bytes are discarded. */
  lemma ZeroReadEmptiesFullBuffer()
    ensures Contents(Ring([1, 2, 3], 1, 1)) == [2, 3, 1]
    ensures ReadBlock(Ring([1, 2, 3], 1, 1), 0).1 == []
    ensures Contents(ReadBlock(Ring([1, 2, 3], 1, 1), 0).0) == []
  {
    var r := Ring([1, 2, 3], 1, 1);
    assert r.cells[1..] + r.cells[..1] == [2, 3, 1];
  }

  /** The cursor predicates agree with the abstraction. */
  lemma Fullness(r: Ring)
    requires Valid(r)
    ensures IsFull(r) <==> |Contents(r)| == |r.cells|
    ensures IsEmpty(r) <==> |Contents(r)| == 0
  {
    var _ := Available(r);
  }

  /** `clear()`. */
  function Clear(r: Ring): (r': Ring)
    requires Valid(r)
    ensures Valid(r') && r'.cells == r.cells && Contents(r') == []
  {
    Ring(r.cells, 0, 0)
  }
}
