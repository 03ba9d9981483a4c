/**
 Frame synchronisation of the BF-117 byte stream, as pure functions.

 The meter's stream is read one byte at a time into a buffer. An attempt stops
 when it has read the terminator 0x55, or when the buffer has grown past the
 frame length of 22 (the length is tested after the byte is appended), or when
 the input ends. A buffer of at least 22 bytes that ends in the terminator is a
 frame; any other buffer is dropped. The next attempt starts from an empty
 buffer at the first byte not yet read, so dropped bytes are never rescanned.

 Positions are absolute indices into the input: an attempt that starts at
 `start` and has read up to `i` holds the buffer `input[start..i]`.
 */
module FrameSync {

  datatype Option<T> = None | Some(value: T)

  const EndOfData: bv8 := 0x55
  const FrameLength: nat := 22

  /**
   Where the attempt that started at `start` stops, given that it has read
   `input[start..i]` without meeting the terminator and without overflowing:
   `Some(e)` when it stops after reading `input[e - 1]`, `None` when the input
   runs out first.
   */
  function AttemptEnd(input: seq<bv8>, start: nat, i: nat): (e: Option<nat>)
    requires start <= i <= |input|
    requires i - start <= FrameLength
    decreases |input| - i
    ensures e.Some? ==> i < e.value <= |input| && e.value - start <= FrameLength + 1
    ensures e.Some? ==> input[e.value - 1] == EndOfData || e.value - start == FrameLength + 1
    ensures e.Some? ==> forall k :: i <= k < e.value - 1 ==> input[k] != EndOfData
    ensures e.None? <==> (|input| - start <= FrameLength && forall k :: i <= k < |input| ==> input[k] != EndOfData)
  {
    if i == |input| then None
    else if input[i] == EndOfData || i + 1 - start > FrameLength then Some(i + 1)
    else AttemptEnd(input, start, i + 1)
  }

  /** A collected buffer that is kept: long enough and ending in the terminator. */
  predicate Accepted(data: seq<bv8>) {
    |data| >= FrameLength && data[|data| - 1] == EndOfData
  }

  /**
   The frames found in `input[pos..]`, in order, with the attempts starting at
   `pos`.
   */
  function FramesFrom(input: seq<bv8>, pos: nat): seq<seq<bv8>>
    requires pos <= |input|
    decreases |input| - pos
  {
    match AttemptEnd(input, pos, pos)
    case None => []
    case Some(e) =>
      var data := input[pos..e];
      (if Accepted(data) then [data] else []) + FramesFrom(input, e)
  }

  /** The frames the synchroniser produces from a whole input. */
  function Frames(input: seq<bv8>): seq<seq<bv8>> {
    FramesFrom(input, 0)
  }

  /** A whole input of n bytes holds at most n / 22 frames. */
  lemma FramesCount(input: seq<bv8>)
    ensures FrameLength * |Frames(input)| <= |input|
  {
    FramesFromCount(input, 0);
  }

  /** Every frame uses at least 22 bytes of its own, which bounds the number of frames. */
  lemma {:induction false} FramesFromCount(input: seq<bv8>, pos: nat)
    requires pos <= |input|
    decreases |input| - pos
    ensures FrameLength * |FramesFrom(input, pos)| <= |input| - pos
  {
    match AttemptEnd(input, pos, pos)
    case None =>
    case Some(e) =>
      FramesFromCount(input, e);
  }

  /** What every emitted frame looks like: 22 or 23 bytes, the terminator last and nowhere else. */
  predicate WellFormed(f: seq<bv8>) {
    && (|f| == FrameLength || |f| == FrameLength + 1)
    && f[|f| - 1] == EndOfData
    && forall k :: 0 <= k < |f| - 1 ==> f[k] != EndOfData
  }

  lemma {:induction false} FramesFromWellFormed(input: seq<bv8>, pos: nat)
    requires pos <= |input|
    decreases |input| - pos
    ensures forall f :: f in FramesFrom(input, pos) ==> WellFormed(f)
  {
    match AttemptEnd(input, pos, pos)
    case None =>
    case Some(e) =>
      FramesFromWellFormed(input, e);
  }

  /** One attempt that ends at `e` contributes its buffer when accepted, and scanning resumes at `e`. */
  lemma FramesFromStep(input: seq<bv8>, pos: nat, e: nat)
    requires pos <= |input|
    requires AttemptEnd(input, pos, pos) == Some(e)
    ensures !Accepted(input[pos..e]) ==> FramesFrom(input, pos) == FramesFrom(input, e)
    ensures Accepted(input[pos..e]) ==> FramesFrom(input, pos) == [input[pos..e]] + FramesFrom(input, e)
    ensures Accepted(input[pos..e]) ==> WellFormed(input[pos..e])
  {
    assert [] + FramesFrom(input, e) == FramesFrom(input, e);
  }

  /** Every frame of every input is well formed; in particular it is long enough to decode. */
  lemma FramesWellFormed(input: seq<bv8>)
    ensures forall f :: f in Frames(input) ==> WellFormed(f)
  {
    FramesFromWellFormed(input, 0);
  }

  /** An attempt that reads a terminator as its 22nd byte emits a frame of 22 bytes. */
  lemma AcceptAtTwentyTwo(input: seq<bv8>, pos: nat)
    requires pos + FrameLength <= |input|
    requires forall k :: pos <= k < pos + FrameLength - 1 ==> input[k] != EndOfData
    requires input[pos + FrameLength - 1] == EndOfData
    ensures FramesFrom(input, pos) == [input[pos..pos + FrameLength]] + FramesFrom(input, pos + FrameLength)
  {
  }

  /**
   An attempt whose first 22 bytes hold no terminator and whose 23rd byte is the
   terminator overflows, yet its 23-byte buffer still ends in the terminator and
   is emitted as a frame.
   */
  lemma AcceptAtTwentyThree(input: seq<bv8>, pos: nat)
    requires pos + FrameLength + 1 <= |input|
    requires forall k :: pos <= k < pos + FrameLength ==> input[k] != EndOfData
    requires input[pos + FrameLength] == EndOfData
    ensures FramesFrom(input, pos) == [input[pos..pos + FrameLength + 1]] + FramesFrom(input, pos + FrameLength + 1)
  {
  }

  /**
   A terminator met before the 22nd byte drops the buffer; the next attempt
   starts right after the terminator.
   */
  lemma DropShort(input: seq<bv8>, pos: nat, j: nat)
    requires pos + j < |input| && j < FrameLength - 1
    requires forall k :: pos <= k < pos + j ==> input[k] != EndOfData
    requires input[pos + j] == EndOfData
    ensures FramesFrom(input, pos) == FramesFrom(input, pos + j + 1)
  {
  }

  /**
   A buffer that grows past 22 bytes without a terminator is dropped; the next
   attempt starts right after its 23rd byte.
   */
  lemma DropOverflow(input: seq<bv8>, pos: nat)
    requires pos + FrameLength + 1 <= |input|
    requires forall k :: pos <= k < pos + FrameLength + 1 ==> input[k] != EndOfData
    ensures FramesFrom(input, pos) == FramesFrom(input, pos + FrameLength + 1)
  {
  }

  /** When the input ends inside an attempt, that partial buffer is never emitted. */
  lemma NoPartialFrame(input: seq<bv8>, pos: nat)
    requires pos <= |input|
    requires |input| - pos <= FrameLength
    requires forall k :: pos <= k < |input| ==> input[k] != EndOfData
    ensures FramesFrom(input, pos) == []
  {
  }

  /** Twenty-one data bytes and the terminator make exactly one frame. */
  lemma OneFrame(data: seq<bv8>)
    requires |data| == FrameLength - 1
    requires forall k :: 0 <= k < |data| ==> data[k] != EndOfData
    ensures Frames(data + [EndOfData]) == [data + [EndOfData]]
  {
    var input := data + [EndOfData];
    AcceptAtTwentyTwo(input, 0);
    assert input[0..FrameLength] == input;
    NoPartialFrame(input, FrameLength);
  }

  /** Twenty-three bytes without a terminator are dropped, and a frame right after them is still found. */
  lemma ResyncAfterOverflow(junk: seq<bv8>, frame: seq<bv8>)
    requires |junk| == FrameLength + 1
    requires forall k :: 0 <= k < |junk| ==> junk[k] != EndOfData
    requires |frame| == FrameLength && frame[FrameLength - 1] == EndOfData
    requires forall k :: 0 <= k < FrameLength - 1 ==> frame[k] != EndOfData
    ensures Frames(junk + frame) == [frame]
  {
    var input := junk + frame;
    var n := |junk|;
    DropOverflow(input, 0);
    AcceptAtTwentyTwo(input, n);
    assert input[n..n + FrameLength] == frame;
    NoPartialFrame(input, n + FrameLength);
  }
}
