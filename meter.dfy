/**
 The decoding loop of the BF-117 script: read the meter's bytes one at a time,
 collect them into a buffer, drop buffers that are too short or too long, and
 decode every accepted frame into a reading.

 The byte source is the sequence `input` with a read position; reaching its
 end is the read that returns no byte, which ends the program.
 */
module Meter {
  import opened FrameSync
  import opened Decoder

  /**
   One accumulation attempt from an empty buffer at `start`: append bytes until
   the last one is the terminator or the buffer is longer than a frame. `eof`
   reports that the input ran out first, in which case nothing is returned.
   */
  method ReadBuffer(input: seq<bv8>, start: nat) returns (data: seq<bv8>, pos: nat, eof: bool)
    requires start <= |input|
    ensures eof <==> AttemptEnd(input, start, start) == None
    ensures !eof ==> AttemptEnd(input, start, start) == Some(pos) && data == input[start..pos]
  {
    data, pos, eof := [], start, false;
    while |data| == 0 || data[|data| - 1] != EndOfData
      invariant start <= pos <= |input|
      invariant data == input[start..pos]
      invariant |data| <= FrameLength
      invariant AttemptEnd(input, start, start) ==
        if |data| > 0 && data[|data| - 1] == EndOfData then Some(pos) else AttemptEnd(input, start, pos)
      decreases |input| - pos
    {
      if pos == |input| {
        // a read that returns nothing: the partial buffer is not a frame
        eof := true;
        return;
      }
      data := data + [input[pos]];
      pos := pos + 1;
      if |data| > FrameLength {
        // overflow: the buffer is dropped unless its last byte is the terminator
        break;
      }
    }
  }

  /**
   Runs the script over a whole input and returns the frames it accepted and
   the reading decoded from each, in order.
   */
  method Run(input: seq<bv8>) returns (frames: seq<seq<bv8>>, readings: seq<Reading>)
    ensures frames == Frames(input)
    ensures |readings| == |frames|
    ensures forall i :: 0 <= i < |frames| ==> WellFormed(frames[i]) && readings[i] == Decode(frames[i])
  {
    frames, readings := [], [];
    var pos := 0;
    while true
      invariant pos <= |input|
      invariant frames + FramesFrom(input, pos) == Frames(input)
      invariant |readings| == |frames|
      invariant forall i :: 0 <= i < |frames| ==> WellFormed(frames[i]) && readings[i] == Decode(frames[i])
      decreases |input| - pos
    {
      var data, next, eof := ReadBuffer(input, pos);
      if eof {
        return;
      }
      ghost var start := pos;
      pos := next;
      FramesFromStep(input, start, pos);
      if |data| < FrameLength {
        // too short: drop and start again
        assert !Accepted(data);
        continue;
      } else if data[|data| - 1] != EndOfData {
        // overflowed without the terminator: drop and start again
        assert !Accepted(data);
        continue;
      }
      var r := DecodeFrame(data);
      AppendFrame(frames, data, FramesFrom(input, pos));
      DecodedAppend(frames, readings, data, r);
      frames := frames + [data];
      readings := readings + [r];
    }
  }

  /** Moving the next frame from the pending frames to the emitted ones keeps their concatenation. */
  lemma AppendFrame(frames: seq<seq<bv8>>, data: seq<bv8>, rest: seq<seq<bv8>>)
    ensures (frames + [data]) + rest == frames + ([data] + rest)
  {
  }

  /** Appending a well-formed frame and its reading keeps the two lists in step. */
  lemma DecodedAppend(frames: seq<seq<bv8>>, readings: seq<Reading>, data: seq<bv8>, r: Reading)
    requires |readings| == |frames|
    requires forall i :: 0 <= i < |frames| ==> WellFormed(frames[i]) && readings[i] == Decode(frames[i])
    requires WellFormed(data) && r == Decode(data)
    ensures forall i :: 0 <= i < |frames| + 1 ==>
      WellFormed((frames + [data])[i]) && (readings + [r])[i] == Decode((frames + [data])[i])
  {
  }
}
