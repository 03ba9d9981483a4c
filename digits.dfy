/**
 The seven-segment digit decoder of the BF-117 meter protocol.

 Bit 0x80 of a digit byte is not a segment (it carries the decimal point or the
 sign), so a digit is found by masking it off and looking the remaining seven
 segment bits up in a fixed table of ten patterns. A pattern that is not in the
 table decodes to 0.
 */
module Digits {

  /** Segment patterns of the digits 0 to 9, in that order. */
  const Segments: seq<bv8> := [0x5f, 0x06, 0x6b, 0x2f, 0x36, 0x3d, 0x7d, 0x07, 0x7f, 0x3f]

  /** Mask of the seven segment bits of a digit byte. */
  const SegmentMask: bv8 := 0x7f

  /** Bit that is not a segment: decimal point or sign marker. */
  const MarkerBit: bv8 := 0x80

  /** Position of the first occurrence of `x` in `s`, or `|s|` when there is none. */
  function IndexOf(s: seq<bv8>, x: bv8): (i: nat)
    ensures i <= |s|
    ensures i < |s| ==> s[i] == x
    ensures forall j :: 0 <= j < i ==> s[j] != x
  {
    if |s| == 0 then 0
    else if s[0] == x then 0
    else 1 + IndexOf(s[1..], x)
  }

  /** The digit shown by a digit byte: the table position of its segment pattern, or 0. */
  function Digit(b: bv8): (d: nat)
    ensures d <= 9
  {
    var i := IndexOf(Segments, b & SegmentMask);
    if i < |Segments| then i else 0
  }

  /** A byte whose pattern is in the table shows that entry's digit; any other byte shows 0. */
  lemma DigitMeaning(b: bv8)
    ensures (b & SegmentMask) in Segments ==> Segments[Digit(b)] == b & SegmentMask
    ensures (b & SegmentMask) !in Segments ==> Digit(b) == 0
  {
  }

  /** No two digits share a segment pattern, so a pattern names at most one digit. */
  lemma SegmentsDistinct()
    ensures forall i, j :: 0 <= i < j < |Segments| ==> Segments[i] != Segments[j]
  {
  }

  /** Every table pattern decodes to its own digit, with or without the marker bit. */
  lemma DigitOfSegment(i: nat)
    requires i < |Segments|
    ensures Digit(Segments[i]) == i
    ensures Digit(Segments[i] | MarkerBit) == i
  {
    SegmentsDistinct();
    SegmentsUnmarked();
    var p := Segments[i];
    DigitMeaning(p);
    DigitMeaning(p | MarkerBit);
    assert p & SegmentMask == p;
    assert (p | MarkerBit) & SegmentMask == p;
  }

  /** No table pattern uses the marker bit. */
  lemma SegmentsUnmarked()
    ensures forall i :: 0 <= i < |Segments| ==> Segments[i] & SegmentMask == Segments[i]
  {
  }

  /** The marker bit never changes the digit a byte shows. */
  lemma DigitIgnoresMarker(b: bv8)
    ensures Digit(b | MarkerBit) == Digit(b)
    ensures Digit(b & SegmentMask) == Digit(b)
  {
  }
}
