/**
 * The few Java primitive conversions the model depends on: the narrowing
 * cast from char to byte, the widening cast back, and what a string looks
 * like after every character has been through both.
 */
module JavaText {

  /** A Java byte. */
  type JByte = b: int | -128 <= b < 128

  /** The cast (byte) c: the byte whose value agrees with c modulo 256. */
  function ToByte(c: char): (b: JByte)
    ensures (b - c as int) % 256 == 0
  {
    (c as int + 128) % 256 - 128
  }

  /** The cast (char) b: sign extension, then the low 16 bits, so the value agrees with b modulo 65536. */
  function ToChar(b: JByte): (c: char)
    ensures (c as int - b) % 65536 == 0
  {
    if b >= 0 then b as char else (b + 65536) as char
  }

  predicate IsAscii(w: string)
  {
    forall i :: 0 <= i < |w| ==> w[i] as int < 128
  }

  /** On ASCII characters the byte cast keeps the value and the char cast undoes it. */
  lemma AsciiByte(c: char)
    ensures c as int < 128 ==> ToByte(c) == c as int && ToChar(ToByte(c)) == c
  {
  }

  /** A byte value is never equal to a non-ASCII character's value. */
  lemma ByteBelow128(c: char, b: JByte)
    requires b == c as int
    ensures c as int < 128
  {
  }

  /** Widening a byte to a char and casting back gives the same byte. */
  lemma ByteCharByte(b: JByte)
    ensures ToByte(ToChar(b)) == b
  {
  }

  /**
   * What a string becomes when every character is stored as a byte and read
   * back as a char. It keeps the low 8 bits of every character and leaves
   * ASCII strings unchanged.
   */
  function Truncated(w: string): (r: string)
    ensures |r| == |w|
    ensures forall i :: 0 <= i < |w| ==> ToByte(r[i]) == ToByte(w[i])
    ensures IsAscii(w) ==> r == w
  {
    if |w| == 0 then []
    else
      ByteCharByte(ToByte(w[|w| - 1]));
      AsciiByte(w[|w| - 1]);
      Truncated(w[..|w| - 1]) + [ToChar(ToByte(w[|w| - 1]))]
  }
}
