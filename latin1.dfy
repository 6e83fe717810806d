/**
 * Byte decoding of a session file (`latin1_to_string`, src/main.rs:132-134):
 * every byte becomes the character whose code point is that byte.
 */
module Latin1 {

  /** One byte of the session file. */
  type byte = b: int | 0 <= b < 256

  /** A text every character of which came from a single byte. */
  predicate IsLatin1(t: string) {
    forall i :: 0 <= i < |t| ==> t[i] as int < 256
  }

  /** Decodes bytes to text, one character per byte. */
  function Decode(bytes: seq<byte>): (t: string)
    ensures |t| == |bytes|
    ensures IsLatin1(t)
  {
    seq(|bytes|, i requires 0 <= i < |bytes| => bytes[i] as char)
  }

  /** The inverse of Decode: reads back each character's code point. */
  function Encode(t: string): (bytes: seq<byte>)
    requires IsLatin1(t)
    ensures |bytes| == |t|
  {
    seq(|t|, i requires 0 <= i < |t| => t[i] as int as byte)
  }

  /** Character i of the decoded text has the code point of byte i. */
  lemma DecodeAt(bytes: seq<byte>, i: nat)
    requires i < |bytes|
    ensures Decode(bytes)[i] as int == bytes[i]
  {
  }

  /** Decoding is lossless: reading the code points back gives the bytes. */
  lemma EncodeDecode(bytes: seq<byte>)
    ensures Encode(Decode(bytes)) == bytes
  {
    var t := Decode(bytes);
    forall i | 0 <= i < |bytes| ensures Encode(t)[i] == bytes[i] {
      DecodeAt(bytes, i);
    }
  }

  /** Every byte-valued text is the decoding of exactly one byte string. */
  lemma DecodeEncode(t: string)
    requires IsLatin1(t)
    ensures Decode(Encode(t)) == t
  {
  }

  /** Two byte strings decode to the same text only if they are equal. */
  lemma DecodeInjective(a: seq<byte>, b: seq<byte>)
    requires Decode(a) == Decode(b)
    ensures a == b
  {
    EncodeDecode(a);
    EncodeDecode(b);
  }
}
