/** The converters between byte arrays and "binary strings": JavaScript
    strings holding one byte per UTF-16 code unit. */
module BinaryStrings {
  import opened LittleEndian

  /** A UTF-16 code unit, the element of a JavaScript string (`charCodeAt` range). */
  type CodeUnit = x: int | 0 <= x < 0x1_0000

  /** The binary string of a byte sequence: code unit i is byte i. */
  function BinaryString(bytes: seq<byte>): (s: seq<CodeUnit>)
    ensures |s| == |bytes|
    ensures forall i :: 0 <= i < |s| ==> s[i] < 0x100
  {
    seq(|bytes|, i requires 0 <= i < |bytes| => bytes[i] as CodeUnit)
  }

  /** The bytes a Uint8Array holds after element i is assigned code unit i:
      the assignment converts with ToUint8, keeping the value modulo 256. */
  function ByteArray(s: seq<CodeUnit>): (bytes: seq<byte>)
    ensures |bytes| == |s|
    ensures forall i :: 0 <= i < |s| && s[i] < 0x100 ==> bytes[i] == s[i]
  {
    seq(|s|, i requires 0 <= i < |s| => (s[i] % 0x100) as byte)
  }

  /** convertUint8ArrayToBinaryString: appends String.fromCharCode of each
      element to an initially empty string. */
  method ConvertUint8ArrayToBinaryString(u8Array: array<byte>) returns (bStr: seq<CodeUnit>)
    ensures bStr == BinaryString(u8Array[..])
  {
    var len := u8Array.Length;
    bStr := [];
    for i := 0 to len
      invariant |bStr| == i
      invariant forall k :: 0 <= k < i ==> bStr[k] == u8Array[k] as CodeUnit
    {
      bStr := bStr + [u8Array[i] as CodeUnit];
    }
  }

  /** convertBinaryStringToUint8Array: allocates a zeroed Uint8Array of the
      string's length and stores the code of each character into it. */
  method ConvertBinaryStringToUint8Array(bStr: seq<CodeUnit>) returns (u8Array: array<byte>)
    ensures fresh(u8Array)
    ensures u8Array[..] == ByteArray(bStr)
  {
    var len := |bStr|;
    u8Array := new byte[len](_ => 0);
    for i := 0 to len
      invariant forall k :: 0 <= k < i ==> u8Array[k] == (bStr[k] % 0x100) as byte
    {
      u8Array[i] := (bStr[i] % 0x100) as byte;
    }
  }

  /** Converting bytes to a binary string and back gives the bytes again. */
  lemma BinaryStringRoundTrip(bytes: seq<byte>)
    ensures ByteArray(BinaryString(bytes)) == bytes
  {
  }

  /** Converting a string to bytes and back gives the string again exactly
      when every code unit is below 256: other characters lose their high bits. */
  lemma ByteArrayRoundTripIff(s: seq<CodeUnit>)
    ensures BinaryString(ByteArray(s)) == s <==> forall i :: 0 <= i < |s| ==> s[i] < 0x100
  {
  }
}
