/** Unsigned little-endian integers as a `DataView` reads them with
    `littleEndian = true`, and the matching encoder. */
module LittleEndian {

  /** An unsigned 8-bit value: a `DataView.getUint8` result or a `Uint8Array` element. */
  type byte = x: int | 0 <= x < 256

  /** 256 to the power k: one more than the largest k-byte unsigned value. */
  function Pow256(k: nat): (r: nat)
    ensures r >= 1
  {
    if k == 0 then 1 else 256 * Pow256(k - 1)
  }

  /** The unsigned value of bs read least significant byte first. */
  function LeUint(bs: seq<byte>): (r: nat)
    ensures r < Pow256(|bs|)
  {
    if bs == [] then 0
    else
      var rest := LeUint(bs[1..]);
      assert rest + 1 <= Pow256(|bs| - 1);
      bs[0] + 256 * rest
  }

  /** The k-byte little-endian encoding of n (the bytes a writer would store). */
  function LeBytes(n: nat, k: nat): (bs: seq<byte>)
    ensures |bs| == k
  {
    if k == 0 then [] else [n % 256] + LeBytes(n / 256, k - 1)
  }

  /** Reading back what LeBytes wrote gives the value again, when it fits in k bytes. */
  lemma {:induction false} LeUintOfLeBytes(n: nat, k: nat)
    requires n < Pow256(k)
    ensures LeUint(LeBytes(n, k)) == n
  {
    if k > 0 {
      assert n / 256 < Pow256(k - 1);
      LeUintOfLeBytes(n / 256, k - 1);
      assert LeBytes(n, k)[1..] == LeBytes(n / 256, k - 1);
    }
  }

  /** `DataView.getUint16(pos, true)`: byte pos is the low byte. The caller
      checks the bounds a `RangeError` would report. */
  function GetUint16(data: seq<byte>, pos: nat): (r: nat)
    requires pos + 2 <= |data|
    ensures r < 0x1_0000
  {
    data[pos] as int + 0x100 * data[pos + 1] as int
  }

  /** `DataView.getUint32(pos, true)`: byte pos is the lowest byte. The caller
      checks the bounds a `RangeError` would report. */
  function GetUint32(data: seq<byte>, pos: nat): (r: nat)
    requires pos + 4 <= |data|
    ensures r < 0x1_0000_0000
  {
    data[pos] as int + 0x100 * data[pos + 1] as int + 0x1_0000 * data[pos + 2] as int + 0x100_0000 * data[pos + 3] as int
  }

  /** The two DataView reads agree with the general little-endian value of
      the bytes they cover. */
  lemma GetUintIsLeUint(data: seq<byte>, pos: nat)
    ensures pos + 2 <= |data| ==> GetUint16(data, pos) == LeUint(data[pos..pos + 2])
    ensures pos + 4 <= |data| ==> GetUint32(data, pos) == LeUint(data[pos..pos + 4])
  {
    if pos + 2 <= |data| {
      var bs := data[pos..pos + 2];
      assert bs[1..][1..] == [];
    }
    if pos + 4 <= |data| {
      var bs := data[pos..pos + 4];
      assert bs[1..][1..][1..][1..] == [];
      assert LeUint(bs[1..][1..][1..]) == bs[3] as int;
      assert LeUint(bs[1..][1..]) == bs[2] as int + 0x100 * bs[3] as int;
    }
  }
}
