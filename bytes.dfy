/**
  Z_4BYTESPLITE and Z_4BYTECOMBINE of z_btnmgr.h: a 32-bit value written into,
  and read back from, four bytes in little-endian order.
*/
module ByteOrder {

  /** What Z_4BYTESPLITE(data, v) writes into data[0..4]. */
  function LittleEndian(v: bv32): (r: seq<bv8>)
    ensures |r| == 4
  {
    [(v & 0xFF) as bv8, ((v >> 8) & 0xFF) as bv8, ((v >> 16) & 0xFF) as bv8, ((v >> 24) & 0xFF) as bv8]
  }

  /** Z_4BYTECOMBINE(v, d): the four bytes d[0..4] as one value, d[0] least significant. */
  function Combine4(d: seq<bv8>): (v: bv32)
    requires |d| >= 4
    ensures v as int == d[0] as int + 256 * d[1] as int + 65536 * d[2] as int + 16777216 * d[3] as int
  {
    var v := ((d[0] as bv32 << 0) & 0xFF) | ((d[1] as bv32 << 8) & 0xFF00)
          | ((d[2] as bv32 << 16) & 0xFF0000) | ((d[3] as bv32 << 24) & 0xFF000000);
    CombineValue(d[0] as bv32, d[1] as bv32, d[2] as bv32, d[3] as bv32);
    v
  }

  lemma CombineValue(b0: bv32, b1: bv32, b2: bv32, b3: bv32)
    requires b0 < 256 && b1 < 256 && b2 < 256 && b3 < 256
    ensures var v := ((b0 << 0) & 0xFF) | ((b1 << 8) & 0xFF00) | ((b2 << 16) & 0xFF0000) | ((b3 << 24) & 0xFF000000);
      v == b0 + 256 * b1 + 65536 * b2 + 16777216 * b3
  {
  }

  /** Split then combine gives back the value. */
  lemma CombineSplit(v: bv32)
    ensures Combine4(LittleEndian(v)) == v
  {
    var r := LittleEndian(v);
    CombineValue(r[0] as bv32, r[1] as bv32, r[2] as bv32, r[3] as bv32);
    assert r[0] as bv32 == v & 0xFF && r[1] as bv32 == (v >> 8) & 0xFF;
    assert r[2] as bv32 == (v >> 16) & 0xFF && r[3] as bv32 == (v >> 24) & 0xFF;
  }

  /**
    The bytes Z_4BYTESPLITE writes are v's base-256 digits, least significant
    first.
  */
  lemma SplitValue(v: bv32)
    ensures var r := LittleEndian(v);
      v as int == r[0] as int + 256 * r[1] as int + 65536 * r[2] as int + 16777216 * r[3] as int
  {
    CombineSplit(v);
  }

  /** The byte fields of a combined value are the bytes it was combined from. */
  lemma CombinedBytes(b0: bv32, b1: bv32, b2: bv32, b3: bv32)
    requires b0 < 256 && b1 < 256 && b2 < 256 && b3 < 256
    ensures var v := ((b0 << 0) & 0xFF) | ((b1 << 8) & 0xFF00) | ((b2 << 16) & 0xFF0000) | ((b3 << 24) & 0xFF000000);
      && v & 0xFF == b0 && (v >> 8) & 0xFF == b1 && (v >> 16) & 0xFF == b2 && (v >> 24) & 0xFF == b3
  {
  }

  /** Combine then split gives back the four bytes. */
  lemma SplitCombine(d: seq<bv8>)
    requires |d| >= 4
    ensures LittleEndian(Combine4(d)) == d[..4]
  {
    CombinedBytes(d[0] as bv32, d[1] as bv32, d[2] as bv32, d[3] as bv32);
  }

  /** Z_4BYTESPLITE(data, v): the first four bytes of data become v, little-endian. */
  method Split4(data: array<bv8>, v: bv32)
    requires data.Length >= 4
    modifies data
    ensures data[..4] == LittleEndian(v)
    ensures data[4..] == old(data[4..])
  {
    data[0] := ((v >> 0) & 0xFF) as bv8;
    data[1] := ((v >> 8) & 0xFF) as bv8;
    data[2] := ((v >> 16) & 0xFF) as bv8;
    data[3] := ((v >> 24) & 0xFF) as bv8;
  }
}
