/**
 * The buffer builders of the driver: little-endian 16-bit and plain 8-bit
 * writers over a freshly allocated zero-filled buffer, and the additive
 * 16-bit checksum. Node's writeUInt16LE and writeUInt8 throw on values out
 * of range; here those ranges are the element types.
 */
module ByteBuffers {

  type byte = x: int | 0 <= x < 256
  type uint16 = x: int | 0 <= x < 65536

  /** The value of a little-endian pair of bytes. */
  function Value16(lo: byte, hi: byte): uint16
  {
    lo + 256 * hi
  }

  /** The bytes UInt16LE(v1, ..., vn) produces: each value low byte first. */
  function LE16(values: seq<uint16>): (r: seq<byte>)
    ensures |r| == 2 * |values|
    ensures forall i :: 0 <= i < |values| ==> r[2 * i] == values[i] % 256 && r[2 * i + 1] == values[i] / 256
  {
    if values == [] then []
    else
      var v := values[|values| - 1];
      LE16(values[..|values| - 1]) + [v % 256, v / 256]
  }

  /** Reads a buffer back as consecutive little-endian 16-bit values. */
  function DecodeLE16(bytes: seq<byte>): (values: seq<uint16>)
    requires |bytes| % 2 == 0
    ensures 2 * |values| == |bytes|
  {
    if bytes == [] then []
    else DecodeLE16(bytes[..|bytes| - 2]) + [Value16(bytes[|bytes| - 2], bytes[|bytes| - 1])]
  }

  /** Decoding what UInt16LE wrote gives back the values. */
  lemma {:induction false} DecodeLE16OfLE16(values: seq<uint16>)
    ensures DecodeLE16(LE16(values)) == values
  {
    if values != [] {
      var front := values[..|values| - 1];
      var r := LE16(values);
      assert r[..|r| - 2] == LE16(front);
      DecodeLE16OfLE16(front);
    }
  }

  /** Every even-length buffer is what UInt16LE writes for its decoding. */
  lemma {:induction false} LE16OfDecodeLE16(bytes: seq<byte>)
    requires |bytes| % 2 == 0
    ensures LE16(DecodeLE16(bytes)) == bytes
  {
    if bytes != [] {
      var front := bytes[..|bytes| - 2];
      var values := DecodeLE16(bytes);
      assert values[..|values| - 1] == DecodeLE16(front);
      Value16Split(bytes[|bytes| - 2], bytes[|bytes| - 1]);
      LE16OfDecodeLE16(front);
      assert bytes == front + [bytes[|bytes| - 2], bytes[|bytes| - 1]];
    }
  }

  lemma Value16Split(lo: byte, hi: byte)
    ensures Value16(lo, hi) % 256 == lo && Value16(lo, hi) / 256 == hi
  {
  }

  /** A single value round-trips through its two bytes. */
  lemma LE16Single(lo: byte, hi: byte)
    ensures LE16([Value16(lo, hi)]) == [lo, hi]
  {
    Value16Split(lo, hi);
    assert LE16([Value16(lo, hi)]) == LE16([]) + [lo, hi];
  }

  /** UInt16LE: allocate 2n zero bytes, then write each value at offset 2i. */
  method UInt16LE(values: seq<uint16>) returns (buffer: seq<byte>)
    ensures buffer == LE16(values)
  {
    var buf := new byte[2 * |values|](_ => 0);
    for i := 0 to |values|
      invariant buf[..2 * i] == LE16(values[..i])
    {
      buf[2 * i] := values[i] % 256;
      buf[2 * i + 1] := values[i] / 256;
      assert values[..i + 1][..i] == values[..i];
      assert buf[..2 * i + 2] == buf[..2 * i] + [buf[2 * i], buf[2 * i + 1]];
    }
    assert values[..|values|] == values;
    buffer := buf[..];
  }

  /** UInt8: allocate n zero bytes, then write value i at offset i. */
  method UInt8(values: seq<byte>) returns (buffer: seq<byte>)
    ensures buffer == values
  {
    var buf := new byte[|values|](_ => 0);
    for i := 0 to |values|
      invariant buf[..i] == values[..i]
    {
      buf[i] := values[i];
    }
    buffer := buf[..];
  }

  /** The unbounded sum of the bytes. */
  function Sum(bytes: seq<byte>): (s: nat)
    ensures s <= 255 * |bytes|
  {
    if bytes == [] then 0 else Sum(bytes[..|bytes| - 1]) + bytes[|bytes| - 1]
  }

  lemma {:induction false} SumAppend(a: seq<byte>, b: seq<byte>)
    ensures Sum(a + b) == Sum(a) + Sum(b)
  {
    if b == [] {
      assert a + b == a;
    } else {
      var front := b[..|b| - 1];
      assert (a + b)[..|a + b| - 1] == a + front;
      assert (a + b)[|a + b| - 1] == b[|b| - 1];
      SumAppend(a, front);
    }
  }

  /** Taking one byte out of a sequence takes its value out of the sum. */
  lemma SumRemove(b: seq<byte>, k: int)
    requires 0 <= k < |b|
    ensures Sum(b) == Sum(b[..k] + b[k + 1..]) + b[k]
  {
    var pre, x, post := b[..k], b[k], b[k + 1..];
    assert Sum([x]) == x by { assert [x][..0] == []; }
    calc {
      Sum(b);
      { assert b[..k + 1] == pre + [x];
        assert b == b[..k + 1] + post; }
      Sum((pre + [x]) + post);
      { SumAppend(pre + [x], post); }
      Sum(pre + [x]) + Sum(post);
      { SumAppend(pre, [x]); }
      Sum(pre) + x + Sum(post);
      { SumAppend(pre, post); }
      Sum(pre + post) + x;
    }
  }

  lemma MultisetRemove(b: seq<byte>, k: int)
    requires 0 <= k < |b|
    ensures multiset(b) == multiset(b[..k] + b[k + 1..]) + multiset{b[k]}
  {
    assert b == b[..k] + [b[k]] + b[k + 1..];
  }

  /** Taking one byte out of equal multisets leaves equal multisets. */
  lemma MultisetCancel(x: multiset<byte>, y: multiset<byte>, e: byte)
    requires x + multiset{e} == y + multiset{e}
    ensures x == y
  {
    assert x == (x + multiset{e}) - multiset{e};
    assert y == (y + multiset{e}) - multiset{e};
  }

  /** The sum depends only on which bytes occur, not on their order. */
  lemma {:induction false} SumPermutation(a: seq<byte>, b: seq<byte>)
    requires multiset(a) == multiset(b)
    ensures Sum(a) == Sum(b)
  {
    if a != [] {
      var n := |a| - 1;
      var front := a[..n];
      assert a[n] in multiset(b) by {
        assert a[n] in a;
      }
      assert a[n] in b;
      var k :| 0 <= k < |b| && b[k] == a[n];
      var rest := b[..k] + b[k + 1..];
      MultisetRemove(a, n);
      MultisetRemove(b, k);
      assert a[..n] + a[n + 1..] == front;
      MultisetCancel(multiset(front), multiset(rest), a[n]);
      SumPermutation(front, rest);
      SumRemove(a, n);
      SumRemove(b, k);
    }
  }

  /** The bytes rollingSum16LE yields: the low 16 bits of the sum, little-endian. */
  function Checksum16(payload: seq<byte>): (r: seq<byte>)
    ensures |r| == 2 && Value16(r[0], r[1]) == Sum(payload) % 65536
  {
    LE16([Sum(payload) % 65536])
  }

  /** An empty payload sums to zero. */
  lemma Checksum16Empty()
    ensures Checksum16([]) == [0, 0]
  {
    assert LE16([0]) == LE16([]) + [0, 0];
  }

  /** Reordering the payload does not change the checksum. */
  lemma Checksum16Permutation(a: seq<byte>, b: seq<byte>)
    requires multiset(a) == multiset(b)
    ensures Checksum16(a) == Checksum16(b)
  {
    SumPermutation(a, b);
  }

  /**
   * rollingSum16LE: accumulate the bytes, keep the low 16 bits and write
   * them little-endian. The source masks with `& 0xffff`; for the
   * non-negative integer sum that is the remainder modulo 65536.
   */
  method RollingSum16LE(payload: seq<byte>) returns (checksum: seq<byte>)
    ensures checksum == Checksum16(payload)
  {
    var sum: nat := 0;
    for i := 0 to |payload|
      invariant sum == Sum(payload[..i])
    {
      assert payload[..i + 1][..i] == payload[..i];
      sum := sum + payload[i];
    }
    assert payload[..|payload|] == payload;
    checksum := UInt16LE([sum % 65536]);
  }
}
