/** The length-prefixed little-endian encoding of a `long` used by
    `SerializeToBytes` and read back by `DeserializeToLong`: one count byte p,
    then the p significant bytes of the value, least significant first. */
module IntegerCodec {
  import opened Common

  /** 256 to the power n. */
  function Pow256(n: nat): (r: nat)
    ensures r >= 1
  {
    if n == 0 then 1 else 256 * Pow256(n - 1)
  }

  /** The unsigned value of a little-endian byte string (the reference reading). */
  function LittleEndian(s: seq<byte>): nat
  {
    if s == [] then 0 else s[0] + 256 * LittleEndian(s[1..])
  }

  lemma {:induction false} LittleEndianBound(s: seq<byte>)
    ensures LittleEndian(s) < Pow256(|s|)
  {
    if s != [] {
      LittleEndianBound(s[1..]);
    }
  }

  /** Appending a most significant byte adds it at weight 256^|s|. */
  lemma {:induction false} LittleEndianAppend(s: seq<byte>, b: byte)
    ensures LittleEndian(s + [b]) == LittleEndian(s) + Pow256(|s|) * b
  {
    if s == [] {
      assert [b][1..] == [];
    } else {
      assert (s + [b])[1..] == s[1..] + [b];
      LittleEndianAppend(s[1..], b);
    }
  }

  lemma Pow256Eight()
    ensures Pow256(8) == TWO_TO_64
  {
  }

  lemma Pow256Monotone(m: nat, n: nat)
    requires m <= n
    ensures Pow256(m) <= Pow256(n)
    decreases n - m
  {
  }

  /** The shape `SerializeToBytes` produces: a count byte p <= 8 followed by
      exactly p bytes, the last of which is not zero. */
  predicate IsSerialized(b: seq<byte>)
  {
    |b| >= 1 && b[0] <= 8 && |b| == b[0] + 1 && (b[0] > 0 ==> b[b[0]] != 0)
  }

  /** One step of the encoding loop keeps `data == LE(written) + 256^p * x`. */
  lemma EncodeStep(written: seq<byte>, x: int)
    requires x >= 0
    ensures LittleEndian(written + [x % 256]) + Pow256(|written| + 1) * (x / 256)
         == LittleEndian(written) + Pow256(|written|) * x
  {
    LittleEndianAppend(written, x % 256);
    SplitLowByte(Pow256(|written|), x);
  }

  lemma SplitLowByte(w: int, x: int)
    requires x >= 0
    ensures w * (x % 256) + (256 * w) * (x / 256) == w * x
  {
  }

  /** `SerializeToBytes` (Extensions.cs lines 127-142). A negative value never
      shifts down to zero, so the ninth `++p` indexes past the nine-byte buffer. */
  method SerializeToBytes(data: int) returns (r: Result<seq<byte>>)
    requires IsInt64(data)
    ensures data < 0 <==> r.Failure?
    ensures data < 0 ==> r.error == IndexOutOfRange
    ensures data >= 0 ==> IsSerialized(r.value) && LittleEndian(r.value[1..]) == data
    ensures data == 0 ==> r == Success([0])
  {
    var result := new byte[9](_ => 0);
    var p := 0;
    var x := data;
    ghost var written: seq<byte> := [];
    while x != 0
      invariant 0 <= p <= 8
      invariant written == result[1..p + 1]
      invariant data < 0 ==> x < 0
      invariant data >= 0 ==> x >= 0 && data == LittleEndian(written) + Pow256(p) * x
      invariant p > 0 && x == 0 ==> result[p] != 0
      invariant data == 0 ==> p == 0
      decreases 9 - p
    {
      if p == 8 {
        if data >= 0 {
          Pow256Eight();
          assert false;
        }
        return Failure(IndexOutOfRange);
      }
      if data >= 0 {
        EncodeStep(written, x);
      }
      p := p + 1;
      result[p] := x % 256;
      written := written + [x % 256];
      x := x / 256;
    }
    result[0] := p;
    assert result[1..p + 1] == written;
    r := Success(result[..p + 1]);
    assert r.value[1..] == written;
    assert data == 0 ==> r.value == [0];
  }

  /** `(acc << 8) + b` in C# `long` arithmetic equals one wrap of the exact value
      while the accumulator still fits in seven bytes. */
  lemma ShiftAddWraps(v: int, b: byte)
    requires 0 <= v < 0x100_0000_0000_0000
    ensures ToInt64(ToInt64(v * 256) + b) == ToInt64(v * 256 + b)
  {
  }

  /** One step of the decoding loop: shifting the value of the bytes above
      position lo up by a byte and adding byte lo, in `long` arithmetic, gives
      the value of the bytes from lo. At most eight bytes are involved. */
  lemma DecodeStep(d: seq<byte>, lo: nat, hi: nat, acc: int)
    requires lo < hi <= |d| && hi - lo <= 8
    requires acc == ToInt64(LittleEndian(d[lo + 1..hi]))
    ensures ToInt64(ToInt64(acc * 256) + d[lo]) == ToInt64(LittleEndian(d[lo..hi]))
  {
    var done := d[lo + 1..hi];
    var v := LittleEndian(done);
    assert LittleEndian(d[lo..hi]) == v * 256 + d[lo] by {
      assert d[lo..hi][1..] == done;
    }
    assert v < 0x100_0000_0000_0000 by {
      LittleEndianBound(done);
      Pow256Monotone(|done|, 7);
      assert Pow256(7) == 0x100_0000_0000_0000 by {
        assert Pow256(4) == 0x1_0000_0000;
      }
    }
    assert acc == v;
    ShiftAddWraps(v, d[lo]);
  }

  /** `DeserializeToLong` (Extensions.cs lines 107-125): every way the call can
      end, including the `ArgumentException` and the out-of-range reads. */
  method DeserializeToLong(data: array<byte>, index: int, length: int) returns (r: Result<int>)
    requires IsInt32(index) && IsInt32(length)
    ensures !(0 <= index < data.Length) ==> r == Failure(IndexOutOfRange)
    ensures (0 <= index < data.Length && (data[index] > 8 || data[index] >= length))
      ==> r == Failure(ArgumentError)
    ensures (0 <= index < data.Length && data[index] <= 8 && data[index] < length
             && index + data[index] >= data.Length)
      ==> r == Failure(IndexOutOfRange)
    ensures (0 <= index < data.Length && data[index] <= 8 && data[index] < length
             && index + data[index] < data.Length)
      ==> r == Success(ToInt64(LittleEndian(data[index + 1..index + data[index] + 1])))
  {
    if !(0 <= index < data.Length) {
      return Failure(IndexOutOfRange);
    }
    var p := data[index];
    var result := 0;
    if p > 8 || p >= length {
      return Failure(ArgumentError);
    }
    ghost var top := p;
    while p > 0
      invariant 0 <= p <= top
      invariant p == top ==> result == 0
      invariant p < top ==> index + top < data.Length
      invariant p < top ==> result == ToInt64(LittleEndian(data[index + p + 1..index + top + 1]))
    {
      if index + p >= data.Length {
        return Failure(IndexOutOfRange);
      }
      ghost var lo, hi := index + p, index + top + 1;
      var next := ToInt64(ToInt64(result * 256) + data[index + p]);
      assert next == ToInt64(LittleEndian(data[lo..hi])) by {
        assert data[..][lo + 1..hi] == data[lo + 1..hi] && data[..][lo..hi] == data[lo..hi];
        assert data[..][lo] == data[index + p];
        DecodeStep(data[..], lo, hi, result);
      }
      result := next;
      p := p - 1;
    }
    r := Success(result);
  }

  /** Reading back what `SerializeToBytes` wrote gives the original value:
      the two routines are inverse on the non-negative `long`s. */
  method SerializeRoundTrip(x: int) returns (v: Result<int>)
    requires 0 <= x <= INT64_MAX
    ensures v == Success(x)
  {
    var encoded := SerializeToBytes(x);
    var bytes := encoded.value;
    var a := new byte[|bytes|](i requires 0 <= i < |bytes| => bytes[i]);
    assert a[..] == bytes;
    assert a[1..a[0] + 1] == bytes[1..];
    v := DeserializeToLong(a, 0, a.Length);
  }
}
