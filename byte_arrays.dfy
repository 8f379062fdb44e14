/** The byte-array helpers of Extensions.cs: the default-filled sub-array copy,
    the packing of a password into big-endian 32-bit words, and the payload
    slice of an MPI number. */
module ByteArrays {
  import opened Common

  // ---------------------------------------------------------------------------
  // CopySubArray (Extensions.cs lines 72-84)
  // ---------------------------------------------------------------------------

  /** Element k of a successful copy: the source element at offset + k when the
      source is long enough, the element type's default value otherwise. */
  function CopiedAt<T>(source: seq<T>, offset: int, k: int, zero: T): T
  {
    if 0 <= offset + k < |source| then source[offset + k] else zero
  }

  /** `CopySubArray(source, length, offset)`. C#'s `default(T)` is the parameter
      `zero`. A negative length makes `new T[length]` throw; a negative offset,
      or an offset whose sum with the last position wraps past `int.MaxValue`,
      reaches a read at a negative index. */
  method CopySubArray<T>(source: array<T>, length: int, offset: int, zero: T) returns (r: Result<seq<T>>)
    requires IsInt32(length) && IsInt32(offset)
    ensures length < 0 ==> r == Failure(Overflow)
    ensures (length > 0 && (offset < 0 || offset + length - 1 > INT32_MAX))
      ==> r == Failure(IndexOutOfRange)
    ensures (length >= 0 && !(length > 0 && (offset < 0 || offset + length - 1 > INT32_MAX)))
      ==> r.Success? && |r.value| == length
          && forall k :: 0 <= k < length ==> r.value[k] == CopiedAt(source[..], offset, k, zero)
  {
    if length < 0 {
      return Failure(Overflow);
    }
    var result := new T[length](_ => zero);
    var n := length;
    while n > 0
      invariant 0 <= n <= length
      invariant forall k :: n <= k < length ==> result[k] == CopiedAt(source[..], offset, k, zero)
      invariant forall k :: 0 <= k < n ==> result[k] == zero
      invariant (length > 0 && offset < 0) ==> n > 0
      invariant offset + length - 1 > INT32_MAX ==> n == length
    {
      n := n - 1;
      var at := ToInt32(offset + n);
      if source.Length > at {
        if at < 0 {
          return Failure(IndexOutOfRange);
        }
        result[n] := source[at];
      }
    }
    return Success(result[..]);
  }

  // ---------------------------------------------------------------------------
  // ToBytesPassword (Extensions.cs lines 50-70)
  // ---------------------------------------------------------------------------

  /** A C# `char`: one UTF-16 code unit. */
  type CodeUnit = bv16

  /** The contribution of character i to its word: `(uint)(data[i] << (24 - (i & 3) * 8))`;
      the shift is done in 32 bits, so bits pushed past bit 31 are lost. */
  function Shifted(c: CodeUnit, i: nat): bv32
  {
    var x := c as bv32;
    if i % 4 == 0 then x << 24 else if i % 4 == 1 then x << 16 else if i % 4 == 2 then x << 8 else x
  }

  /** The contribution of slot `slot` of word j (position 4j + slot) once the
      loop has handled the positions below `upto`. */
  function Contribution(s: seq<CodeUnit>, j: nat, slot: nat, upto: nat): bv32
  {
    var k := 4 * j + slot;
    if k < upto && k < |s| then Shifted(s[k], slot) else 0
  }

  /** Word j after the loop has handled the positions below `upto`. */
  function PartialWord(s: seq<CodeUnit>, j: nat, upto: nat): bv32
  {
    Or4(Contribution(s, j, 0, upto), Contribution(s, j, 1, upto),
        Contribution(s, j, 2, upto), Contribution(s, j, 3, upto))
  }

  function Or4(a: bv32, b: bv32, c: bv32, d: bv32): bv32
  {
    a | b | c | d
  }

  /** Word j of the packed password: the four characters 4j..4j+3, the first
      in the top byte, OR-ed together. */
  function PackedWord(s: seq<CodeUnit>, j: nat): bv32
  {
    PartialWord(s, j, |s|)
  }

  /** The number of 32-bit words: `(data.Length + 3) >> 2`. */
  function WordCount(n: nat): nat
  {
    (n + 3) / 4
  }

  /** The bytes of a word, most significant first: `BitConverter.GetBytes`
      followed by `Array.Reverse` on a little-endian machine. The bytes of this
      part of the model are `bv8` values, since they come out of bit operations. */
  function WordBytes(w: bv32): (r: seq<bv8>)
    ensures |r| == 4
  {
    [(w >> 24) as bv8, ((w >> 16) & 0xFF) as bv8, ((w >> 8) & 0xFF) as bv8, (w & 0xFF) as bv8]
  }

  /** The `SelectMany` flattening of the word array. */
  function Flatten(words: seq<bv32>): (r: seq<bv8>)
    ensures |r| == 4 * |words|
  {
    if words == [] then [] else WordBytes(words[0]) + Flatten(words[1..])
  }

  /** The packed word array. */
  function PackedWords(s: seq<CodeUnit>): (r: seq<bv32>)
    ensures |r| == WordCount(|s|)
  {
    seq(WordCount(|s|), j requires 0 <= j < WordCount(|s|) => PackedWord(s, j))
  }

  /** The password bytes: every word of the packed array, in order. */
  function PasswordBytes(s: seq<CodeUnit>): seq<bv8>
  {
    Flatten(PackedWords(s))
  }

  /** `ToBytesPassword`: the loop OR-s each character into its word of a
      `uint[]`, then the words are flattened to big-endian bytes. */
  method ToBytesPassword(s: seq<CodeUnit>) returns (bytes: seq<bv8>)
    ensures bytes == PasswordBytes(s)
    ensures |bytes| == 4 * WordCount(|s|)
  {
    var words := new bv32[WordCount(|s|)](_ => 0);
    NothingHandled(s, words[..]);
    for i := 0 to |s|
      invariant forall j :: 0 <= j < words.Length ==> words[..][j] == PartialWord(s, j, i)
    {
      ghost var before := words[..];
      var w := i / 4;
      words[w] := words[w] | Shifted(s[i], i);
      HandleStep(s, i, before, words[..]);
    }
    WordsArePacked(s, words[..]);
    bytes := Flatten(words[..]);
  }

  /** Once every position is handled, the words are the packed words. */
  lemma WordsArePacked(s: seq<CodeUnit>, ws: seq<bv32>)
    requires |ws| == WordCount(|s|)
    requires forall j :: 0 <= j < |ws| ==> ws[j] == PartialWord(s, j, |s|)
    ensures ws == PackedWords(s)
  {
  }

  /** One turn of the packing loop: OR-ing character i into word i / 4 takes
      every word from "positions below i handled" to "positions below i + 1". */
  lemma HandleStep(s: seq<CodeUnit>, i: nat, before: seq<bv32>, after: seq<bv32>)
    requires i < |s| && |before| == WordCount(|s|) && i / 4 < |before|
    requires forall j :: 0 <= j < |before| ==> before[j] == PartialWord(s, j, i)
    requires after == before[i / 4 := before[i / 4] | Shifted(s[i], i)]
    ensures forall j :: 0 <= j < |after| ==> after[j] == PartialWord(s, j, i + 1)
  {
    var w, slot := i / 4, i % 4;
    assert i == 4 * w + slot;
    ShiftedSlot(s[i], i);
    forall j | 0 <= j < |after|
      ensures after[j] == PartialWord(s, j, i + 1)
    {
      if j == w {
        PartialWordSame(s, j, slot);
      } else {
        PartialWordOther(s, j, i);
      }
    }
  }

  /** Before the loop every word is empty, as is every partial word. */
  lemma NothingHandled(s: seq<CodeUnit>, ws: seq<bv32>)
    requires forall j :: 0 <= j < |ws| ==> ws[j] == 0
    ensures forall j :: 0 <= j < |ws| ==> ws[j] == PartialWord(s, j, 0)
  {
  }

  /** The shift depends on the position only through its slot in the word. */
  lemma ShiftedSlot(c: CodeUnit, i: nat)
    ensures Shifted(c, i) == Shifted(c, i % 4)
  {
  }

  /** Handling position 4j + slot OR-s that character into word j. */
  lemma PartialWordSame(s: seq<CodeUnit>, j: nat, slot: nat)
    requires slot < 4 && 4 * j + slot < |s|
    ensures PartialWord(s, j, 4 * j + slot + 1)
         == PartialWord(s, j, 4 * j + slot) | Shifted(s[4 * j + slot], slot)
  {
    var i := 4 * j + slot;
    var x := Shifted(s[i], slot);
    var a0, a1, a2, a3 := Contribution(s, j, 0, i), Contribution(s, j, 1, i),
                          Contribution(s, j, 2, i), Contribution(s, j, 3, i);
    if slot == 0 {
      assert PartialWord(s, j, i + 1) == Or4(x, a1, a2, a3);
      OrFirst(a1 | a2 | a3, x);
    } else if slot == 1 {
      assert PartialWord(s, j, i + 1) == Or4(a0, x, a2, a3);
      OrSecond(a0, a2 | a3, x);
    } else if slot == 2 {
      assert PartialWord(s, j, i + 1) == Or4(a0, a1, x, a3);
      OrThird(a0 | a1, a3, x);
    } else {
      assert PartialWord(s, j, i + 1) == Or4(a0, a1, a2, x);
    }
  }

  /** Handling a position of another word leaves word j as it was. */
  lemma PartialWordOther(s: seq<CodeUnit>, j: nat, i: nat)
    requires i < |s| && j != i / 4
    ensures PartialWord(s, j, i + 1) == PartialWord(s, j, i)
  {
  }

  lemma OrFirst(rest: bv32, x: bv32)
    ensures x | rest == (0 | rest) | x
  {
  }

  lemma OrSecond(a: bv32, rest: bv32, x: bv32)
    ensures a | x | rest == (a | 0 | rest) | x
  {
  }

  lemma OrThird(front: bv32, a: bv32, x: bv32)
    ensures front | x | a == (front | 0 | a) | x
  {
  }

  /** Byte 4j + k of the flattening is byte k of word j. */
  lemma {:induction false} FlattenAt(words: seq<bv32>, j: nat, k: nat)
    requires j < |words| && k < 4
    ensures Flatten(words)[4 * j + k] == WordBytes(words[j])[k]
  {
    if j > 0 {
      FlattenAt(words[1..], j - 1, k);
    }
  }

  /** The bits of `c` that land in byte slot `slot` of its word. */
  function LowBits(c: CodeUnit): bv8 { (c & 0xFF) as bv8 }
  function HighBits(c: CodeUnit): bv8 { (c >> 8) as bv8 }

  /** The word built from four code units, the first in the top byte. */
  function Word4(c0: CodeUnit, c1: CodeUnit, c2: CodeUnit, c3: CodeUnit): bv32
  {
    Or4(Shifted(c0, 0), Shifted(c1, 1), Shifted(c2, 2), Shifted(c3, 3))
  }

  /** What one word's bytes are, in terms of its four characters: each byte
      holds the low 8 bits of its own character OR-ed with the high 8 bits of
      the next character of the word; the high bits of the first are lost. */
  lemma WordBytesOfFour(c0: CodeUnit, c1: CodeUnit, c2: CodeUnit, c3: CodeUnit)
    ensures WordBytes(Word4(c0, c1, c2, c3))[0] == LowBits(c0) | HighBits(c1)
    ensures WordBytes(Word4(c0, c1, c2, c3))[1] == LowBits(c1) | HighBits(c2)
    ensures WordBytes(Word4(c0, c1, c2, c3))[2] == LowBits(c2) | HighBits(c3)
    ensures WordBytes(Word4(c0, c1, c2, c3))[3] == LowBits(c3)
  {
  }

  /** The code unit at position k, or 0 past the end. */
  function UnitAt(s: seq<CodeUnit>, k: nat): CodeUnit
  {
    if k < |s| then s[k] else 0
  }

  /** Every byte of `ToBytesPassword`'s result, for arbitrary characters: byte
      k of word j is the low half of character 4j + k OR-ed with the high half
      of character 4j + k + 1 when both share the word; positions past the
      string read as 0. */
  lemma PasswordByteAt(s: seq<CodeUnit>, j: nat, k: nat)
    requires j < WordCount(|s|) && k < 4
    ensures |PasswordBytes(s)| == 4 * WordCount(|s|)
    ensures PasswordBytes(s)[4 * j + k]
         == if k == 3 then LowBits(UnitAt(s, 4 * j + 3))
            else LowBits(UnitAt(s, 4 * j + k)) | HighBits(UnitAt(s, 4 * j + k + 1))
  {
    var c0, c1, c2, c3 := UnitAt(s, 4 * j), UnitAt(s, 4 * j + 1), UnitAt(s, 4 * j + 2), UnitAt(s, 4 * j + 3);
    var w := Word4(c0, c1, c2, c3);
    assert PasswordBytes(s)[4 * j + k] == WordBytes(w)[k] by {
      PasswordByteInWord(s, j, k);
    }
    var here, next := UnitAt(s, 4 * j + k), UnitAt(s, 4 * j + k + 1);
    if k == 0 {
      assert WordBytes(w)[0] == LowBits(c0) | HighBits(c1) by { WordBytesOfFour(c0, c1, c2, c3); }
      assert here == c0 && next == c1;
    } else if k == 1 {
      assert WordBytes(w)[1] == LowBits(c1) | HighBits(c2) by { WordBytesOfFour(c0, c1, c2, c3); }
      assert here == c1 && next == c2;
    } else if k == 2 {
      assert WordBytes(w)[2] == LowBits(c2) | HighBits(c3) by { WordBytesOfFour(c0, c1, c2, c3); }
      assert here == c2 && next == c3;
    } else {
      assert WordBytes(w)[3] == LowBits(c3) by { WordBytesOfFour(c0, c1, c2, c3); }
      assert here == c3;
    }
  }

  /** Byte 4j + k of the password is byte k of packed word j. */
  lemma PasswordByteInWord(s: seq<CodeUnit>, j: nat, k: nat)
    requires j < WordCount(|s|) && k < 4
    ensures PasswordBytes(s)[4 * j + k]
         == WordBytes(Word4(UnitAt(s, 4 * j), UnitAt(s, 4 * j + 1), UnitAt(s, 4 * j + 2), UnitAt(s, 4 * j + 3)))[k]
  {
    FlattenAt(PackedWords(s), j, k);
    PackedWordOfUnits(s, j);
  }

  /** A finished word, in terms of the four code units of its positions. */
  lemma PackedWordOfUnits(s: seq<CodeUnit>, j: nat)
    ensures PackedWord(s, j) == Word4(UnitAt(s, 4 * j), UnitAt(s, 4 * j + 1), UnitAt(s, 4 * j + 2), UnitAt(s, 4 * j + 3))
  {
    ContributionAt(s, j, 0);
    ContributionAt(s, j, 1);
    ContributionAt(s, j, 2);
    ContributionAt(s, j, 3);
  }

  /** The finished contribution of the position in slot `slot` of word j. */
  lemma ContributionAt(s: seq<CodeUnit>, j: nat, slot: nat)
    requires slot < 4
    ensures Contribution(s, j, slot, |s|) == Shifted(UnitAt(s, 4 * j + slot), slot)
  {
    if 4 * j + slot >= |s| {
      ShiftedZero(slot);
    }
  }

  lemma ShiftedZero(i: nat)
    ensures Shifted(0, i) == 0
  {
  }

  /** For a password of 8-bit characters, `ToBytesPassword` is the characters
      themselves, zero-padded to a whole number of 32-bit words. */
  lemma PasswordBytesOfNarrowChars(s: seq<CodeUnit>)
    requires forall i :: 0 <= i < |s| ==> s[i] < 256
    ensures |PasswordBytes(s)| == 4 * WordCount(|s|)
    ensures forall i :: 0 <= i < |s| ==> PasswordBytes(s)[i] == s[i] as bv8
    ensures forall i :: |s| <= i < 4 * WordCount(|s|) ==> PasswordBytes(s)[i] == 0
  {
    forall i | 0 <= i < 4 * WordCount(|s|)
      ensures PasswordBytes(s)[i] == if i < |s| then s[i] as bv8 else 0
    {
      var j, k := i / 4, i % 4;
      PasswordByteAt(s, j, k);
      assert 4 * j + k == i;
      NarrowUnit(UnitAt(s, i), UnitAt(s, i + 1));
    }
  }

  lemma NarrowUnit(c: CodeUnit, d: CodeUnit)
    requires c < 256 && d < 256
    ensures LowBits(c) == c as bv8
    ensures LowBits(c) | HighBits(d) == c as bv8
  {
  }

  // ---------------------------------------------------------------------------
  // FromMPINumber, the payload slice (Extensions.cs lines 86-92)
  // ---------------------------------------------------------------------------

  /** The payload length of an MPI number whose two header bytes give the bit
      length: `(data[0] * 256 + data[1] + 7) / 8`. */
  function MpiByteLength(hi: byte, lo: byte): nat
  {
    (hi * 256 + lo + 7) / 8
  }

  /** The bytes `FromMPINumber` hands to the `BigInteger` constructor. Fewer
      than two bytes fail on the header read; a payload past the end of the
      array makes `Array.Copy` throw. */
  function MpiPayload(data: seq<byte>): (r: Result<seq<byte>>)
    ensures |data| < 2 ==> r == Failure(IndexOutOfRange)
    ensures |data| >= 2 ==> (r.Success? <==> 2 + MpiByteLength(data[0], data[1]) <= |data|)
    ensures |data| >= 2 && r.Failure? ==> r.error == ArgumentError
    ensures r.Success? ==> var bits := data[0] as int * 256 + data[1] as int;
      8 * |r.value| - 8 < bits <= 8 * |r.value| && data[2..] [..|r.value|] == r.value
  {
    if |data| < 2 then Failure(IndexOutOfRange)
    else
      var n := MpiByteLength(data[0], data[1]);
      if 2 + n > |data| then Failure(ArgumentError) else Success(data[2..2 + n])
  }

  /** An MPI number: a 16-bit big-endian bit length, then the payload. */
  function MpiEncode(bits: nat, payload: seq<byte>): seq<byte>
    requires bits < 0x1_0000
  {
    [bits / 256, bits % 256] + payload
  }

  /** A well-formed MPI number, followed by anything, yields its payload back. */
  lemma MpiPayloadOfEncoded(bits: nat, payload: seq<byte>, rest: seq<byte>)
    requires bits < 0x1_0000 && |payload| == (bits + 7) / 8
    ensures MpiPayload(MpiEncode(bits, payload) + rest) == Success(payload)
  {
  }
}
