/** `ToBase64` and `FromBase64` (Extensions.cs lines 17-38): MEGA's URL-safe,
    unpadded base64. `ToBase64` takes the standard encoding of section 4 of
    RFC 4648 (`Convert.ToBase64String`) and rewrites it into the alphabet of
    section 5 with the padding dropped; `FromBase64` restores the padding and
    the standard alphabet, drops commas, and decodes. */
module Base64Url {
  import opened Common

  /** A 6-bit group value. */
  type Sextet = x: int | 0 <= x < 64

  // ---------------------------------------------------------------------------
  // Alphabets
  // ---------------------------------------------------------------------------

  /** The value of a character of the standard alphabet (Table 1 of RFC 4648),
      or -1 for any other character. */
  function StdValue(c: char): int
  {
    if 'A' <= c <= 'Z' then c as int - 'A' as int
    else if 'a' <= c <= 'z' then c as int - 'a' as int + 26
    else if '0' <= c <= '9' then c as int - '0' as int + 52
    else if c == '+' then 62
    else if c == '/' then 63
    else -1
  }

  predicate IsStdChar(c: char)
  {
    StdValue(c) >= 0
  }

  /** The character of the standard alphabet for a value. */
  function StdChar(v: Sextet): (c: char)
    ensures StdValue(c) == v
    ensures c != '=' && c != '-' && c != '_' && c != ','
  {
    if v < 26 then ('A' as int + v) as char
    else if v < 52 then ('a' as int + v - 26) as char
    else if v < 62 then ('0' as int + v - 52) as char
    else if v == 62 then '+'
    else '/'
  }

  /** The character of the URL and filename safe alphabet (Table 2 of RFC 4648). */
  function UrlChar(v: Sextet): (c: char)
    ensures c != '=' && c != '+' && c != '/' && c != ','
    ensures (c == '-') == (v == 62) && (c == '_') == (v == 63)
    ensures IsUrlChar(c)
  {
    if v == 62 then '-' else if v == 63 then '_' else StdChar(v)
  }

  predicate IsUrlChar(c: char)
  {
    c == '-' || c == '_' || (IsStdChar(c) && c != '+' && c != '/')
  }

  function StdChars(vs: seq<Sextet>): (s: string)
    ensures |s| == |vs|
  {
    seq(|vs|, i requires 0 <= i < |vs| => StdChar(vs[i]))
  }

  function UrlChars(vs: seq<Sextet>): (s: string)
    ensures |s| == |vs|
  {
    seq(|vs|, i requires 0 <= i < |vs| => UrlChar(vs[i]))
  }

  // ---------------------------------------------------------------------------
  // The 6-bit groups of a byte string
  // ---------------------------------------------------------------------------

  /** The 6-bit groups of `b`, three bytes to four groups; a final group of one
      or two bytes gives two or three groups, its missing low bits zero. */
  function Sextets(b: seq<byte>): seq<Sextet>
  {
    if |b| == 0 then []
    else if |b| == 1 then [b[0] / 4, (b[0] % 4) * 16]
    else if |b| == 2 then [b[0] / 4, (b[0] % 4) * 16 + b[1] / 16, (b[1] % 16) * 4]
    else [b[0] / 4, (b[0] % 4) * 16 + b[1] / 16, (b[1] % 16) * 4 + b[2] / 64, b[2] % 64] + Sextets(b[3..])
  }

  /** How many groups `n` bytes give: four per three bytes, and two or three
      for one or two bytes left over. */
  function SextetCount(n: nat): nat
  {
    4 * (n / 3) + (if n % 3 == 0 then 0 else n % 3 + 1)
  }

  lemma {:induction false} SextetsLength(b: seq<byte>)
    ensures |Sextets(b)| == SextetCount(|b|)
  {
    if |b| >= 3 {
      SextetsLength(b[3..]);
      assert SextetCount(|b|) == 4 + SextetCount(|b| - 3);
    }
  }

  /** The bytes of a run of 6-bit groups: four groups give three bytes, a final
      two or three give one or two; the leftover low bits are not looked at
      (a single leftover group, which the decoder never passes on, gives none). */
  function FromSextets(vs: seq<Sextet>): seq<byte>
  {
    if |vs| < 2 then []
    else
      var a, b := vs[0] as int, vs[1] as int;
      if |vs| == 2 then [a * 4 + b / 16]
      else
        var c := vs[2] as int;
        if |vs| == 3 then [a * 4 + b / 16, (b % 16) * 16 + c / 4]
        else [a * 4 + b / 16, (b % 16) * 16 + c / 4, (c % 4) * 64 + vs[3] as int] + FromSextets(vs[4..])
  }

  /** The bit arithmetic of one group: the three bytes come back from their
      four 6-bit pieces. */
  lemma GroupRoundTrip(x: byte, y: byte, z: byte)
    ensures (x / 4) * 4 + ((x % 4) * 16 + y / 16) / 16 == x
    ensures (((x % 4) * 16 + y / 16) % 16) * 16 + ((y % 16) * 4 + z / 64) / 4 == y
    ensures (((y % 16) * 4 + z / 64) % 4) * 64 + z % 64 == z
  {
  }

  /** Packing bytes into groups and back is the identity. */
  lemma {:induction false} FromSextetsOfSextets(b: seq<byte>)
    ensures FromSextets(Sextets(b)) == b
  {
    if |b| == 1 {
      GroupRoundTrip(b[0], 0, 0);
    } else if |b| == 2 {
      GroupRoundTrip(b[0], b[1], 0);
    } else if |b| >= 3 {
      var vs := Sextets(b);
      assert vs[4..] == Sextets(b[3..]);
      FromSextetsOfSextets(b[3..]);
      GroupRoundTrip(b[0], b[1], b[2]);
      assert b == [b[0], b[1], b[2]] + b[3..];
    }
  }

  // ---------------------------------------------------------------------------
  // Standard base64 (section 4 of RFC 4648): Convert.ToBase64String and
  // Convert.FromBase64String
  // ---------------------------------------------------------------------------

  /** `n` padding characters. */
  function Pad(n: nat): (s: string)
    ensures |s| == n
  {
    seq(n, _ => '=')
  }

  /** The number of '=' the standard encoding appends to `n` bytes. */
  function PadLength(n: nat): nat
  {
    (3 - n % 3) % 3
  }

  /** The standard padded encoding. */
  function EncodeStd(b: seq<byte>): string
  {
    StdChars(Sextets(b)) + Pad(PadLength(|b|))
  }

  /** How many '=' end `t` (the standard decoder accepts at most two). */
  function TrailingPad(t: string): (n: nat)
    ensures n <= 2 && n <= |t|
  {
    if |t| >= 2 && t[|t| - 1] == '=' && t[|t| - 2] == '=' then 2
    else if |t| >= 1 && t[|t| - 1] == '=' then 1
    else 0
  }

  predicate AllStd(s: string)
  {
    forall i :: 0 <= i < |s| ==> IsStdChar(s[i])
  }

  function Values(s: string): (vs: seq<Sextet>)
    requires AllStd(s)
    ensures |vs| == |s|
  {
    seq(|s|, i requires 0 <= i < |s| => StdValue(s[i]))
  }

  /** The standard decoder: a length that is a multiple of four, at most two
      '=' and only at the end, every other character from the standard
      alphabet; anything else is a `FormatException`. */
  function DecodeStd(t: string): (r: Result<seq<byte>>)
    ensures r.Failure? ==> r.error == FormatError
    ensures r.Success? ==> |t| % 4 == 0 && AllStd(t[..|t| - TrailingPad(t)])
  {
    if |t| % 4 != 0 then Failure(FormatError)
    else
      var body := t[..|t| - TrailingPad(t)];
      if !AllStd(body) then Failure(FormatError)
      else Success(FromSextets(Values(body)))
  }

  /** The standard decoder reads standard groups followed by a valid amount
      of padding back as their bytes. */
  lemma DecodeStdOfGroups(vs: seq<Sextet>, k: nat)
    requires (|vs| + k) % 4 == 0 && k <= 2 && (|vs| == 0 ==> k == 0)
    ensures DecodeStd(StdChars(vs) + Pad(k)) == Success(FromSextets(vs))
  {
    var t := StdChars(vs) + Pad(k);
    TrailingPadOfGroups(vs, k);
    var body := t[..|t| - k];
    assert body == StdChars(vs);
    assert AllStd(body) by {
      forall i | 0 <= i < |body|
        ensures IsStdChar(body[i])
      {
        assert body[i] == StdChar(vs[i]);
      }
    }
    assert Values(body) == vs;
  }

  /** The padding after standard characters is exactly the '=' appended. */
  lemma TrailingPadOfGroups(vs: seq<Sextet>, k: nat)
    requires k <= 2 && (|vs| == 0 ==> k == 0)
    ensures TrailingPad(StdChars(vs) + Pad(k)) == k
  {
  }

  /** Group counts and padding: the standard encoding of `n` bytes fills whole
      quartets, and there is padding only when there are groups. */
  lemma EncodedLength(n: nat)
    ensures (SextetCount(n) + PadLength(n)) % 4 == 0
    ensures PadLength(n) <= 2
    ensures SextetCount(n) == 0 ==> PadLength(n) == 0
  {
  }

  /** The standard decoder inverts the standard encoder. */
  lemma DecodeStdOfEncodeStd(b: seq<byte>)
    ensures DecodeStd(EncodeStd(b)) == Success(b)
  {
    var vs := Sextets(b);
    SextetsLength(b);
    EncodedLength(|b|);
    DecodeStdOfGroups(vs, PadLength(|b|));
    FromSextetsOfSextets(b);
  }

  // ---------------------------------------------------------------------------
  // StringBuilder.Replace
  // ---------------------------------------------------------------------------

  /** `Replace(from, to)` for single characters. */
  function Replace(s: string, from: char, to: char): (r: string)
    ensures |r| == |s|
    ensures forall i :: 0 <= i < |s| ==> r[i] == if s[i] == from then to else s[i]
  {
    seq(|s|, i requires 0 <= i < |s| => if s[i] == from then to else s[i])
  }

  /** `Replace(c, string.Empty)`: every occurrence of `c` removed. */
  function RemoveChar(s: string, c: char): string
  {
    if s == [] then [] else (if s[0] == c then [] else [s[0]]) + RemoveChar(s[1..], c)
  }

  /** What is left has no `c` in it, and is no longer than before. */
  lemma {:induction false} RemoveCharRemoves(s: string, c: char)
    ensures c !in RemoveChar(s, c)
    ensures |RemoveChar(s, c)| <= |s|
  {
    if s != [] {
      RemoveCharRemoves(s[1..], c);
    }
  }

  lemma {:induction false} RemoveCharAppend(x: string, y: string, c: char)
    ensures RemoveChar(x + y, c) == RemoveChar(x, c) + RemoveChar(y, c)
  {
    if x == [] {
      assert x + y == y;
    } else {
      assert (x + y)[0] == x[0];
      assert (x + y)[1..] == x[1..] + y;
      RemoveCharAppend(x[1..], y, c);
    }
  }

  lemma {:induction false} RemoveCharAbsent(x: string, c: char)
    requires c !in x
    ensures RemoveChar(x, c) == x
  {
    if x != [] {
      assert c !in x[1..];
      RemoveCharAbsent(x[1..], c);
    }
  }

  lemma {:induction false} RemoveCharAll(n: nat)
    ensures RemoveChar(Pad(n), '=') == []
  {
    if n > 0 {
      assert Pad(n)[1..] == Pad(n - 1);
      RemoveCharAll(n - 1);
    }
  }

  // ---------------------------------------------------------------------------
  // The MEGA variants
  // ---------------------------------------------------------------------------

  /** `ToBase64`: standard encoding, '+' to '-', '/' to '_', '=' removed. */
  function ToBase64(data: seq<byte>): string
  {
    RemoveChar(Replace(Replace(EncodeStd(data), '+', '-'), '/', '_'), '=')
  }

  /** The number of '=' `FromBase64` appends: `(4 - data.Length % 4) % 4`. */
  function Restored(n: nat): nat
  {
    (4 - n % 4) % 4
  }

  /** What `FromBase64` hands to the standard decoder: padding restored,
      '-' to '+', '_' to '/', commas removed. */
  function Normalized(data: string): string
  {
    var padded := data + Pad(Restored(|data|));
    RemoveChar(Replace(Replace(padded, '-', '+'), '_', '/'), ',')
  }

  /** `FromBase64`: the standard decoder applied to the normalised text. */
  function FromBase64(data: string): Result<seq<byte>>
  {
    DecodeStd(Normalized(data))
  }

  /** `ToBase64` is the unpadded encoding of section 5 of RFC 4648: the groups
      in the URL-safe alphabet, ceil(4n / 3) characters, no '+', '/' or '='. */
  lemma ToBase64IsUnpaddedUrl(b: seq<byte>)
    ensures ToBase64(b) == UrlChars(Sextets(b))
    ensures |ToBase64(b)| == (4 * |b| + 2) / 3
    ensures forall i :: 0 <= i < |ToBase64(b)| ==> IsUrlChar(ToBase64(b)[i])
  {
    var vs := Sextets(b);
    var k := PadLength(|b|);
    var mapped := Replace(Replace(EncodeStd(b), '+', '-'), '/', '_');
    assert mapped == UrlChars(vs) + Pad(k);
    RemoveCharAppend(UrlChars(vs), Pad(k), '=');
    RemoveCharAbsent(UrlChars(vs), '=');
    RemoveCharAll(k);
    assert UrlChars(vs) + [] == UrlChars(vs);
    SextetsLength(b);
    SextetCountClosed(|b|);
  }

  lemma SextetCountClosed(n: nat)
    ensures SextetCount(n) == (4 * n + 2) / 3
  {
  }

  /** Mapping '-' and '_' back turns the URL-safe groups into standard ones
      and leaves the padding alone. */
  lemma RestoreAlphabet(vs: seq<Sextet>, n: nat)
    ensures Replace(Replace(UrlChars(vs) + Pad(n), '-', '+'), '_', '/') == StdChars(vs) + Pad(n)
  {
  }

  /** What `FromBase64` does to URL-safe groups followed by padding: the
      padding it adds and the alphabet it restores give the standard text. */
  lemma NormalizedOfUrl(vs: seq<Sextet>, k: nat)
    ensures Normalized(UrlChars(vs) + Pad(k)) == StdChars(vs) + Pad(k + Restored(|vs| + k))
  {
    var s := UrlChars(vs) + Pad(k);
    var n := k + Restored(|vs| + k);
    assert s + Pad(Restored(|s|)) == UrlChars(vs) + Pad(n);
    RestoreAlphabet(vs, n);
    var t := StdChars(vs) + Pad(n);
    assert ',' !in t by {
      forall i | 0 <= i < |t|
        ensures t[i] != ','
      {
        if i < |vs| {
          assert t[i] == StdChar(vs[i]);
        }
      }
    }
    RemoveCharAbsent(t, ',');
  }

  /** The number of groups of `n` bytes, taken modulo four, is what decides
      the padding on both sides. */
  lemma SextetCountMod(n: nat, k: nat)
    requires k == 0 || k == PadLength(n)
    ensures k + Restored(SextetCount(n) + k) == PadLength(n)
  {
    var q, r := n / 3, n % 3;
    var m := SextetCount(n);
    if r == 0 {
      assert m == 4 * q && PadLength(n) == 0;
    } else if r == 1 {
      assert m == 4 * q + 2 && PadLength(n) == 2;
      assert k == 0 || m + k == 4 * (q + 1);
    } else {
      assert m == 4 * q + 3 && PadLength(n) == 1;
      assert k == 0 || m + k == 4 * (q + 1);
    }
  }

  /** The groups of `n` bytes in the URL-safe alphabet, with none or all of
      their padding, normalise to the standard encoding. */
  lemma NormalizedOfPadded(n: nat, vs: seq<Sextet>, k: nat)
    requires |vs| == SextetCount(n)
    requires k == 0 || k == PadLength(n)
    ensures Normalized(UrlChars(vs) + Pad(k)) == StdChars(vs) + Pad(PadLength(n))
  {
    SextetCountMod(n, k);
    NormalizedOfUrl(vs, k);
  }

  /** Decoding what `ToBase64` produced gives the bytes back. */
  lemma FromBase64OfToBase64(b: seq<byte>)
    ensures FromBase64(ToBase64(b)) == Success(b)
  {
    var vs := Sextets(b);
    assert ToBase64(b) == UrlChars(vs) + Pad(0) by {
      ToBase64IsUnpaddedUrl(b);
      assert UrlChars(vs) + Pad(0) == UrlChars(vs);
    }
    SextetsLength(b);
    NormalizedOfPadded(|b|, vs, 0);
    DecodeStdOfEncodeStd(b);
  }

  /** `FromBase64` also takes the padded URL-safe form: the length is already
      a multiple of four, so nothing is added. */
  lemma FromBase64OfPadded(b: seq<byte>)
    ensures FromBase64(UrlChars(Sextets(b)) + Pad(PadLength(|b|))) == Success(b)
  {
    SextetsLength(b);
    NormalizedOfPadded(|b|, Sextets(b), PadLength(|b|));
    DecodeStdOfEncodeStd(b);
  }

  /** No padding brings a URL-safe text of length 4q + 1 to a valid standard
      text: `FromBase64` throws `FormatException`. */
  lemma FromBase64RejectsOneModFour(s: string)
    requires forall i :: 0 <= i < |s| ==> IsUrlChar(s[i])
    requires |s| % 4 == 1
    ensures FromBase64(s) == Failure(FormatError)
  {
    var t := Replace(Replace(s + Pad(3), '-', '+'), '_', '/');
    assert FromBase64(s) == DecodeStd(t) by {
      assert Restored(|s|) == 3;
      assert ',' !in t by {
        forall i | 0 <= i < |t|
          ensures t[i] != ','
        {
          if i < |s| {
            assert IsUrlChar(s[i]);
          }
        }
      }
      RemoveCharAbsent(t, ',');
    }
    assert TrailingPad(t) == 2;
    assert !AllStd(t[..|t| - 2]) by {
      assert t[..|t| - 2][|s|] == '=';
    }
  }
}
