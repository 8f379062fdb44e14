/** The range planner of `Downloader.DownloadAsync` (Extensions.cs lines
    213-229): the byte interval [0, L - 1] of a file of L bytes is cut into P
    inclusive ranges, one per parallel download. */
module RangePlan {
  import opened Common

  /** A `Range { Start, End }`, both ends inclusive. */
  datatype Range = Range(start: int, end: int)

  /** The number of bytes a range asks for, `End - Start + 1`. */
  function Length(r: Range): int
  {
    r.end - r.start + 1
  }

  /** The reference plan: P - 1 ranges of L / P bytes each, then a last range
      from the end of the previous one to the last byte. */
  function Plan(length: nat, parts: nat): (rs: seq<Range>)
    requires parts >= 1
  {
    var q := length / parts;
    seq(parts, i requires 0 <= i < parts =>
      Range(i * q, if i < parts - 1 then (i + 1) * q - 1 else length - 1))
  }

  /** The planning code itself: a loop adding the first P - 1 ranges, then
      the last range, which starts after the previous one or at 0. */
  method PlanRanges(length: nat, parts: int) returns (readRanges: seq<Range>)
    requires parts >= 1
    ensures readRanges == Plan(length, parts)
  {
    var q := length / parts;
    readRanges := [];
    for chunk := 0 to parts - 1
      invariant readRanges == Plan(length, parts)[..chunk]
    {
      readRanges := readRanges + [Range(chunk * q, (chunk + 1) * q - 1)];
    }
    var start := if |readRanges| > 0 then readRanges[|readRanges| - 1].end + 1 else 0;
    readRanges := readRanges + [Range(start, length - 1)];
  }

  /** Range 0 starts at byte 0, each later range starts right after its
      predecessor, and the last range ends at byte L - 1. */
  lemma PlanContiguous(length: nat, parts: nat)
    requires parts >= 1
    ensures |Plan(length, parts)| == parts
    ensures Plan(length, parts)[0].start == 0
    ensures forall i :: 0 <= i < parts - 1 ==> Plan(length, parts)[i].end + 1 == Plan(length, parts)[i + 1].start
    ensures Plan(length, parts)[parts - 1].end == length - 1
  {
  }

  /** The first P - 1 ranges hold L / P bytes each, the last one the rest,
      which is L / P + L % P bytes. */
  lemma PlanLengths(length: nat, parts: nat)
    requires parts >= 1
    ensures forall i :: 0 <= i < parts - 1 ==> Length(Plan(length, parts)[i]) == length / parts
    ensures Length(Plan(length, parts)[parts - 1]) == length - (parts - 1) * (length / parts)
    ensures Length(Plan(length, parts)[parts - 1]) == length / parts + length % parts
  {
  }

  /** A file shorter than the part count gives P - 1 empty ranges (0, -1)
      followed by one range over the whole file. */
  lemma PlanShortFile(length: nat, parts: nat)
    requires parts >= 1 && length < parts
    ensures forall i :: 0 <= i < parts - 1 ==> Plan(length, parts)[i] == Range(0, -1)
    ensures Plan(length, parts)[parts - 1] == Range(0, length - 1)
  {
    assert length / parts == 0;
  }

  /** No range starts after the byte following its end, and every range lies
      within [0, L - 1] or directly before it. */
  lemma PlanBounds(length: nat, parts: nat)
    requires parts >= 1
    ensures forall i :: 0 <= i < parts ==>
      0 <= Plan(length, parts)[i].start <= Plan(length, parts)[i].end + 1 <= length
  {
    var q := length / parts;
    assert parts * q <= length;
    forall i | 0 <= i < parts
      ensures 0 <= i * q <= Plan(length, parts)[i].end + 1 <= length
    {
      MulMonotone(i, parts - 1, q);
      if i < parts - 1 {
        MulMonotone(i + 1, parts, q);
      }
    }
  }

  /** With at least one byte per part, every range is a non-empty interval
      inside [0, L - 1], so `AddRange` accepts it. */
  lemma PlanNonEmpty(length: nat, parts: nat)
    requires 1 <= parts <= length
    ensures forall i :: 0 <= i < parts ==>
      0 <= Plan(length, parts)[i].start <= Plan(length, parts)[i].end < length
  {
    var q := length / parts;
    assert q >= 1 by {
      assert length == parts * q + length % parts;
    }
    PlanBounds(length, parts);
    PlanLengths(length, parts);
    forall i | 0 <= i < parts
      ensures Length(Plan(length, parts)[i]) >= 1
    {
    }
  }

  lemma MulMonotone(a: nat, b: nat, q: nat)
    requires a <= b
    ensures a * q <= b * q
  {
  }

  /** The total of a list of range lengths. */
  function TotalLength(rs: seq<Range>): int
  {
    if rs == [] then 0 else Length(rs[0]) + TotalLength(rs[1..])
  }

  /** Ranges that follow each other without gap or overlap, from `lo` to `hi`
      (exclusive). */
  predicate Tiles(rs: seq<Range>, lo: int, hi: int)
  {
    |rs| > 0 && rs[0].start == lo && rs[|rs| - 1].end + 1 == hi
    && forall i :: 0 <= i < |rs| - 1 ==> rs[i].end + 1 == rs[i + 1].start
  }

  lemma {:induction false} TilesTotal(rs: seq<Range>, lo: int, hi: int)
    requires Tiles(rs, lo, hi)
    ensures TotalLength(rs) == hi - lo
  {
    if |rs| > 1 {
      assert Tiles(rs[1..], rs[1].start, hi);
      TilesTotal(rs[1..], rs[1].start, hi);
    }
  }

  /** The lengths of the plan add up to the file length. */
  lemma PlanTotal(length: nat, parts: nat)
    requires parts >= 1
    ensures TotalLength(Plan(length, parts)) == length
  {
    PlanContiguous(length, parts);
    TilesTotal(Plan(length, parts), 0, length);
  }

  /** The bytes of `s` each range of `rs` asks for. */
  function Pieces<T>(s: seq<T>, rs: seq<Range>): (ps: seq<seq<T>>)
    requires forall i :: 0 <= i < |rs| ==> 0 <= rs[i].start <= rs[i].end + 1 <= |s|
    ensures |ps| == |rs|
  {
    seq(|rs|, i requires 0 <= i < |rs| => s[rs[i].start..rs[i].end + 1])
  }

  lemma {:induction false} TilesPieces<T>(s: seq<T>, rs: seq<Range>, lo: int, hi: int)
    requires Tiles(rs, lo, hi)
    requires forall i :: 0 <= i < |rs| ==> 0 <= rs[i].start <= rs[i].end + 1 <= |s|
    ensures 0 <= lo <= hi <= |s|
    ensures Concat(Pieces(s, rs)) == s[lo..hi]
  {
    var ps := Pieces(s, rs);
    if |rs| == 1 {
      assert ps[1..] == [];
      assert ps[0] == s[lo..hi];
    } else {
      var mid := rs[1].start;
      assert mid <= hi <= |s| && Concat(ps[1..]) == s[mid..hi] by {
        var rest := rs[1..];
        assert Tiles(rest, mid, hi);
        assert ps[1..] == Pieces(s, rest);
        TilesPieces(s, rest, mid, hi);
      }
      assert ps[0] == s[lo..mid];
      assert s[lo..hi] == s[lo..mid] + s[mid..hi];
    }
  }

  /** Cutting a file by the plan and putting the pieces back together in
      range order gives the file. */
  lemma PlanPiecesConcat<T>(s: seq<T>, parts: nat)
    requires parts >= 1
    ensures forall i :: 0 <= i < parts ==> 0 <= Plan(|s|, parts)[i].start <= Plan(|s|, parts)[i].end + 1 <= |s|
    ensures Concat(Pieces(s, Plan(|s|, parts))) == s
  {
    PlanBounds(|s|, parts);
    PlanContiguous(|s|, parts);
    TilesPieces(s, Plan(|s|, parts), 0, |s|);
  }

  /** The plan for ten bytes in three parts. */
  lemma PlanTenInThree()
    ensures Plan(10, 3) == [Range(0, 2), Range(3, 5), Range(6, 9)]
  {
  }
}
