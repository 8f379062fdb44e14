/** `Downloader.DownloadAsync` (Extensions.cs lines 166-274) run sequentially:
    the part count, the size probe, the destination reset, the range plan,
    one fetch per range into a temporary file keyed by a running index, and
    the merge of the temporary files in ascending key order. */
module Downloader {
  import opened Common
  import opened RangePlan
  import opened FileSys

  /** `DownloadResult` without `TimeTaken`. */
  datatype DownloadResult = DownloadResult(size: int, filePath: string, parallelDownloads: int)

  /** How one ranged GET ends (Extensions.cs lines 244-249): `GetResponse`
      throws before any temporary file exists; or the whole body is copied
      into the temporary file; or the copy breaks after `prefix` has been
      written to it. */
  datatype Response =
    | Refused(error: Error)
    | Received(body: seq<byte>)
    | Broken(prefix: seq<byte>, error: Error)

  /** The server: how the ranged GET for each range ends. */
  type Fetch = Range -> Response

  /** One request of the fetch loop (Extensions.cs lines 240-244).
      `HttpWebRequest.AddRange(from, to)` throws `ArgumentOutOfRangeException`
      for a negative bound or for from > to, before anything is sent. */
  function Get(fetch: Fetch, r: Range): Response
  {
    if r.start < 0 || r.end < 0 || r.start > r.end then Refused(ArgumentError) else fetch(r)
  }

  /** `numberOfParallelDownloads`, or the processor count when that is not positive. */
  function PartCount(requested: int, processorCount: nat): int
  {
    if requested <= 0 then processorCount else requested
  }

  // ---------------------------------------------------------------------------
  // OrderBy(b => b.Key)
  // ---------------------------------------------------------------------------

  predicate IsMin(m: int, s: set<int>)
  {
    m in s && forall x :: x in s ==> m <= x
  }

  /** A finite non-empty set of keys has a least element. */
  lemma MinExists(s: set<int>)
    requires s != {}
    ensures exists m :: IsMin(m, s)
  {
    var y := PickKey(s);
    if s == {y} {
      assert IsMin(y, s);
    } else {
      var rest := s - {y};
      MinExists(rest);
      var m :| IsMin(m, rest);
      assert forall x :: x in s ==> x == y || x in rest;
      if y < m {
        assert IsMin(y, s);
      } else {
        assert IsMin(m, s);
      }
    }
  }

  /** Some key of a non-empty set. */
  ghost function PickKey(s: set<int>): (k: int)
    requires s != {}
    ensures k in s
  {
    assert (forall k :: k !in s) ==> s == {};
    var k :| k in s; k
  }

  predicate Increasing(ks: seq<int>)
  {
    forall i, j :: 0 <= i < j < |ks| ==> ks[i] < ks[j]
  }

  /** The keys of a set in ascending order: the smallest first, then the
      rest in ascending order. */
  ghost function SortedKeys(s: set<int>): (ks: seq<int>)
    ensures forall k :: k in ks <==> k in s
    ensures Increasing(ks)
    decreases |s|
  {
    if s == {} then []
    else
      MinExists(s);
      var m :| IsMin(m, s);
      [m] + SortedKeys(s - {m})
  }

  /** Whichever least key is picked, the ascending order starts with it. */
  lemma SortedKeysHead(s: set<int>, k: int)
    requires IsMin(k, s)
    ensures SortedKeys(s) == [k] + SortedKeys(s - {k})
  {
  }

  /** The ascending order is the only increasing listing of a key set: it
      does not depend on the order in which the keys were inserted. */
  lemma {:induction false} IncreasingUnique(a: seq<int>, b: seq<int>)
    requires Increasing(a) && Increasing(b)
    requires forall x :: x in a <==> x in b
    ensures a == b
  {
    if a != [] {
      assert a[0] in a;
    }
    if b != [] {
      assert b[0] in b;
    }
    if a != [] && b != [] {
      assert a[0] == b[0] by {
        assert a[0] in b && b[0] in a;
      }
      forall x
        ensures x in a[1..] <==> x in b[1..]
      {
        assert x in a[1..] <==> x in a && x != a[0];
        assert x in b[1..] <==> x in b && x != b[0];
      }
      IncreasingUnique(a[1..], b[1..]);
      assert a == [a[0]] + a[1..] && b == [b[0]] + b[1..];
    }
  }

  /** The keys 0 .. n - 1. */
  function KeysBelow(n: nat): (s: set<int>)
    ensures forall i :: i in s <==> 0 <= i < n
  {
    if n == 0 then {} else KeysBelow(n - 1) + {n - 1}
  }

  function Positions(n: nat): (ks: seq<int>)
    ensures |ks| == n && forall i :: 0 <= i < n ==> ks[i] == i
  {
    seq(n, i requires 0 <= i < n => i)
  }

  /** The keys of a finished sequential run, 0 .. P - 1, come out of the
      ordering as 0, 1, .., P - 1. */
  lemma SortedKeysBelow(n: nat)
    ensures SortedKeys(KeysBelow(n)) == Positions(n)
  {
    forall x
      ensures x in Positions(n) <==> x in SortedKeys(KeysBelow(n))
    {
      if 0 <= x < n {
        assert Positions(n)[x] == x;
      }
    }
    IncreasingUnique(Positions(n), SortedKeys(KeysBelow(n)));
  }

  // ---------------------------------------------------------------------------
  // The merge loop
  // ---------------------------------------------------------------------------

  /** Every key of the list has a temporary file. */
  predicate KeysIn(keys: seq<int>, temps: map<int, Path>)
  {
    forall i :: 0 <= i < |keys| ==> keys[i] in temps
  }

  /** What a temp-file map must satisfy for the merge: every file exists, none
      is the destination, and no two keys share a file. */
  ghost predicate MergeReady(files: map<Path, seq<byte>>, destination: Path, temps: map<int, Path>)
  {
    destination in files
    && (forall k :: k in temps ==> temps[k] in files && temps[k] != destination)
    && (forall j, k :: j in temps && k in temps && j != k ==> temps[j] != temps[k])
  }

  /** The contents of the temporary files of `keys`, in the order of `keys`. */
  ghost function Contents(files: map<Path, seq<byte>>, temps: map<int, Path>, keys: seq<int>): (cs: seq<seq<byte>>)
    requires KeysIn(keys, temps) && forall k :: k in temps ==> temps[k] in files
    ensures |cs| == |keys|
  {
    seq(|keys|, i requires 0 <= i < |keys| => var k := keys[i]; assert k in temps; files[temps[k]])
  }

  /** The temporary files of the keys already merged. */
  ghost function Gone(temps: map<int, Path>, done: seq<int>): set<Path>
  {
    set k | k in done && k in temps :: temps[k]
  }

  /** The state the merge loop keeps: the files of the keys in `done` are
      gone, and the destination holds its old bytes followed by theirs. */
  ghost function MergedState(files: map<Path, seq<byte>>, destination: Path, temps: map<int, Path>, done: seq<int>): map<Path, seq<byte>>
    requires MergeReady(files, destination, temps) && KeysIn(done, temps)
  {
    (files - Gone(temps, done))[destination := files[destination] + Concat(Contents(files, temps, done))]
  }

  /** Before the first turn nothing is merged. */
  lemma MergedStateStart(files: map<Path, seq<byte>>, destination: Path, temps: map<int, Path>)
    requires MergeReady(files, destination, temps)
    ensures MergedState(files, destination, temps, []) == files
  {
    assert files - Gone(temps, []) == files by {
      assert Gone(temps, []) == {};
    }
    assert files[destination] + Concat(Contents(files, temps, [])) == files[destination] by {
      assert Contents(files, temps, []) == [];
    }
    assert files[destination := files[destination]] == files;
  }

  /** The merge (Extensions.cs lines 264-269): for each key in ascending
      order, append its file's bytes to the destination and delete the file. */
  method Merge(fs: FileSystem, destination: Path, temps: map<int, Path>)
    requires fs.Valid() && MergeReady(fs.files, destination, temps)
    modifies fs
    ensures fs.Valid() && fs.tempCount == old(fs.tempCount)
    ensures fs.files == MergedState(old(fs.files), destination, temps, SortedKeys(temps.Keys))
  {
    ghost var files := fs.files;
    ghost var order := SortedKeys(temps.Keys);
    var remaining := temps.Keys;
    ghost var done: seq<int> := [];
    MergedStateStart(files, destination, temps);
    while remaining != {}
      invariant remaining <= temps.Keys
      invariant done + SortedKeys(remaining) == order
      invariant KeysIn(done, temps) && forall i :: 0 <= i < |done| ==> done[i] !in remaining
      invariant fs.Valid() && fs.tempCount == old(fs.tempCount)
      invariant fs.files == MergedState(files, destination, temps, done)
      decreases remaining
    {
      MinExists(remaining);
      var key :| IsMin(key, remaining);
      AppendPart(fs, destination, temps, files, done, key);
      OrderStep(order, done, remaining, key);
      remaining := remaining - {key};
      done := done + [key];
    }
    assert done == order;
  }

  /** One turn of the merge loop: the bytes of the temporary file for `key`
      are appended to the destination, and the temporary file is deleted. */
  method AppendPart(fs: FileSystem, destination: Path, temps: map<int, Path>,
                    ghost files: map<Path, seq<byte>>, ghost done: seq<int>, key: int)
    requires fs.Valid() && MergeReady(files, destination, temps) && KeysIn(done, temps)
    requires key in temps && forall i :: 0 <= i < |done| ==> done[i] != key
    requires fs.files == MergedState(files, destination, temps, done)
    modifies fs
    ensures fs.Valid() && fs.tempCount == old(fs.tempCount)
    ensures KeysIn(done + [key], temps)
    ensures fs.files == MergedState(files, destination, temps, done + [key])
  {
    var path := temps[key];
    MergeStep(files, destination, temps, done, key, fs.files);
    var bytes := fs.ReadAllBytes(path);
    fs.Append(destination, bytes.value);
    fs.Delete(path);
  }

  /** Taking the least remaining key keeps `done` a prefix of the order. */
  lemma OrderStep(order: seq<int>, done: seq<int>, remaining: set<int>, key: int)
    requires IsMin(key, remaining) && done + SortedKeys(remaining) == order
    requires forall i :: 0 <= i < |done| ==> done[i] !in remaining
    ensures (done + [key]) + SortedKeys(remaining - {key}) == order
    ensures forall i :: 0 <= i < |done| + 1 ==> (done + [key])[i] !in remaining - {key}
  {
    SortedKeysHead(remaining, key);
  }

  /** One turn of the merge loop moves key `k` from the remaining keys to the
      merged ones: its file is still there with its original bytes, and
      appending them and deleting it gives the state with `k` merged. */
  lemma MergeStep(files: map<Path, seq<byte>>, destination: Path, temps: map<int, Path>, done: seq<int>, k: int,
                  before: map<Path, seq<byte>>)
    requires MergeReady(files, destination, temps) && KeysIn(done, temps)
    requires k in temps && forall i :: 0 <= i < |done| ==> done[i] != k
    requires before == MergedState(files, destination, temps, done)
    ensures temps[k] in before && temps[k] != destination && destination in before
    ensures before[temps[k]] == files[temps[k]]
    ensures KeysIn(done + [k], temps)
    ensures (before[destination := before[destination] + before[temps[k]]] - {temps[k]})
      == MergedState(files, destination, temps, done + [k])
  {
    var path := temps[k];
    var gone := Gone(temps, done);
    var merged := files[destination] + Concat(Contents(files, temps, done));
    assert path !in gone;
    assert Gone(temps, done + [k]) == gone + {path};
    assert merged + files[path] == files[destination] + Concat(Contents(files, temps, done + [k])) by {
      assert Contents(files, temps, done + [k]) == Contents(files, temps, done) + [files[path]];
      ConcatAppend(Contents(files, temps, done), files[path]);
    }
    assert (files - gone)[destination := merged + files[path]] - {path}
        == (files - (gone + {path}))[destination := merged + files[path]];
  }

  // ---------------------------------------------------------------------------
  // The download loop
  // ---------------------------------------------------------------------------

  /** How many ranges, from the first, are requested and answered before one fails. */
  function LeadingSuccesses(fetch: Fetch, ranges: seq<Range>): (n: nat)
    ensures n <= |ranges|
    ensures forall j :: 0 <= j < n ==> Get(fetch, ranges[j]).Received?
    ensures n < |ranges| ==> !Get(fetch, ranges[n]).Received?
  {
    if ranges == [] || !Get(fetch, ranges[0]).Received? then 0
    else 1 + LeadingSuccesses(fetch, ranges[1..])
  }

  /** The bytes received for the first n ranges. */
  function Chunks(fetch: Fetch, ranges: seq<Range>, n: nat): (cs: seq<seq<byte>>)
    requires n <= |ranges| && forall j :: 0 <= j < n ==> Get(fetch, ranges[j]).Received?
    ensures |cs| == n
  {
    seq(n, j requires 0 <= j < n => Get(fetch, ranges[j]).body)
  }

  /** What the temporary files hold when the loop stops after n answered
      ranges: their bodies, then, when the copy of range n broke, the prefix
      written before it broke. */
  function Saved(fetch: Fetch, ranges: seq<Range>, n: nat): (cs: seq<seq<byte>>)
    requires n <= |ranges| && forall j :: 0 <= j < n ==> Get(fetch, ranges[j]).Received?
    ensures |cs| == n + (if n < |ranges| && Get(fetch, ranges[n]).Broken? then 1 else 0)
    ensures cs[..n] == Chunks(fetch, ranges, n)
    ensures |cs| > n ==> cs[n] == Get(fetch, ranges[n]).prefix
  {
    var cs := Chunks(fetch, ranges, n);
    if n < |ranges| && Get(fetch, ranges[n]).Broken? then cs + [Get(fetch, ranges[n]).prefix] else cs
  }

  /** The files after the first |chunks| turns of the fetch loop, entry by
      entry: the files from before, and temporary file `first + j` holding
      chunk j. */
  ghost predicate Stored(now: map<Path, seq<byte>>, files: map<Path, seq<byte>>, first: nat, chunks: seq<seq<byte>>)
  {
    (forall p :: p in now <==> p in files || (p.Temp? && first <= p.id < first + |chunks|))
    && (forall p :: p in files ==> now[p] == files[p])
    && (forall j :: 0 <= j < |chunks| ==> now[Temp(first + j)] == chunks[j])
  }

  /** `tempFilesDictionary` after n ranges: the keys 0 .. n - 1, key j
      naming temporary file `first + j`. */
  ghost predicate IndexesTemps(index: map<int, Path>, first: nat, n: nat)
  {
    (forall j :: j in index <==> 0 <= j < n)
    && forall j :: j in index ==> index[j] == Temp(first + j)
  }

  /** Saving one more chunk into temporary file `first + |chunks|`. */
  lemma StoredStep(now: map<Path, seq<byte>>, files: map<Path, seq<byte>>, first: nat,
                   chunks: seq<seq<byte>>, p: Path, c: seq<byte>)
    requires Stored(now, files, first, chunks) && p == Temp(first + |chunks|)
    requires forall q :: q in files && q.Temp? ==> q.id < first
    ensures Stored(now[p := []][p := c], files, first, chunks + [c])
  {
  }

  /** The chunks of one more answered range. */
  lemma ChunksAppend(fetch: Fetch, ranges: seq<Range>, n: nat)
    requires n < |ranges| && forall j :: 0 <= j <= n ==> Get(fetch, ranges[j]).Received?
    ensures Chunks(fetch, ranges, n + 1) == Chunks(fetch, ranges, n) + [Get(fetch, ranges[n]).body]
  {
  }

  /** `ConcurrentDictionary.TryAdd`: adds the entry unless the key is taken. */
  function TryAdd(m: map<int, Path>, key: int, value: Path): (r: map<int, Path>)
    ensures key in m ==> r == m
    ensures key !in m ==> r == m[key := value]
  {
    if key in m then m else m[key := value]
  }

  /** The body of the fetch loop after the response arrives (Extensions.cs
      lines 244-248): a new temporary file receiving the response's bytes. */
  method SaveToTempFile(fs: FileSystem, data: seq<byte>) returns (p: Path)
    requires fs.Valid()
    modifies fs
    ensures fs.Valid()
    ensures p == Temp(old(fs.tempCount)) && fs.tempCount == old(fs.tempCount) + 1
    ensures fs.files == old(fs.files)[p := []][p := data]
  {
    p := fs.CreateTempFile();
    fs.WriteAll(p, data);
  }

  /** The fetch loop (Extensions.cs lines 237-257), one range after the other.
      Each answered range goes to a new temporary file stored under the
      current `index`; the first failed range ends the loop with its error,
      leaving behind the temporary file of a copy that broke. */
  method FetchAll(fs: FileSystem, fetch: Fetch, ranges: seq<Range>)
      returns (r: Result<map<int, Path>>, index: int)
    requires fs.Valid()
    modifies fs
    ensures fs.Valid()
    ensures var n := LeadingSuccesses(fetch, ranges);
      var saved := Saved(fetch, ranges, n);
      fs.tempCount == old(fs.tempCount) + |saved|
      && Stored(fs.files, old(fs.files), old(fs.tempCount), saved)
      && (n == |ranges| ==> r.Success? && index == n && IndexesTemps(r.value, old(fs.tempCount), n))
      && (n < |ranges| ==> r == Failure(Get(fetch, ranges[n]).error))
  {
    ghost var first := fs.tempCount;
    ghost var files := fs.files;
    var tempFilesDictionary: map<int, Path> := map[];
    index := 0;
    var i := 0;
    while i < |ranges|
      invariant 0 <= i <= |ranges| && index == i
      invariant forall j :: 0 <= j < i ==> Get(fetch, ranges[j]).Received?
      invariant fs.Valid() && fs.tempCount == first + i
      invariant forall p :: p in files && p.Temp? ==> p.id < first
      invariant Stored(fs.files, files, first, Chunks(fetch, ranges, i))
      invariant forall j :: j in tempFilesDictionary <==> 0 <= j < i
      invariant forall j :: j in tempFilesDictionary ==> tempFilesDictionary[j] == Temp(first + j)
    {
      var response := Get(fetch, ranges[i]);
      if response.Refused? {
        SavedAtStop(fetch, ranges, i);
        return Failure(response.error), index;
      }
      ghost var before := fs.files;
      if response.Broken? {
        var partFilePath := SaveToTempFile(fs, response.prefix);
        StoredStep(before, files, first, Chunks(fetch, ranges, i), partFilePath, response.prefix);
        SavedAtStop(fetch, ranges, i);
        return Failure(response.error), index;
      }
      var tempFilePath := SaveToTempFile(fs, response.body);
      ChunksAppend(fetch, ranges, i);
      StoredStep(before, files, first, Chunks(fetch, ranges, i), tempFilePath, response.body);
      tempFilesDictionary := TryAdd(tempFilesDictionary, index, tempFilePath);
      index := index + 1;
      i := i + 1;
    }
    SavedAtStop(fetch, ranges, |ranges|);
    r := Success(tempFilesDictionary);
  }

  /** Where the fetch loop stops, the saved contents are the chunks, plus the
      prefix of a broken copy. */
  lemma SavedAtStop(fetch: Fetch, ranges: seq<Range>, i: nat)
    requires i <= |ranges|
    requires forall j :: 0 <= j < i ==> Get(fetch, ranges[j]).Received?
    requires i < |ranges| ==> !Get(fetch, ranges[i]).Received?
    ensures LeadingSuccesses(fetch, ranges) == i
    ensures i < |ranges| && Get(fetch, ranges[i]).Broken? ==>
      Saved(fetch, ranges, i) == Chunks(fetch, ranges, i) + [Get(fetch, ranges[i]).prefix]
    ensures !(i < |ranges| && Get(fetch, ranges[i]).Broken?) ==> Saved(fetch, ranges, i) == Chunks(fetch, ranges, i)
  {
    LeadingSuccessesStop(fetch, ranges, i);
  }

  /** The count of leading successes is the position of the first failure. */
  lemma LeadingSuccessesStop(fetch: Fetch, ranges: seq<Range>, i: nat)
    requires i <= |ranges|
    requires forall j :: 0 <= j < i ==> Get(fetch, ranges[j]).Received?
    requires i < |ranges| ==> !Get(fetch, ranges[i]).Received?
    ensures LeadingSuccesses(fetch, ranges) == i
  {
  }

  // ---------------------------------------------------------------------------
  // DownloadAsync
  // ---------------------------------------------------------------------------

  /** `DownloadAsync`, with the ranged GETs as `fetch`, the HEAD probe's
      Content-Length (or its failure) as `contentLength`, and
      `Environment.ProcessorCount` as `processorCount`. */
  method Download(fs: FileSystem, fetch: Fetch, destinationFilePath: string,
                  numberOfParallelDownloads: int, processorCount: nat, contentLength: Result<nat>)
      returns (r: Result<DownloadResult>)
    requires fs.Valid() && processorCount >= 1
    modifies fs
    ensures fs.Valid()
    ensures contentLength.Failure? ==> r == Failure(contentLength.error) && fs.files == old(fs.files)
    ensures contentLength.Success? ==>
      var parts := PartCount(numberOfParallelDownloads, processorCount);
      var ranges := Plan(contentLength.value, parts);
      var n := LeadingSuccesses(fetch, ranges);
      var chunks := Chunks(fetch, ranges, n);
      var destination := Named(destinationFilePath);
      (n == parts ==>
         r == Success(DownloadResult(contentLength.value, destinationFilePath, parts))
         && fs.files == old(fs.files)[destination := Concat(chunks)])
      && (n < parts ==>
         r == Failure(Get(fetch, ranges[n]).error)
         && Stored(fs.files, old(fs.files)[destination := []], old(fs.tempCount), Saved(fetch, ranges, n)))
  {
    var parts := numberOfParallelDownloads;
    if parts <= 0 {
      parts := processorCount;
    }
    if contentLength.Failure? {
      return Failure(contentLength.error);
    }
    var responseLength := contentLength.value;
    var destination := Named(destinationFilePath);
    var present := fs.Exists(destination);
    if present {
      fs.Delete(destination);
    }
    fs.OpenAppend(destination);
    ghost var reset := fs.files;
    assert reset == old(fs.files)[destination := []];
    var readRanges := PlanRanges(responseLength, parts);
    var temps, index := FetchAll(fs, fetch, readRanges);
    if temps.Failure? {
      return Failure(temps.error);
    }
    ghost var chunks := Chunks(fetch, readRanges, parts);
    ghost var first := old(fs.tempCount);
    MergedAfterFetch(fs.files, reset, destination, first, chunks, temps.value);
    Merge(fs, destination, temps.value);
    assert reset[destination := Concat(chunks)] == old(fs.files)[destination := Concat(chunks)];
    r := Success(DownloadResult(responseLength, destinationFilePath, index));
  }

  /** What a finished fetch loop leaves: `all` is `files` (which hold no
      temporary file numbered `first` or later) plus one temporary file per
      chunk, and `temps` indexes those files by key. */
  ghost predicate AfterFetch(all: map<Path, seq<byte>>, files: map<Path, seq<byte>>, destination: Path,
                             first: nat, chunks: seq<seq<byte>>, temps: map<int, Path>)
  {
    destination in files && destination.Named?
    && (forall p :: p in files && p.Temp? ==> p.id < first)
    && Stored(all, files, first, chunks)
    && IndexesTemps(temps, first, |chunks|)
  }

  /** The temporary files of a finished fetch loop are ready to be merged. */
  lemma MergeReadyAfterFetch(all: map<Path, seq<byte>>, files: map<Path, seq<byte>>, destination: Path,
                             first: nat, chunks: seq<seq<byte>>, temps: map<int, Path>)
    requires AfterFetch(all, files, destination, first, chunks, temps)
    ensures MergeReady(all, destination, temps)
  {
  }

  /** Key j's temporary file holds chunk j, for every key. */
  lemma ContentsAfterFetch(all: map<Path, seq<byte>>, files: map<Path, seq<byte>>, destination: Path,
                           first: nat, chunks: seq<seq<byte>>, temps: map<int, Path>)
    requires AfterFetch(all, files, destination, first, chunks, temps)
    requires MergeReady(all, destination, temps)
    ensures KeysIn(Positions(|chunks|), temps)
    ensures Contents(all, temps, Positions(|chunks|)) == chunks
  {
  }

  /** Merging all keys deletes exactly the new temporary files. */
  lemma GoneAfterFetch(all: map<Path, seq<byte>>, files: map<Path, seq<byte>>, destination: Path,
                       first: nat, chunks: seq<seq<byte>>, temps: map<int, Path>)
    requires AfterFetch(all, files, destination, first, chunks, temps)
    ensures all - Gone(temps, Positions(|chunks|)) == files
  {
    var keys := Positions(|chunks|);
    var gone := Gone(temps, keys);
    forall p
      ensures p in all - gone <==> p in files
      ensures p in files ==> (all - gone)[p] == files[p]
    {
      if p.Temp? && first <= p.id < first + |chunks| {
        var j := p.id - first;
        assert keys[j] == j && j in keys && temps[j] == p;
      }
    }
  }

  /** Merging the temporary files of a finished fetch loop, in ascending key
      order, leaves exactly the files that were there before, with the chunks
      in the destination. */
  lemma MergedAfterFetch(all: map<Path, seq<byte>>, files: map<Path, seq<byte>>, destination: Path,
                         first: nat, chunks: seq<seq<byte>>, temps: map<int, Path>)
    requires AfterFetch(all, files, destination, first, chunks, temps) && files[destination] == []
    ensures MergeReady(all, destination, temps)
    ensures SortedKeys(temps.Keys) == Positions(|chunks|)
    ensures KeysIn(Positions(|chunks|), temps)
    ensures MergedState(all, destination, temps, Positions(|chunks|)) == files[destination := Concat(chunks)]
  {
    var keys := Positions(|chunks|);
    MergeReadyAfterFetch(all, files, destination, first, chunks, temps);
    assert SortedKeys(temps.Keys) == keys by {
      assert temps.Keys == KeysBelow(|chunks|);
      SortedKeysBelow(|chunks|);
    }
    ContentsAfterFetch(all, files, destination, first, chunks, temps);
    GoneAfterFetch(all, files, destination, first, chunks, temps);
    assert all[destination] + Concat(Contents(all, temps, keys)) == Concat(chunks) by {
      assert all[destination] == [];
    }
  }

  // ---------------------------------------------------------------------------
  // End to end
  // ---------------------------------------------------------------------------

  /** A server holding `original` that answers every range inside the file
      with its bytes. */
  function Serve(original: seq<byte>): Fetch
  {
    (r: Range) => if 0 <= r.start <= r.end + 1 <= |original| then Received(original[r.start..r.end + 1])
                  else Refused(TransportError(416))
  }

  /** Against such a server, for a file of at least one byte per part, every
      planned range is requested and answered, and the chunks in key order
      are the original bytes. */
  lemma ServedPlanRestores(original: seq<byte>, parts: nat)
    requires 1 <= parts <= |original|
    ensures LeadingSuccesses(Serve(original), Plan(|original|, parts)) == parts
    ensures Concat(Chunks(Serve(original), Plan(|original|, parts), parts)) == original
  {
    var ranges := Plan(|original|, parts);
    PlanPiecesConcat(original, parts);
    PlanNonEmpty(|original|, parts);
    var pieces := Pieces(original, ranges);
    assert forall j :: 0 <= j < parts ==> Get(Serve(original), ranges[j]) == Received(pieces[j]);
    LeadingSuccessesStop(Serve(original), ranges, parts);
    assert Chunks(Serve(original), ranges, parts) == pieces;
  }

  /** A file shorter than the part count plans an empty range (0, -1) first,
      which `AddRange` refuses: no range is fetched. */
  lemma ShortFileFails(fetch: Fetch, length: nat, parts: nat)
    requires 1 <= parts && length < parts
    ensures Get(fetch, Plan(length, parts)[0]) == Refused(ArgumentError)
    ensures LeadingSuccesses(fetch, Plan(length, parts)) == 0
  {
    PlanShortFile(length, parts);
    assert Plan(length, parts)[0] == Range(0, -1);
    LeadingSuccessesStop(fetch, Plan(length, parts), 0);
  }

  /** With nothing stored, the files are exactly the ones from before. */
  lemma StoredNothing(now: map<Path, seq<byte>>, files: map<Path, seq<byte>>, first: nat)
    requires Stored(now, files, first, [])
    ensures now == files
  {
  }

  /** A complete download from such a server: the destination ends up holding
      the original bytes, nothing else changes, and `ParallelDownloads` is
      the part count. */
  method DownloadFromServer(fs: FileSystem, original: seq<byte>, destinationFilePath: string, parts: int)
      returns (r: Result<DownloadResult>)
    requires fs.Valid() && 1 <= parts <= |original|
    modifies fs
    ensures fs.Valid()
    ensures r == Success(DownloadResult(|original|, destinationFilePath, parts))
    ensures fs.files == old(fs.files)[Named(destinationFilePath) := original]
  {
    ServedPlanRestores(original, parts);
    r := Download(fs, Serve(original), destinationFilePath, parts, 1, Success(|original|));
  }

  /** A download of a file shorter than the part count, whatever the server:
      it fails with `AddRange`'s exception and leaves the destination empty,
      with no temporary file created. */
  method DownloadShortFile(fs: FileSystem, fetch: Fetch, destinationFilePath: string, parts: int, length: nat)
      returns (r: Result<DownloadResult>)
    requires fs.Valid() && 1 <= parts && length < parts
    modifies fs
    ensures fs.Valid()
    ensures r == Failure(ArgumentError)
    ensures fs.files == old(fs.files)[Named(destinationFilePath) := []]
  {
    ShortFileFails(fetch, length, parts);
    ghost var files := fs.files;
    r := Download(fs, fetch, destinationFilePath, parts, 1, Success(length));
    StoredNothing(fs.files, files[Named(destinationFilePath) := []], old(fs.tempCount));
  }

  /** "ABCDEFGHIJ" in three parts, into an empty file system. */
  method DownloadTenBytes() returns (r: Result<DownloadResult>, saved: seq<byte>)
    ensures r == Success(DownloadResult(10, "out.bin", 3))
    ensures saved == [65, 66, 67, 68, 69, 70, 71, 72, 73, 74]
  {
    var original: seq<byte> := [65, 66, 67, 68, 69, 70, 71, 72, 73, 74];
    var fs := new FileSystem(map[]);
    r := DownloadFromServer(fs, original, "out.bin", 3);
    saved := fs.files[Named("out.bin")];
  }
}
