/** The file operations `Downloader.DownloadAsync` performs (Extensions.cs
    lines 203-207, 244-248 and 264-269), over a file system held as a map from
    path to contents. Temporary files are numbered in creation order, which
    is how `Path.GetTempFileName` hands out names it has not used before. */
module FileSys {
  import opened Common

  /** A path: a caller-chosen name, or the n-th temporary file. */
  datatype Path = Named(name: string) | Temp(id: nat)

  class FileSystem {
    var files: map<Path, seq<byte>>
    var tempCount: nat

    /** Every temporary file present was handed out by `CreateTempFile`. */
    ghost predicate Valid()
      reads this
    {
      forall p :: p in files && p.Temp? ==> p.id < tempCount
    }

    /** A file system holding the given named files. */
    constructor (initial: map<Path, seq<byte>>)
      requires forall p :: p in initial ==> p.Named?
      ensures Valid()
      ensures files == initial && tempCount == 0
    {
      files := initial;
      tempCount := 0;
    }

    /** `File.Exists`. */
    method Exists(p: Path) returns (b: bool)
      ensures b <==> p in files
    {
      b := p in files;
    }

    /** `File.ReadAllBytes`; a missing file is a `FileNotFoundException`. */
    method ReadAllBytes(p: Path) returns (r: Result<seq<byte>>)
      ensures p in files ==> r == Success(files[p])
      ensures p !in files ==> r == Failure(FileNotFound)
    {
      if p in files {
        r := Success(files[p]);
      } else {
        r := Failure(FileNotFound);
      }
    }

    /** `File.Delete`; deleting a missing file is not an error. */
    method Delete(p: Path)
      requires Valid()
      modifies this
      ensures Valid()
      ensures files == old(files) - {p} && tempCount == old(tempCount)
    {
      files := files - {p};
    }

    /** `new FileStream(p, FileMode.Append)`: opens the file, creating it
        empty when it does not exist. */
    method OpenAppend(p: Path)
      requires Valid() && p.Named?
      modifies this
      ensures Valid()
      ensures files == (if p in old(files) then old(files) else old(files)[p := []])
      ensures tempCount == old(tempCount)
    {
      if p !in files {
        files := files[p := []];
      }
    }

    /** `Stream.Write` on a stream opened for appending. */
    method Append(p: Path, data: seq<byte>)
      requires Valid() && p in files
      modifies this
      ensures Valid()
      ensures files == old(files)[p := old(files)[p] + data] && tempCount == old(tempCount)
    {
      files := files[p := files[p] + data];
    }

    /** `Path.GetTempFileName`: a new, empty file under a name not in use. */
    method CreateTempFile() returns (p: Path)
      requires Valid()
      modifies this
      ensures Valid()
      ensures p == Temp(old(tempCount)) && p !in old(files)
      ensures files == old(files)[p := []] && tempCount == old(tempCount) + 1
    {
      p := Temp(tempCount);
      files := files[p := []];
      tempCount := tempCount + 1;
    }

    /** `new FileStream(p, FileMode.Create)` followed by copying `data` into
        it: the file ends up holding exactly `data`. */
    method WriteAll(p: Path, data: seq<byte>)
      requires Valid() && p in files
      modifies this
      ensures Valid()
      ensures files == old(files)[p := data] && tempCount == old(tempCount)
    {
      files := files[p := data];
    }
  }
}
