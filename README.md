# MegaApiClient extension helpers and parallel downloader, modelled in Dafny

This project models `MegaApiClient/Extensions.cs` from the MEGA API client library:

- the codec helpers MEGA's wire format relies on:
  - URL-safe unpadded base64 (`ToBase64`, `FromBase64`);
  - the length-prefixed little-endian `long` encoding (`SerializeToBytes`, `DeserializeToLong`);
  - the default-filled sub-array copy (`CopySubArray`);
  - the packing of a password into big-endian 32-bit words (`ToBytesPassword`);
  - the payload slice of an MPI number (`FromMPINumber`);
- `Downloader.DownloadAsync`, which:
  - reads the file size with a HEAD probe;
  - resets the destination;
  - cuts the byte interval into one inclusive range per parallel download;
  - fetches each range into a temporary file recorded in an index-keyed dictionary;
  - merges the temporary files into the destination in ascending key order.

Modules:

| module | file | flavour |
|---|---|---|
| `Common` | `common.dfy` | bytes, the .NET `int`/`long` widths with explicit two's-complement wrap, the exceptions as a `Result` |
| `IntegerCodec` | `integer_codec.dfy` | `SerializeToBytes` and `DeserializeToLong` as methods over arrays with loops, specified by a little-endian reading function |
| `ByteArrays` | `byte_arrays.dfy` | `CopySubArray` and `ToBytesPassword` as array methods with loops; the MPI slice as a function |
| `Base64Url` | `base64.dfy` | pure functions: the standard codec of section 4 of RFC 4648, `StringBuilder.Replace`, and the MEGA variants |
| `RangePlan` | `ranges.dfy` | the range-planning loop, specified by a reference plan |
| `FileSys` | `filesystem.dfy` | a file system class whose `files` map the download updates in place |
| `Downloader` | `downloader.dfy` | `DownloadAsync` run sequentially: fetch loop, dictionary, ordered merge |

Integers are unbounded in Dafny, so C# arithmetic is written out where it matters:
- `ToInt64` gives wrap-around in `long` arithmetic;
- `ToInt32` gives the `int` sum `offset + length` in `CopySubArray`;
- bit-vector types give the 32-bit shifts of `ToBytesPassword`.

Exceptions are `Failure` values of `Result`. The download's collaborators are parameters:
- the HTTP server is a function from a range to a response;
- the HEAD probe's `Content-Length` is a `Result<nat>`;
- `Environment.ProcessorCount` is a number.

How the download plan and the password conversion behave:
- The plan always has exactly P ranges, one per parallel download. The first P - 1 hold L / P bytes each, and the last holds the rest. For 10 bytes in 3 parts the plan is 0-2, 3-5, 6-9.
- A file shorter than P therefore plans the empty range (0, -1) first. `HttpWebRequest.AddRange` rejects that range before any request is sent, so such a download always fails, including every download of an empty file.
- `ParallelDownloads` in the result is the number of ranges, P.
- A comment in `ToBytesPassword` says that bits 8 and up of a character are discarded. They are not. Characters sit 8 bits apart in a word but are 16 bits wide, so the high half of character k + 1 is ORed into byte k of the same word (`ByteArrays.PasswordByteAt`). Only the high half of a word's first character is shifted out. For 8-bit characters the result is the characters themselves (`ByteArrays.PasswordBytesOfNarrowChars`).

## Model

| member | source | states |
|---|---|---|
| Common.ToInt64 | MegaApiClient/Extensions.cs:121 | the result is a `long`, congruent to the exact value modulo 2^64, and equal to it when it fits |
| Common.ToInt32 | MegaApiClient/Extensions.cs:77-79 | the result is an `int`, congruent to the exact value modulo 2^32, and equal to it when it fits |
| IntegerCodec.SerializeToBytes | MegaApiClient/Extensions.cs:127-142 | a negative value fails with the index error of the ninth `++p`; a non-negative value gives a count byte p <= 8 followed by p bytes with a non-zero last byte, whose little-endian value is the input; zero gives `[0]` |
| IntegerCodec.DeserializeToLong | MegaApiClient/Extensions.cs:107-125 | every outcome: an index error for a bad `index`; `ArgumentException` if the count byte exceeds 8 or is at least `length`; an index error if the payload runs past the array; otherwise the `long` reading (with 64-bit wrap) of the p bytes after the count byte, least significant first |
| IntegerCodec.SerializeRoundTrip | MegaApiClient/Extensions.cs:107-142 | deserialising what `SerializeToBytes` wrote gives back every non-negative `long` |
| IntegerCodec.LittleEndianBound | MegaApiClient/Extensions.cs:119-122 | n bytes read little-endian are below 256^n |
| IntegerCodec.LittleEndianAppend | MegaApiClient/Extensions.cs:132-136 | appending a more significant byte adds it at weight 256^n |
| IntegerCodec.EncodeStep | MegaApiClient/Extensions.cs:132-136 | one turn of the encoding loop keeps "value = bytes written + 256^p * rest" |
| IntegerCodec.DecodeStep | MegaApiClient/Extensions.cs:119-122 | one turn of the decoding loop, `(result << 8) + data[index + p]` in `long` arithmetic, extends the reading by one lower byte |
| IntegerCodec.ShiftAddWraps | MegaApiClient/Extensions.cs:121 | wrapping the shift and then the sum equals wrapping the exact value once |
| ByteArrays.CopySubArray | MegaApiClient/Extensions.cs:72-84 | a negative length fails as `new T[length]` does; a negative offset, or an `int` overflow of `offset + k`, fails at the read of a negative index; otherwise the result has `length` elements, element k being `source[offset + k]` when that exists and the default value when it does not |
| ByteArrays.ToBytesPassword | MegaApiClient/Extensions.cs:50-70 | the result of the packing loop and the flattening is the reference packing `PasswordBytes`, four bytes per word and ceil(n / 4) words |
| ByteArrays.HandleStep | MegaApiClient/Extensions.cs:55-58 | OR-ing character i into word i >> 2 takes every word from "positions below i handled" to "positions below i + 1 handled" |
| ByteArrays.NothingHandled | MegaApiClient/Extensions.cs:54 | the zeroed `uint[]` is the packing of no character |
| ByteArrays.WordsArePacked | MegaApiClient/Extensions.cs:54-58 | once all positions are handled, the array is the packed words |
| ByteArrays.ShiftedSlot | MegaApiClient/Extensions.cs:57 | the shift `24 - (i & 3) * 8` depends on i only through its slot in the word |
| ByteArrays.PartialWordSame | MegaApiClient/Extensions.cs:57 | handling position 4j + slot ORs that character's shifted bits into word j |
| ByteArrays.PartialWordOther | MegaApiClient/Extensions.cs:57 | handling a position of another word leaves word j unchanged |
| ByteArrays.WordBytes | MegaApiClient/Extensions.cs:62-68 | `BitConverter.GetBytes` reversed gives four bytes |
| ByteArrays.Flatten | MegaApiClient/Extensions.cs:60-69 | `SelectMany` over the words gives four bytes per word |
| ByteArrays.PackedWords | MegaApiClient/Extensions.cs:54 | the array has `(n + 3) >> 2` words |
| ByteArrays.FlattenAt | MegaApiClient/Extensions.cs:60-69 | byte 4j + k of the flattening is byte k of word j |
| ByteArrays.WordBytesOfFour | MegaApiClient/Extensions.cs:57-68 | byte k of a word is the low half of its character k ORed with the high half of character k + 1; the high half of the first character is shifted out |
| ByteArrays.PackedWordOfUnits | MegaApiClient/Extensions.cs:54-58 | a finished word is the OR of its four characters, each shifted into its slot, with missing positions reading as 0 |
| ByteArrays.ContributionAt | MegaApiClient/Extensions.cs:57 | the finished contribution of a slot is its character shifted into place, or 0 past the end |
| ByteArrays.PasswordByteInWord | MegaApiClient/Extensions.cs:50-70 | byte 4j + k of the password is byte k of the word built from characters 4j .. 4j + 3 |
| ByteArrays.PasswordByteAt | MegaApiClient/Extensions.cs:50-70 | every byte of the result, for any characters: the low half of character 4j + k ORed with the high half of character 4j + k + 1 when both lie in the same word, with positions past the string reading as 0 |
| ByteArrays.PasswordBytesOfNarrowChars | MegaApiClient/Extensions.cs:50-70 | for 8-bit characters the result is the characters, zero-padded to whole words |
| ByteArrays.MpiPayload | MegaApiClient/Extensions.cs:86-92 | fewer than two bytes fail on the header read; otherwise the slice succeeds exactly when `(bits + 7) / 8` payload bytes follow the header, and then it is those bytes, the fewest that hold `bits` bits; otherwise `Array.Copy` throws |
| ByteArrays.MpiPayloadOfEncoded | MegaApiClient/Extensions.cs:86-92 | a well-formed MPI number followed by anything gives back its payload |
| Base64Url.StdChar | MegaApiClient/Extensions.cs:20 | the standard alphabet character of a value decodes back to that value and is never '=', '-', '_' or ',' |
| Base64Url.UrlChar | MegaApiClient/Extensions.cs:21-22 | the URL-safe character is '-' exactly for 62 and '_' exactly for 63, and never '+', '/', '=' or ',' |
| Base64Url.StdChars | MegaApiClient/Extensions.cs:20 | one character per 6-bit group |
| Base64Url.UrlChars | MegaApiClient/Extensions.cs:21-22 | one character per 6-bit group |
| Base64Url.SextetsLength | MegaApiClient/Extensions.cs:20 | n bytes give 4 * (n / 3) groups, plus n % 3 + 1 for a partial final group |
| Base64Url.GroupRoundTrip | MegaApiClient/Extensions.cs:17-38 | three bytes come back from their four 6-bit groups |
| Base64Url.FromSextetsOfSextets | MegaApiClient/Extensions.cs:17-38 | bytes cut into 6-bit groups and reassembled are the original bytes |
| Base64Url.Pad | MegaApiClient/Extensions.cs:32 | `PadRight(n, '=')` of the empty string has n characters |
| Base64Url.TrailingPad | MegaApiClient/Extensions.cs:37 | at most two '=' are counted, never more than the text's length |
| Base64Url.Values | MegaApiClient/Extensions.cs:37 | one group value per character |
| Base64Url.DecodeStd | MegaApiClient/Extensions.cs:37 | `Convert.FromBase64String` fails only with `FormatException`, and succeeds only on a multiple of four characters, all standard before the padding |
| Base64Url.TrailingPadOfGroups | MegaApiClient/Extensions.cs:37 | after standard characters, the padding counted is exactly the '=' appended |
| Base64Url.DecodeStdOfGroups | MegaApiClient/Extensions.cs:37 | the standard decoder reads groups plus a valid padding back as their bytes |
| Base64Url.EncodedLength | MegaApiClient/Extensions.cs:20 | the standard encoding fills whole quartets, with at most two '=' and only after at least one group |
| Base64Url.DecodeStdOfEncodeStd | MegaApiClient/Extensions.cs:20-37 | `Convert.FromBase64String` inverts `Convert.ToBase64String` |
| Base64Url.Replace | MegaApiClient/Extensions.cs:21-22 | `StringBuilder.Replace(char, char)` keeps the length and maps exactly the matching characters |
| Base64Url.RemoveCharRemoves | MegaApiClient/Extensions.cs:23 | `Replace(s, string.Empty)` leaves no occurrence and never lengthens the text |
| Base64Url.RemoveCharAppend | MegaApiClient/Extensions.cs:23 | removal distributes over concatenation |
| Base64Url.RemoveCharAbsent | MegaApiClient/Extensions.cs:35 | removing a character that does not occur changes nothing |
| Base64Url.RemoveCharAll | MegaApiClient/Extensions.cs:23 | removing '=' from padding leaves nothing |
| Base64Url.ToBase64IsUnpaddedUrl | MegaApiClient/Extensions.cs:17-26 | `ToBase64` is the unpadded encoding of section 5 of RFC 4648: the groups in the URL-safe alphabet, (4n + 2) / 3 characters, every one URL-safe |
| Base64Url.SextetCountClosed | MegaApiClient/Extensions.cs:17-26 | the group count of n bytes is (4n + 2) / 3 |
| Base64Url.RestoreAlphabet | MegaApiClient/Extensions.cs:33-34 | mapping '-' and '_' back turns URL-safe groups into standard ones and leaves the padding alone |
| Base64Url.NormalizedOfUrl | MegaApiClient/Extensions.cs:30-35 | the text `FromBase64` builds from URL-safe groups plus padding is the standard text with the length-restoring padding |
| Base64Url.SextetCountMod | MegaApiClient/Extensions.cs:32 | `(4 - length % 4) % 4` restores exactly the padding the standard encoder would have written |
| Base64Url.NormalizedOfPadded | MegaApiClient/Extensions.cs:28-35 | URL-safe groups with none or all of their padding normalise to the standard encoding |
| Base64Url.FromBase64OfToBase64 | MegaApiClient/Extensions.cs:17-38 | `FromBase64(ToBase64(b))` succeeds with b, for every byte string |
| Base64Url.FromBase64OfPadded | MegaApiClient/Extensions.cs:28-38 | `FromBase64` also accepts the padded URL-safe form |
| Base64Url.FromBase64RejectsOneModFour | MegaApiClient/Extensions.cs:28-38 | a URL-safe text of length 4q + 1 always throws `FormatException` |
| RangePlan.PlanRanges | MegaApiClient/Extensions.cs:213-229 | the planning loop produces the reference plan |
| RangePlan.PlanContiguous | MegaApiClient/Extensions.cs:213-229 | P ranges; the first starts at 0; each starts right after its predecessor; the last ends at L - 1 |
| RangePlan.PlanLengths | MegaApiClient/Extensions.cs:218-228 | the first P - 1 ranges hold L / P bytes each, and the last holds L / P + L % P |
| RangePlan.PlanShortFile | MegaApiClient/Extensions.cs:213-229 | for L < P the first P - 1 ranges are the empty (0, -1) and the last covers the whole file |
| RangePlan.PlanBounds | MegaApiClient/Extensions.cs:213-229 | every range satisfies 0 <= start <= end + 1 <= L |
| RangePlan.PlanNonEmpty | MegaApiClient/Extensions.cs:213-229 | for L >= P every range is a non-empty interval inside [0, L - 1] |
| RangePlan.TilesTotal | MegaApiClient/Extensions.cs:213-229 | ranges that follow each other without gap from lo to hi have total length hi - lo |
| RangePlan.PlanTotal | MegaApiClient/Extensions.cs:213-229 | the range lengths add up to L |
| RangePlan.Pieces | MegaApiClient/Extensions.cs:242 | one piece per range |
| RangePlan.TilesPieces | MegaApiClient/Extensions.cs:213-229 | the pieces of gap-free ranges concatenate to the interval they cover |
| RangePlan.PlanPiecesConcat | MegaApiClient/Extensions.cs:213-229 | cutting a file by the plan and joining the pieces in range order gives the file |
| RangePlan.PlanTenInThree | MegaApiClient/Extensions.cs:213-229 | 10 bytes in 3 parts are planned as 0-2, 3-5, 6-9 |
| FileSys.FileSystem.constructor | MegaApiClient/Extensions.cs:203 | a file system holding the given named files and no temporary file |
| FileSys.FileSystem.Exists | MegaApiClient/Extensions.cs:203 | true exactly when the file is present |
| FileSys.FileSystem.ReadAllBytes | MegaApiClient/Extensions.cs:266 | the file's bytes, or `FileNotFoundException` |
| FileSys.FileSystem.Delete | MegaApiClient/Extensions.cs:205 | removes the file, and nothing else changes |
| FileSys.FileSystem.OpenAppend | MegaApiClient/Extensions.cs:208 | `FileMode.Append` creates the file empty when it is missing and keeps it otherwise |
| FileSys.FileSystem.Append | MegaApiClient/Extensions.cs:267 | the data is added at the end of the file, and nothing else changes |
| FileSys.FileSystem.CreateTempFile | MegaApiClient/Extensions.cs:246 | a new empty file under a name not in use |
| FileSys.FileSystem.WriteAll | MegaApiClient/Extensions.cs:247-249 | `FileMode.Create` followed by the copy leaves the file holding exactly the data |
| Downloader.MinExists | MegaApiClient/Extensions.cs:264 | a non-empty key set has a least key |
| Downloader.SortedKeys | MegaApiClient/Extensions.cs:264 | `OrderBy(b => b.Key)` lists exactly the keys, strictly increasing |
| Downloader.SortedKeysHead | MegaApiClient/Extensions.cs:264 | the ordering starts with the least key, followed by the ordering of the others |
| Downloader.IncreasingUnique | MegaApiClient/Extensions.cs:264 | two increasing listings of the same keys are equal, so the merge order does not depend on insertion order |
| Downloader.KeysBelow | MegaApiClient/Extensions.cs:250 | the keys 0 .. n - 1 |
| Downloader.Positions | MegaApiClient/Extensions.cs:250 | the sequence 0, 1, .., n - 1 |
| Downloader.SortedKeysBelow | MegaApiClient/Extensions.cs:250-264 | the keys 0 .. n - 1 are merged in the order 0, 1, .., n - 1 |
| Downloader.Contents | MegaApiClient/Extensions.cs:266 | one file content per key |
| Downloader.MergedStateStart | MegaApiClient/Extensions.cs:264 | before the first turn of the merge, nothing has changed |
| Downloader.Merge | MegaApiClient/Extensions.cs:264-269 | the merge deletes every temporary file and appends their bytes to the destination in ascending key order; nothing else changes |
| Downloader.AppendPart | MegaApiClient/Extensions.cs:266-268 | one turn of the merge: the state with one more key merged |
| Downloader.OrderStep | MegaApiClient/Extensions.cs:264 | taking the least remaining key keeps the merged keys a prefix of the ascending order |
| Downloader.MergeStep | MegaApiClient/Extensions.cs:266-268 | the next key's file is still present with its original bytes; appending them and deleting the file gives the state with that key merged |
| Downloader.LeadingSuccesses | MegaApiClient/Extensions.cs:238-255 | the number of ranges answered before the first failure, which then is a failure |
| Downloader.Chunks | MegaApiClient/Extensions.cs:249 | one chunk per answered range |
| Downloader.StoredStep | MegaApiClient/Extensions.cs:246-250 | saving one more chunk in the next temporary file extends the stored state by that chunk |
| Downloader.ChunksAppend | MegaApiClient/Extensions.cs:249 | one more answered range adds its bytes as the last chunk |
| Downloader.TryAdd | MegaApiClient/Extensions.cs:250 | `TryAdd` adds the entry when the key is new and leaves the dictionary alone otherwise |
| Downloader.SaveToTempFile | MegaApiClient/Extensions.cs:246-249 | a new temporary file, the next in creation order, holds the bytes copied into it (the whole body, or the part copied before the stream broke) |
| Downloader.Saved | MegaApiClient/Extensions.cs:244-250 | what the loop's temporary files hold when it stops after n answered ranges: the n bodies in order, then the partial copy of range n if that copy broke |
| Downloader.FetchAll | MegaApiClient/Extensions.cs:237-257 | after the loop: one new temporary file per leading answered range, holding its bytes, plus one holding the partial copy when the next range's body broke mid-copy, with the old files untouched; if every range is answered, the dictionary maps key j to the j-th new file and `index` is P; otherwise the first failure is the result |
| Downloader.LeadingSuccessesStop | MegaApiClient/Extensions.cs:238-255 | the leading-success count is the position of the first failure |
| Downloader.SavedAtStop | MegaApiClient/Extensions.cs:238-257 | where the loop stops, the saved contents are the received bodies, plus the partial copy when the stopping response broke |
| Downloader.Download | MegaApiClient/Extensions.cs:167-273 | a failed probe changes nothing; when every range is answered, the result is (L, path, P) and the destination holds the chunks in range order, with every other file as before; otherwise the first failure is the result, the destination is empty and the temporary files of the answered ranges remain, together with the partly written file of a broken copy |
| Downloader.MergeReadyAfterFetch | MegaApiClient/Extensions.cs:237-264 | the files the fetch loop leaves can be merged |
| Downloader.ContentsAfterFetch | MegaApiClient/Extensions.cs:249-266 | key j's temporary file holds chunk j |
| Downloader.GoneAfterFetch | MegaApiClient/Extensions.cs:246-268 | merging all keys deletes exactly the new temporary files |
| Downloader.MergedAfterFetch | MegaApiClient/Extensions.cs:237-269 | merging in key order after the fetch loop leaves the files from before, with the chunks in the destination |
| Downloader.ServedPlanRestores | MegaApiClient/Extensions.cs:213-255 | for a server that holds the file, with L >= P, every range is answered and the chunks in key order are the file |
| Downloader.ShortFileFails | MegaApiClient/Extensions.cs:225-242 | for L < P the first range is refused by `AddRange` and nothing is fetched |
| Downloader.StoredNothing | MegaApiClient/Extensions.cs:246-250 | with no chunk stored the files are as before |
| Downloader.DownloadFromServer | MegaApiClient/Extensions.cs:167-273 | a complete download from a server holding the file: the destination holds the original bytes, nothing else changes, and `ParallelDownloads` is P |
| Downloader.DownloadShortFile | MegaApiClient/Extensions.cs:203-242 | a file shorter than the part count fails with `ArgumentOutOfRangeException`, leaving the destination empty and no temporary file |
| Downloader.DownloadTenBytes | MegaApiClient/Extensions.cs:167-273 | ten bytes downloaded in three parts into an empty file system arrive intact |

## Left out

- Concurrency: `Parallel.ForEach` is modelled as a loop over the ranges in order. Without that order:
  - the unsynchronised `index++` could skip or repeat a key;
  - a repeated key makes `TryAdd` drop a temporary file;
  - the chunks could be stored under keys in another order.
  The model therefore states no property about interleavings.
- Downloader.Download: on a failure the model stops at the first range whose response is not received in full. The parallel loop in the source may fetch other ranges anyway and aggregates the exceptions; the model keeps only the first failure in range order.
- The HEAD request and `long.Parse` of `Content-Length` are not modelled; the probe's outcome is the parameter `contentLength`.
- The ranged GET (`HttpWebRequest.GetResponse` and `CopyTo`) is the parameter `fetch`, whose response is one of three outcomes: refused before any temporary file exists, received in full, or broken after a prefix was copied into the temporary file. Only `AddRange`'s own argument check is modelled.
- `Environment.ProcessorCount` is the parameter `processorCount`.
- `ServicePointManager` settings and the certificate-validation callback are process-wide configuration: nothing in the model depends on them.
- `TimeTaken` and `DateTime.Now` are left out (clocks), as are `ToDateTime` and `ToEpoch`.
- `ToUTF8String` and `ToBytes` are left out: they are `Encoding.UTF8` calls with no logic of their own.
- `FromMPINumber`: the `BigInteger` constructor is left out; the model stops at the payload bytes handed to it.
- The `Convert` base64 routines are modelled as the strict codec of section 4 of RFC 4648. `Convert.FromBase64String`'s skipping of whitespace is not modelled, and its treatment of non-zero leftover bits in the final group is not modelled either: the model ignores those bits.
- ByteArrays.CopySubArray: `default(T)` is the parameter `zero`.
- Stream disposal is not modelled. Neither are file-system errors other than a missing file, such as a full disk or a locked file.
- The other files of the library (the `WebClient` implementation and the interfaces) are not part of this model.
