# kstreamdb tick store: a Dafny model

This project models kstreamdb, a Go library that persists a stream of market-depth snapshots ("ticks") in per-second files under per-day directories. Two parts are covered.

- **The partitioned tick store (db.go).**
  - A tick's timestamp becomes `DataPath/YYYYMMDD/hhmmss`, plus the suffix `_NNN` and `.mpz`. The suffix is the smallest non-negative number whose path is not yet a file.
  - `Insert` writes a non-empty batch to one fresh file.
  - Loading a file list concatenates the files' batches in list order. A worker pool does the decoding; the result does not depend on the order in which the workers finish.
  - Playback hands every tick of every walked file to a callback, in walk order.
  - `GetDates` keeps the directory names that parse as `YYYYMMDD`.
  - `compressFolder` groups the walked files by the first four bytes of the name (hour and minute). Each group of two or more files is replaced by one file holding their ticks.
- **The batching queue (queue.go).** A fixed-capacity array of ticks with a length counter. `isEmpty` is modelled as written: it tests `len >= capacity`, the same condition as `isFull`.

How the environment is modelled:
- The filesystem is a `Disk` object holding a map from path to file image. Its `answer` function says how the OS answers a write at each path. It is one fixed function for the whole session, so a path whose create fails once fails on every later write too, such as a second merged `Insert` within one `compressFolder` that picks the same free path.
- The msgpack+zlib codec is an image datatype, `Encoded(batch) | Unreadable`. `Decode(Encode(b)) == Some(b)` is proved.
- What `filepath.Walk` visits and what `ioutil.ReadDir` lists are inputs. Go walks (db.go:206, 249) and lists (db.go:176) in lexical order of the names. The model takes the entries in any order, so its contracts cover the lexical order too.
- The worker pool's completion order is an input: any order that runs every job once.

Files:
- `ticks.dfy`: the record model.
- `decimal.dfy`: zero-padded decimal text.
- `timefmt.dfy`: the Go time layouts `20060102` and `150405`.
- `store.dfy`: paths, suffix allocation, Insert, reassembly, playback and GetDates.
- `compaction.dfy`: `compressFolder`.
- `queue.dfy`: `tickQueue`.
- `wrappers.dfy`: `Option`.

Behaviours of db.go a reader may not expect, all modelled as the code has them:
- The suffix is always written, `_000` included. It is never omitted for the first file of a second.
- Under `DataPath` there is one directory level, the date `YYYYMMDD`, holding files named `hhmmss_NNN.mpz`. Hour, minute and second have no directories of their own.
- `Insert` returns nil even when the write fails (db.go:169-170).
- Compaction removes every file of a merged group, including files that decode to nothing. They are not kept for inspection.
- The merged file gets a fresh path after the removals. It therefore often takes the name of a file it replaced, such as the group's `_000` file. An original path does not always disappear.

## Model

| member | source | states |
|---|---|---|
| Decimal.Pad | db.go:153 | `%03d`-style text is all decimal digits and at least as wide as the requested width |
| Decimal.ValuePad | db.go:153 | reading padded text back as a number gives the number written |
| Decimal.PadValue | db.go:180 | a digit field of width w, re-padded to w, is the same text: fixed-width fields are canonical |
| Decimal.PadWidth | db.go:153 | a number below 10^w is written in exactly w characters, so suffixes below 1000 take three |
| Decimal.PadInjective | db.go:153 | distinct numbers give distinct padded texts at one width |
| TimeFormat.FormatDate | db.go:149 | the `20060102` text is all digits, at least eight long, and exactly eight for a four-digit year and two-digit month and day |
| TimeFormat.FormatClock | db.go:149 | the `150405` text is all digits, at least six long, and exactly six for two-digit fields |
| TimeFormat.ParseDate | db.go:180 | a name that is not eight digits is refused; a name accepted gives a valid calendar date with a four-digit year |
| TimeFormat.ParseFormatDate | db.go:180 | a valid date with a four-digit year, formatted as `20060102`, parses back to itself |
| TimeFormat.FormatParseDate | db.go:180 | a name that parses as `20060102` is a valid date with year below 10000 and is exactly that date's text |
| TimeFormat.ClockPrefix | db.go:149 | the `150405` text is six characters: the first four are hour and minute, the last two the second |
| TimeFormat.ClockInjective | db.go:149 | two instants have the same `150405` text exactly when hour, minute and second are all equal, so the base path names one second |
| TimeFormat.SameMinuteIffSamePrefix | db.go:197 | two instants share the four-character key exactly when hour and minute are equal |
| Store.DecodeEncode | db.go:93-127 | decoding an encoded batch gives the batch back |
| Store.ReadBatch | db.go:129-137 | a missing path or an undecodable file reads as no ticks; a file holding an encoded batch reads as that batch |
| Store.JoinPath | db.go:149 | the data path is a prefix and the relative path a suffix, with a single `/` before the relative path and at most one character added |
| Store.DB.BasePath | db.go:149 | the base path is the date directory, `/`, then the `150405` clock text |
| Store.DB.TickPath | db.go:153 | no contract of its own; TickPathLayout, TickPathInjective and ClockInjective state its layout, that its suffix field reads back, and that it is injective in the suffix |
| Store.TickFileNameLayout | db.go:149-153 | a tick file name starts with hour and minute, then the second, then `_`; the suffix field has at least three digits (exactly three below 1000) and reads back as the suffix |
| Store.TickFileNameNoSlash | db.go:149-153 | a tick file name holds no `/`, so it is the last element of its path |
| Store.TickPathLayout | db.go:149-153 | a tick path is the date directory, `/`, then a slash-free name starting with `hhmm`; the suffix has at least three digits and reads back as the suffix |
| Store.TickPathInjective | db.go:153 | two suffixes give the same path only if they are equal |
| Store.FreeSuffix | db.go:151-159 | counting up from a start, the suffix reached names no existing file, and every suffix passed over names one |
| Store.GenerateTickFilePath | db.go:148-160 | the returned path is fresh and has the form base + `_` + suffix + `.mpz`, where every smaller suffix's path exists (minimal) |
| Store.InsertEffect | db.go:163-171 | an empty batch changes nothing; otherwise no existing file changes and at most the fresh path is added; a good write makes it hold the whole batch, a failed create adds nothing, a failed write leaves an unreadable file |
| Store.WriteMsgpackFile | db.go:81-91 | the write at a path changes only that path, as the OS answers; the error reports a failed create only |
| Store.Insert | db.go:163-171 | returns nil in every case, and the new files are InsertEffect of the old ones |
| Store.SameSecondSuffixes | db.go:151-159 | start from a second that has no files. N successful inserts whose first ticks fall in that second land in suffixes 0..N-1, in insertion order, and no higher suffix is used |
| Store.LoadedTicksAppend | db.go:289-293 | reassembly of a concatenated file list is the concatenation of the reassemblies |
| Store.LoadedTicksCount | db.go:289-293 | reassembly holds exactly as many ticks as the listed files together |
| Store.LoadedTicksOfEmptyFiles | db.go:265-269 | files that are missing or decode to nothing contribute nothing |
| Store.LoadDataFromFilesList | db.go:252-295 | whatever order the workers finish in, the result is the files' batches concatenated in list order |
| Store.PlaybackFolder | db.go:235-250 | the callback receives every tick of every walked entry, file by file in walk order; a directory is no file of the store and gives nothing |
| Store.InsertThenPlayback | db_test.go:82-90 | in an empty store, a batch inserted successfully is played back tick for tick by a walk that visits its file once |
| Store.GetDates | db.go:174-188 | the error is always nil; a failed listing gives no dates; otherwise the dates of the directory entries that parse, in listing order |
| Store.DatesInMembership | db.go:178-185 | a date is returned exactly when some directory entry's name parses to it |
| Store.DatesInCanonical | db.go:180 | every returned date is valid, has a four-digit year, and is named by its own canonical text |
| Store.InsertedDayIsListed | db.go:174-188 | the day directory Insert writes a valid tick under is reported by GetDates as that tick's date |
| Compaction.MinuteKey | db.go:197 | the key is four characters and a prefix of the name |
| Compaction.MinuteKeyOfTickFile | db.go:197 | the key of a tick file's name is its hour and minute |
| Compaction.SameKeyIffSameMinute | db.go:197 | two tick files share a key exactly when their instants have the same hour and minute, in both directions |
| Compaction.GroupByMinute | db.go:192-206 | the keys are the walked files' first-four-character names in first-seen order; each key's group is its files' paths in walk order |
| Compaction.FirstSeenKeysMembership | db.go:197-201 | a key is listed exactly when some walked file carries it |
| Compaction.FirstSeenKeysDistinct | db.go:198-201 | no key is listed twice |
| Compaction.FirstSeenKeysPrefix | db.go:198-201 | a key's position follows its first appearance: the keys of any prefix of the walk are a prefix of the keys |
| Compaction.GroupsPartitionFiles | db.go:195-203 | every walked file lands in exactly one group: the group sizes add up to the file count |
| Compaction.RemoveFiles | db.go:210-212 | the listed paths are gone and nothing else changes |
| Compaction.MergeGroup | db.go:208-214 | a group of at most one file changes nothing. Every file outside the group keeps its content. A group that decodes to nothing is only removed. Otherwise the one file that may appear besides those kept is the fresh path of the merged batch |
| Compaction.CompressFolder | db.go:191-217 | the files afterwards are those of merging, key by key in first-seen order, every group of two or more files |
| Compaction.MergeGroupConserves | db.go:208-214 | after a merge the group's files are gone and one fresh file exists. That file holds the group's ticks in walk order, as many as its members held, and every other file is untouched |
| Compaction.MergeGroupOfUnreadable | db.go:209-213 | a group whose files all decode to nothing is deleted and nothing is written |
| Compaction.CompactionOfSingletons | db.go:207-216 | a folder with no two files in one minute is left exactly as it was |
| Compaction.CompactionKeepsOthers | db.go:207-216 | a file in no merged group is neither removed nor overwritten by compaction |
| Queue.TickQueue.constructor | queue.go:9-15 | a new queue has length 0, the given capacity, and a fresh array of that many slots |
| Queue.TickQueue.IsFull | queue.go:17-19 | under the invariant, the queue is full exactly when its length has reached its capacity |
| Queue.TickQueue.IsEmpty | queue.go:21-23 | as written: under the invariant, "empty" holds exactly when the length has reached the capacity |
| Queue.TickQueue.Clear | queue.go:25-27 | the length becomes 0, and the array and its contents are untouched |
| Queue.TickQueue.Put | queue.go:29-34 | a non-full queue stores the tick at index len and grows by one, other slots unchanged; a full queue is unchanged; 0 <= len <= capacity is kept |
| Queue.PutAll | queue.go:17-34 | a queue offered k ticks takes the first `capacity - len` of them and then becomes full. So from empty, exactly `capacity` puts make `isFull` true, and fewer leave it false |
| Queue.IsEmptyIsIsFull | queue.go:17-23 | isEmpty answers exactly as isFull in every state |
| Queue.ClearedQueueNotEmpty | queue.go:21-27 | a cleared queue of positive capacity holds nothing, yet isEmpty is false |
| Queue.HasNoTicksIffNothingQueued | queue.go:21-23 | the intended test, len == 0, holds exactly when no tick is queued |

## Left out

- The msgpack and zlib byte formats (db.go:93-127) are foreign libraries, so a file's content is an image datatype, not bytes. A truncated or undecodable file decodes to nothing: a partly filled slice that msgpack may leave behind is not modelled.
- Directories are not map entries. So `createDirForFile`'s `MkdirAll` and its `panic` (db.go:71-79) are not modelled, and neither is the directory half of `fileExists` (db.go:63-69): a path in the map is always a regular file. Nor is its nil-`FileInfo` panic: when `os.Stat` fails with an error other than not-exist, `info` is nil and `!info.IsDir()` panics (db.go:63-67). For example, when a regular file sits at `DataPath/YYYYMMDD`, `os.Stat` of a candidate below it fails with ENOTDIR and Insert panics. The model has no such error: a file in the map does not block the paths below it, so Insert writes the new file there.
- Store.JoinPath: `path.Join` is modelled for a clean `DataPath` only. Removing `.`, `..` and doubled slashes is not modelled.
- Store.PlaybackFolder: the walk is given as the entries visited without error, in walk order. A walk error that stops `filepath.Walk` and is returned (db.go:238-240, 249) is not modelled, and the callback is modelled as the sequence of ticks it receives.
- Store.LoadDataFromFilesList: the goroutines, channels and mutex (db.go:254-287) are replaced by one sequential pass over a given completion order, which every real schedule is an instance of.
- Compaction.CompressFolder: the merge loads its groups in submission order. Any other order gives the same data by Store.LoadDataFromFilesList's contract.
- Compaction.CompressFolder: requires every walked file name to have at least four characters, because `info.Name()[0:4]` panics otherwise (db.go:197).
- Compaction.MinuteKey, Compaction.GroupByMinute, Compaction.CompressFolder: names are modelled as characters, not bytes. The key, and the length the requires asks for, therefore match Go's byte slicing only on ASCII names. Those are all the names the store writes (digits, `_` and `.mpz`). On a foreign non-ASCII name ("éé", or "éab1" beside "éab2") Go's byte key differs from the model's character key.
- `Compress` (db.go:220-230), `loadDataFromFolder`, `LoadDataForDate`, `LoadAllData` (db.go:297-323) and `PlaybackDate`, `PlaybackAll`, `PlaybackToday` (db.go:326-339) only choose which folder to walk or run one of the modelled operations on each listed folder. The walk is an input here, so they add nothing further. `time.Now` (db.go:338) is a clock.
- Compaction.RemoveFiles, Store.ReadBatch: removing and reading a file of the store always succeed. In Go, `os.Remove`'s error is ignored (db.go:211), so a file the OS refuses to remove stays, and the merged `Insert` then writes its ticks a second time. `os.Open`'s error is returned (db.go:130-133), so a group file that fails to open contributes nothing while its batch is intact, and db.go:211 then deletes it and its ticks are lost. Neither duplication nor loss is modelled; the contracts of Compaction.RemoveFiles, Compaction.MergeGroup and Compaction.MergeGroupConserves hold only when every remove and open succeeds.
- Queue.TickQueue.constructor: requires a non-negative capacity, because `make` panics on a negative length (queue.go:11). The panic is not modelled.
- `SetupDatabase` (db.go:140-147) provisions a temporary directory. This is I/O.
- The suffix counter is an `int64` (db.go:151). Its overflow would need 2^63 files and is not modelled.
- Times are calendar fields in UTC with a non-negative year. Time zones, negative years and monotonic clock readings are not modelled. `time.Parse` accepts four-digit years only, as modelled.
- Float32 fields are opaque bit patterns. No arithmetic is done on them and none is modelled.
- pubsub.go (a nanomsg socket plus an in-process fan-out) and recorder.go (a goroutine with a retry sleep) are network I/O and concurrency. The recorder does not use `tickQueue`.
- db_test.go is used only as evidence of the insert/playback round trip. Its `ConfigureDB` and its `func([]TickData)` callback do not match db.go.

## Findings

| source | as written | input that shows it | evidently intended | confidence | as-written member | corrected member |
|---|---|---|---|---|---|---|
| queue.go:21-23 | `isEmpty` returns `q.len >= q.capacity`, the same test as `isFull` | a queue of capacity 3 after `clear()`: len 0, so `isEmpty()` is false; after three puts it is true | `isEmpty` is true exactly when `len == 0` | high (not executed) | Queue.ClearedQueueNotEmpty | Queue.HasNoTicksIffNothingQueued |
