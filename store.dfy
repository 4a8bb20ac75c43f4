/**
 * The partitioned tick store of db.go. The filesystem is a map from path to file image,
 * held by a Disk object that Insert and compaction update; a directory walk and a directory
 * listing are given as values. Go delivers both in lexical order of the names; the
 * contracts here hold for entries in any order.
 */
module Store {
  import opened Wrappers
  import opened Ticks
  import opened Decimal
  import opened TimeFormat

  /** What a file holds: the encoded-then-compressed image of one batch, or bytes no decoder accepts. */
  datatype FileImage = Encoded(batch: seq<TickData>) | Unreadable

  /** `encodeTicks(ticks, true)`: msgpack then zlib, as an opaque image of the batch. */
  function Encode(ticks: seq<TickData>): FileImage { Encoded(ticks) }

  /** `decodeTicks(r, &ticks, true)`: None where zlib or msgpack reject the bytes. */
  function Decode(image: FileImage): Option<seq<TickData>>
  {
    match image
    case Encoded(b) => Some(b)
    case Unreadable => None
  }

  lemma DecodeEncode(ticks: seq<TickData>)
    ensures Decode(Encode(ticks)) == Some(ticks)
  {
  }

  type Files = map<string, FileImage>

  /**
   * `readMsgpackFile(p, ticks)` into a fresh empty slice: a missing path, a directory
   * or an undecodable file leaves the slice empty. Opening a file of the store always succeeds.
   */
  function ReadBatch(fs: Files, p: string): (ticks: seq<TickData>)
    ensures p !in fs ==> ticks == []
    ensures p in fs && fs[p] == Unreadable ==> ticks == []
    ensures forall b :: p in fs && fs[p] == Encode(b) ==> ticks == b
  {
    if p in fs then (match Decode(fs[p]) case Some(b) => b case None => []) else []
  }

  /** How the OS answers `writeMsgpackFile` at one path. */
  datatype WriteOutcome =
    | Written       // os.Create and file.Write succeed
    | CreateFailed  // os.Create fails: no file appears
    | WriteFailed   // the file is created but file.Write's error is ignored: a truncated file

  /** The OS, seen by the store: the files present and how each path answers a write. */
  class Disk {
    var files: Files
    const answer: string -> WriteOutcome

    constructor (files: Files, answer: string -> WriteOutcome)
      ensures this.files == files && this.answer == answer
    {
      this.files := files;
      this.answer := answer;
    }
  }

  /** `path.Join(dir, rest)` for a clean dir and a clean relative rest. */
  function JoinPath(dir: string, rest: string): (path: string)
    ensures dir == [] ==> path == rest
    ensures dir != [] ==>
      && |dir| + |rest| <= |path| <= |dir| + |rest| + 1
      && path[..|dir|] == dir
      && path[|path| - |rest|..] == rest
      && path[|path| - |rest| - 1] == '/'
  {
    if dir == [] then rest
    else if dir[|dir| - 1] == '/' then dir + rest
    else dir + "/" + rest
  }

  /** One entry the walk visits: its path, `info.Name()` and `info.IsDir()`. */
  datatype Visit = Visit(path: string, name: string, isDir: bool)

  /** One entry of `ioutil.ReadDir`. */
  datatype DirEntry = DirEntry(name: string, isDir: bool)

  datatype DB = DB(dataPath: string) {
    /**
     * `path.Join(DataPath, dt.Format("20060102/150405"))`: the date directory, a separator,
     * then the clock text.
     */
    function BasePath(t: DateTime): (path: string)
      ensures path == DayDir(t) + "/" + FormatClock(t)
    {
      JoinPath(dataPath, FormatDate(DateOf(t)) + "/" + FormatClock(t))
    }

    /** The candidate path for one suffix: base + `fmt.Sprintf("_%03d", suffix)` + ".mpz". */
    function TickPath(t: DateTime, suffix: nat): string
    {
      BasePath(t) + "_" + Pad(suffix, 3) + ".mpz"
    }

    /** The date directory a tick of instant t is written under. */
    function DayDir(t: DateTime): string
    {
      JoinPath(dataPath, FormatDate(DateOf(t)))
    }
  }

  /** The file name (last path element) of a tick file. */
  function TickFileName(t: DateTime, suffix: nat): string
  {
    FormatClock(t) + "_" + Pad(suffix, 3) + ".mpz"
  }

  /**
   * A tick file's name: the hour and minute (the compaction key), the second, `_`, the
   * suffix written with at least three digits and reading back as the suffix, then ".mpz".
   */
  lemma TickFileNameLayout(t: DateTime, suffix: nat)
    requires t.hour < 24 && t.minute < 60 && t.second < 60
    ensures |TickFileName(t, suffix)| >= 14
    ensures TickFileName(t, suffix)[..4] == Pad(t.hour, 2) + Pad(t.minute, 2)
    ensures TickFileName(t, suffix)[4..6] == Pad(t.second, 2)
    ensures TickFileName(t, suffix)[6] == '_'
    ensures suffix < 1000 ==> |Pad(suffix, 3)| == 3
    ensures Value(Pad(suffix, 3)) == suffix
  {
    ClockPrefix(t);
    ValuePad(suffix, 3);
    if suffix < 1000 {
      PadWidth(suffix, 3);
    }
    var name := TickFileName(t, suffix);
    assert name[..6] == FormatClock(t);
    assert name[..4] == FormatClock(t)[..4];
    assert name[4..6] == FormatClock(t)[4..];
  }

  /** A tick file's name holds no separator, so it is the last element of its path. */
  lemma TickFileNameNoSlash(t: DateTime, suffix: nat)
    requires t.hour < 24 && t.minute < 60 && t.second < 60
    ensures '/' !in TickFileName(t, suffix)
  {
    ClockPrefix(t);
    var name := TickFileName(t, suffix);
    forall i | 0 <= i < |name| ensures name[i] != '/' {
      if i < 6 {
        assert name[i] == FormatClock(t)[i];
      } else if 7 <= i < 7 + |Pad(suffix, 3)| {
        assert name[i] == Pad(suffix, 3)[i - 7];
      }
    }
  }

  /**
   * The path layout: date directory, `/`, then the file name, whose first four characters
   * are hour and minute, which holds no separator, and whose suffix field reads back.
   */
  lemma TickPathLayout(db: DB, t: DateTime, suffix: nat)
    requires t.hour < 24 && t.minute < 60 && t.second < 60
    ensures db.TickPath(t, suffix) == db.DayDir(t) + "/" + TickFileName(t, suffix)
    ensures |TickFileName(t, suffix)| >= 14
    ensures TickFileName(t, suffix)[..4] == Pad(t.hour, 2) + Pad(t.minute, 2)
    ensures '/' !in TickFileName(t, suffix)
    ensures suffix < 1000 ==> |Pad(suffix, 3)| == 3
    ensures Value(Pad(suffix, 3)) == suffix
  {
    TickFileNameLayout(t, suffix);
    TickFileNameNoSlash(t, suffix);
  }

  /** Distinct suffixes give distinct paths. */
  lemma TickPathInjective(db: DB, t: DateTime, a: nat, b: nat)
    requires db.TickPath(t, a) == db.TickPath(t, b)
    ensures a == b
  {
    var base := db.BasePath(t);
    var pa, pb := Pad(a, 3), Pad(b, 3);
    var x := db.TickPath(t, a);
    assert |pa| == |pb|;
    assert x[|base| + 1 .. |base| + 1 + |pa|] == pa;
    assert db.TickPath(t, b)[|base| + 1 .. |base| + 1 + |pb|] == pb;
    PadInjective(a, b, 3);
  }

  /** The candidate paths for suffixes 0 .. n-1. */
  function PathsBelow(db: DB, t: DateTime, n: nat): set<string>
  {
    set j | 0 <= j < n :: db.TickPath(t, j)
  }

  lemma PathsBelowStep(db: DB, t: DateTime, n: nat)
    ensures PathsBelow(db, t, n + 1) == PathsBelow(db, t, n) + {db.TickPath(t, n)}
    ensures db.TickPath(t, n) !in PathsBelow(db, t, n)
  {
    if db.TickPath(t, n) in PathsBelow(db, t, n) {
      var j :| 0 <= j < n && db.TickPath(t, j) == db.TickPath(t, n);
      TickPathInjective(db, t, j, n);
    }
  }

  /**
   * The suffix `generateTickFilePath` settles on when it starts counting at `from`:
   * the first one whose path is not taken, every one before it being taken.
   */
  function FreeSuffix(db: DB, fs: Files, t: DateTime, from: nat): (r: nat)
    ensures r >= from
    ensures db.TickPath(t, r) !in fs
    ensures forall j :: from <= j < r ==> db.TickPath(t, j) in fs
    decreases fs.Keys - PathsBelow(db, t, from)
  {
    if db.TickPath(t, from) !in fs then from
    else
      TakenSuffixShrinks(db, fs, t, from);
      FreeSuffix(db, fs, t, from + 1)
  }

  /** Stepping past a taken suffix leaves fewer files not yet counted. */
  lemma TakenSuffixShrinks(db: DB, fs: Files, t: DateTime, n: nat)
    requires db.TickPath(t, n) in fs
    ensures fs.Keys - PathsBelow(db, t, n + 1) < fs.Keys - PathsBelow(db, t, n)
  {
    PathsBelowStep(db, t, n);
    var p := db.TickPath(t, n);
    assert p in fs.Keys - PathsBelow(db, t, n);
    assert p !in fs.Keys - PathsBelow(db, t, n + 1);
  }

  /** The path a write of a batch whose first tick is at t lands on. */
  function NewFilePath(db: DB, fs: Files, t: DateTime): string
  {
    db.TickPath(t, FreeSuffix(db, fs, t, 0))
  }

  /** db.go:148-160: count suffixes upward from 0 until the candidate path names no file. */
  method GenerateTickFilePath(db: DB, fs: Files, t: DateTime) returns (fpath: string)
    ensures fpath == NewFilePath(db, fs, t)
    ensures fpath !in fs
    ensures exists s: nat :: fpath == db.TickPath(t, s) && forall j :: 0 <= j < s ==> db.TickPath(t, j) in fs
  {
    var filePath := db.BasePath(t);
    var suffixID: nat := 0;
    while true
      invariant FreeSuffix(db, fs, t, suffixID) == FreeSuffix(db, fs, t, 0)
      invariant forall j :: 0 <= j < suffixID ==> db.TickPath(t, j) in fs
      decreases fs.Keys - PathsBelow(db, t, suffixID)
    {
      var candidate := filePath + "_" + Pad(suffixID, 3) + ".mpz";
      if candidate !in fs {
        return candidate;
      }
      TakenSuffixShrinks(db, fs, t, suffixID);
      suffixID := suffixID + 1;
    }
  }

  /** The files after `writeMsgpackFile(p, ticks)` answered with `outcome`. */
  function WriteEffect(fs: Files, p: string, ticks: seq<TickData>, outcome: WriteOutcome): Files
  {
    match outcome
    case Written => fs[p := Encode(ticks)]
    case CreateFailed => fs
    case WriteFailed => fs[p := Unreadable]
  }

  /**
   * The files after `Insert(ticks)`: nothing on an empty batch; otherwise at most one
   * new entry, at the fresh path of the first tick's instant, and no existing file touched.
   */
  function InsertEffect(db: DB, fs: Files, ticks: seq<TickData>, answer: string -> WriteOutcome): (fs': Files)
    ensures ticks == [] ==> fs' == fs
    ensures forall q :: q in fs ==> q in fs' && fs'[q] == fs[q]
    ensures ticks != [] ==>
      var p := NewFilePath(db, fs, ticks[0].timestamp);
      p !in fs &&
      fs'.Keys <= fs.Keys + {p} &&
      (answer(p) == Written ==> p in fs' && ReadBatch(fs', p) == ticks) &&
      (answer(p) == CreateFailed ==> fs' == fs) &&
      (answer(p) == WriteFailed ==> p in fs' && ReadBatch(fs', p) == [])
  {
    if ticks == [] then fs
    else
      var p := NewFilePath(db, fs, ticks[0].timestamp);
      WriteEffect(fs, p, ticks, answer(p))
  }

  /** db.go:81-91. The returned error is os.Create's only. */
  method WriteMsgpackFile(disk: Disk, fpath: string, ticks: seq<TickData>) returns (err: Option<string>)
    modifies disk
    ensures disk.files == WriteEffect(old(disk.files), fpath, ticks, disk.answer(fpath))
    ensures err.None? <==> disk.answer(fpath) != CreateFailed
  {
    match disk.answer(fpath)
    case Written =>
      disk.files := disk.files[fpath := Encode(ticks)];
      err := None;
    case CreateFailed =>
      err := Some("create failed");
    case WriteFailed =>
      disk.files := disk.files[fpath := Unreadable];
      err := None;
  }

  /** db.go:163-171. */
  method Insert(db: DB, disk: Disk, ticks: seq<TickData>) returns (err: Option<string>)
    modifies disk
    ensures err == None
    ensures disk.files == InsertEffect(db, old(disk.files), ticks, disk.answer)
  {
    if |ticks| == 0 {
      return None;
    }
    var fpath := GenerateTickFilePath(db, disk.files, ticks[0].timestamp);
    var _ := WriteMsgpackFile(disk, fpath, ticks);
    return None;
  }

  /** A sequence of Insert calls, in order. */
  function InsertAll(db: DB, fs: Files, batches: seq<seq<TickData>>, answer: string -> WriteOutcome): Files
    decreases |batches|
  {
    if batches == [] then fs
    else InsertEffect(db, InsertAll(db, fs, batches[..|batches| - 1], answer), batches[|batches| - 1], answer)
  }

  /**
   * N batches whose first ticks fall in the same second, written into a bucket that holds
   * no tick file yet, land on suffixes 0, 1, …, N-1 in insertion order.
   */
  lemma {:induction false} SameSecondSuffixes(db: DB, fs: Files, t: DateTime,
                                              batches: seq<seq<TickData>>, answer: string -> WriteOutcome)
    requires forall j: nat :: db.TickPath(t, j) !in fs
    requires forall i :: 0 <= i < |batches| ==> batches[i] != [] && db.BasePath(batches[i][0].timestamp) == db.BasePath(t)
    requires forall j: nat :: j < |batches| ==> answer(db.TickPath(t, j)) == Written
    ensures forall j: nat :: j < |batches| ==> ReadBatch(InsertAll(db, fs, batches, answer), db.TickPath(t, j)) == batches[j]
    ensures forall j: nat :: j >= |batches| ==> db.TickPath(t, j) !in InsertAll(db, fs, batches, answer)
  {
    if batches != [] {
      var n := |batches| - 1;
      var init, b := batches[..n], batches[n];
      assert forall i :: 0 <= i < n ==> init[i] == batches[i];
      SameSecondSuffixes(db, fs, t, init, answer);
      var fs1 := InsertAll(db, fs, init, answer);
      var fs2 := InsertAll(db, fs, batches, answer);
      var p := db.TickPath(t, n);
      assert fs2 == fs1[p := Encode(b)] by {
        InsertAllLast(db, fs, batches, answer);
        forall j: nat | j < n ensures db.TickPath(t, j) in fs1 {
          assert ReadBatch(fs1, db.TickPath(t, j)) == init[j] != [];
        }
        SameSecondStep(db, fs1, t, n, b, answer);
      }
      FillNextSuffix(db, t, fs1, batches);
    }
  }

  /** Writing the last batch at suffix n of a bucket filled with the others up to n-1 fills it up to n. */
  lemma FillNextSuffix(db: DB, t: DateTime, fs: Files, batches: seq<seq<TickData>>)
    requires batches != []
    requires forall j: nat :: j < |batches| - 1 ==> ReadBatch(fs, db.TickPath(t, j)) == batches[j]
    requires forall j: nat :: j >= |batches| - 1 ==> db.TickPath(t, j) !in fs
    ensures forall j: nat :: j < |batches| ==>
      ReadBatch(fs[db.TickPath(t, |batches| - 1) := Encode(batches[|batches| - 1])], db.TickPath(t, j)) == batches[j]
    ensures forall j: nat :: j >= |batches| ==>
      db.TickPath(t, j) !in fs[db.TickPath(t, |batches| - 1) := Encode(batches[|batches| - 1])]
  {
    UpdateAtSuffix(db, fs, t, |batches| - 1, Encode(batches[|batches| - 1]));
  }

  /** The last of a sequence of inserts acts on the files the others left. */
  lemma InsertAllLast(db: DB, fs: Files, batches: seq<seq<TickData>>, answer: string -> WriteOutcome)
    requires batches != []
    ensures InsertAll(db, fs, batches, answer) ==
      InsertEffect(db, InsertAll(db, fs, batches[..|batches| - 1], answer), batches[|batches| - 1], answer)
  {
  }

  /** Writing suffix n's path leaves every other suffix's path as it was. */
  lemma UpdateAtSuffix(db: DB, fs: Files, t: DateTime, n: nat, image: FileImage)
    ensures forall j: nat :: j != n ==>
      (db.TickPath(t, j) in fs[db.TickPath(t, n) := image] <==> db.TickPath(t, j) in fs) &&
      ReadBatch(fs[db.TickPath(t, n) := image], db.TickPath(t, j)) == ReadBatch(fs, db.TickPath(t, j))
  {
    forall j: nat | j != n && db.TickPath(t, j) == db.TickPath(t, n) ensures false {
      TickPathInjective(db, t, j, n);
    }
  }

  /** With suffixes 0 .. n-1 taken and n free, a same-second batch lands on suffix n. */
  lemma SameSecondStep(db: DB, fs: Files, t: DateTime, n: nat, b: seq<TickData>, answer: string -> WriteOutcome)
    requires forall j: nat :: j < n ==> db.TickPath(t, j) in fs
    requires db.TickPath(t, n) !in fs
    requires b != [] && db.BasePath(b[0].timestamp) == db.BasePath(t)
    requires answer(db.TickPath(t, n)) == Written
    ensures InsertEffect(db, fs, b, answer) == fs[db.TickPath(t, n) := Encode(b)]
  {
    var t1 := b[0].timestamp;
    SameBaseSamePaths(db, t1, t);
    var s := FreeSuffix(db, fs, t1, 0);
    assert db.TickPath(t1, n) !in fs;
    assert s == n;
  }

  lemma SameBaseSamePaths(db: DB, a: DateTime, b: DateTime)
    requires db.BasePath(a) == db.BasePath(b)
    ensures forall j: nat :: db.TickPath(a, j) == db.TickPath(b, j)
  {
  }

  /** The batches of the listed files, concatenated in list order. */
  function LoadedTicks(fs: Files, paths: seq<string>): seq<TickData>
    decreases |paths|
  {
    if paths == [] then [] else LoadedTicks(fs, paths[..|paths| - 1]) + ReadBatch(fs, paths[|paths| - 1])
  }

  /** The number of ticks the listed files hold, one file at a time. */
  function TickCount(fs: Files, paths: seq<string>): nat
    decreases |paths|
  {
    if paths == [] then 0 else TickCount(fs, paths[..|paths| - 1]) + |ReadBatch(fs, paths[|paths| - 1])|
  }

  /** Reassembly splits along any cut of the file list. */
  lemma {:induction false} LoadedTicksAppend(fs: Files, a: seq<string>, b: seq<string>)
    ensures LoadedTicks(fs, a + b) == LoadedTicks(fs, a) + LoadedTicks(fs, b)
    decreases |b|
  {
    if b != [] {
      var n := |b| - 1;
      assert (a + b)[..|a + b| - 1] == a + b[..n];
      LoadedTicksAppend(fs, a, b[..n]);
    } else {
      assert a + b == a;
    }
  }

  /** Reassembly loses no tick and invents none: its length is the sum of the files' counts. */
  lemma {:induction false} LoadedTicksCount(fs: Files, paths: seq<string>)
    ensures |LoadedTicks(fs, paths)| == TickCount(fs, paths)
    decreases |paths|
  {
    if paths != [] {
      LoadedTicksCount(fs, paths[..|paths| - 1]);
    }
  }

  /** Files that are missing or decode to nothing contribute nothing. */
  lemma {:induction false} LoadedTicksOfEmptyFiles(fs: Files, paths: seq<string>)
    requires forall i :: 0 <= i < |paths| ==> ReadBatch(fs, paths[i]) == []
    ensures LoadedTicks(fs, paths) == []
    decreases |paths|
  {
    if paths != [] {
      LoadedTicksOfEmptyFiles(fs, paths[..|paths| - 1]);
    }
  }

  /** A completion order of the worker pool: every job index, each once. */
  predicate IsCompletionOrder(order: seq<nat>, n: nat)
  {
    |order| == n && (forall k :: 0 <= k < |order| ==> order[k] < n) && (forall j :: 0 <= j < n ==> j in order)
  }

  /**
   * db.go:252-295, with the worker pool run one job at a time in the order `completion`:
   * the first loop is the workers filling mapData, the second the reassembly in list order.
   */
  method LoadDataFromFilesList(fs: Files, files: seq<string>, completion: seq<nat>) returns (data: seq<TickData>)
    requires IsCompletionOrder(completion, |files|)
    ensures data == LoadedTicks(fs, files)
  {
    var mapData: map<string, seq<TickData>> := map[];
    for k := 0 to |completion|
      invariant forall p :: p in mapData ==> mapData[p] == ReadBatch(fs, p) && mapData[p] != []
      invariant forall m :: 0 <= m < k ==> ReadBatch(fs, files[completion[m]]) != [] ==> files[completion[m]] in mapData
    {
      var fp := files[completion[k]];
      var ticks := ReadBatch(fs, fp);
      if |ticks| > 0 {
        mapData := mapData[fp := ticks];
      }
    }
    forall i | 0 <= i < |files| ensures ReadBatch(fs, files[i]) != [] ==> files[i] in mapData {
      assert i in completion;
    }
    data := [];
    for i := 0 to |files|
      invariant data == LoadedTicks(fs, files[..i])
    {
      var fp := files[i];
      assert files[..i + 1][..i] == files[..i];
      if fp in mapData {
        data := data + mapData[fp];
      }
    }
    assert files[..|files|] == files;
  }

  /** The paths a walk visits, in walk order. */
  function WalkPaths(walk: seq<Visit>): (ps: seq<string>)
    ensures |ps| == |walk| && forall i :: 0 <= i < |walk| ==> ps[i] == walk[i].path
  {
    seq(|walk|, i requires 0 <= i < |walk| => walk[i].path)
  }

  /**
   * db.go:235-250: `fn` is called once per tick of every visited entry, in walk order;
   * `delivered` is the sequence of its arguments. A directory is never a file of the map,
   * so reading one gives nothing.
   */
  method PlaybackFolder(fs: Files, walk: seq<Visit>) returns (delivered: seq<TickData>)
    requires forall i :: 0 <= i < |walk| && walk[i].isDir ==> walk[i].path !in fs
    ensures delivered == LoadedTicks(fs, WalkPaths(walk))
  {
    delivered := [];
    var paths := WalkPaths(walk);
    for i := 0 to |walk|
      invariant delivered == LoadedTicks(fs, paths[..i])
    {
      var ticks := ReadBatch(fs, walk[i].path);
      ghost var sofar := delivered;
      for k := 0 to |ticks|
        invariant delivered == sofar + ticks[..k]
      {
        assert ticks[..k + 1] == ticks[..k] + [ticks[k]];
        delivered := delivered + [ticks[k]];
      }
      assert ticks[..|ticks|] == ticks;
      assert paths[..i + 1][..i] == paths[..i];
    }
    assert paths[..|walk|] == paths;
  }

  /**
   * Insert then playback (db_test.go:82-90): in a store with no files, a batch written
   * successfully is read back tick for tick by a walk that visits its file once.
   */
  lemma InsertThenPlayback(db: DB, ticks: seq<TickData>, answer: string -> WriteOutcome,
                           before: seq<string>, after: seq<string>)
    requires ticks != []
    requires answer(NewFilePath(db, map[], ticks[0].timestamp)) == Written
    requires NewFilePath(db, map[], ticks[0].timestamp) !in before
    requires NewFilePath(db, map[], ticks[0].timestamp) !in after
    ensures LoadedTicks(InsertEffect(db, map[], ticks, answer),
                        before + [NewFilePath(db, map[], ticks[0].timestamp)] + after) == ticks
  {
    var p := NewFilePath(db, map[], ticks[0].timestamp);
    var fs := InsertEffect(db, map[], ticks, answer);
    assert fs == map[p := Encode(ticks)];
    LoadedTicksOfOneFile(fs, p, before, after);
  }

  /** A walk over a store whose only file is p reads exactly p's batch. */
  lemma LoadedTicksOfOneFile(fs: Files, p: string, before: seq<string>, after: seq<string>)
    requires fs.Keys == {p}
    requires p !in before && p !in after
    ensures LoadedTicks(fs, before + [p] + after) == ReadBatch(fs, p)
  {
    LoadedTicksAppend(fs, before + [p], after);
    LoadedTicksAppend(fs, before, [p]);
    assert LoadedTicks(fs, [p]) == LoadedTicks(fs, []) + ReadBatch(fs, p);
    forall i | 0 <= i < |before| ensures ReadBatch(fs, before[i]) == [] {
      assert before[i] != p;
    }
    forall i | 0 <= i < |after| ensures ReadBatch(fs, after[i]) == [] {
      assert after[i] != p;
    }
    LoadedTicksOfEmptyFiles(fs, before);
    LoadedTicksOfEmptyFiles(fs, after);
  }

  /** The dates of the listed entries, in listing order: directories whose names parse. */
  function DatesIn(entries: seq<DirEntry>): seq<Date>
    decreases |entries|
  {
    if entries == [] then []
    else
      var e := entries[|entries| - 1];
      var init := DatesIn(entries[..|entries| - 1]);
      if e.isDir && ParseDate(e.name).Some? then init + [ParseDate(e.name).value] else init
  }

  /** db.go:174-188. `listing` is what `ioutil.ReadDir(DataPath)` answered; None is its error. */
  method GetDates(db: DB, listing: Option<seq<DirEntry>>) returns (dates: seq<Date>, err: Option<string>)
    ensures err == None
    ensures listing.None? ==> dates == []
    ensures listing.Some? ==> dates == DatesIn(listing.value)
  {
    dates := [];
    if listing.Some? {
      var files := listing.value;
      for i := 0 to |files|
        invariant dates == DatesIn(files[..i])
      {
        var f := files[i];
        assert files[..i + 1][..i] == files[..i];
        if f.isDir {
          var dt := ParseDate(f.name);
          if dt.Some? {
            dates := dates + [dt.value];
          }
        }
      }
      assert files[..|files|] == files;
    }
    err := None;
  }

  /** A date is listed exactly when some directory entry's name parses to it. */
  lemma DatesInMembership(entries: seq<DirEntry>, d: Date)
    ensures d in DatesIn(entries) <==>
      exists i :: 0 <= i < |entries| && entries[i].isDir && ParseDate(entries[i].name) == Some(d)
  {
    DatesInPresent(entries);
    PresentMembership(DirDates(entries), d);
    if d in DatesIn(entries) {
      var i :| 0 <= i < |entries| && DirDates(entries)[i] == Some(d);
      assert entries[i].isDir && ParseDate(entries[i].name) == Some(d);
    }
    if exists i :: 0 <= i < |entries| && entries[i].isDir && ParseDate(entries[i].name) == Some(d) {
      var i :| 0 <= i < |entries| && entries[i].isDir && ParseDate(entries[i].name) == Some(d);
      assert DirDates(entries)[i] == Some(d);
    }
  }

  /** The date a listing entry names: a directory whose name parses. */
  function DirDate(e: DirEntry): Option<Date>
  {
    if e.isDir then ParseDate(e.name) else None
  }

  /** The date of each listed entry, None for the others. */
  function DirDates(entries: seq<DirEntry>): seq<Option<Date>>
  {
    seq(|entries|, i requires 0 <= i < |entries| => DirDate(entries[i]))
  }

  /** The values present in a sequence of options, in order. */
  function Present<T>(xs: seq<Option<T>>): seq<T>
    decreases |xs|
  {
    if xs == [] then []
    else
      var last := xs[|xs| - 1];
      Present(xs[..|xs| - 1]) + (if last.Some? then [last.value] else [])
  }

  /** A value is present exactly when some position holds it. */
  lemma PresentMembership<T>(xs: seq<Option<T>>, x: T)
    ensures x in Present(xs) <==> exists i :: 0 <= i < |xs| && xs[i] == Some(x)
  {
    if x in Present(xs) {
      PresentFrom(xs, x);
    }
    if exists i :: 0 <= i < |xs| && xs[i] == Some(x) {
      var i :| 0 <= i < |xs| && xs[i] == Some(x);
      PresentHas(xs, i);
    }
  }

  lemma {:induction false} PresentHas<T>(xs: seq<Option<T>>, i: nat)
    requires i < |xs| && xs[i].Some?
    ensures xs[i].value in Present(xs)
    decreases |xs|
  {
    var n := |xs| - 1;
    if i < n {
      PresentHas(xs[..n], i);
      assert xs[..n][i] == xs[i];
    }
  }

  lemma {:induction false} PresentFrom<T>(xs: seq<Option<T>>, x: T)
    requires x in Present(xs)
    ensures exists i :: 0 <= i < |xs| && xs[i] == Some(x)
    decreases |xs|
  {
    var n := |xs| - 1;
    if x in Present(xs[..n]) {
      PresentFrom(xs[..n], x);
      var i :| 0 <= i < n && xs[..n][i] == Some(x);
      assert xs[i] == xs[..n][i];
    } else {
      assert xs[n] == Some(x);
    }
  }

  /** The listed dates are the dates present among the entries, in listing order. */
  lemma {:induction false} DatesInPresent(entries: seq<DirEntry>)
    ensures DatesIn(entries) == Present(DirDates(entries))
    decreases |entries|
  {
    if entries != [] {
      var n := |entries| - 1;
      DatesInPresent(entries[..n]);
      assert DirDates(entries)[..n] == DirDates(entries[..n]);
    }
  }

  /** Every listed date is valid, below year 10000, and is named by its own canonical text. */
  lemma DatesInCanonical(entries: seq<DirEntry>, d: Date)
    requires d in DatesIn(entries)
    ensures ValidDate(d) && d.year < 10000
    ensures exists i :: 0 <= i < |entries| && entries[i].isDir && entries[i].name == FormatDate(d)
  {
    DatesInMembership(entries, d);
    var i :| 0 <= i < |entries| && entries[i].isDir && ParseDate(entries[i].name) == Some(d);
    FormatParseDate(entries[i].name);
  }

  /** The day directory Insert writes a tick under is listed by GetDates as that tick's date. */
  lemma InsertedDayIsListed(db: DB, t: DateTime, entries: seq<DirEntry>)
    requires ValidTime(t) && t.year < 10000
    requires exists i :: 0 <= i < |entries| && entries[i] == DirEntry(FormatDate(DateOf(t)), true)
    ensures DateOf(t) in DatesIn(entries)
  {
    ParseFormatDate(DateOf(t));
    DatesInMembership(entries, DateOf(t));
  }
}
