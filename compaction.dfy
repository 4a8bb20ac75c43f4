/**
 * `compressFolder` of db.go:191-217: group the walked files by the first four characters
 * of their names (hour and minute), and replace every group of two or more files by one
 * file holding their ticks in walk order.
 */
module Compaction {
  import opened Ticks
  import opened Store
  import opened Decimal
  import opened TimeFormat

  /** `info.Name()[0:4]` would panic on a shorter name; every walked file must have four characters. */
  predicate NamesLongEnough(walk: seq<Visit>)
  {
    forall i :: 0 <= i < |walk| && !walk[i].isDir ==> |walk[i].name| >= 4
  }

  /** `info.Name()[0:4]`: the group key, a four-character prefix of the name. */
  function MinuteKey(name: string): (key: string)
    requires |name| >= 4
    ensures |key| == 4 && key <= name
  {
    name[..4]
  }

  /** The key of a tick file's name is its hour and minute. */
  lemma MinuteKeyOfTickFile(t: DateTime, suffix: nat)
    requires t.hour < 24 && t.minute < 60 && t.second < 60
    ensures |TickFileName(t, suffix)| >= 4
    ensures MinuteKey(TickFileName(t, suffix)) == Pad(t.hour, 2) + Pad(t.minute, 2)
  {
    TickFileNameLayout(t, suffix);
  }

  /** Two tick files share a group exactly when their instants fall in the same hour and minute. */
  lemma SameKeyIffSameMinute(a: DateTime, sa: nat, b: DateTime, sb: nat)
    requires a.hour < 24 && a.minute < 60 && a.second < 60
    requires b.hour < 24 && b.minute < 60 && b.second < 60
    ensures |TickFileName(a, sa)| >= 4 && |TickFileName(b, sb)| >= 4
    ensures MinuteKey(TickFileName(a, sa)) == MinuteKey(TickFileName(b, sb)) <==> a.hour == b.hour && a.minute == b.minute
  {
    MinuteKeyOfTickFile(a, sa);
    MinuteKeyOfTickFile(b, sb);
    ClockPrefix(a);
    ClockPrefix(b);
    SameMinuteIffSamePrefix(a, b);
  }

  lemma PrefixNamesLongEnough(walk: seq<Visit>, n: nat)
    requires NamesLongEnough(walk) && n <= |walk|
    ensures NamesLongEnough(walk[..n])
  {
    assert forall i :: 0 <= i < n ==> walk[..n][i] == walk[i];
  }

  /** The `keys` list: the key of every walked file, each once, in order of first appearance. */
  function FirstSeenKeys(walk: seq<Visit>): seq<string>
    requires NamesLongEnough(walk)
    decreases |walk|
  {
    if walk == [] then []
    else
      var v := walk[|walk| - 1];
      PrefixNamesLongEnough(walk, |walk| - 1);
      var init := FirstSeenKeys(walk[..|walk| - 1]);
      if v.isDir || MinuteKey(v.name) in init then init else init + [MinuteKey(v.name)]
  }

  /** `filesByMinute[key]`: the paths of the walked files with that key, in walk order. */
  function GroupOf(walk: seq<Visit>, key: string): seq<string>
    requires NamesLongEnough(walk)
    decreases |walk|
  {
    if walk == [] then []
    else
      var v := walk[|walk| - 1];
      PrefixNamesLongEnough(walk, |walk| - 1);
      var init := GroupOf(walk[..|walk| - 1], key);
      if !v.isDir && MinuteKey(v.name) == key then init + [v.path] else init
  }

  /** db.go:192-206: the walk callback building `filesByMinute` and `keys`. */
  method GroupByMinute(walk: seq<Visit>) returns (keys: seq<string>, filesByMinute: map<string, seq<string>>)
    requires NamesLongEnough(walk)
    ensures keys == FirstSeenKeys(walk)
    ensures forall k :: k in filesByMinute <==> k in keys
    ensures forall k :: k in filesByMinute ==> filesByMinute[k] == GroupOf(walk, k)
  {
    keys := [];
    filesByMinute := map[];
    for i := 0 to |walk|
      invariant NamesLongEnough(walk[..i])
      invariant keys == FirstSeenKeys(walk[..i])
      invariant forall k :: k in filesByMinute <==> k in keys
      invariant forall k :: k in filesByMinute ==> filesByMinute[k] == GroupOf(walk[..i], k)
    {
      PrefixNamesLongEnough(walk, i + 1);
      assert walk[..i + 1][..i] == walk[..i];
      var v := walk[i];
      if !v.isDir {
        var key := v.name[..4];
        if key !in filesByMinute {
          KeyAbsentGroupEmpty(walk[..i], key);
          filesByMinute := filesByMinute[key := []];
          keys := keys + [key];
        }
        filesByMinute := filesByMinute[key := filesByMinute[key] + [v.path]];
      }
    }
    assert walk[..|walk|] == walk;
  }

  /** A key never seen has an empty group. */
  lemma {:induction false} KeyAbsentGroupEmpty(walk: seq<Visit>, key: string)
    requires NamesLongEnough(walk)
    requires key !in FirstSeenKeys(walk)
    ensures GroupOf(walk, key) == []
    decreases |walk|
  {
    if walk != [] {
      PrefixNamesLongEnough(walk, |walk| - 1);
      KeyAbsentGroupEmpty(walk[..|walk| - 1], key);
    }
  }

  /** A key is listed exactly when some walked file carries it. */
  lemma {:induction false} FirstSeenKeysMembership(walk: seq<Visit>, key: string)
    requires NamesLongEnough(walk)
    ensures key in FirstSeenKeys(walk) <==>
      exists i :: 0 <= i < |walk| && !walk[i].isDir && MinuteKey(walk[i].name) == key
    decreases |walk|
  {
    if walk != [] {
      var n := |walk| - 1;
      PrefixNamesLongEnough(walk, n);
      FirstSeenKeysMembership(walk[..n], key);
      if exists i :: 0 <= i < |walk| && !walk[i].isDir && MinuteKey(walk[i].name) == key {
        var i :| 0 <= i < |walk| && !walk[i].isDir && MinuteKey(walk[i].name) == key;
        if i < n {
          assert walk[..n][i] == walk[i];
        }
      }
      if key in FirstSeenKeys(walk[..n]) {
        var i :| 0 <= i < n && !walk[..n][i].isDir && MinuteKey(walk[..n][i].name) == key;
        assert walk[i] == walk[..n][i];
      }
    }
  }

  predicate NoDuplicates(s: seq<string>)
  {
    forall i, j :: 0 <= i < j < |s| ==> s[i] != s[j]
  }

  /** Keys are listed once each. */
  lemma {:induction false} FirstSeenKeysDistinct(walk: seq<Visit>)
    requires NamesLongEnough(walk)
    ensures NoDuplicates(FirstSeenKeys(walk))
    decreases |walk|
  {
    if walk != [] {
      PrefixNamesLongEnough(walk, |walk| - 1);
      FirstSeenKeysDistinct(walk[..|walk| - 1]);
    }
  }

  /** Keys keep the order of first appearance: the keys of a prefix of the walk are a prefix of the keys. */
  lemma {:induction false} FirstSeenKeysPrefix(walk: seq<Visit>, n: nat)
    requires NamesLongEnough(walk) && n <= |walk|
    ensures NamesLongEnough(walk[..n])
    ensures FirstSeenKeys(walk[..n]) <= FirstSeenKeys(walk)
    decreases |walk| - n
  {
    PrefixNamesLongEnough(walk, n);
    if n < |walk| {
      FirstSeenKeysPrefix(walk, n + 1);
      PrefixNamesLongEnough(walk, n + 1);
      assert walk[..n + 1][..n] == walk[..n];
    } else {
      assert walk[..n] == walk;
    }
  }

  /** The number of files the walk visits. */
  function FileCount(walk: seq<Visit>): nat
    decreases |walk|
  {
    if walk == [] then 0 else FileCount(walk[..|walk| - 1]) + (if walk[|walk| - 1].isDir then 0 else 1)
  }

  function GroupSizes(walk: seq<Visit>, keys: seq<string>): nat
    requires NamesLongEnough(walk)
    decreases |keys|
  {
    if keys == [] then 0 else GroupSizes(walk, keys[..|keys| - 1]) + |GroupOf(walk, keys[|keys| - 1])|
  }

  /** Every file lands in exactly one group: the group sizes add up to the number of files. */
  lemma {:induction false} GroupsPartitionFiles(walk: seq<Visit>)
    requires NamesLongEnough(walk)
    ensures GroupSizes(walk, FirstSeenKeys(walk)) == FileCount(walk)
    decreases |walk|
  {
    if walk != [] {
      var n := |walk| - 1;
      var w := walk[..n];
      var v := walk[n];
      PrefixNamesLongEnough(walk, n);
      GroupsPartitionFiles(w);
      var keys := FirstSeenKeys(w);
      FirstSeenKeysDistinct(w);
      if v.isDir {
        GroupSizesUnchanged(walk, w, keys);
      } else {
        var k := MinuteKey(v.name);
        if k in keys {
          GroupSizesGrow(walk, w, keys, k);
        } else {
          GroupSizesUnchanged(walk, w, keys);
          KeyAbsentGroupEmpty(w, k);
          assert (keys + [k])[..|keys|] == keys;
        }
      }
    }
  }

  /** Group sizes after one more walked entry that is a directory, or over keys that exclude its key. */
  lemma {:induction false} GroupSizesUnchanged(walk: seq<Visit>, w: seq<Visit>, keys: seq<string>)
    requires NamesLongEnough(walk) && walk != [] && w == walk[..|walk| - 1]
    requires NamesLongEnough(w)
    requires !walk[|walk| - 1].isDir ==> MinuteKey(walk[|walk| - 1].name) !in keys
    ensures GroupSizes(walk, keys) == GroupSizes(w, keys)
    decreases |keys|
  {
    if keys != [] {
      GroupSizesUnchanged(walk, w, keys[..|keys| - 1]);
    }
  }

  /** Group sizes after one more walked file whose key is listed once. */
  lemma {:induction false} GroupSizesGrow(walk: seq<Visit>, w: seq<Visit>, keys: seq<string>, k: string)
    requires NamesLongEnough(walk) && walk != [] && w == walk[..|walk| - 1]
    requires NamesLongEnough(w)
    requires !walk[|walk| - 1].isDir && MinuteKey(walk[|walk| - 1].name) == k
    requires k in keys && NoDuplicates(keys)
    ensures GroupSizes(walk, keys) == GroupSizes(w, keys) + 1
    decreases |keys|
  {
    var m := |keys| - 1;
    var init := keys[..m];
    if keys[m] == k {
      assert k !in init;
      GroupSizesUnchanged(walk, w, init);
    } else {
      assert k in init;
      GroupSizesGrow(walk, w, init, k);
    }
  }

  /**
   * One pass of the key loop (db.go:208-214): a group of two or more files is loaded, its
   * files removed, and the concatenation inserted; a smaller group is left alone.
   */
  function MergeGroup(db: DB, fs: Files, group: seq<string>, answer: string -> WriteOutcome): (merged: Files)
    ensures |group| <= 1 ==> merged == fs
    ensures forall q :: q in fs && q !in group ==> q in merged && merged[q] == fs[q]
    ensures |group| > 1 && LoadedTicks(fs, group) == [] ==> merged == fs - PathSet(group)
    ensures |group| > 1 && LoadedTicks(fs, group) != [] ==>
      forall q :: q in merged ==>
        (q in fs && q !in group) || q == NewFilePath(db, fs - PathSet(group), LoadedTicks(fs, group)[0].timestamp)
  {
    if |group| > 1 then InsertEffect(db, fs - PathSet(group), LoadedTicks(fs, group), answer)
    else fs
  }

  /** The files after the key loop has processed `keys` in order. */
  function CompactKeys(db: DB, fs: Files, walk: seq<Visit>, keys: seq<string>, answer: string -> WriteOutcome): Files
    requires NamesLongEnough(walk)
    decreases |keys|
  {
    if keys == [] then fs
    else MergeGroup(db, CompactKeys(db, fs, walk, keys[..|keys| - 1], answer), GroupOf(walk, keys[|keys| - 1]), answer)
  }

  function Compacted(db: DB, fs: Files, walk: seq<Visit>, answer: string -> WriteOutcome): Files
    requires NamesLongEnough(walk)
  {
    CompactKeys(db, fs, walk, FirstSeenKeys(walk), answer)
  }

  /** The set of paths a list names. */
  function PathSet(paths: seq<string>): set<string>
  {
    set p | p in paths
  }

  /** The worker pool finishing its jobs in submission order. */
  function InOrder(n: nat): (order: seq<nat>)
    ensures IsCompletionOrder(order, n)
  {
    var order: seq<nat> := seq(n, i requires 0 <= i < n => i);
    assert forall j :: 0 <= j < n ==> order[j] == j;
    assert forall j :: 0 <= j < n ==> j in order by {
      forall j | 0 <= j < n ensures j in order {
        assert order[j] == j;
      }
    }
    order
  }

  /** db.go:210-212: `os.Remove` each path; a missing path is ignored, and a present one is always removed. */
  method RemoveFiles(disk: Disk, paths: seq<string>)
    modifies disk
    ensures disk.files == old(disk.files) - PathSet(paths)
  {
    for j := 0 to |paths|
      invariant disk.files == old(disk.files) - PathSet(paths[..j])
    {
      assert paths[..j + 1] == paths[..j] + [paths[j]];
      assert PathSet(paths[..j + 1]) == PathSet(paths[..j]) + {paths[j]};
      disk.files := disk.files - {paths[j]};
    }
    assert paths[..|paths|] == paths;
  }

  /** db.go:191-217, given the entries `filepath.Walk(dpath, …)` visits, in walk order. */
  method CompressFolder(db: DB, disk: Disk, walk: seq<Visit>)
    requires NamesLongEnough(walk)
    modifies disk
    ensures disk.files == Compacted(db, old(disk.files), walk, disk.answer)
  {
    var keys, filesByMinute := GroupByMinute(walk);
    for i := 0 to |keys|
      invariant disk.files == CompactKeys(db, old(disk.files), walk, keys[..i], disk.answer)
    {
      assert keys[..i + 1][..i] == keys[..i];
      var group := filesByMinute[keys[i]];
      if |group| > 1 {
        var data := LoadDataFromFilesList(disk.files, group, InOrder(|group|));
        RemoveFiles(disk, group);
        var _ := Insert(db, disk, data);
      }
    }
    assert keys[..|keys|] == keys;
  }

  /**
   * A merged group: its files are gone (the new file may reuse one of their names), every
   * other file is untouched, and the new file holds the group's ticks in walk order, as many
   * as the members held together.
   */
  lemma MergeGroupConserves(db: DB, fs: Files, group: seq<string>, answer: string -> WriteOutcome)
    requires |group| > 1
    requires LoadedTicks(fs, group) != []
    requires answer(NewFilePath(db, fs - PathSet(group), LoadedTicks(fs, group)[0].timestamp)) == Written
    ensures var p := NewFilePath(db, fs - PathSet(group), LoadedTicks(fs, group)[0].timestamp);
      var merged := MergeGroup(db, fs, group, answer);
      && merged.Keys == (fs.Keys - PathSet(group)) + {p}
      && (forall q :: q in fs && q !in group ==> merged[q] == fs[q])
      && ReadBatch(merged, p) == LoadedTicks(fs, group)
      && |ReadBatch(merged, p)| == TickCount(fs, group)
  {
    LoadedTicksCount(fs, group);
  }

  /** A group whose files all decode to nothing is deleted and nothing is written. */
  lemma MergeGroupOfUnreadable(db: DB, fs: Files, group: seq<string>, answer: string -> WriteOutcome)
    requires |group| > 1
    requires forall i :: 0 <= i < |group| ==> ReadBatch(fs, group[i]) == []
    ensures MergeGroup(db, fs, group, answer) == fs - PathSet(group)
  {
    LoadedTicksOfEmptyFiles(fs, group);
  }

  /** A folder where no minute has two files is left exactly as it was. */
  lemma {:induction false} CompactionOfSingletons(db: DB, fs: Files, walk: seq<Visit>,
                                                  keys: seq<string>, answer: string -> WriteOutcome)
    requires NamesLongEnough(walk)
    requires forall i :: 0 <= i < |keys| ==> |GroupOf(walk, keys[i])| <= 1
    ensures CompactKeys(db, fs, walk, keys, answer) == fs
    decreases |keys|
  {
    if keys != [] {
      CompactionOfSingletons(db, fs, walk, keys[..|keys| - 1], answer);
    }
  }

  /**
   * Compaction never overwrites or removes a file outside the merged groups: a file
   * that is in no group of two or more keeps its content.
   */
  lemma {:induction false} CompactionKeepsOthers(db: DB, fs: Files, walk: seq<Visit>,
                                                 keys: seq<string>, answer: string -> WriteOutcome, q: string)
    requires NamesLongEnough(walk)
    requires q in fs
    requires forall i :: 0 <= i < |keys| && |GroupOf(walk, keys[i])| > 1 ==> q !in GroupOf(walk, keys[i])
    ensures q in CompactKeys(db, fs, walk, keys, answer)
    ensures CompactKeys(db, fs, walk, keys, answer)[q] == fs[q]
    decreases |keys|
  {
    if keys != [] {
      var m := |keys| - 1;
      CompactionKeepsOthers(db, fs, walk, keys[..m], answer, q);
    }
  }
}
