/** The storage statistics route: counts the regular files of the uploads
    directory and adds up their sizes against a fixed 3 TiB capacity. */
module Stats {
  import Runtime

  /** 3 TiB, in bytes. */
  const TotalStorage: nat := 3 * 1024 * 1024 * 1024 * 1024

  /** An entry of the uploads directory as `fs.stat` describes it. */
  datatype DirEntry = DirEntry(name: string, isFile: bool, size: nat)

  datatype StorageStats = StorageStats(totalFiles: nat, usedStorage: nat, availableStorage: int, totalStorage: nat)

  datatype Result<T> = Success(value: T) | Failure

  datatype Reply = StatsReply(stats: StorageStats) | ErrorReply(status: nat, error: string, url: string)

  /** How many of the entries are regular files. */
  function FileCount(entries: seq<DirEntry>): (n: nat)
    ensures n <= |entries|
  {
    if entries == [] then 0
    else FileCount(entries[..|entries| - 1]) + (if entries[|entries| - 1].isFile then 1 else 0)
  }

  /** The sizes of the regular files among the entries, added up. */
  function UsedBytes(entries: seq<DirEntry>): nat
  {
    if entries == [] then 0
    else UsedBytes(entries[..|entries| - 1]) + (if entries[|entries| - 1].isFile then entries[|entries| - 1].size else 0)
  }

  /** The statistics of a listing: regular files only, and what is left of the
      capacity, which goes below zero once the files outgrow it. */
  function StatsOf(entries: seq<DirEntry>): (s: StorageStats)
    ensures s.usedStorage + s.availableStorage == s.totalStorage == TotalStorage
    ensures s.totalFiles <= |entries|
    ensures s.usedStorage > TotalStorage <==> s.availableStorage < 0
  {
    StorageStats(FileCount(entries), UsedBytes(entries), TotalStorage - UsedBytes(entries), TotalStorage)
  }

  /** A directory or another non-file entry changes nothing. */
  lemma OtherEntriesIgnored(entries: seq<DirEntry>, e: DirEntry)
    requires !e.isFile
    ensures StatsOf(entries + [e]) == StatsOf(entries)
  {
    assert (entries + [e])[..|entries|] == entries;
  }

  /** Statistics of two parts of a listing add up. */
  lemma {:induction false} StatsSplit(a: seq<DirEntry>, b: seq<DirEntry>)
    ensures FileCount(a + b) == FileCount(a) + FileCount(b)
    ensures UsedBytes(a + b) == UsedBytes(a) + UsedBytes(b)
    decreases |b|
  {
    if b == [] {
      assert a + b == a;
    } else {
      StatsSplit(a, b[..|b| - 1]);
      assert (a + b)[..|a + b| - 1] == a + b[..|b| - 1];
    }
  }

  /** Taking one entry out of the listing takes its share out of the statistics. */
  lemma RemoveEntry(entries: seq<DirEntry>, k: nat)
    requires k < |entries|
    ensures var rest := entries[..k] + entries[k + 1..];
            var e := entries[k];
            && FileCount(entries) == FileCount(rest) + (if e.isFile then 1 else 0)
            && UsedBytes(entries) == UsedBytes(rest) + (if e.isFile then e.size else 0)
  {
    var e := entries[k];
    assert entries == entries[..k] + [e] + entries[k + 1..];
    StatsSplit(entries[..k] + [e], entries[k + 1..]);
    StatsSplit(entries[..k], [e]);
    StatsSplit(entries[..k], entries[k + 1..]);
    assert [e][..0] == [];
  }

  /** The order `fs.readdir` lists the directory in does not matter. */
  lemma {:induction false} StatsIgnoreListingOrder(a: seq<DirEntry>, b: seq<DirEntry>)
    requires multiset(a) == multiset(b)
    ensures StatsOf(a) == StatsOf(b)
  {
    if a == [] {
      assert |b| == |multiset(b)| == 0;
    } else {
      var e := a[|a| - 1];
      var init := a[..|a| - 1];
      assert a == init + [e];
      assert e in multiset(b);
      var k :| 0 <= k < |b| && b[k] == e;
      Runtime.MultisetRemove(b, k);
      StatsIgnoreListingOrder(init, b[..k] + b[k + 1..]);
      RemoveEntry(b, k);
    }
  }

  /** `getStorageStats`: one `fs.stat` per listed entry, in order. A failing
      `readdir`, or a failing `stat` of the entry at some index, is rethrown. */
  method GetStorageStats(entries: seq<DirEntry>, readdirFails: bool, statFails: nat -> bool)
    returns (r: Result<StorageStats>)
    ensures (readdirFails || exists i | 0 <= i < |entries| :: statFails(i)) <==> r.Failure?
    ensures r.Success? ==> r.value == StatsOf(entries)
  {
    if readdirFails {
      return Failure;
    }
    var totalSize := 0;
    var totalFiles := 0;
    for i := 0 to |entries|
      invariant forall j | 0 <= j < i :: !statFails(j)
      invariant totalFiles == FileCount(entries[..i]) && totalSize == UsedBytes(entries[..i])
    {
      if statFails(i) {
        return Failure;
      }
      var stats := entries[i];
      assert entries[..i + 1][..i] == entries[..i];
      if stats.isFile {
        totalSize := totalSize + stats.size;
        totalFiles := totalFiles + 1;
      }
    }
    assert entries[..|entries|] == entries;
    var usedStorage := totalSize;
    var availableStorage := TotalStorage - usedStorage;
    return Success(StorageStats(totalFiles, usedStorage, availableStorage, TotalStorage));
  }

  /** `GET`: the statistics, or 500 with the request URL when they could not be gathered. */
  method Get(requestUrl: string, entries: seq<DirEntry>, readdirFails: bool, statFails: nat -> bool)
    returns (reply: Reply)
    ensures (readdirFails || exists i | 0 <= i < |entries| :: statFails(i)) <==> reply.ErrorReply?
    ensures reply.ErrorReply? ==> reply == ErrorReply(500, "Failed to fetch storage stats", requestUrl)
    ensures reply.StatsReply? ==> reply.stats == StatsOf(entries)
  {
    var stats := GetStorageStats(entries, readdirFails, statFails);
    match stats
    case Success(s) => reply := StatsReply(s);
    case Failure => reply := ErrorReply(500, "Failed to fetch storage stats", requestUrl);
  }
}
