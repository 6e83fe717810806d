/**
 * Choosing the session file to follow (src/main.rs:56-68): the directory
 * listing, with each file's creation time, is folded keeping the first file
 * created strictly later than every file before it and than the epoch.
 */
module LatestFile {

  /** A directory entry: its path and its creation time, in seconds from the epoch. */
  datatype Entry = Entry(path: string, created: int)

  /** The initial "latest" time: the epoch itself. */
  const Epoch: int := 0

  /**
   * Entry `k` is the one to follow: created after the epoch, no entry created
   * later, and every earlier entry created strictly earlier.
   */
  predicate IsLatest(entries: seq<Entry>, k: int) {
    0 <= k < |entries| && entries[k].created > Epoch &&
    (forall j :: 0 <= j < |entries| ==> entries[j].created <= entries[k].created) &&
    (forall j :: 0 <= j < k ==> entries[j].created < entries[k].created)
  }

  /** At most one entry is the latest. */
  lemma LatestIsUnique(entries: seq<Entry>, k1: int, k2: int)
    requires IsLatest(entries, k1) && IsLatest(entries, k2)
    ensures k1 == k2
  {
  }

  /**
   * The selection loop: `maxDate` starts at the epoch and `path` empty; an
   * entry replaces both when it was created strictly later than `maxDate`.
   */
  method PickLatest(entries: seq<Entry>) returns (path: string)
    ensures (forall i :: 0 <= i < |entries| ==> entries[i].created <= Epoch) ==> path == []
    ensures (exists i :: 0 <= i < |entries| && entries[i].created > Epoch) ==>
      exists k :: IsLatest(entries, k) && path == entries[k].path
  {
    var maxDate := Epoch;
    path := [];
    ghost var latest := -1;
    for i := 0 to |entries|
      invariant maxDate >= Epoch
      invariant forall j :: 0 <= j < i ==> entries[j].created <= maxDate
      invariant latest == -1 ==> maxDate == Epoch && path == []
      invariant latest != -1 ==>
        0 <= latest < i && maxDate == entries[latest].created > Epoch && path == entries[latest].path &&
        (forall j :: 0 <= j < latest ==> entries[j].created < maxDate)
    {
      if entries[i].created > maxDate {
        maxDate := entries[i].created;
        path := entries[i].path;
        latest := i;
      }
    }
    if exists i :: 0 <= i < |entries| && entries[i].created > Epoch {
      assert IsLatest(entries, latest);
    }
  }
}
