/**
 * Oldest-entry selection (`get_oldest_folder`): the subdirectory of a listing
 * with the earliest creation time.
 *
 * A directory listing is a snapshot: its entries in the order the filesystem
 * yields them, and whether the listing fails after them.
 */
module Oldest {
  import opened Wrappers

  type Path = string

  /** A creation timestamp; only its order matters. */
  type Time = int

  /** One entry of a listing. `isDir` is false when the entry's metadata cannot
      be read, as for `Path::is_dir`; `created` is None when the creation time of
      a directory cannot be read (or its metadata can no longer be read once
      `is_dir` has succeeded). */
  datatype Entry = Entry(path: Path, isDir: bool, created: Option<Time>)

  /** A directory listing: the entries yielded, in order, and whether reading the
      directory then fails (`broken` with no entries: the directory cannot be
      opened at all). */
  datatype Listing<T> = Listing(entries: seq<T>, broken: bool)

  /** Every directory among `es` has a readable creation time. */
  predicate Timed(es: seq<Entry>) {
    forall e | e in es :: e.isDir ==> e.created.Some?
  }

  /** Scanning the listing raises no I/O error. */
  predicate Readable(l: Listing<Entry>) {
    !l.broken && Timed(l.entries)
  }

  /** Entry `k` is the oldest directory among the first `n` entries of `es`: no
      directory there is older, and every directory before `k` is strictly newer. */
  predicate OldestAmong(es: seq<Entry>, n: nat, k: nat)
    requires n <= |es|
  {
    && k < n && es[k].isDir && es[k].created.Some?
    && (forall j | 0 <= j < n && es[j].isDir && es[j].created.Some? ::
          es[k].created.value <= es[j].created.value)
    && (forall j | 0 <= j < k && es[j].isDir && es[j].created.Some? ::
          es[k].created.value < es[j].created.value)
  }

  /** At most one entry is the oldest. */
  lemma OldestUnique(es: seq<Entry>, n: nat, k1: nat, k2: nat)
    requires n <= |es| && OldestAmong(es, n, k1) && OldestAmong(es, n, k2)
    ensures k1 == k2
  {
  }

  /** Reference definition of the choice, folded from the end of the listing: an
      entry wins against the best of the entries after it when it is not newer. */
  function OldestIndex(es: seq<Entry>): (r: Option<nat>)
    requires Timed(es)
    ensures r.Some? ==> r.value < |es| && es[r.value].isDir
  {
    if |es| == 0 then None
    else
      var rest := OldestIndex(es[1..]);
      if !es[0].isDir then
        (match rest case None => None case Some(k) => Some(k + 1))
      else if rest.None? || es[0].created.value <= es[rest.value + 1].created.value then Some(0)
      else Some(rest.value + 1)
  }

  /** The fold finds nothing exactly when no entry is a directory, and else the
      oldest directory, the first listed among equally old ones. */
  lemma {:induction false} OldestIndexMeaning(es: seq<Entry>)
    requires Timed(es)
    ensures OldestIndex(es).None? <==> forall j | 0 <= j < |es| :: !es[j].isDir
    ensures OldestIndex(es).Some? ==> OldestAmong(es, |es|, OldestIndex(es).value)
  {
    if |es| > 0 {
      var tail := es[1..];
      assert forall e | e in tail :: e in es;
      OldestIndexMeaning(tail);
      assert forall j | 1 <= j < |es| :: es[j] == tail[j - 1];
    }
  }

  /** The result `get_oldest_folder` gives for a listing. */
  function OldestOf(l: Listing<Entry>): IoResult<Option<Path>> {
    if !Readable(l) then IoError
    else
      match OldestIndex(l.entries)
      case None => Ok(None)
      case Some(k) => Ok(Some(l.entries[k].path))
  }

  /** The scan fails exactly when the listing breaks off or a directory's creation
      time cannot be read; otherwise it finds nothing exactly when no entry is a
      directory, and else the path of the oldest directory, the first listed
      among equally old ones. */
  lemma OldestOfMeaning(l: Listing<Entry>)
    ensures OldestOf(l).IoError? <==> !Readable(l)
    ensures OldestOf(l) == Ok(None) <==> Readable(l) && forall j | 0 <= j < |l.entries| :: !l.entries[j].isDir
    ensures OldestOf(l).Ok? && OldestOf(l).value.Some? ==>
      exists k | 0 <= k < |l.entries| ::
        OldestAmong(l.entries, |l.entries|, k) && OldestOf(l).value.value == l.entries[k].path
  {
    if Readable(l) {
      OldestIndexMeaning(l.entries);
    }
  }

  method GetOldestFolder(l: Listing<Entry>) returns (r: IoResult<Option<Path>>)
    ensures r == OldestOf(l)
  {
    var es := l.entries;
    var oldestFolder: Option<Path> := None;
    var oldestTime: Option<Time> := None;
    ghost var best: Option<nat> := None;
    for i := 0 to |es|
      invariant Timed(es[..i])
      invariant best.None? <==> forall j | 0 <= j < i :: !es[j].isDir
      invariant best.None? ==> oldestTime.None? && oldestFolder.None?
      invariant best.Some? ==> OldestAmong(es, i, best.value)
      invariant best.Some? ==> oldestTime == es[best.value].created && oldestFolder == Some(es[best.value].path)
    {
      var entry := es[i];
      assert es[..i + 1] == es[..i] + [entry];
      if entry.isDir {
        if entry.created.None? {
          return IoError;
        }
        var folderTime := entry.created.value;
        if oldestTime.None? || folderTime < oldestTime.value {
          oldestTime := Some(folderTime);
          oldestFolder := Some(entry.path);
          best := Some(i);
        }
      }
    }
    assert es[..|es|] == es;
    if l.broken {
      return IoError;
    }
    OldestIndexMeaning(es);
    if best.Some? {
      OldestUnique(es, |es|, best.value, OldestIndex(es).value);
    }
    return Ok(oldestFolder);
  }

  /** The directories of a listing, in order. */
  function Dirs(es: seq<Entry>): (r: seq<Entry>)
    ensures forall e | e in r :: e in es && e.isDir
  {
    if |es| == 0 then []
    else if es[0].isDir then [es[0]] + Dirs(es[1..])
    else Dirs(es[1..])
  }

  /** The entry chosen, if any. */
  function EntryAt(es: seq<Entry>, k: Option<nat>): Option<Entry> {
    match k
    case Some(i) => if i < |es| then Some(es[i]) else None
    case None => None
  }

  lemma {:induction false} DirsKeepOldest(es: seq<Entry>)
    requires Timed(es)
    ensures Timed(Dirs(es))
    ensures EntryAt(es, OldestIndex(es)) == EntryAt(Dirs(es), OldestIndex(Dirs(es)))
  {
    if |es| > 0 {
      var tail := es[1..];
      assert forall e | e in tail :: e in es;
      DirsKeepOldest(tail);
      if es[0].isDir {
        DirHeadKeepsOldest(es);
      }
    }
  }

  /** The inductive step of `DirsKeepOldest` when the first entry is a directory. */
  lemma {:induction false} DirHeadKeepsOldest(es: seq<Entry>)
    requires Timed(es) && |es| > 0 && es[0].isDir
    requires Timed(es[1..]) && Timed(Dirs(es[1..]))
    requires EntryAt(es[1..], OldestIndex(es[1..])) == EntryAt(Dirs(es[1..]), OldestIndex(Dirs(es[1..])))
    ensures Timed(Dirs(es))
    ensures EntryAt(es, OldestIndex(es)) == EntryAt(Dirs(es), OldestIndex(Dirs(es)))
  {
    var tail, d := es[1..], Dirs(es);
    assert d == [es[0]] + Dirs(tail);
    assert d[1..] == Dirs(tail);
    var rest, drest := OldestIndex(tail), OldestIndex(Dirs(tail));
    if rest.Some? {
      assert es[rest.value + 1] == d[drest.value + 1];
    }
  }

  /** Entries that are not directories never affect the choice, nor its errors. */
  lemma FilesAreIgnored(es: seq<Entry>, broken: bool)
    ensures OldestOf(Listing(es, broken)) == OldestOf(Listing(Dirs(es), broken))
  {
    if Timed(es) {
      DirsKeepOldest(es);
    } else {
      var e :| e in es && e.isDir && e.created.None?;
      assert e in Dirs(es) by { DirsContains(es, e); }
    }
  }

  lemma {:induction false} DirsContains(es: seq<Entry>, e: Entry)
    requires e in es && e.isDir
    ensures e in Dirs(es)
  {
    if es[0] != e {
      DirsContains(es[1..], e);
    }
  }

  /** Equal creation times: the directory listed first wins; the file in between
      is skipped, although its creation time cannot be read. */
  lemma TieGoesToFirstListed()
    ensures OldestOf(Listing([Entry("g/a", true, Some(5)), Entry("g/f", false, None), Entry("g/b", true, Some(5))], false))
         == Ok(Some("g/a"))
  {
    var es := [Entry("g/a", true, Some(5)), Entry("g/f", false, None), Entry("g/b", true, Some(5))];
    assert Timed(es);
    var k := OldestIndex(es).value;
    assert OldestAmong(es, 3, 0);
    OldestUnique(es, 3, 0, k);
  }

  /** Of three folders created at t1 < t2 < t3, the one created at t1 is chosen,
      wherever it is listed. */
  lemma EarliestCreatedIsChosen()
    ensures OldestOf(Listing([Entry("g/b", true, Some(2)), Entry("g/c", true, Some(3)), Entry("g/a", true, Some(1))], false))
         == Ok(Some("g/a"))
  {
    var es := [Entry("g/b", true, Some(2)), Entry("g/c", true, Some(3)), Entry("g/a", true, Some(1))];
    assert Timed(es);
    var k := OldestIndex(es).value;
    assert OldestAmong(es, 3, 2);
    OldestUnique(es, 3, 2, k);
  }
}
