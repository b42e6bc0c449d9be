/**
 * A worked run of the cleanup loop: category A holds item-group A1 with two
 * folders, `older` created before `newer`; category B holds no item-groups. Three
 * sweeps run while free space is low, then the probe reports enough.
 */
module Scenario {
  import opened Wrappers
  import opened Storage
  import opened Oldest
  import opened Logging
  import opened Cleanup

  const A1: Path := "/b/A/A1"

  /** The base directory `/b`, with `items` in A1. */
  function Base(items: seq<Entry>): Tree {
    Tree("/b", Listing([
      Category("/b/A", true, Listing([Group(A1, true, Listing(items, false))], false)),
      Category("/b/B", true, Listing([], false))], false))
  }

  /** Two folders, `older` created strictly before `newer`. */
  predicate Aged(older: Entry, newer: Entry) {
    && older.isDir && newer.isDir && older.created.Some? && newer.created.Some?
    && older.created.value < newer.created.value
  }

  /** 10% and 30% free on the volume mounted at `/`. */
  lemma ProbeExamples()
    ensures Probe([Disk("/", Some("sda1"), 100, 10)], "/b") == Some(Finite(10.0))
    ensures !ExitsCleanup(Probe([Disk("/", Some("sda1"), 100, 10)], "/b"))
    ensures Probe([Disk("/", Some("sda1"), 100, 30)], "/b") == Some(Finite(30.0))
    ensures ExitsCleanup(Probe([Disk("/", Some("sda1"), 100, 30)], "/b"))
  {
    var low := [Disk("/", Some("sda1"), 100, 10)];
    var high := [Disk("/", Some("sda1"), 100, 30)];
    assert low[0].mountPoint <= "/b";
    ProbeReadsFirstNamed(low, "/b", 0, 0);
    ProbeReadsFirstNamed(high, "/b", 0, 0);
  }

  lemma GroupSteps(older: Entry, newer: Entry)
    requires Aged(older, newer)
    ensures GroupStep(Group(A1, true, Listing([older, newer], false))) == Trace([Deleting(older.path)], [older.path], Going)
    ensures GroupStep(Group(A1, true, Listing([newer], false))) == Trace([Deleting(newer.path)], [newer.path], Going)
    ensures GroupStep(Group(A1, true, Listing([], false))) == Trace([NoSubfolders(A1)], [], Going)
  {
    OlderFirst(older, newer);
    assert OldestIndex([newer]) == Some(0);
  }

  lemma OlderFirst(older: Entry, newer: Entry)
    requires Aged(older, newer)
    ensures Timed([older, newer]) && OldestIndex([older, newer]) == Some(0)
  {
    assert OldestAmong([older, newer], 2, 0);
    OldestUnique([older, newer], 2, 0, OldestIndex([older, newer]).value);
  }

  /** One sweep over the tree does what A1 does. */
  lemma SweepOf(items: seq<Entry>)
    ensures SweepTrace(Base(items)) == GroupStep(Group(A1, true, Listing(items, false)))
  {
    var t := Base(items);
    var g := Group(A1, true, Listing(items, false));
    var cs := t.categories.entries;
    var gs := cs[0].groups.entries;
    GroupStepMeaning(g);
    assert GroupStep(g).status != Done;
    assert Walk(gs[1..], false, GroupStep) == Quiet;
    ThenExtend([], [], GroupStep(g), Quiet);
    assert CategoryStep(cs[1]) == Quiet;
    assert cs[1..][1..] == [];
    assert Walk(cs[1..], false, CategoryStep) == Quiet;
    QuietThen(GroupStep(g));
  }

  lemma PrunedOf(items: seq<Entry>, k: nat)
    requires Timed(items) && OldestIndex(items) == Some(k)
    ensures Pruned(Base(items)) == Base(items[..k] + items[k + 1..])
  {
    var t := Base(items);
    var r := Pruned(t);
    var cs := t.categories.entries;
    assert r.categories.entries[0].groups.entries == [PruneGroup(cs[0].groups.entries[0])];
    assert r.categories.entries[1].groups.entries == [];
    assert r.categories.entries == Base(items[..k] + items[k + 1..]).categories.entries;
  }

  lemma PrunedEmpty()
    ensures Pruned(Base([])) == Base([])
  {
    var t := Base([]);
    var r := Pruned(t);
    assert r.categories.entries[0].groups.entries == [PruneGroup(t.categories.entries[0].groups.entries[0])];
    assert r.categories.entries[1].groups.entries == [];
    assert r.categories.entries == t.categories.entries;
  }

  lemma Pair<T>(a: T, b: T)
    ensures [a] + [b] == [a, b]
  {
  }

  lemma Single<T>(a: T)
    ensures [a] + [] == [a]
  {
  }

  /** A round whose probe is not above 25% and whose sweep logs one line: the
      "cleaning up" line, that line, then the rounds over the pruned tree. */
  lemma RoundThen(t: Tree, probes: seq<seq<Disk>>, line: Line, removed: seq<Path>, after: Trace)
    requires |probes| > 0 && !ExitsCleanup(Probe(probes[0], t.path))
    requires SweepTrace(t) == Trace([line], removed, Going)
    requires CleanRun(Pruned(t), probes[1..]) == after
    ensures CleanRun(t, probes) == Trace([CleaningUp, line] + after.lines, removed + after.removed, after.status)
  {
    assert [CleaningUp] + ([line] + after.lines) == [CleaningUp, line] + after.lines;
    assert [] + (removed + after.removed) == removed + after.removed;
  }

  lemma ThirdRound(low: seq<Disk>, high: seq<Disk>)
    requires !ExitsCleanup(Probe(low, "/b")) && ExitsCleanup(Probe(high, "/b"))
    ensures CleanRun(Base([]), [low, high]) == Trace([CleaningUp, NoSubfolders(A1)] + [ExitingCleanup], [], Done)
  {
    var probes := [low, high];
    assert probes[1..] == [high];
    PrunedEmpty();
    SweepOf([]);
    GroupSteps(Entry("", true, Some(0)), Entry("", true, Some(1)));
    RoundThen(Base([]), probes, NoSubfolders(A1), [], Trace([ExitingCleanup], [], Done));
  }

  lemma SecondRound(newer: Entry, low: seq<Disk>, high: seq<Disk>)
    requires newer.isDir && newer.created.Some?
    requires !ExitsCleanup(Probe(low, "/b")) && ExitsCleanup(Probe(high, "/b"))
    ensures CleanRun(Base([newer]), [low, low, high])
         == Trace([CleaningUp, Deleting(newer.path)] + ([CleaningUp, NoSubfolders(A1)] + [ExitingCleanup]), [newer.path], Done)
  {
    var probes := [low, low, high];
    assert probes[1..] == [low, high];
    assert OldestIndex([newer]) == Some(0);
    PrunedOf([newer], 0);
    assert [newer][..0] + [newer][1..] == [];
    ThirdRound(low, high);
    SweepOf([newer]);
    GroupSteps(Entry("", true, Some(newer.created.value - 1)), newer);
    RoundThen(Base([newer]), probes, Deleting(newer.path), [newer.path],
      Trace([CleaningUp, NoSubfolders(A1)] + [ExitingCleanup], [], Done));
    Single(newer.path);
  }

  /** With free space low for three probes: the first sweep deletes `older`,
      the second `newer`, the third finds A1 empty; B, holding no item-groups,
      logs nothing; the fourth probe ends the loop. */
  lemma TwoDeletionsThenNothingLeft(older: Entry, newer: Entry, low: seq<Disk>, high: seq<Disk>)
    requires Aged(older, newer)
    requires !ExitsCleanup(Probe(low, "/b")) && ExitsCleanup(Probe(high, "/b"))
    ensures CleanRun(Base([older, newer]), [low, low, low, high]) == Trace(
      [CleaningUp, Deleting(older.path)] + ([CleaningUp, Deleting(newer.path)] + ([CleaningUp, NoSubfolders(A1)] + [ExitingCleanup])),
      [older.path, newer.path], Done)
  {
    var probes := [low, low, low, high];
    assert probes[1..] == [low, low, high];
    OlderFirst(older, newer);
    PrunedOf([older, newer], 0);
    assert [older, newer][..0] + [older, newer][1..] == [newer];
    SecondRound(newer, low, high);
    SweepOf([older, newer]);
    GroupSteps(older, newer);
    RoundThen(Base([older, newer]), probes, Deleting(older.path), [older.path],
      Trace([CleaningUp, Deleting(newer.path)] + ([CleaningUp, NoSubfolders(A1)] + [ExitingCleanup]), [newer.path], Done));
    Pair(older.path, newer.path);
  }
}
