/**
 * The cleanup loop (`clean_disk`): while the probed free space is not above
 * 25%, sweep the base directory and delete, in every item-group, its oldest
 * subfolder.
 *
 * The filesystem is a snapshot of three levels: the base directory lists
 * categories, a category lists item-groups, an item-group lists the items that
 * are the deletion candidates. Deleting an item removes it from its group's
 * listing; paths are taken not to alias one another.
 */
module Cleanup {
  import opened Wrappers
  import opened Storage
  import opened Oldest
  import opened Logging

  /** An item-group: a second-level entry; when it is a directory, its items are
      the deletion candidates. */
  datatype Group = Group(path: Path, isDir: bool, items: Listing<Entry>)

  /** A category: a first-level entry of the base directory. */
  datatype Category = Category(path: Path, isDir: bool, groups: Listing<Group>)

  /** The base directory, as a sweep reads it. */
  datatype Tree = Tree(path: Path, categories: Listing<Category>)

  /** `Going`: the run may carry on; `Done`: the loop exited normally; `Failed`:
      an I/O error aborted the run. */
  datatype Status = Going | Done | Failed

  /** What a run did: the lines it logged and the folders it deleted, in order. */
  datatype Trace = Trace(lines: seq<Line>, removed: seq<Path>, status: Status)

  const Quiet: Trace := Trace([], [], Going)

  /** `a` followed by `b`, unless `a` already stopped the run. */
  function Then(a: Trace, b: Trace): Trace {
    if a.status != Going then a
    else Trace(a.lines + b.lines, a.removed + b.removed, b.status)
  }

  /** Extending the lines and deletions done so far by one more step `a`. */
  lemma ThenExtend(lines: seq<Line>, removed: seq<Path>, a: Trace, b: Trace)
    ensures a.status == Going ==>
      Then(Trace(lines, removed, Going), Then(a, b)) == Then(Trace(lines + a.lines, removed + a.removed, Going), b)
    ensures a.status != Going ==>
      Then(Trace(lines, removed, Going), Then(a, b)) == Trace(lines + a.lines, removed + a.removed, a.status)
  {
    assert (lines + a.lines) + b.lines == lines + (a.lines + b.lines);
    assert (removed + a.removed) + b.removed == removed + (a.removed + b.removed);
  }

  lemma QuietThen(a: Trace)
    ensures Then(Quiet, a) == a
  {
    assert [] + a.lines == a.lines && [] + a.removed == a.removed;
  }

  /** The folders named by the "Deleting folder" lines, in order. */
  function Deletions(lines: seq<Line>): (r: seq<Path>)
    ensures |r| <= |lines|
  {
    if |lines| == 0 then []
    else (if lines[0].Deleting? then [lines[0].folder] else []) + Deletions(lines[1..])
  }

  lemma {:induction false} DeletionsAppend(a: seq<Line>, b: seq<Line>)
    ensures Deletions(a + b) == Deletions(a) + Deletions(b)
  {
    if |a| > 0 {
      assert (a + b)[0] == a[0];
      assert (a + b)[1..] == a[1..] + b;
      DeletionsAppend(a[1..], b);
      var head := if a[0].Deleting? then [a[0].folder] else [];
      calc {
        Deletions(a + b);
        head + Deletions(a[1..] + b);
        head + (Deletions(a[1..]) + Deletions(b));
        (head + Deletions(a[1..])) + Deletions(b);
      }
    } else {
      assert a + b == b;
    }
  }

  /** One item-group of a sweep. */
  function GroupStep(g: Group): Trace {
    if !g.isDir then Quiet
    else
      match OldestOf(g.items)
      case IoError => Trace([], [], Failed)
      case Ok(None) => Trace([NoSubfolders(g.path)], [], Going)
      case Ok(Some(p)) => Trace([Deleting(p)], [p], Going)
  }

  /** In one item-group, a sweep fails exactly when the group's listing cannot be
      read; a readable directory has its first oldest directory item deleted,
      after a "Deleting folder" line, or logs "No subfolders found" when it holds
      no directory; an entry that is not a directory is skipped. */
  lemma GroupStepMeaning(g: Group)
    ensures GroupStep(g).status == Failed <==> g.isDir && !Readable(g.items)
    ensures !g.isDir ==> GroupStep(g) == Quiet
    ensures GroupStep(g).removed != [] ==>
      && g.isDir && |GroupStep(g).removed| == 1
      && GroupStep(g).lines == [Deleting(GroupStep(g).removed[0])]
      && exists k | 0 <= k < |g.items.entries| ::
           OldestAmong(g.items.entries, |g.items.entries|, k) && GroupStep(g).removed[0] == g.items.entries[k].path
    ensures g.isDir && GroupStep(g).status == Going && GroupStep(g).removed == [] <==>
      g.isDir && Readable(g.items) && forall j | 0 <= j < |g.items.entries| :: !g.items.entries[j].isDir
    ensures g.isDir && GroupStep(g).status == Going && GroupStep(g).removed == [] ==>
      GroupStep(g).lines == [NoSubfolders(g.path)]
  {
    OldestOfMeaning(g.items);
  }

  /** Visiting the entries of a listing in order, then failing if the listing
      breaks off. */
  function Walk<T>(xs: seq<T>, broken: bool, step: T -> Trace): Trace {
    if |xs| == 0 then Trace([], [], if broken then Failed else Going)
    else Then(step(xs[0]), Walk(xs[1..], broken, step))
  }

  /** One category of a sweep: its item-groups when it is a directory. */
  function CategoryStep(c: Category): Trace {
    if c.isDir then Walk(c.groups.entries, c.groups.broken, GroupStep) else Quiet
  }

  /** One sweep over the base directory. */
  function SweepTrace(t: Tree): Trace {
    Walk(t.categories.entries, t.categories.broken, CategoryStep)
  }

  lemma WalkUnfold<T>(xs: seq<T>, i: nat, broken: bool, step: T -> Trace)
    requires i < |xs|
    ensures Walk(xs[i..], broken, step) == Then(step(xs[i]), Walk(xs[i + 1..], broken, step))
  {
    assert xs[i..][1..] == xs[i + 1..];
  }

  /** The item-groups of one category, in listing order. */
  method SweepGroups(groups: Listing<Group>) returns (tr: Trace)
    ensures tr == Walk(groups.entries, groups.broken, GroupStep)
  {
    var lines: seq<Line> := [];
    var removed: seq<Path> := [];
    var gs := groups.entries;
    assert gs[0..] == gs;
    QuietThen(Walk(gs, groups.broken, GroupStep));
    for j := 0 to |gs|
      invariant Walk(gs, groups.broken, GroupStep) == Then(Trace(lines, removed, Going), Walk(gs[j..], groups.broken, GroupStep))
    {
      WalkUnfold(gs, j, groups.broken, GroupStep);
      var group := gs[j];
      ThenExtend(lines, removed, GroupStep(group), Walk(gs[j + 1..], groups.broken, GroupStep));
      if group.isDir {
        var oldest := GetOldestFolder(group.items);
        match oldest
        case IoError =>
          assert GroupStep(group) == Trace([], [], Failed);
          assert lines + [] == lines && removed + [] == removed;
          return Trace(lines, removed, Failed);
        case Ok(None) =>
          assert GroupStep(group) == Trace([NoSubfolders(group.path)], [], Going);
          assert removed + [] == removed;
          lines := lines + [NoSubfolders(group.path)];
        case Ok(Some(folder)) =>
          assert GroupStep(group) == Trace([Deleting(folder)], [folder], Going);
          lines := lines + [Deleting(folder)];
          removed := removed + [folder];
      } else {
        assert GroupStep(group) == Quiet;
        assert lines + [] == lines && removed + [] == removed;
      }
    }
    assert gs[|gs|..] == [];
    if groups.broken {
      return Trace(lines, removed, Failed);
    }
    return Trace(lines, removed, Going);
  }

  method Sweep(t: Tree) returns (tr: Trace)
    ensures tr == SweepTrace(t)
  {
    var lines: seq<Line> := [];
    var removed: seq<Path> := [];
    var categories := t.categories.entries;
    assert categories[0..] == categories;
    QuietThen(SweepTrace(t));
    for i := 0 to |categories|
      invariant SweepTrace(t) == Then(Trace(lines, removed, Going), Walk(categories[i..], t.categories.broken, CategoryStep))
    {
      WalkUnfold(categories, i, t.categories.broken, CategoryStep);
      var category := categories[i];
      ThenExtend(lines, removed, CategoryStep(category), Walk(categories[i + 1..], t.categories.broken, CategoryStep));
      if category.isDir {
        var groups := SweepGroups(category.groups);
        lines := lines + groups.lines;
        removed := removed + groups.removed;
        if groups.status != Going {
          return Trace(lines, removed, groups.status);
        }
      } else {
        assert lines + [] == lines && removed + [] == removed;
      }
    }
    assert categories[|categories|..] == [];
    if t.categories.broken {
      return Trace(lines, removed, Failed);
    }
    return Trace(lines, removed, Going);
  }

  lemma {:induction false} WalkNeverDone<T>(xs: seq<T>, broken: bool, step: T -> Trace)
    requires forall x :: step(x).status != Done
    ensures Walk(xs, broken, step).status != Done
  {
    if |xs| > 0 {
      WalkNeverDone(xs[1..], broken, step);
    }
  }

  /** A sweep either completes or fails; only the probe ends the loop. */
  lemma SweepNeverDone(t: Tree)
    ensures SweepTrace(t).status != Done
  {
    forall c: Category ensures CategoryStep(c).status != Done {
      if c.isDir {
        WalkNeverDone(c.groups.entries, c.groups.broken, GroupStep);
      }
    }
    WalkNeverDone(t.categories.entries, t.categories.broken, CategoryStep);
  }

  /** Every logged "Deleting folder" line is matched, in order, by the deletion of
      that folder, in a single group as in a whole sweep. */
  lemma {:induction false} WalkLogsDeletions<T>(xs: seq<T>, broken: bool, step: T -> Trace)
    requires forall x :: Deletions(step(x).lines) == step(x).removed
    ensures Deletions(Walk(xs, broken, step).lines) == Walk(xs, broken, step).removed
  {
    if |xs| > 0 {
      WalkLogsDeletions(xs[1..], broken, step);
      DeletionsAppend(step(xs[0]).lines, Walk(xs[1..], broken, step).lines);
    }
  }

  lemma SweepLogsEachDeletion(t: Tree)
    ensures Deletions(SweepTrace(t).lines) == SweepTrace(t).removed
    ensures |SweepTrace(t).removed| <= |SweepTrace(t).lines|
  {
    forall g: Group ensures Deletions(GroupStep(g).lines) == GroupStep(g).removed {
    }
    forall c: Category ensures Deletions(CategoryStep(c).lines) == CategoryStep(c).removed {
      if c.isDir {
        WalkLogsDeletions(c.groups.entries, c.groups.broken, GroupStep);
      }
    }
    WalkLogsDeletions(t.categories.entries, t.categories.broken, CategoryStep);
  }

  function Sum<T>(xs: seq<T>, w: T -> nat): nat {
    if |xs| == 0 then 0 else w(xs[0]) + Sum(xs[1..], w)
  }

  lemma {:induction false} WalkLineCount<T>(xs: seq<T>, broken: bool, step: T -> Trace, w: T -> nat)
    requires forall x :: step(x).status == Going ==> |step(x).lines| == w(x)
    ensures Walk(xs, broken, step).status == Going ==> |Walk(xs, broken, step).lines| == Sum(xs, w)
  {
    if |xs| > 0 {
      WalkLineCount(xs[1..], broken, step, w);
    }
  }

  function GroupWeight(g: Group): nat {
    if g.isDir then 1 else 0
  }

  function CategoryWeight(c: Category): nat {
    if c.isDir then Sum(c.groups.entries, GroupWeight) else 0
  }

  /** The number of item-groups a sweep visits: directories inside directory
      categories. */
  function GroupCount(t: Tree): nat {
    Sum(t.categories.entries, CategoryWeight)
  }

  /** A sweep that completes logs exactly one line per visited item-group, and so
      deletes at most one item per item-group. */
  lemma SweepLinePerGroup(t: Tree)
    ensures SweepTrace(t).status == Going ==> |SweepTrace(t).lines| == GroupCount(t)
    ensures SweepTrace(t).status == Going ==> |SweepTrace(t).removed| <= GroupCount(t)
  {
    forall c: Category ensures CategoryStep(c).status == Going ==> |CategoryStep(c).lines| == CategoryWeight(c) {
      if c.isDir {
        WalkLineCount(c.groups.entries, c.groups.broken, GroupStep, GroupWeight);
      }
    }
    WalkLineCount(t.categories.entries, t.categories.broken, CategoryStep, CategoryWeight);
    SweepLogsEachDeletion(t);
  }

  /** An item-group after the sweep: without its oldest item when it has one. */
  function PruneGroup(g: Group): Group {
    if !g.isDir || !Readable(g.items) then g
    else
      match OldestIndex(g.items.entries)
      case None => g
      case Some(k) =>
        Group(g.path, g.isDir, Listing(g.items.entries[..k] + g.items.entries[k + 1..], g.items.broken))
  }

  /** The sweep deletes from an item-group exactly the item it logs, which is its
      first oldest directory; every other item, files included, remains in
      order, and an item-group where nothing is deleted is unchanged. */
  lemma PruneGroupScope(g: Group)
    ensures PruneGroup(g).path == g.path && PruneGroup(g).isDir == g.isDir
    ensures PruneGroup(g).items.broken == g.items.broken
    ensures GroupStep(g).removed == [] ==> PruneGroup(g) == g
    ensures GroupStep(g).removed != [] ==>
      exists k | 0 <= k < |g.items.entries| ::
        && OldestAmong(g.items.entries, |g.items.entries|, k)
        && GroupStep(g).removed == [g.items.entries[k].path]
        && PruneGroup(g).items.entries == g.items.entries[..k] + g.items.entries[k + 1..]
  {
    if GroupStep(g).removed != [] {
      var es := g.items.entries;
      OldestIndexMeaning(es);
    }
  }

  function PruneCategory(c: Category): Category {
    if !c.isDir then c
    else
      var gs := c.groups.entries;
      Category(c.path, c.isDir, Listing(seq(|gs|, i requires 0 <= i < |gs| => PruneGroup(gs[i])), c.groups.broken))
  }

  /** The base directory after a sweep that completes. */
  function Pruned(t: Tree): (r: Tree)
    ensures r.path == t.path
  {
    var cs := t.categories.entries;
    Tree(t.path, Listing(seq(|cs|, i requires 0 <= i < |cs| => PruneCategory(cs[i])), t.categories.broken))
  }

  /** Nothing but the deleted items changes: every category and item-group keeps
      its path, kind and listing status, categories that are not directories are
      untouched, and every item-group of a directory category is pruned as
      `PruneGroupScope` states. */
  lemma PrunedScope(t: Tree)
    ensures Pruned(t).categories.broken == t.categories.broken
    ensures |Pruned(t).categories.entries| == |t.categories.entries|
    ensures forall i | 0 <= i < |t.categories.entries| ::
      var c, c' := t.categories.entries[i], Pruned(t).categories.entries[i];
      && c'.path == c.path && c'.isDir == c.isDir && c'.groups.broken == c.groups.broken
      && |c'.groups.entries| == |c.groups.entries|
      && (!c.isDir ==> c' == c)
      && (c.isDir ==> forall j | 0 <= j < |c.groups.entries| :: c'.groups.entries[j] == PruneGroup(c.groups.entries[j]))
  {
  }

  /** The loop's exit test: the probe, with an absent volume read as 100%, is
      above 25%. */
  predicate ExitsCleanup(free: Option<Ratio>): (r: bool)
    ensures free.None? ==> r
    ensures free.Some? && free.value.Finite? ==> (r <==> free.value.value > 25.0)
    ensures free == Some(Infinite) ==> r
    ensures free == Some(NaN) ==> !r
  {
    Above(free.GetOr(Finite(100.0)), 25.0)
  }

  /** The cleanup loop over a sequence of probe snapshots, one disk table per
      iteration; a run still going when the snapshots run out is cut off there. */
  function CleanRun(t: Tree, probes: seq<seq<Disk>>): Trace
    decreases |probes|
  {
    if |probes| == 0 then Quiet
    else if ExitsCleanup(Probe(probes[0], t.path)) then Trace([ExitingCleanup], [], Done)
    else Then(Trace([CleaningUp], [], Going), Then(SweepTrace(t), CleanRun(Pruned(t), probes[1..])))
  }

  method CleanDisk(t: Tree, probes: seq<seq<Disk>>) returns (tr: Trace)
    ensures tr == CleanRun(t, probes)
  {
    var lines: seq<Line> := [];
    var removed: seq<Path> := [];
    var tree := t;
    var k := 0;
    assert probes[0..] == probes;
    QuietThen(CleanRun(t, probes));
    while k < |probes|
      invariant k <= |probes| && tree.path == t.path
      invariant CleanRun(t, probes) == Then(Trace(lines, removed, Going), CleanRun(tree, probes[k..]))
    {
      assert probes[k..][0] == probes[k] && probes[k..][1..] == probes[k + 1..];
      ghost var rest := CleanRun(Pruned(tree), probes[k + 1..]);
      var free := CheckStorage(probes[k], t.path);
      if ExitsCleanup(free) {
        assert CleanRun(tree, probes[k..]) == Trace([ExitingCleanup], [], Done);
        assert removed + [] == removed;
        lines := lines + [ExitingCleanup];
        return Trace(lines, removed, Done);
      }
      assert CleanRun(tree, probes[k..]) == Then(Trace([CleaningUp], [], Going), Then(SweepTrace(tree), rest));
      ThenExtend(lines, removed, Trace([CleaningUp], [], Going), Then(SweepTrace(tree), rest));
      assert removed + [] == removed;
      lines := lines + [CleaningUp];
      var sweep := Sweep(tree);
      ThenExtend(lines, removed, sweep, rest);
      lines := lines + sweep.lines;
      removed := removed + sweep.removed;
      if sweep.status != Going {
        return Trace(lines, removed, sweep.status);
      }
      tree := Pruned(tree);
      k := k + 1;
    }
    assert probes[k..] == [];
    assert lines + [] == lines && removed + [] == removed;
    return Trace(lines, removed, Going);
  }

  /** The loop exits normally only at the first probe above 25%. */
  lemma {:induction false} ExitOnlyAboveThreshold(t: Tree, probes: seq<seq<Disk>>)
    decreases |probes|
    ensures CleanRun(t, probes).status == Done ==>
      exists k | 0 <= k < |probes| ::
        && ExitsCleanup(Probe(probes[k], t.path))
        && forall j | 0 <= j < k :: !ExitsCleanup(Probe(probes[j], t.path))
  {
    if |probes| > 0 && !ExitsCleanup(Probe(probes[0], t.path)) {
      var rest := probes[1..];
      var sub := CleanRun(Pruned(t), rest);
      if CleanRun(t, probes).status == Done {
        SweepNeverDone(t);
        assert sub.status == Done;
        ExitOnlyAboveThreshold(Pruned(t), rest);
        var k :| 0 <= k < |rest| && ExitsCleanup(Probe(rest[k], t.path))
          && forall j | 0 <= j < k :: !ExitsCleanup(Probe(rest[j], t.path));
        assert probes[k + 1] == rest[k];
        forall j | 0 <= j < k + 1 ensures !ExitsCleanup(Probe(probes[j], t.path)) {
          if j > 0 { assert probes[j] == rest[j - 1]; }
        }
      }
    }
  }

  /** A loop that exits normally logs the exit line last. */
  lemma {:induction false} ExitLoggedLast(t: Tree, probes: seq<seq<Disk>>)
    decreases |probes|
    ensures CleanRun(t, probes).status == Done ==>
      && CleanRun(t, probes).lines != []
      && CleanRun(t, probes).lines[|CleanRun(t, probes).lines| - 1] == ExitingCleanup
  {
    if |probes| > 0 && !ExitsCleanup(Probe(probes[0], t.path)) {
      var sub := CleanRun(Pruned(t), probes[1..]);
      var sweep := SweepTrace(t);
      if CleanRun(t, probes).status == Done {
        SweepNeverDone(t);
        ExitLoggedLast(Pruned(t), probes[1..]);
        ThenExtend([CleaningUp], [], sweep, sub);
        var lines := [CleaningUp] + sweep.lines + sub.lines;
        assert lines[|lines| - 1] == sub.lines[|sub.lines| - 1];
      }
    }
  }

  /** A run cut off when the snapshots run out never saw a probe above 25%. */
  lemma {:induction false} CutOffNeverExited(t: Tree, probes: seq<seq<Disk>>)
    decreases |probes|
    ensures CleanRun(t, probes).status == Going ==>
      forall j | 0 <= j < |probes| :: !ExitsCleanup(Probe(probes[j], t.path))
  {
    if |probes| > 0 && !ExitsCleanup(Probe(probes[0], t.path)) {
      var rest := probes[1..];
      var sub := CleanRun(Pruned(t), rest);
      var sweep := SweepTrace(t);
      assert CleanRun(t, probes) == Then(Trace([CleaningUp], [], Going), Then(sweep, sub));
      if CleanRun(t, probes).status == Going {
        assert sweep.status == Going && sub.status == Going;
        CutOffNeverExited(Pruned(t), rest);
        forall j | 0 <= j < |probes| ensures !ExitsCleanup(Probe(probes[j], t.path)) {
          if j > 0 { assert probes[j] == rest[j - 1]; }
        }
      }
    }
  }

  /** A first probe above 25%, or no volume found, ends the loop at once: one log
      line, nothing deleted. */
  lemma ImmediateExit(t: Tree, probes: seq<seq<Disk>>)
    requires |probes| > 0
    requires Probe(probes[0], t.path).None? || Above(Probe(probes[0], t.path).value, 25.0)
    ensures CleanRun(t, probes) == Trace([ExitingCleanup], [], Done)
  {
  }
}
