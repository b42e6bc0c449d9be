/**
 * The program's entry point (`main`): log rotation, one storage probe, and the
 * cleanup loop when free space is below 20%.
 *
 * The configuration (base and log directories) is given: the base directory is
 * the path of the tree, and the log is the sequence of lines the log file holds.
 */
module Entrypoint {
  import opened Wrappers
  import opened Storage
  import opened Oldest
  import opened Logging
  import opened Cleanup

  /** The entry threshold: cleanup starts when free space is below 20%. */
  predicate StartsCleanup(free: Ratio): (r: bool)
    ensures r <==> free.Finite? && free.value < 20.0
  {
    Below(free, 20.0)
  }

  /**
   * One run of the program. `meta` is what the log file's metadata says at
   * start-up, `oldLog` what the log file holds, `disks` the disk table of the
   * first probe and `probes` the disk tables the cleanup loop then sees, one per
   * iteration. A run that returns `Going` was still cleaning when the snapshots
   * ran out.
   */
  method Run(meta: LogMeta, oldLog: seq<Line>, disks: seq<Disk>, t: Tree, probes: seq<seq<Disk>>)
    returns (log: seq<Line>, removed: seq<Path>, status: Status)
    ensures var kept := if RemovesLog(meta) then [] else oldLog;
      && (Probe(disks, t.path).None? ==>
            log == kept + [DiskNotFound] && removed == [] && status == Done)
      && (Probe(disks, t.path).Some? && !StartsCleanup(Probe(disks, t.path).value) ==>
            log == kept + [CurrentFree(Probe(disks, t.path).value), Sufficient] && removed == [] && status == Done)
      && (Probe(disks, t.path).Some? && StartsCleanup(Probe(disks, t.path).value) ==>
            && log == kept + [CurrentFree(Probe(disks, t.path).value), StartingCleanup] + CleanRun(t, probes).lines
            && removed == CleanRun(t, probes).removed
            && status == CleanRun(t, probes).status)
    ensures removed != [] || status != Done ==> Probe(disks, t.path).Some? && StartsCleanup(Probe(disks, t.path).value)
  {
    var kept := if RemovesLog(meta) then [] else oldLog;
    var free := CheckStorage(disks, t.path);
    match free
    case None =>
      return kept + [DiskNotFound], [], Done;
    case Some(p) =>
      if StartsCleanup(p) {
        var tr := CleanDisk(t, probes);
        return kept + [CurrentFree(p), StartingCleanup] + tr.lines, tr.removed, tr.status;
      } else {
        return kept + [CurrentFree(p), Sufficient], [], Done;
      }
  }

  /** Between 20% and 25% free, `main` does not start a cleanup, and a cleanup
      already running does not stop: the two thresholds form a hysteresis band. */
  lemma HysteresisBand(v: real)
    requires 20.0 <= v <= 25.0
    ensures !StartsCleanup(Finite(v)) && !ExitsCleanup(Some(Finite(v)))
  {
  }

  /** 22% free is sufficient; 15% starts a cleanup; a zero-capacity volume never
      starts one. */
  lemma StartThresholdExamples()
    ensures !StartsCleanup(Percent(100, 22))
    ensures StartsCleanup(Percent(100, 15))
    ensures !StartsCleanup(Percent(0, 0)) && !StartsCleanup(Percent(0, 5))
  {
  }
}
