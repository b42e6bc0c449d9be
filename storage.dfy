/**
 * The storage probe (`check_storage`): which volume of the host's disk table
 * holds the base directory, and what percentage of it is free.
 *
 * The disk table is an input: one snapshot of the host's volumes, in the order
 * the system enumerates them.
 */
module Storage {
  import opened Wrappers

  /** One volume: its mount point (as a string), its name (None when the name is
      not valid UTF-8), and its total and available capacity in bytes. */
  datatype Disk = Disk(mountPoint: string, name: Option<string>, total: nat, available: nat)

  /** The value of the floating-point quotient `available / total * 100`: a number,
      or the infinity and not-a-number that a zero total produces. */
  datatype Ratio = Finite(value: real) | Infinite | NaN

  /** The free percentage (`calculate_percentage`), in exact arithmetic: a
      number whenever the total is positive, that number times the total being
      a hundred times the available space; infinity for free space on a
      zero-capacity volume; NaN for 0 / 0. */
  function Percent(total: nat, available: nat): (r: Ratio)
    ensures r.Finite? <==> total > 0
    ensures r.Finite? ==> r.value * total as real == available as real * 100.0
    ensures r == Infinite <==> total == 0 && available > 0
    ensures r == NaN <==> total == 0 && available == 0
  {
    if total > 0 then Finite(available as real / total as real * 100.0)
    else if available > 0 then Infinite
    else NaN
  }

  /** `r > bound` as floating-point comparison evaluates it. */
  predicate Above(r: Ratio, bound: real) {
    match r
    case Finite(v) => v > bound
    case Infinite => true
    case NaN => false
  }

  /** `r < bound` as floating-point comparison evaluates it. */
  predicate Below(r: Ratio, bound: real) {
    match r
    case Finite(v) => v < bound
    case Infinite => false
    case NaN => false
  }

  /** A volume that is not over-committed reports a percentage between 0 and 100. */
  lemma PercentInRange(total: nat, available: nat)
    requires 0 < total && available <= total
    ensures Percent(total, available).Finite?
    ensures 0.0 <= Percent(total, available).value <= 100.0
  {
    var q := available as real / total as real;
    assert q * total as real == available as real;
    assert q <= 1.0;
  }

  /** The index of the first element satisfying `p` (the iterator method `find`). */
  function Find<T>(s: seq<T>, p: T -> bool): (r: Option<nat>)
    ensures r.Some? ==> r.value < |s| && p(s[r.value])
    ensures r.Some? ==> forall j | 0 <= j < r.value :: !p(s[j])
    ensures r.None? ==> forall j | 0 <= j < |s| :: !p(s[j])
  {
    if |s| == 0 then None
    else if p(s[0]) then Some(0)
    else
      match Find(s[1..], p)
      case None => None
      case Some(i) => Some(i + 1)
  }

  /** A disk whose mount point is a string prefix of `baseDir`. */
  function Mounted(baseDir: string): Disk -> bool {
    (d: Disk) => d.mountPoint <= baseDir
  }

  /** A disk whose name is valid UTF-8 and equal to `name`. */
  function Named(name: string): Disk -> bool {
    (d: Disk) => d.name == Some(name)
  }

  /** Step one of the probe: the name of the first disk mounted on a prefix of
      `baseDir`, if there is such a disk and its name is valid UTF-8. */
  function DiskName(disks: seq<Disk>, baseDir: string): Option<string> {
    match Find(disks, Mounted(baseDir))
    case None => None
    case Some(i) => disks[i].name
  }

  /** What the probe reports: the free percentage of the first disk carrying the
      name found by step one. */
  function Probe(disks: seq<Disk>, baseDir: string): Option<Ratio> {
    match DiskName(disks, baseDir)
    case None => None
    case Some(n) =>
      match Find(disks, Named(n))
      case None => None
      case Some(j) => Some(Percent(disks[j].total, disks[j].available))
  }

  method CheckStorage(disks: seq<Disk>, baseDir: string) returns (r: Option<Ratio>)
    ensures r == Probe(disks, baseDir)
  {
    var diskName := DiskName(disks, baseDir);
    if diskName.Some? {
      for j := 0 to |disks|
        invariant forall k | 0 <= k < j :: disks[k].name != diskName
      {
        if disks[j].name == diskName {
          return Some(Percent(disks[j].total, disks[j].available));
        }
      }
    }
    return None;
  }

  /** The probe finds a volume exactly when some disk is mounted on a prefix of
      `baseDir` and the FIRST such disk has a valid name; a later matching disk
      does not help. */
  lemma ProbePresent(disks: seq<Disk>, baseDir: string)
    ensures Probe(disks, baseDir).Some? <==>
      exists i | 0 <= i < |disks| ::
        && disks[i].mountPoint <= baseDir
        && disks[i].name.Some?
        && forall j | 0 <= j < i :: !(disks[j].mountPoint <= baseDir)
  {
    match Find(disks, Mounted(baseDir))
    case None =>
    case Some(i) =>
      if disks[i].name.Some? {
        var n := disks[i].name.value;
        assert Named(n)(disks[i]);
        assert Find(disks, Named(n)).Some?;
      }
      forall i' | 0 <= i' < |disks| && disks[i'].mountPoint <= baseDir
          && forall j | 0 <= j < i' :: !(disks[j].mountPoint <= baseDir)
        ensures i' == i
      {
        assert Mounted(baseDir)(disks[i']);
      }
  }

  /** When disk `i` is the first prefix match and disk `j` the first disk with the
      same name, the probe reports disk `j`'s percentage; `j` is `i` or an earlier
      disk. */
  lemma ProbeReadsFirstNamed(disks: seq<Disk>, baseDir: string, i: nat, j: nat)
    requires i < |disks| && disks[i].mountPoint <= baseDir
    requires forall k | 0 <= k < i :: !(disks[k].mountPoint <= baseDir)
    requires disks[i].name.Some?
    requires j < |disks| && disks[j].name == disks[i].name
    requires forall k | 0 <= k < j :: disks[k].name != disks[i].name
    ensures j <= i
    ensures Probe(disks, baseDir) == Some(Percent(disks[j].total, disks[j].available))
  {
    var n := disks[i].name.value;
    assert Mounted(baseDir)(disks[i]);
    var fi := Find(disks, Mounted(baseDir));
    assert fi == Some(i);
    assert Named(n)(disks[j]);
    var fj := Find(disks, Named(n));
    assert fj == Some(j);
  }

  /** The first match wins, not the longest one: `/` is listed before `/data`. */
  lemma FirstMatchIsNotLongest()
    ensures Probe([Disk("/", Some("sda1"), 200, 100), Disk("/data", Some("sdb1"), 100, 10)], "/data/x")
         == Some(Finite(50.0))
  {
    var disks := [Disk("/", Some("sda1"), 200, 100), Disk("/data", Some("sdb1"), 100, 10)];
    assert disks[0].mountPoint <= "/data/x";
    ProbeReadsFirstNamed(disks, "/data/x", 0, 0);
  }

  /** A first match whose name is not valid UTF-8 yields no volume, although a later
      disk matches too. */
  lemma UnnamedFirstMatchHidesLater()
    ensures Probe([Disk("/", None, 200, 100), Disk("/data", Some("sdb1"), 100, 10)], "/data/x") == None
  {
    var disks := [Disk("/", None, 200, 100), Disk("/data", Some("sdb1"), 100, 10)];
    assert Mounted("/data/x")(disks[0]);
    assert Find(disks, Mounted("/data/x")) == Some(0);
  }

  /** The name lookup may land on an earlier, different disk carrying the same name. */
  lemma SharedNameReadsEarlierDisk()
    ensures Probe([Disk("/boot", Some("sda"), 100, 90), Disk("/", Some("sda"), 100, 5)], "/home")
         == Some(Finite(90.0))
  {
    var disks := [Disk("/boot", Some("sda"), 100, 90), Disk("/", Some("sda"), 100, 5)];
    assert !("/boot" <= "/home") by { assert "/boot"[1] != "/home"[1]; }
    assert disks[1].mountPoint <= "/home";
    ProbeReadsFirstNamed(disks, "/home", 1, 0);
  }
}
