/**
 * The log: the lines the watchdog appends to `cleanup.log`, and the age test
 * by which the log file is discarded at start-up (`clean_log`).
 */
module Logging {
  import opened Storage

  /** One line of the log file. */
  datatype Line =
    | ExitingCleanup
    | CleaningUp
    | Deleting(folder: string)
    | NoSubfolders(group: string)
    | CurrentFree(percent: Ratio)
    | StartingCleanup
    | Sufficient
    | DiskNotFound

  /** The text written for each line; the two-decimal rendering of a percentage
      is not modelled. (The longest message is written in two pieces, which
      lets the verifier read its first characters.) */
  function Text(line: Line): string
    requires !line.CurrentFree?
  {
    match line
    case ExitingCleanup => "Free space is above 25%. Exiting cleanup."
    case CleaningUp => "Free space is below 25%. Cleaning up..."
    case Deleting(p) => "Deleting folder: " + p
    case NoSubfolders(g) => "No subfolders found in: " + g
    case StartingCleanup => "Free space below threshold. " + "Starting cleanup..."
    case Sufficient => "Sufficient free space. No cleanup needed."
    case DiskNotFound => "Disk not found for the base directory."
  }

  function Head(s: string): (char, char)
    requires |s| >= 2
  {
    (s[0], s[1])
  }

  /** The first characters of the fixed messages. */
  lemma ExitingHead() ensures Text(ExitingCleanup)[0] == 'F' {}
  lemma CleaningHead() ensures Text(CleaningUp)[0] == 'F' {}
  lemma StartingHead() ensures Text(StartingCleanup)[0] == 'F' {}
  lemma SufficientHead() ensures Text(Sufficient)[0] == 'S' {}
  lemma NotFoundHead() ensures Text(DiskNotFound)[0] == 'D' && Text(DiskNotFound)[1] == 'i' {}

  /** A "Deleting folder" line starts "De" and ends with the folder. */
  lemma DeletingText(p: string)
    ensures |Text(Deleting(p))| >= 17
    ensures Head(Text(Deleting(p))) == ('D', 'e') && Text(Deleting(p))[17..] == p
  {
    assert Text(Deleting(p))[..17] == "Deleting folder: ";
  }

  /** A "No subfolders found" line starts "No" and ends with the item-group. */
  lemma NoSubfoldersText(g: string)
    ensures |Text(NoSubfolders(g))| >= 24
    ensures Head(Text(NoSubfolders(g))) == ('N', 'o') && Text(NoSubfolders(g))[24..] == g
  {
    assert Text(NoSubfolders(g))[..24] == "No subfolders found in: ";
  }

  /** The first two characters of a line's text. */
  lemma TextHead(l: Line)
    requires !l.CurrentFree?
    ensures |Text(l)| >= 2
    ensures l.Deleting? ==> Head(Text(l)) == ('D', 'e') && Text(l)[17..] == l.folder
    ensures l.NoSubfolders? ==> Head(Text(l)) == ('N', 'o') && Text(l)[24..] == l.group
    ensures l.DiskNotFound? ==> Head(Text(l)) == ('D', 'i')
    ensures l.Sufficient? ==> Head(Text(l)) == ('S', 'u')
    ensures l.ExitingCleanup? || l.CleaningUp? || l.StartingCleanup? ==> Head(Text(l)) == ('F', 'r')
  {
    ExitingHead();
    CleaningHead();
    StartingHead();
    SufficientHead();
    NotFoundHead();
    if l.Deleting? {
      DeletingText(l.folder);
    } else if l.NoSubfolders? {
      NoSubfoldersText(l.group);
    }
  }

  /** No two lines share a text: the log file determines the lines written. */
  lemma TextIdentifiesLine(a: Line, b: Line)
    requires !a.CurrentFree? && !b.CurrentFree? && Text(a) == Text(b)
    ensures a == b
  {
    TextHead(a);
    TextHead(b);
    assert Head(Text(a)) == Head(Text(b));
  }

  const NanosPerSecond: nat := 1_000_000_000

  /** Seven days. */
  const MaxLogAgeSeconds: nat := 7 * 24 * 60 * 60

  /** What the clock reports for the log's modification time: the time elapsed
      since, in nanoseconds, or an error because that time lies in the future. */
  datatype Age = Elapsed(nanos: nat) | InFuture

  /** What reading the log file's metadata yields. An absent file has no metadata. */
  datatype LogMeta = NoMetadata | NoModifiedTime | Modified(age: Age)

  /** The elapsed time, with an error read as zero. */
  function AgeOrZero(a: Age): nat {
    match a
    case Elapsed(n) => n
    case InFuture => 0
  }

  /** Whether `clean_log` deletes the log file. */
  function RemovesLog(m: LogMeta): (r: bool)
    ensures r <==> m.Modified? && m.age.Elapsed? && m.age.nanos > MaxLogAgeSeconds * NanosPerSecond
  {
    match m
    case Modified(a) => AgeOrZero(a) > MaxLogAgeSeconds * NanosPerSecond
    case _ => false
  }

  /** Exactly seven days old is kept; one nanosecond more is deleted. */
  lemma StalenessBoundary()
    ensures MaxLogAgeSeconds == 604800
    ensures !RemovesLog(Modified(Elapsed(604800 * NanosPerSecond)))
    ensures RemovesLog(Modified(Elapsed(604800 * NanosPerSecond + 1)))
  {
  }
}
