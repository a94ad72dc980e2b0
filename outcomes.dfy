/**
 * The result of one operation: the two-valued status of the source, the way
 * statuses are combined, and the messages that `err` reports.
 */
module Outcomes {
  import opened Paths

  /** The source's `Status`, an `IntFlag` with OK = 0 and ERR = 1. */
  datatype Status = OK | ERR {

    /** The flag's integer value, which is also the process exit code. */
    function Code(): nat {
      if OK? then 0 else 1
    }

    /** The flag union `a | b`. */
    function Or(other: Status): (r: Status)
      ensures r.Code() == ((Code() as bv1) | (other.Code() as bv1)) as int
    {
      if this == ERR || other == ERR then ERR else OK
    }
  }

  /**
   * What `fold` accumulates: OK, or-ed with each status in turn
   * (`exit_status |= op(...)`).
   */
  function OrAll(s: seq<Status>): Status {
    if s == [] then OK else OrAll(s[..|s| - 1]).Or(s[|s| - 1])
  }

  /** How many of the statuses are ERR. */
  function Failures(s: seq<Status>): nat {
    if s == [] then 0 else Failures(s[..|s| - 1]) + (if s[|s| - 1] == ERR then 1 else 0)
  }

  /** The accumulated status is OK exactly when every status is OK. */
  lemma {:induction false} OrAllIsOkIff(s: seq<Status>)
    ensures OrAll(s) == OK <==> forall i | 0 <= i < |s| :: s[i] == OK
  {
    if s != [] {
      var init := s[..|s| - 1];
      OrAllIsOkIff(init);
      assert forall i | 0 <= i < |init| :: init[i] == s[i];
    }
  }

  /**
   * `marks` splits a log into one stretch per call, in order: call `j` wrote
   * the entries from `marks[j]` up to `marks[j + 1]`, and its status is OK
   * exactly when it wrote none.
   */
  predicate Segmented(results: seq<Status>, marks: seq<int>)
    decreases |results|
  {
    |marks| == |results| + 1 &&
    (results != [] ==>
      var n := |results|;
      && Segmented(results[..n - 1], marks[..n])
      && marks[n - 1] <= marks[n] && (results[n - 1] == OK <==> marks[n - 1] == marks[n]))
  }

  /** A call that wrote from the last mark up to `m` extends the split. */
  lemma SegmentedSnoc(results: seq<Status>, marks: seq<int>, s: Status, m: int)
    requires Segmented(results, marks) && marks[|results|] <= m
    requires s == OK <==> marks[|results|] == m
    ensures Segmented(results + [s], marks + [m])
  {
    assert (results + [s])[..|results|] == results;
    assert (marks + [m])[..|results| + 1] == marks;
  }

  /** What the split says of each call. */
  lemma {:induction false} SegmentedAt(results: seq<Status>, marks: seq<int>, j: int)
    requires Segmented(results, marks) && 0 <= j < |results|
    ensures marks[j] <= marks[j + 1] && (results[j] == OK <==> marks[j] == marks[j + 1])
    ensures marks[0] <= marks[j] && marks[j + 1] <= marks[|results|]
    decreases |results|
  {
    var n := |results|;
    if j < n - 1 {
      SegmentedAt(results[..n - 1], marks[..n], j);
    } else if n > 1 {
      SegmentedAt(results[..n - 1], marks[..n], j - 1);
    }
  }

  /** An entry written from `marks[lo]` on lies in the stretch of some call from `lo` on. */
  lemma {:induction false} StretchOf(results: seq<Status>, marks: seq<int>, lo: int, i: int) returns (k: int)
    requires Segmented(results, marks) && 0 <= lo <= |results| && marks[lo] <= i < marks[|results|]
    ensures lo <= k < |results| && marks[k] <= i < marks[k + 1]
    decreases |results| - lo
  {
    SegmentedAt(results, marks, lo);
    if i < marks[lo + 1] {
      k := lo;
    } else {
      k := StretchOf(results, marks, lo + 1, i);
    }
  }

  /** The calls are all OK exactly when, together, they wrote nothing. */
  lemma {:induction false} SegmentedOk(results: seq<Status>, marks: seq<int>)
    requires Segmented(results, marks)
    ensures marks[0] <= marks[|results|]
    ensures OrAll(results) == OK <==> marks[0] == marks[|results|]
    decreases |results|
  {
    if results != [] {
      var n := |results|;
      SegmentedOk(results[..n - 1], marks[..n]);
    }
  }

  /**
   * How an operation ends: it returns a status, or an exception escapes
   * from the filesystem layer (raised by `iterdir`, `mkdir`, `shutil.move`
   * or `symlink_to`), which `fold` does not catch.
   */
  datatype Outcome = Returned(status: Status) | Raised

  /** The checks that make an operation report an error, in the source's words. */
  datatype Reason =
    | DoesNotExist
    | CannotAddSymlinks
    | AlreadyInStore
    | NotInHome
    | NotADotfile
    | Collides
    | NotInStore
    | NotASymlink
    | IncorrectTarget
    | AlreadyExists
  {
    function Text(): string {
      match this
      case DoesNotExist => "does not exist"
      case CannotAddSymlinks => "cannot add symlinks"
      case AlreadyInStore => "is already in dotfiles directory"
      case NotInHome => "not in home directory"
      case NotADotfile => "is not a dotfile"
      case Collides => "collides with existing file in dotfiles directory"
      case NotInStore => "not in dotfiles directory"
      case NotASymlink => "is not a symlink"
      case IncorrectTarget => "symlink to incorrect file"
      case AlreadyExists => "already exists"
    }
  }

  /** The verdict of an operation's guard checks: all passed, or the first that failed. */
  datatype Check = Pass | Fail(reason: Reason)

  /** One line `err` writes to the error stream. */
  datatype Message = Message(path: Path, reason: Reason) {
    /** The line as printed, `<path>: <message>`, for an absolute path. */
    function Line(): string {
      "/" + Join(path) + ": " + reason.Text()
    }
  }
}
