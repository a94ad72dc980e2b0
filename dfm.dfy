/**
 * The dotfile manager as a program: one object holding the filesystem it
 * works on and the lines `err` has written, with a method per function of
 * the source. `add` and `remove` take their steps one at a time and are
 * proved to agree with `Operations.AddStep` and `Operations.RemoveStep`;
 * `install` and `uninstall` recurse through `fold` and are proved against
 * `Installation.Settled` and `Installation.Cleared`.
 */
module Dfm {
  import opened Paths
  import opened Outcomes
  import opened FileSystem
  import opened Operations
  import opened Installation

  /** A sequence that extends `a` is `a` followed by the rest. */
  lemma Extended<T>(a: seq<T>, b: seq<T>)
    requires a <= b
    ensures b == a + b[|a|..]
  {
  }

  lemma Appended<T>(a: seq<T>, m: seq<T>, n: seq<T>)
    ensures a + m + n == a + (m + n)
  {
  }

  /** What follows `a` in `a + m` is `m`. */
  lemma Tail<T>(a: seq<T>, m: seq<T>)
    ensures (a + m)[|a|..] == m
  {
  }

  class Dotfiles {
    /** `Path.home()`. */
    const home: Path
    /** `dotfiles_home`, the store. */
    const store: Path
    /** The filesystem. */
    var fs: Tree
    /** What `err` has written to the error stream, oldest first. */
    var log: seq<Message>

    /** The tree is closed and the store is a directory (`main` makes sure of it). */
    ghost predicate Valid()
      reads this
    {
      TreeClosed(fs) && IsDir(fs, store)
    }

    constructor (home: Path, store: Path, fs: Tree)
      requires TreeClosed(fs) && IsDir(fs, store)
      ensures Valid()
      ensures this.home == home && this.store == store && this.fs == fs && log == []
    {
      this.home := home;
      this.store := store;
      this.fs := fs;
      log := [];
    }

    // The primitives the source calls

    /** `err(path, msg)`: write one line and return ERR. */
    method Err(path: Path, reason: Reason) returns (r: Outcome)
      modifies this`log
      ensures r == Returned(ERR) && log == old(log) + [Message(path, reason)]
    {
      log := log + [Message(path, reason)];
      r := Returned(ERR);
    }

    /** `ensure_dir(d)`: `mkdir(parents=True)` unless `d` exists; false if `mkdir` raises. */
    method EnsureDir(d: Path) returns (ok: bool)
      requires Valid()
      modifies this`fs
      ensures Valid()
      ensures ok == (Exists(old(fs), d) || CanMkdirs(old(fs), d))
      ensures fs == if ok && !Exists(old(fs), d) then Mkdirs(old(fs), d) else old(fs)
    {
      if Exists(fs, d) {
        return true;
      }
      if !CanMkdirs(fs, d) {
        return false;
      }
      MkdirsClosed(fs, d);
      fs := Mkdirs(fs, d);
      ok := true;
    }

    /** `shutil.move(src, dst)` onto a name that does not exist; false if it raises. */
    method Move(src: Path, dst: Path) returns (ok: bool)
      requires TreeClosed(fs) && !IsDir(fs, dst) && (src in fs ==> src != dst)
      modifies this`fs
      ensures TreeClosed(fs)
      ensures ok == !MoveFails(old(fs), src, dst)
      ensures fs == if ok then MoveTree(old(fs), src, dst) else old(fs)
    {
      ok := !MoveFails(fs, src, dst);
      if ok {
        MoveNotInside(fs, src, dst);
        MoveTreeClosed(fs, src, dst);
        fs := MoveTree(fs, src, dst);
      }
    }

    /** `at.symlink_to(target)`: false if it raises, because `at` is taken or its parent is no directory. */
    method Symlink(at: Path, target: Path) returns (ok: bool)
      requires TreeClosed(fs)
      modifies this`fs
      ensures TreeClosed(fs)
      ensures ok == (at !in old(fs) && IsDir(old(fs), Parent(at)))
      ensures fs == if ok then old(fs)[at := Link(target)] else old(fs)
    {
      ok := at !in fs && IsDir(fs, Parent(at));
      if ok {
        AddLeafClosed(fs, at, Link(target));
        fs := fs[at := Link(target)];
      }
    }

    /** `at.unlink()` on a symlink. */
    method Unlink(at: Path)
      requires TreeClosed(fs) && IsLink(fs, at)
      modifies this`fs
      ensures TreeClosed(fs) && fs == old(fs) - {at}
    {
      RemoveLeafClosed(fs, at);
      fs := fs - {at};
    }

    /** `dir.iterdir()`: the entries of `dir`, each once, in some order. */
    method IterDir(dir: Path) returns (cs: seq<Path>)
      ensures forall c :: c in cs <==> c in fs && IsChild(c, dir)
      ensures forall i, j | 0 <= i < j < |cs| :: cs[i] != cs[j]
    {
      var left := Children(fs, dir);
      cs := [];
      while left != {}
        invariant left <= Children(fs, dir)
        invariant forall c :: c in cs <==> c in Children(fs, dir) && c !in left
        invariant forall i, j | 0 <= i < j < |cs| :: cs[i] != cs[j]
        decreases |left|
      {
        var c :| c in left;
        cs := cs + [c];
        left := left - {c};
      }
    }

    // add and remove

    /** `add(dotfiles_home, p)`, step by step. */
    method Add(p: Path) returns (r: Outcome)
      requires Valid()
      modifies this
      ensures Valid()
      ensures var s := AddStep(old(fs), home, store, p);
        r == s.outcome && fs == s.fs && log == old(log) + s.msgs
    {
      ghost var fs0 := fs;
      if !Exists(fs, p) {
        r := Err(p, DoesNotExist);
        return;
      }
      if IsLink(fs, p) {
        r := Err(p, CannotAddSymlinks);
        return;
      }
      if Under(p, store) {
        r := Err(p, AlreadyInStore);
        return;
      }
      if !Under(p, home) {
        r := Err(p, NotInHome);
        return;
      }
      var rel := RelativeTo(p, home);
      if !IsDotted(rel) {
        r := Err(p, NotADotfile);
        return;
      }
      var dest := AddDest(home, store, p);
      if Exists(fs, dest) {
        r := Err(p, Collides);
        return;
      }
      var ok := EnsureDir(Parent(dest));
      if !ok {
        return Raised;
      }
      ok := Move(p, dest);
      if !ok {
        return Raised;
      }
      assert AddStep(fs0, home, store, p).outcome == Returned(OK);
      AddStepOk(fs0, home, store, p);
      MoveLeavesRoom(Mkdirs(fs0, Parent(dest)), p, dest);
      ok := Symlink(p, dest);
      assert ok;
      AddEffect(fs0, home, store, p);
      r := Returned(OK);
    }

    /** `remove(dotfiles_home, p)`, step by step. */
    method Remove(p: Path) returns (r: Outcome)
      requires Valid()
      modifies this
      ensures Valid()
      ensures var s := RemoveStep(old(fs), home, store, p);
        r == s.outcome && fs == s.fs && log == old(log) + s.msgs
    {
      ghost var fs0 := fs;
      RemoveRefusal(fs, home, store, p);
      var src := Resolve(fs, p);
      if !Exists(fs, src) {
        r := Err(p, DoesNotExist);
        return;
      }
      if !Under(src, store) {
        r := Err(p, NotInStore);
        return;
      }
      if src == store {
        // `home / '..'` is the directory above home, never a symlink.
        r := Err(p, NotASymlink);
        return;
      }
      var dest := HomeSide(home, store, src);
      if !IsLink(fs, dest) {
        r := Err(p, NotASymlink);
        return;
      }
      if fs[dest].target != src {
        r := Err(p, IncorrectTarget);
        return;
      }
      r := Restore(src, dest);
      if r.Returned? {
        assert RemoveStep(fs0, home, store, p) == Step(Returned(OK), fs, []);
        RemoveKeepsStore(fs0, home, store, p);
      }
    }

    /** The end of `remove`: `dest.unlink()`, then `shutil.move(src, dest)`, which may raise. */
    method Restore(src: Path, dest: Path) returns (r: Outcome)
      requires TreeClosed(fs) && IsLink(fs, dest)
      modifies this`fs
      ensures TreeClosed(fs)
      ensures var unlinked := old(fs) - {dest};
        && r == (if MoveFails(unlinked, src, dest) then Raised else Returned(OK))
        && fs == (if MoveFails(unlinked, src, dest) then unlinked else MoveTree(unlinked, src, dest))
    {
      Unlink(dest);
      var ok := Move(src, dest);
      r := if ok then Returned(OK) else Raised;
    }

    // install and uninstall

    /**
     * `install(dotfiles_home, path)` for a store entry `path`. It only adds
     * links install could have made; a settled entry is left alone; and,
     * when no home-side name falls inside the store, an entry it returns
     * from is settled afterwards. It reports only names that already
     * exist, at or below the home side of `path`, and returns OK exactly
     * when it reports nothing.
     */
    method Install(path: Path, ghost bound: int) returns (r: Outcome)
      requires Valid() && Under(path, store) && path != store && DirsBelow(fs, bound)
      modifies this
      decreases bound - |path|, 2
      ensures Valid() && DirsBelow(fs, bound) && Grows(old(fs), fs, home, store, path)
      ensures old(log) <= log && forall i | |old(log)| <= i < |log| ::
        log[i].reason == AlreadyExists && Under(log[i].path, HomeSide(home, store, path))
      ensures r.Returned? ==> (r.status == OK <==> log == old(log))
      ensures Settled(old(fs), home, store, path, bound) ==> fs == old(fs) && r.Returned?
      ensures r.Returned? && NoOverlap(home, store, path) ==> Settled(fs, home, store, path, bound)
      ensures var hs := HomeSide(home, store, path);
        if IsDotted(RelativeTo(path, store)) || LinkedAt(old(fs), hs, path) then
          r == Returned(OK) && fs == old(fs) && log == old(log)
        else if IsDir(old(fs), hs) then
          !IsDir(old(fs), path) ==> r == Raised && fs == old(fs) && log == old(log)
        else if Exists(old(fs), hs) then
          r == Returned(ERR) && fs == old(fs) && log == old(log) + [Message(hs, AlreadyExists)]
        else
          log == old(log)
          && (r.Returned? <==> hs !in old(fs) && IsDir(old(fs), Parent(hs)))
          && fs == if r.Returned? then old(fs)[hs := Link(path)] else old(fs)
    {
      var rel := RelativeTo(path, store);
      var dest := HomeSide(home, store, path);
      if IsDotted(rel) {
        return Returned(OK);
      }
      if IsLink(fs, dest) && fs[dest].target == path {
        return Returned(OK);
      }
      if IsDir(fs, dest) {
        if !IsDir(fs, path) {
          // `iterdir` raises on anything but a directory.
          return Raised;
        }
        ghost var fs0 := fs;
        var cs := IterDir(path);
        ChildrenInStore(fs, cs, path, store);
        ghost var results, marks;
        r, results, marks := FoldInstall(cs, bound, path);
        if NoOverlap(home, store, path) {
          PathsApartBelow(home, store, path, cs);
        }
        SettledDir(fs0, fs, home, store, path, cs, bound);
        return;
      }
      if Exists(fs, dest) {
        r := Err(dest, AlreadyExists);
        return;
      }
      InstallLink(fs, home, store, path, bound);
      var ok := Symlink(dest, path);
      if !ok {
        return Raised;
      }
      r := Returned(OK);
    }

    /**
     * `uninstall(dotfiles_home, path)` for a store entry `path`. It only
     * removes links install could have made; a cleared entry is left
     * alone; an entry it returns from is cleared afterwards, with OK.
     * It never reports anything.
     */
    method Uninstall(path: Path, ghost bound: int) returns (r: Outcome)
      requires Valid() && Under(path, store) && path != store && DirsBelow(fs, bound)
      modifies this
      decreases bound - |path|, 2
      ensures Valid() && DirsBelow(fs, bound) && Shrinks(old(fs), fs, home, store, path) && log == old(log)
      ensures Cleared(old(fs), home, store, path, bound) ==> fs == old(fs) && r.Returned?
      ensures r.Returned? ==> r.status == OK && Cleared(fs, home, store, path, bound)
      ensures var hs := HomeSide(home, store, path);
        !IsDotted(RelativeTo(path, store)) ==>
          && (LinkedAt(old(fs), hs, path) ==> r == Returned(OK) && fs == old(fs) - {hs})
          && (!LinkedAt(old(fs), hs, path) && IsDir(old(fs), hs) && !IsDir(old(fs), path) ==> r == Raised && fs == old(fs))
          && (!LinkedAt(old(fs), hs, path) && !IsDir(old(fs), hs) ==> r == Returned(OK) && fs == old(fs))
      ensures IsDotted(RelativeTo(path, store)) ==> r == Returned(OK) && fs == old(fs)
    {
      var rel := RelativeTo(path, store);
      var dest := HomeSide(home, store, path);
      if IsDotted(rel) {
        return Returned(OK);
      }
      if IsLink(fs, dest) && fs[dest].target == path {
        UninstallUnlink(fs, home, store, path, bound);
        Unlink(dest);
        return Returned(OK);
      }
      if IsDir(fs, dest) {
        if !IsDir(fs, path) {
          return Raised;
        }
        ghost var fs0 := fs;
        var cs := IterDir(path);
        ChildrenInStore(fs, cs, path, store);
        r := FoldUninstall(cs, bound, path);
        ClearedDir(fs0, fs, home, store, path, cs, bound);
        return;
      }
      r := Returned(OK);
    }

    // fold

    /*
     * `fold` takes the operation as a function value. The model has one
     * loop per kind of operation, so that each states what its operation
     * promises; all three are the source's loop.
     */

    /** `op(dotfiles_home, p)` for add or remove: the fold over `p` alone. */
    method Apply(op: Op, p: Path) returns (r: Outcome)
      requires Valid()
      modifies this
      ensures Valid() && old(log) <= log
      ensures RunAll(Runner(op, home, store), old(fs), [p]) == Step(r, fs, log[|old(log)|..])
    {
      RunAllOne(Runner(op, home, store), fs, p);
      if op.AddOp? {
        r := Add(p);
      } else {
        r := Remove(p);
      }
    }

    /**
     * `fold(dotfiles_home, paths, add)` and `fold(dotfiles_home, paths,
     * remove)`: apply the operation to each path in turn, or-ing the
     * statuses; an exception stops the loop and escapes. The run is
     * `Operations.RunAll`.
     */
    method Fold(op: Op, paths: seq<Path>) returns (r: Outcome)
      requires Valid()
      modifies this
      ensures Valid() && old(log) <= log
      ensures RunAll(Runner(op, home, store), old(fs), paths) == Step(r, fs, log[|old(log)|..])
    {
      ghost var fs0, log0 := fs, log;
      ghost var msgs: seq<Message> := [];
      var status := OK;
      var i := 0;
      while i < |paths|
        invariant 0 <= i <= |paths|
        invariant Valid() && log == log0 + msgs
        invariant RunAll(Runner(op, home, store), fs0, paths[..i]) == Step(Returned(status), fs, msgs)
      {
        ghost var fsBefore, logBefore := fs, log;
        var s := Apply(op, paths[i]);
        ghost var last := log[|logBefore|..];
        Extended(logBefore, log);
        RunAllStep(Runner(op, home, store), fs0, paths, i, status, fsBefore, msgs, Step(s, fs, last));
        Appended(log0, msgs, last);
        msgs := msgs + last;
        if s.Raised? {
          Tail(log0, msgs);
          return Raised;
        }
        status := status.Or(s.status);
        i := i + 1;
      }
      assert paths[..i] == paths;
      Tail(log0, msgs);
      r := Returned(status);
    }

    /**
     * `fold(dotfiles_home, paths, install)` over the entries `paths` of
     * store directory `root`. The ghost `results` are the statuses of the
     * calls that returned, and call `j` wrote the log entries from
     * `marks[j]` up to `marks[j + 1]`, each naming a path at or below the
     * home side of `paths[j]`: it returned ERR exactly when it wrote any.
     * A call that raised wrote what follows the last mark.
     */
    method FoldInstall(paths: seq<Path>, ghost bound: int, ghost root: Path)
      returns (r: Outcome, ghost results: seq<Status>, ghost marks: seq<int>)
      requires Valid() && Under(root, store) && IsDir(fs, root) && DirsBelow(fs, bound)
      requires forall j | 0 <= j < |paths| :: IsChild(paths[j], root) && Under(paths[j], store) && paths[j] != store && paths[j] in fs
      modifies this
      decreases bound - |root|, 1
      ensures Valid() && InstallReport(home, store, root, paths, old(log), log, results, marks, r.Returned?)
      ensures r.Returned? ==> r.status == OrAll(results) && (r.status == OK <==> log == old(log))
      ensures InstallFoldResult(home, store, root, paths, bound, old(fs), fs, r.Returned?)
    {
      ghost var fs0, log0 := fs, log;
      assert |root| < bound;
      var status := OK;
      results, marks := [], [|log|];
      var i := 0;
      while i < |paths|
        invariant 0 <= i <= |paths| && Valid()
        invariant |results| == i && status == OrAll(results)
        invariant Reported(home, store, Scope(home, store, root), paths[..i], log0, log, results, marks) && marks[i] == |log|
        invariant InstallFolded(home, store, root, paths, i, bound, fs0, fs)
      {
        ghost var before, logBefore := fs, log;
        var s := Install(paths[i], bound);
        InstallFoldStep(home, store, root, paths, i, bound, fs0, before, fs, s.Returned?);
        if s.Raised? {
          InstallReportRaise(home, store, root, paths, i, log0, logBefore, log, results, marks);
          return Raised, results, marks;
        }
        InstallReportStep(home, store, root, paths, i, log0, logBefore, log, results, marks, s.status);
        status := status.Or(s.status);
        results, marks := results + [s.status], marks + [|log|];
        i := i + 1;
      }
      InstallReportDone(home, store, root, paths, log0, log, results, marks);
      InstallFoldDone(home, store, root, paths, bound, fs0, fs);
      r := Returned(status);
    }

    /** `fold(dotfiles_home, paths, uninstall)` over the entries `paths` of store directory `root`. */
    method FoldUninstall(paths: seq<Path>, ghost bound: int, ghost root: Path) returns (r: Outcome)
      requires Valid() && Under(root, store) && IsDir(fs, root) && DirsBelow(fs, bound)
      requires forall j | 0 <= j < |paths| :: IsChild(paths[j], root) && Under(paths[j], store) && paths[j] != store && paths[j] in fs
      modifies this
      decreases bound - |root|, 1
      ensures Valid() && log == old(log)
      ensures r.Returned? ==> r.status == OK
      ensures UninstallFoldResult(home, store, root, paths, bound, old(fs), fs, r.Returned?)
    {
      ghost var fs0 := fs;
      assert |root| < bound;
      var status := OK;
      var i := 0;
      while i < |paths|
        invariant 0 <= i <= |paths|
        invariant Valid() && log == old(log) && status == OK
        invariant UninstallFolded(home, store, root, paths, i, bound, fs0, fs)
      {
        ghost var before := fs;
        var s := Uninstall(paths[i], bound);
        UninstallFoldStep(home, store, root, paths, i, bound, fs0, before, fs, s.Returned?);
        if s.Raised? {
          return Raised;
        }
        status := status.Or(s.status);
        i := i + 1;
      }
      UninstallFoldDone(home, store, root, paths, bound, fs0, fs);
      r := Returned(status);
    }

    // The commands that work on the whole store

    /**
     * `dfm install`: `fold` install over the entries of the store. Only
     * links are added; a store whose entries are all settled is left alone;
     * and, when the store's entries are apart (`EntriesApart`: no entry's
     * home side lies in the store), the store itself is not touched and a
     * run that returns leaves every entry settled, so that running it again
     * changes nothing. It reports only names in the home directory that
     * already exist.
     */
    method InstallAll(ghost bound: int) returns (r: Outcome)
      requires Valid() && DirsBelow(fs, bound)
      modifies this
      ensures Valid() && DirsBelow(fs, bound) && Grows(old(fs), fs, home, store, store)
      ensures old(log) <= log && forall i | |old(log)| <= i < |log| ::
        log[i].reason == AlreadyExists && Under(log[i].path, home)
      ensures r.Returned? ==> (r.status == OK <==> log == old(log))
      ensures (forall c | c in old(fs) && IsChild(c, store) :: Settled(old(fs), home, store, c, bound)) ==>
        fs == old(fs) && r.Returned?
      ensures r.Returned? && EntriesApart(old(fs), home, store) ==>
        forall c | c in fs && IsChild(c, store) :: Settled(fs, home, store, c, bound)
      ensures EntriesApart(old(fs), home, store) ==>
        forall k | Under(k, store) :: (k in fs <==> k in old(fs)) && (k in old(fs) ==> fs[k] == old(fs)[k])
    {
      ghost var fs0 := fs;
      var cs := IterDir(store);
      ChildrenInStore(fs, cs, store, store);
      ghost var results, marks;
      r, results, marks := FoldInstall(cs, bound, store);
      if EntriesApart(fs0, home, store) {
        PathsApartListed(fs0, home, store, cs);
        GrowsKeepsStoreApart(fs0, fs, home, store);
      }
    }

    /**
     * `dfm uninstall`: `fold` uninstall over the entries of the store. Only
     * links install could have made are removed; a run that returns gives
     * OK, reports nothing and leaves every entry cleared. When the
     * store's entries are apart (`EntriesApart`), the store is not touched.
     */
    method UninstallAll(ghost bound: int) returns (r: Outcome)
      requires Valid() && DirsBelow(fs, bound)
      modifies this
      ensures Valid() && DirsBelow(fs, bound) && Shrinks(old(fs), fs, home, store, store) && log == old(log)
      ensures (forall c | c in old(fs) && IsChild(c, store) :: Cleared(old(fs), home, store, c, bound)) ==>
        fs == old(fs) && r.Returned?
      ensures r.Returned? ==>
        r.status == OK && forall c | c in fs && IsChild(c, store) :: Cleared(fs, home, store, c, bound)
      ensures EntriesApart(old(fs), home, store) ==>
        forall k | Under(k, store) :: (k in fs <==> k in old(fs)) && (k in old(fs) ==> fs[k] == old(fs)[k])
    {
      ghost var fs0 := fs;
      var cs := IterDir(store);
      ChildrenInStore(fs, cs, store, store);
      r := FoldUninstall(cs, bound, store);
      if EntriesApart(fs0, home, store) {
        ShrinksKeepsStoreApart(fs0, fs, home, store);
      }
    }
  }
}
