/**
 * What `install` and `uninstall` are meant to leave behind, stated over the
 * filesystem: when install has nothing left to do for a store entry
 * (`Settled`) and when uninstall has nothing left to do (`Cleared`), how
 * the tree may change while they run (`Grows`, `Shrinks`), the lemmas that
 * let one entry's result survive the work done on its siblings, and that
 * uninstall followed by install gives a settled tree back.
 *
 * The two operations recurse into directories that are present on both
 * sides; a ghost `bound` above the length of every directory entry is the
 * measure of that recursion.
 */
module Installation {
  import opened Paths
  import opened Outcomes
  import opened FileSystem
  import opened Operations

  /** Every directory entry is shorter than `bound`. */
  ghost predicate DirsBelow(fs: Tree, bound: int) {
    forall k | k in fs && fs[k].Dir? :: |k| < bound
  }

  /** A bound above the length of every path in `keys`. */
  ghost function KeysBound(keys: set<Path>): (b: nat)
    ensures forall k | k in keys :: |k| < b
    decreases |keys|
  {
    if keys == {} then 0
    else
      var k :| k in keys;
      var rest := KeysBound(keys - {k});
      if |k| < rest then rest else |k| + 1
  }

  /**
   * Every tree has a bound on its directories, so the ghost `bound` that
   * `Dfm.Dotfiles.InstallAll` and `UninstallAll` take can always be given.
   */
  ghost function DirBound(fs: Tree): (b: nat)
    ensures DirsBelow(fs, b)
  {
    KeysBound(fs.Keys)
  }

  /**
   * No store entry under `root` has its home-side name inside the store.
   * Without this, installing an entry can create a link that is itself
   * one of the store's entries: with the store at `~/.dotfiles`, the home
   * side of a store entry `dotfiles/x` is `~/.dotfiles/x`.
   */
  ghost predicate NoOverlap(home: Path, store: Path, root: Path) {
    forall q | Under(q, root) && Under(q, store) && q != store :: !Under(HomeSide(home, store, q), store)
  }

  /** Whatever holds of `root` holds of every store path under it. */
  lemma NoOverlapBelow(home: Path, store: Path, root: Path, q: Path)
    requires NoOverlap(home, store, root) && Under(q, root)
    ensures NoOverlap(home, store, q)
  {
  }

  /**
   * `NoOverlap` for each store entry of `fs`, one entry at a time. It
   * fails only for an entry whose home side lies in the store: with the
   * store at `~/.dotfiles`, only for an entry named `dotfiles`
   * (`ApartInDefaultLayout`).
   */
  ghost predicate EntriesApart(fs: Tree, home: Path, store: Path) {
    forall c | c in fs && IsChild(c, store) :: NoOverlap(home, store, c)
  }

  /** `NoOverlap` for each path of `paths`. */
  ghost predicate PathsApart(home: Path, store: Path, paths: seq<Path>) {
    forall j | 0 <= j < |paths| :: NoOverlap(home, store, paths[j])
  }

  /** `NoOverlap` of a directory carries over to its entries. */
  lemma PathsApartBelow(home: Path, store: Path, root: Path, paths: seq<Path>)
    requires NoOverlap(home, store, root) && forall j | 0 <= j < |paths| :: Under(paths[j], root)
    ensures PathsApart(home, store, paths)
  {
    forall j | 0 <= j < |paths|
      ensures NoOverlap(home, store, paths[j])
    {
      NoOverlapBelow(home, store, root, paths[j]);
    }
  }

  /** Store entries listed from a tree whose entries are apart are apart. */
  lemma PathsApartListed(fs: Tree, home: Path, store: Path, cs: seq<Path>)
    requires EntriesApart(fs, home, store) && forall c | c in cs :: c in fs && IsChild(c, store)
    ensures PathsApart(home, store, cs)
  {
    forall j | 0 <= j < |cs|
      ensures NoOverlap(home, store, cs[j])
    {
      assert cs[j] in cs;
    }
  }

  /**
   * With the store directly in the home directory under the name `n`, a
   * store entry keeps its home side out of the store exactly when its
   * name is not `n` less its leading dot.
   */
  lemma ApartInDefaultLayout(home: Path, n: string, c: Path)
    requires IsChild(c, home + [n])
    ensures NoOverlap(home, home + [n], c) <==> "." + c[|home| + 1] != n
  {
    var store := home + [n];
    assert RelativeTo(c, store) == [c[|home| + 1]];
    if "." + c[|home| + 1] == n {
      assert HomeSide(home, store, c) == store;
    } else {
      forall q | Under(q, c) && Under(q, store) && q != store
        ensures !Under(HomeSide(home, store, q), store)
      {
        assert q[|home| + 1] == c[|home| + 1];
        assert HomeSide(home, store, q)[|home|] == "." + c[|home| + 1];
      }
    }
  }

  /**
   * With the store directly in the home directory under the name `n`, its
   * entries are apart exactly when none of them is named `n` less its
   * leading dot.
   */
  lemma EntriesApartInDefaultLayout(fs: Tree, home: Path, n: string)
    ensures EntriesApart(fs, home, home + [n]) <==>
      forall c | c in fs && IsChild(c, home + [n]) :: "." + c[|home| + 1] != n
  {
    forall c | c in fs && IsChild(c, home + [n])
      ensures NoOverlap(home, home + [n], c) <==> "." + c[|home| + 1] != n
    {
      ApartInDefaultLayout(home, n, c);
    }
  }

  /** The entries of a store directory are store entries. */
  lemma ChildrenInStore(fs: Tree, cs: seq<Path>, root: Path, store: Path)
    requires Under(root, store) && forall c | c in cs :: c in fs && IsChild(c, root)
    ensures forall j | 0 <= j < |cs| :: IsChild(cs[j], root) && Under(cs[j], store) && cs[j] != store && cs[j] in fs
  {
    forall j | 0 <= j < |cs|
      ensures IsChild(cs[j], root) && Under(cs[j], store) && cs[j] != store && cs[j] in fs
    {
      assert cs[j] in cs;
    }
  }

  /**
   * `k` is a symlink that install could have made: it sits at the home side
   * of a store entry under `root` that is not hidden, and points at that
   * entry, which is in the tree unless it is `root` itself.
   */
  ghost predicate LinkedBack(fs: Tree, home: Path, store: Path, root: Path, k: Path) {
    && IsLink(fs, k) && Under(fs[k].target, root) && Under(fs[k].target, store) && fs[k].target != store
    && !IsDotted(RelativeTo(fs[k].target, store)) && (fs[k].target in fs || fs[k].target == root)
    && k == HomeSide(home, store, fs[k].target)
  }

  /** `fs2` keeps every entry of `fs` untouched and adds only links install could have made. */
  ghost predicate Grows(fs: Tree, fs2: Tree, home: Path, store: Path, root: Path) {
    (forall k | k in fs :: k in fs2 && fs2[k] == fs[k])
    && (forall k | k in fs2 && k !in fs :: LinkedBack(fs2, home, store, root, k))
  }

  /** `fs2` is `fs` with some of the links install could have made taken away. */
  ghost predicate Shrinks(fs: Tree, fs2: Tree, home: Path, store: Path, root: Path) {
    (forall k | k in fs2 :: k in fs && fs2[k] == fs[k])
    && (forall k | k in fs && k !in fs2 :: LinkedBack(fs, home, store, root, k))
  }

  /**
   * The work on one entry `q` of the tree below `root`, added to the work
   * done before it, is again work below `root`.
   */
  lemma GrowsStep(fs0: Tree, fs1: Tree, fs2: Tree, home: Path, store: Path, q: Path, root: Path)
    requires Grows(fs0, fs1, home, store, root) && Grows(fs1, fs2, home, store, q)
    requires Under(q, root) && q in fs0
    ensures Grows(fs0, fs2, home, store, root)
  {
  }

  lemma ShrinksStep(fs0: Tree, fs1: Tree, fs2: Tree, home: Path, store: Path, q: Path, root: Path)
    requires Shrinks(fs0, fs1, home, store, root) && Shrinks(fs1, fs2, home, store, q)
    requires Under(q, root) && q in fs0
    ensures Shrinks(fs0, fs2, home, store, root)
  {
  }

  /** Under `NoOverlap`, the links install adds all lie outside the store. */
  lemma GrowsOutsideStore(fs: Tree, fs2: Tree, home: Path, store: Path, root: Path)
    requires Grows(fs, fs2, home, store, root) && NoOverlap(home, store, root)
    ensures forall k | k in fs2 && k !in fs :: !Under(k, store)
  {
  }

  /** Under `NoOverlap`, install leaves the store exactly as it was. */
  lemma GrowsKeepsStore(fs: Tree, fs2: Tree, home: Path, store: Path, root: Path)
    requires Grows(fs, fs2, home, store, root) && NoOverlap(home, store, root)
    ensures forall k | Under(k, store) :: (k in fs2 <==> k in fs) && (k in fs ==> fs2[k] == fs[k])
  {
    GrowsOutsideStore(fs, fs2, home, store, root);
  }

  /**
   * When the entries of `fs` are apart, the links install adds over the
   * whole store all lie outside the store: a new link inside it would
   * point into an entry that is not in `fs`, and that entry would be a
   * link install made inside the store in turn.
   */
  lemma GrowsOutsideStoreApart(fs: Tree, fs2: Tree, home: Path, store: Path)
    requires TreeClosed(fs2) && Grows(fs, fs2, home, store, store) && EntriesApart(fs, home, store)
    ensures forall k | k in fs2 && k !in fs :: !Under(k, store)
  {
    forall k | k in fs2 && k !in fs
      ensures !Under(k, store)
    {
      NewLinkOutsideStore(fs, fs2, home, store, k);
    }
  }

  /** One new link of `GrowsOutsideStoreApart`. */
  lemma NewLinkOutsideStore(fs: Tree, fs2: Tree, home: Path, store: Path, k: Path)
    requires TreeClosed(fs2) && Grows(fs, fs2, home, store, store) && EntriesApart(fs, home, store)
    requires k in fs2 && k !in fs
    ensures !Under(k, store)
  {
    var t := fs2[k].target;
    var c := t[..|store| + 1];
    assert IsChild(c, store) && Under(t, c);
    if c !in fs {
      // Then `c` is a new link, so it is `t` itself, and its target `t2` leads the same way.
      if c != t {
        AncestorIsDir(fs2, t, c);
        assert false;
      }
      var t2 := fs2[t].target;
      var c2 := t2[..|store| + 1];
      assert IsChild(c2, store) && Under(t2, c2);
      if c2 in fs {
        assert false;
      } else if c2 != t2 {
        AncestorIsDir(fs2, t2, c2);
        assert false;
      } else {
        // Both `t` and `t2` are entries of the store, so `t` is dotted.
        HomeSideOfEntryDotted(home, store, t2);
        assert false;
      }
    }
  }

  /**
   * When the home side of a store entry `t2` is itself an entry of the
   * store, the store is the home directory and that home side is hidden.
   */
  lemma HomeSideOfEntryDotted(home: Path, store: Path, t2: Path)
    requires IsChild(t2, store) && IsChild(HomeSide(home, store, t2), store)
    ensures IsDotted(RelativeTo(HomeSide(home, store, t2), store))
  {
    var t := HomeSide(home, store, t2);
    assert store == t[..|store|] == home;
  }

  /** When the entries of `fs` are apart, install over the whole store leaves the store as it was. */
  lemma GrowsKeepsStoreApart(fs: Tree, fs2: Tree, home: Path, store: Path)
    requires TreeClosed(fs2) && Grows(fs, fs2, home, store, store) && EntriesApart(fs, home, store)
    ensures forall k | Under(k, store) :: (k in fs2 <==> k in fs) && (k in fs ==> fs2[k] == fs[k])
  {
    GrowsOutsideStoreApart(fs, fs2, home, store);
  }

  /** When the entries of `fs` are apart, uninstall over the whole store leaves the store as it was. */
  lemma ShrinksKeepsStoreApart(fs: Tree, fs2: Tree, home: Path, store: Path)
    requires TreeClosed(fs) && Shrinks(fs, fs2, home, store, store) && EntriesApart(fs, home, store)
    ensures forall k | Under(k, store) :: (k in fs2 <==> k in fs) && (k in fs ==> fs2[k] == fs[k])
  {
    forall k | k in fs && k !in fs2
      ensures !Under(k, store)
    {
      var t := fs[k].target;
      var c := t[..|store| + 1];
      assert IsChild(c, store) && Under(t, c);
      if c != t {
        AncestorIsDir(fs, t, c);
      }
    }
  }

  /** Under `NoOverlap`, uninstall leaves the store exactly as it was. */
  lemma ShrinksKeepsStore(fs: Tree, fs2: Tree, home: Path, store: Path, root: Path)
    requires Shrinks(fs, fs2, home, store, root) && NoOverlap(home, store, root)
    ensures forall k | Under(k, store) :: (k in fs2 <==> k in fs) && (k in fs ==> fs2[k] == fs[k])
  {
  }

  /** The home side of store entry `path` is a symlink to `path`. */
  predicate LinkedAt(fs: Tree, hs: Path, path: Path) {
    IsLink(fs, hs) && fs[hs].target == path
  }

  /**
   * Store entry `path` is settled: install would find nothing left to do
   * for it. It is hidden in the store, or its home side is the right
   * symlink, or both sides are directories whose store children are all
   * settled, or its home side is something else that exists (install
   * reports it as in the way).
   */
  ghost predicate Settled(fs: Tree, home: Path, store: Path, path: Path, bound: int)
    requires Under(path, store) && path != store
    decreases bound - |path|, 1
  {
    var hs := HomeSide(home, store, path);
    IsDotted(RelativeTo(path, store))
    || LinkedAt(fs, hs, path)
    || (IsDir(fs, hs) && IsDir(fs, path) && |path| < bound && AllSettled(fs, home, store, path, bound))
    || (!IsDir(fs, hs) && Exists(fs, hs))
  }

  /** Every entry of store directory `path` is settled. */
  ghost predicate AllSettled(fs: Tree, home: Path, store: Path, path: Path, bound: int)
    requires Under(path, store) && path != store && |path| < bound
    decreases bound - |path|, 0
  {
    forall c | c in fs && IsChild(c, path) :: Settled(fs, home, store, c, bound)
  }

  /**
   * Store entry `path` is cleared: uninstall would find nothing left to do
   * for it. It is hidden in the store, or its home side is not the right
   * symlink and, where the home side is a directory, the store side is one
   * too and its children are all cleared.
   */
  ghost predicate Cleared(fs: Tree, home: Path, store: Path, path: Path, bound: int)
    requires Under(path, store) && path != store
    decreases bound - |path|, 1
  {
    var hs := HomeSide(home, store, path);
    IsDotted(RelativeTo(path, store))
    || (!LinkedAt(fs, hs, path)
        && (IsDir(fs, hs) ==> IsDir(fs, path) && |path| < bound && AllCleared(fs, home, store, path, bound)))
  }

  /** Every entry of store directory `path` is cleared. */
  ghost predicate AllCleared(fs: Tree, home: Path, store: Path, path: Path, bound: int)
    requires Under(path, store) && path != store && |path| < bound
    decreases bound - |path|, 0
  {
    forall c | c in fs && IsChild(c, path) :: Cleared(fs, home, store, c, bound)
  }

  /**
   * A settled entry stays settled when entries are only added, and
   * none of them below it.
   */
  lemma {:induction false} SettledGrows(fs: Tree, fs2: Tree, home: Path, store: Path, path: Path, bound: int)
    requires Under(path, store) && path != store
    requires Settled(fs, home, store, path, bound)
    requires forall k | k in fs :: k in fs2 && fs2[k] == fs[k]
    requires forall k | k in fs2 && k !in fs :: !Under(k, path)
    ensures Settled(fs2, home, store, path, bound)
    decreases bound - |path|
  {
    var hs := HomeSide(home, store, path);
    if !IsDotted(RelativeTo(path, store)) && !LinkedAt(fs, hs, path)
      && IsDir(fs, hs) && IsDir(fs, path) && |path| < bound
    {
      forall c | c in fs2 && IsChild(c, path)
        ensures Settled(fs2, home, store, c, bound)
      {
        SettledGrows(fs, fs2, home, store, c, bound);
      }
    }
  }

  /**
   * A cleared entry stays cleared when entries are only taken
   * away, and none of them a directory.
   */
  lemma {:induction false} ClearedShrinks(fs: Tree, fs2: Tree, home: Path, store: Path, path: Path, bound: int)
    requires Under(path, store) && path != store
    requires Cleared(fs, home, store, path, bound)
    requires forall k | k in fs2 :: k in fs && fs2[k] == fs[k]
    requires forall k | k in fs && k !in fs2 :: !fs[k].Dir?
    ensures Cleared(fs2, home, store, path, bound)
    decreases bound - |path|
  {
    var hs := HomeSide(home, store, path);
    if !IsDotted(RelativeTo(path, store)) && IsDir(fs2, hs) {
      forall c | c in fs2 && IsChild(c, path)
        ensures Cleared(fs2, home, store, c, bound)
      {
        ClearedShrinks(fs, fs2, home, store, c, bound);
      }
    }
  }

  /**
   * Where install finds nothing at the home side, the entry is not
   * settled; the symlink install then makes settles it.
   */
  lemma InstallLink(fs: Tree, home: Path, store: Path, path: Path, bound: int)
    requires Under(path, store) && path != store && !IsDotted(RelativeTo(path, store))
    requires !LinkedAt(fs, HomeSide(home, store, path), path) && !Exists(fs, HomeSide(home, store, path))
    ensures !Settled(fs, home, store, path, bound)
    ensures var hs := HomeSide(home, store, path); var fs2 := fs[hs := Link(path)];
      hs !in fs ==>
        && Grows(fs, fs2, home, store, path) && Settled(fs2, home, store, path, bound)
        && (DirsBelow(fs, bound) ==> DirsBelow(fs2, bound))
  {
  }

  /**
   * Where uninstall finds the right symlink at the home side, the entry is
   * not cleared; removing the symlink clears it.
   */
  lemma UninstallUnlink(fs: Tree, home: Path, store: Path, path: Path, bound: int)
    requires Under(path, store) && path != store && !IsDotted(RelativeTo(path, store))
    requires LinkedAt(fs, HomeSide(home, store, path), path)
    ensures !Cleared(fs, home, store, path, bound)
    ensures var fs2 := fs - {HomeSide(home, store, path)};
      && Shrinks(fs, fs2, home, store, path) && Cleared(fs2, home, store, path, bound)
      && (DirsBelow(fs, bound) ==> DirsBelow(fs2, bound))
  {
  }

  /**
   * For a store directory whose home side is a directory too, being
   * settled comes down to its entries: they are all settled before,
   * exactly when it is; and after install has run on them, under
   * `NoOverlap`, it is settled when they all are.
   */
  lemma SettledDir(fs: Tree, fs2: Tree, home: Path, store: Path, path: Path, cs: seq<Path>, bound: int)
    requires Under(path, store) && path != store && !IsDotted(RelativeTo(path, store))
    requires IsDir(fs, HomeSide(home, store, path)) && IsDir(fs, path) && DirsBelow(fs, bound)
    requires forall c :: c in cs <==> c in fs && IsChild(c, path)
    requires forall j | 0 <= j < |cs| :: Under(cs[j], store) && cs[j] != store
    ensures Settled(fs, home, store, path, bound) <==>
      forall j | 0 <= j < |cs| :: Settled(fs, home, store, cs[j], bound)
    ensures (Grows(fs, fs2, home, store, path) && NoOverlap(home, store, path)
      && forall j | 0 <= j < |cs| :: Settled(fs2, home, store, cs[j], bound)) ==> Settled(fs2, home, store, path, bound)
  {
    if Grows(fs, fs2, home, store, path) && NoOverlap(home, store, path) {
      GrowsOutsideStore(fs, fs2, home, store, path);
      assert IsDir(fs2, HomeSide(home, store, path)) && IsDir(fs2, path);
    }
  }

  /**
   * For a store directory whose home side is a directory, being cleared
   * comes down to its entries, before and after uninstall has run on them.
   */
  lemma ClearedDir(fs: Tree, fs2: Tree, home: Path, store: Path, path: Path, cs: seq<Path>, bound: int)
    requires Under(path, store) && path != store && !IsDotted(RelativeTo(path, store))
    requires IsDir(fs, HomeSide(home, store, path)) && IsDir(fs, path) && DirsBelow(fs, bound)
    requires forall c :: c in cs <==> c in fs && IsChild(c, path)
    requires forall j | 0 <= j < |cs| :: Under(cs[j], store) && cs[j] != store
    ensures Cleared(fs, home, store, path, bound) <==>
      forall j | 0 <= j < |cs| :: Cleared(fs, home, store, cs[j], bound)
    ensures (Shrinks(fs, fs2, home, store, path)
      && forall j | 0 <= j < |cs| :: Cleared(fs2, home, store, cs[j], bound)) ==> Cleared(fs2, home, store, path, bound)
  {
    if Shrinks(fs, fs2, home, store, path) {
      assert IsDir(fs2, HomeSide(home, store, path)) && IsDir(fs2, path);
    }
  }

  // fold over install or uninstall

  /**
   * What `fold` install over the entries `paths` of store directory `root`
   * has achieved after the first `i` of them, started from `fs0`.
   */
  ghost predicate InstallFolded(home: Path, store: Path, root: Path, paths: seq<Path>, i: int, bound: int, fs0: Tree, fs: Tree)
    requires forall j | 0 <= j < |paths| :: Under(paths[j], store) && paths[j] != store
  {
    && IsDir(fs, root) && DirsBelow(fs, bound) && Grows(fs0, fs, home, store, root)
    && ((forall j | 0 <= j < |paths| :: Settled(fs0, home, store, paths[j], bound)) ==> fs == fs0)
    && (PathsApart(home, store, paths) ==>
          forall j | 0 <= j < i && j < |paths| :: Settled(fs, home, store, paths[j], bound))
  }

  /**
   * What `fold` install over the entries `paths` of store directory `root`
   * promises, from `fs0` to `fs`, whether it `returned` or raised: only
   * links install could have made are added; if every entry was settled,
   * nothing changes and it returns; if it returns and its entries are
   * apart (`PathsApart`), every entry is settled.
   */
  ghost predicate InstallFoldResult(home: Path, store: Path, root: Path, paths: seq<Path>, bound: int,
                                    fs0: Tree, fs: Tree, returned: bool)
    requires forall j | 0 <= j < |paths| :: Under(paths[j], store) && paths[j] != store
  {
    && DirsBelow(fs, bound) && Grows(fs0, fs, home, store, root)
    && ((forall j | 0 <= j < |paths| :: Settled(fs0, home, store, paths[j], bound)) ==> fs == fs0 && returned)
    && (returned && PathsApart(home, store, paths) ==>
          forall j | 0 <= j < |paths| :: Settled(fs, home, store, paths[j], bound))
  }

  /** A fold that has gone through every entry keeps its promise. */
  lemma InstallFoldDone(home: Path, store: Path, root: Path, paths: seq<Path>, bound: int, fs0: Tree, fs: Tree)
    requires forall j | 0 <= j < |paths| :: Under(paths[j], store) && paths[j] != store
    requires InstallFolded(home, store, root, paths, |paths|, bound, fs0, fs)
    ensures InstallFoldResult(home, store, root, paths, bound, fs0, fs, true)
  {
  }

  /** One more install call keeps what the fold has achieved, for one more entry if it returns. */
  lemma InstallFoldStep(home: Path, store: Path, root: Path, paths: seq<Path>, i: int, bound: int,
                        fs0: Tree, before: Tree, after: Tree, returned: bool)
    requires Under(root, store) && 0 <= i < |paths|
    requires forall j | 0 <= j < |paths| :: IsChild(paths[j], root) && Under(paths[j], store) && paths[j] != store && paths[j] in fs0
    requires InstallFolded(home, store, root, paths, i, bound, fs0, before)
    requires IsDir(after, root) && DirsBelow(after, bound) && Grows(before, after, home, store, paths[i])
    requires Settled(before, home, store, paths[i], bound) ==> after == before && returned
    requires returned && NoOverlap(home, store, paths[i]) ==> Settled(after, home, store, paths[i], bound)
    ensures !returned ==> InstallFoldResult(home, store, root, paths, bound, fs0, after, false)
    ensures returned ==> InstallFolded(home, store, root, paths, i + 1, bound, fs0, after)
  {
    var q := paths[i];
    GrowsStep(fs0, before, after, home, store, q, root);
    if PathsApart(home, store, paths) {
      GrowsOutsideStore(before, after, home, store, q);
      forall j | 0 <= j < i
        ensures Settled(after, home, store, paths[j], bound)
      {
        SettledGrows(before, after, home, store, paths[j], bound);
      }
    }
  }

  /**
   * Where the names install reports over store directory `root` lie: at or
   * below the home side of `root`, or in the home directory for the store
   * itself.
   */
  function Scope(home: Path, store: Path, root: Path): Path
    requires Under(root, store)
  {
    if root == store then home else HomeSide(home, store, root)
  }

  /** The home side of an entry of `root` lies within the scope of `root`. */
  lemma ScopeOfChild(home: Path, store: Path, root: Path, q: Path)
    requires Under(root, store) && IsChild(q, root)
    ensures Under(q, store) && q != store && Under(HomeSide(home, store, q), Scope(home, store, root))
  {
    if root != store {
      HomeSideBelow(home, store, root, q);
    }
  }

  /**
   * Distinct entries of one store directory have home sides with no path
   * at or below both, so a name install reports fixes the entry whose call
   * reported it.
   */
  lemma HomeSidesApart(home: Path, store: Path, root: Path, a: Path, b: Path, p: Path)
    requires Under(root, store) && IsChild(a, root) && IsChild(b, root) && a != b
    ensures Under(a, store) && a != store && Under(b, store) && b != store
    ensures !(Under(p, HomeSide(home, store, a)) && Under(p, HomeSide(home, store, b)))
  {
    var ha, hb := HomeSide(home, store, a), HomeSide(home, store, b);
    if Under(p, ha) && Under(p, hb) {
      assert |ha| == |hb|;
      assert ha == p[..|ha|] == hb;
      HomeSideInjective(home, store, a, b);
      assert false;
    }
  }

  /**
   * Call `j` of a fold over the store entries `owners` wrote the log
   * entries from `marks[j]` up to `marks[j + 1]`, and each of them names a
   * path at or below the home side of `owners[j]`.
   */
  ghost predicate Owned(home: Path, store: Path, owners: seq<Path>, log: seq<Message>, marks: seq<int>)
    decreases |owners|
  {
    && |marks| == |owners| + 1
    && (owners != [] ==>
          var n := |owners|;
          && Owned(home, store, owners[..n - 1], log, marks[..n])
          && Under(owners[n - 1], store) && owners[n - 1] != store
          && 0 <= marks[n - 1] <= marks[n] <= |log|
          && forall i | marks[n - 1] <= i < marks[n] :: Under(log[i].path, HomeSide(home, store, owners[n - 1])))
  }

  /** Appending to the log keeps every call's stretch. */
  lemma {:induction false} OwnedGrow(home: Path, store: Path, owners: seq<Path>, log: seq<Message>,
                                     log2: seq<Message>, marks: seq<int>)
    requires Owned(home, store, owners, log, marks) && log <= log2
    ensures Owned(home, store, owners, log2, marks)
    decreases |owners|
  {
    if owners != [] {
      var n := |owners|;
      OwnedGrow(home, store, owners[..n - 1], log, log2, marks[..n]);
      assert forall i | 0 <= i < |log| :: log2[i] == log[i];
    }
  }

  /** One more call `q`, which wrote the stretch up to `m`. */
  lemma OwnedSnoc(home: Path, store: Path, owners: seq<Path>, log: seq<Message>, marks: seq<int>, q: Path, m: int)
    requires Owned(home, store, owners, log, marks) && Under(q, store) && q != store
    requires 0 <= marks[|owners|] <= m <= |log|
    requires forall i | marks[|owners|] <= i < m :: Under(log[i].path, HomeSide(home, store, q))
    ensures Owned(home, store, owners + [q], log, marks + [m])
  {
    assert (owners + [q])[..|owners|] == owners;
    assert (marks + [m])[..|owners| + 1] == marks;
  }

  /** The stretch of call `j`. */
  lemma {:induction false} OwnedAt(home: Path, store: Path, owners: seq<Path>, log: seq<Message>, marks: seq<int>, j: int)
    requires Owned(home, store, owners, log, marks) && 0 <= j < |owners|
    ensures Under(owners[j], store) && owners[j] != store && 0 <= marks[j] <= marks[j + 1] <= |log|
    ensures forall i | marks[j] <= i < marks[j + 1] :: Under(log[i].path, HomeSide(home, store, owners[j]))
    decreases |owners|
  {
    var n := |owners|;
    if j < n - 1 {
      OwnedAt(home, store, owners[..n - 1], log, marks[..n], j);
      assert owners[..n - 1][j] == owners[j] && marks[..n][j] == marks[j] && marks[..n][j + 1] == marks[j + 1];
    }
  }

  /** The stretches of the first `n` calls of a fold over `paths`, one by one. */
  lemma OwnedAll(home: Path, store: Path, paths: seq<Path>, n: int, log: seq<Message>, marks: seq<int>)
    requires 0 <= n <= |paths| && Owned(home, store, paths[..n], log, marks)
    ensures |marks| == n + 1
    ensures forall j | 0 <= j < n ::
      && Under(paths[j], store) && paths[j] != store
      && forall i | marks[j] <= i < marks[j + 1] && 0 <= i < |log| :: Under(log[i].path, HomeSide(home, store, paths[j]))
  {
    forall j | 0 <= j < n
      ensures && Under(paths[j], store) && paths[j] != store
              && forall i | marks[j] <= i < marks[j + 1] && 0 <= i < |log| :: Under(log[i].path, HomeSide(home, store, paths[j]))
    {
      OwnedAt(home, store, paths[..n], log, marks, j);
      assert paths[..n][j] == paths[j];
    }
  }

  /**
   * From `log0` to `log`, install over the entries `owners` has reported
   * only names that already exist, all within `scope`, and `marks` splits
   * what it wrote among the calls, with statuses `results`.
   */
  ghost predicate Reported(home: Path, store: Path, scope: Path, owners: seq<Path>,
                           log0: seq<Message>, log: seq<Message>, results: seq<Status>, marks: seq<int>) {
    && log0 <= log
    && (forall k | |log0| <= k < |log| :: log[k].reason == AlreadyExists && Under(log[k].path, scope))
    && |marks| == |results| + 1 && Segmented(results, marks) && marks[0] == |log0| && marks[|results|] <= |log|
    && |owners| == |results| && Owned(home, store, owners, log, marks)
  }

  /** One more call, on `q`, which wrote from `before` to `log`, with status `s`. */
  lemma ReportedStep(home: Path, store: Path, scope: Path, owners: seq<Path>, q: Path,
                     log0: seq<Message>, before: seq<Message>, log: seq<Message>,
                     results: seq<Status>, marks: seq<int>, s: Status)
    requires Reported(home, store, scope, owners, log0, before, results, marks) && marks[|results|] == |before|
    requires Under(q, store) && q != store && Under(HomeSide(home, store, q), scope)
    requires before <= log && forall k | |before| <= k < |log| ::
      log[k].reason == AlreadyExists && Under(log[k].path, HomeSide(home, store, q))
    requires s == OK <==> log == before
    ensures Reported(home, store, scope, owners + [q], log0, log, results + [s], marks + [|log|])
  {
    SegmentedSnoc(results, marks, s, |log|);
    OwnedGrow(home, store, owners, before, log, marks);
    OwnedSnoc(home, store, owners, log, marks, q, |log|);
  }

  /**
   * What `fold` install over the entries `paths` of store directory `root`
   * promises about the log, from `log0` to `log`: it reports only names
   * that already exist, within the scope of `root`; `marks` splits what it
   * wrote among the calls that returned, with statuses `results`, call `j`
   * naming only paths at or below the home side of `paths[j]`; a call that
   * raised wrote what follows, below the home side of its own entry; and a
   * fold that `returned` went through every entry, with a combined status
   * of OK exactly when it wrote nothing.
   */
  ghost predicate InstallReport(home: Path, store: Path, root: Path, paths: seq<Path>, log0: seq<Message>,
                                log: seq<Message>, results: seq<Status>, marks: seq<int>, returned: bool)
    requires Under(root, store)
    requires forall j | 0 <= j < |paths| :: Under(paths[j], store) && paths[j] != store
  {
    && log0 <= log
    && (forall i | |log0| <= i < |log| ::
          log[i].reason == AlreadyExists && Under(log[i].path, Scope(home, store, root)))
    && Segmented(results, marks) && |results| <= |paths| && marks[0] == |log0| <= marks[|results|] <= |log|
    && (forall j | 0 <= j < |results| ::
          forall i | marks[j] <= i < marks[j + 1] && 0 <= i < |log| :: Under(log[i].path, HomeSide(home, store, paths[j])))
    && (returned ==> |results| == |paths| && marks[|results|] == |log| && (OrAll(results) == OK <==> log == log0))
    && (!returned ==>
          && |results| < |paths|
          && forall i | marks[|results|] <= i < |log| :: Under(log[i].path, HomeSide(home, store, paths[|results|])))
  }

  /** Call `i` of the fold, on `paths[i]`, returned `s` after writing from `before` to `log`. */
  lemma InstallReportStep(home: Path, store: Path, root: Path, paths: seq<Path>, i: int, log0: seq<Message>,
                          before: seq<Message>, log: seq<Message>, results: seq<Status>, marks: seq<int>, s: Status)
    requires Under(root, store) && 0 <= i < |paths| && IsChild(paths[i], root)
    requires Reported(home, store, Scope(home, store, root), paths[..i], log0, before, results, marks) && marks[i] == |before|
    requires Under(paths[i], store) && paths[i] != store
    requires before <= log && forall k | |before| <= k < |log| ::
      log[k].reason == AlreadyExists && Under(log[k].path, HomeSide(home, store, paths[i]))
    requires s == OK <==> log == before
    ensures Reported(home, store, Scope(home, store, root), paths[..i + 1], log0, log, results + [s], marks + [|log|])
  {
    ScopeOfChild(home, store, root, paths[i]);
    assert paths[..i + 1] == paths[..i] + [paths[i]];
    ReportedStep(home, store, Scope(home, store, root), paths[..i], paths[i], log0, before, log, results, marks, s);
  }

  /** Call `i` of the fold, on `paths[i]`, raised after writing from `before` to `log`. */
  lemma InstallReportRaise(home: Path, store: Path, root: Path, paths: seq<Path>, i: int, log0: seq<Message>,
                           before: seq<Message>, log: seq<Message>, results: seq<Status>, marks: seq<int>)
    requires Under(root, store) && forall j | 0 <= j < |paths| :: IsChild(paths[j], root)
    requires 0 <= i < |paths| && Reported(home, store, Scope(home, store, root), paths[..i], log0, before, results, marks)
    requires marks[i] == |before|
    requires forall j | 0 <= j < |paths| :: Under(paths[j], store) && paths[j] != store
    requires before <= log && forall k | |before| <= k < |log| ::
      log[k].reason == AlreadyExists && Under(log[k].path, HomeSide(home, store, paths[i]))
    ensures InstallReport(home, store, root, paths, log0, log, results, marks, false)
  {
    ScopeOfChild(home, store, root, paths[i]);
    OwnedGrow(home, store, paths[..i], before, log, marks);
    OwnedAll(home, store, paths, i, log, marks);
  }

  /** A fold that went through every entry, and ends on the last mark. */
  lemma InstallReportDone(home: Path, store: Path, root: Path, paths: seq<Path>, log0: seq<Message>,
                          log: seq<Message>, results: seq<Status>, marks: seq<int>)
    requires Under(root, store)
    requires forall j | 0 <= j < |paths| :: Under(paths[j], store) && paths[j] != store
    requires Reported(home, store, Scope(home, store, root), paths[..|paths|], log0, log, results, marks)
    requires marks[|paths|] == |log|
    ensures InstallReport(home, store, root, paths, log0, log, results, marks, true)
  {
    OwnedAll(home, store, paths, |paths|, log, marks);
    SegmentedOk(results, marks);
  }

  /**
   * Two splits of one log by a fold over distinct entries that agree up to
   * mark `j - 1` do not disagree at mark `j` with `m1` ending call `j - 1`
   * before `m2` does: the entry at `m1[j]` would then name a path below the
   * home sides of two different entries.
   */
  lemma MarkNotBefore(home: Path, store: Path, root: Path, paths: seq<Path>, log0: seq<Message>, log: seq<Message>,
                      r1: seq<Status>, m1: seq<int>, r2: seq<Status>, m2: seq<int>, j: int)
    requires Under(root, store)
    requires forall j | 0 <= j < |paths| :: IsChild(paths[j], root) && Under(paths[j], store) && paths[j] != store
    requires forall j, k | 0 <= j < k < |paths| :: paths[j] != paths[k]
    requires InstallReport(home, store, root, paths, log0, log, r1, m1, true)
    requires InstallReport(home, store, root, paths, log0, log, r2, m2, true)
    requires 0 < j <= |paths| && m1[j - 1] == m2[j - 1]
    ensures m2[j] <= m1[j]
  {
    if m1[j] < m2[j] {
      var i := m1[j];
      SegmentedAt(r1, m1, j - 1);
      SegmentedAt(r2, m2, j - 1);
      assert Under(log[i].path, HomeSide(home, store, paths[j - 1]));
      var k := StretchOf(r1, m1, j, i);
      assert Under(log[i].path, HomeSide(home, store, paths[k]));
      HomeSidesApart(home, store, root, paths[j - 1], paths[k], log[i].path);
    }
  }

  /** Two such splits agree at every mark. */
  lemma {:induction false} MarkAgree(home: Path, store: Path, root: Path, paths: seq<Path>, log0: seq<Message>, log: seq<Message>,
                                     r1: seq<Status>, m1: seq<int>, r2: seq<Status>, m2: seq<int>, j: int)
    requires Under(root, store)
    requires forall j | 0 <= j < |paths| :: IsChild(paths[j], root) && Under(paths[j], store) && paths[j] != store
    requires forall j, k | 0 <= j < k < |paths| :: paths[j] != paths[k]
    requires InstallReport(home, store, root, paths, log0, log, r1, m1, true)
    requires InstallReport(home, store, root, paths, log0, log, r2, m2, true)
    requires 0 <= j <= |paths|
    ensures m1[j] == m2[j]
    decreases j
  {
    if j > 0 {
      MarkAgree(home, store, root, paths, log0, log, r1, m1, r2, m2, j - 1);
      MarkNotBefore(home, store, root, paths, log0, log, r1, m1, r2, m2, j);
      MarkNotBefore(home, store, root, paths, log0, log, r2, m2, r1, m1, j);
    }
  }

  /**
   * For a fold that went through distinct entries, the log alone fixes how
   * it split among the calls, and so the status of every call.
   */
  lemma InstallReportUnique(home: Path, store: Path, root: Path, paths: seq<Path>, log0: seq<Message>, log: seq<Message>,
                            r1: seq<Status>, m1: seq<int>, r2: seq<Status>, m2: seq<int>)
    requires Under(root, store)
    requires forall j | 0 <= j < |paths| :: IsChild(paths[j], root) && Under(paths[j], store) && paths[j] != store
    requires forall j, k | 0 <= j < k < |paths| :: paths[j] != paths[k]
    requires InstallReport(home, store, root, paths, log0, log, r1, m1, true)
    requires InstallReport(home, store, root, paths, log0, log, r2, m2, true)
    ensures m1 == m2 && r1 == r2
  {
    forall j | 0 <= j <= |paths|
      ensures m1[j] == m2[j]
    {
      MarkAgree(home, store, root, paths, log0, log, r1, m1, r2, m2, j);
    }
    forall j | 0 <= j < |paths|
      ensures r1[j] == r2[j]
    {
      SegmentedAt(r1, m1, j);
      SegmentedAt(r2, m2, j);
    }
  }

  /**
   * What `fold` uninstall over the entries `paths` of store directory
   * `root` has achieved after the first `i` of them, started from `fs0`.
   */
  ghost predicate UninstallFolded(home: Path, store: Path, root: Path, paths: seq<Path>, i: int, bound: int, fs0: Tree, fs: Tree)
    requires forall j | 0 <= j < |paths| :: Under(paths[j], store) && paths[j] != store
  {
    && IsDir(fs, root) && DirsBelow(fs, bound) && Shrinks(fs0, fs, home, store, root)
    && ((forall j | 0 <= j < |paths| :: Cleared(fs0, home, store, paths[j], bound)) ==> fs == fs0)
    && forall j | 0 <= j < i && j < |paths| :: Cleared(fs, home, store, paths[j], bound)
  }

  /**
   * What `fold` uninstall over the entries `paths` of store directory
   * `root` promises, from `fs0` to `fs`, whether it `returned` or raised:
   * only links install could have made are removed; if every entry was
   * cleared, nothing changes and it returns; if it returns, every entry
   * is cleared.
   */
  ghost predicate UninstallFoldResult(home: Path, store: Path, root: Path, paths: seq<Path>, bound: int,
                                      fs0: Tree, fs: Tree, returned: bool)
    requires forall j | 0 <= j < |paths| :: Under(paths[j], store) && paths[j] != store
  {
    && DirsBelow(fs, bound) && Shrinks(fs0, fs, home, store, root)
    && ((forall j | 0 <= j < |paths| :: Cleared(fs0, home, store, paths[j], bound)) ==> fs == fs0 && returned)
    && (returned ==> forall j | 0 <= j < |paths| :: Cleared(fs, home, store, paths[j], bound))
  }

  /** A fold that has gone through every entry keeps its promise. */
  lemma UninstallFoldDone(home: Path, store: Path, root: Path, paths: seq<Path>, bound: int, fs0: Tree, fs: Tree)
    requires forall j | 0 <= j < |paths| :: Under(paths[j], store) && paths[j] != store
    requires UninstallFolded(home, store, root, paths, |paths|, bound, fs0, fs)
    ensures UninstallFoldResult(home, store, root, paths, bound, fs0, fs, true)
  {
  }

  /** One more uninstall call keeps what the fold has achieved, for one more entry if it returns. */
  lemma UninstallFoldStep(home: Path, store: Path, root: Path, paths: seq<Path>, i: int, bound: int,
                          fs0: Tree, before: Tree, after: Tree, returned: bool)
    requires Under(root, store) && 0 <= i < |paths|
    requires forall j | 0 <= j < |paths| :: IsChild(paths[j], root) && Under(paths[j], store) && paths[j] != store && paths[j] in fs0
    requires UninstallFolded(home, store, root, paths, i, bound, fs0, before)
    requires IsDir(after, root) && DirsBelow(after, bound) && Shrinks(before, after, home, store, paths[i])
    requires Cleared(before, home, store, paths[i], bound) ==> after == before && returned
    requires returned ==> Cleared(after, home, store, paths[i], bound)
    ensures !returned ==> UninstallFoldResult(home, store, root, paths, bound, fs0, after, false)
    ensures returned ==> UninstallFolded(home, store, root, paths, i + 1, bound, fs0, after)
  {
    var q := paths[i];
    ShrinksStep(fs0, before, after, home, store, q, root);
    forall j | 0 <= j < i
      ensures Cleared(after, home, store, paths[j], bound)
    {
      ClearedShrinks(before, after, home, store, paths[j], bound);
    }
  }

  // uninstall, then install

  /**
   * Settled entries pass their state down to the entries inside them
   * wherever the home sides on the way are directories: with store entry
   * `a` settled, so is `t` below it.
   */
  lemma {:induction false} SettledDown(fs: Tree, home: Path, store: Path, a: Path, t: Path, bound: int)
    requires TreeClosed(fs) && DirsBelow(fs, bound)
    requires Under(a, store) && a != store && Under(t, a) && t in fs && !IsDotted(RelativeTo(t, store))
    requires forall i | |a| <= i < |t| :: IsDir(fs, HomeSide(home, store, t[..i]))
    requires Settled(fs, home, store, a, bound)
    ensures Settled(fs, home, store, t, bound)
    decreases |t| - |a|
  {
    if t != a {
      assert t[..|a|] == a;
      HomeSideBelow(home, store, a, t);
      AncestorIsDir(fs, t, a);
      var next := t[..|a| + 1];
      if next != t {
        AncestorIsDir(fs, t, next);
      }
      assert IsChild(next, a);
      SettledDown(fs, home, store, next, t, bound);
    }
  }

  /**
   * From a settled tree `fs0`, uninstall (to `fs1`) and then install (to
   * `fs2`): every link uninstall took away is back as it was.
   */
  lemma RemovedComesBack(fs0: Tree, fs1: Tree, fs2: Tree, home: Path, store: Path, bound: int, k: Path)
    requires TreeClosed(fs0) && TreeClosed(fs2) && DirsBelow(fs2, bound) && EntriesApart(fs0, home, store)
    requires Shrinks(fs0, fs1, home, store, store) && Grows(fs1, fs2, home, store, store)
    requires forall c | c in fs2 && IsChild(c, store) :: Settled(fs2, home, store, c, bound)
    requires k in fs0 && k !in fs1
    ensures k in fs2 && fs2[k] == fs0[k]
  {
    ShrinksKeepsStoreApart(fs0, fs1, home, store);
    GrowsKeepsStoreApart(fs1, fs2, home, store);
    var t := fs0[k].target;
    var c := t[..|store| + 1];
    if c != t {
      AncestorIsDir(fs2, t, c);
    }
    assert IsChild(c, store);
    forall i | |c| <= i < |t|
      ensures IsDir(fs2, HomeSide(home, store, t[..i]))
    {
      HomeSideBelow(home, store, t[..i], t);
      AncestorIsDir(fs0, k, HomeSide(home, store, t[..i]));
    }
    SettledDown(fs2, home, store, c, t, bound);
    if k in fs2 {
      HomeSideInjective(home, store, t, fs2[k].target);
    }
  }

  /**
   * From a settled tree `fs0`, uninstall (to `fs1`) and then install (to
   * `fs2`): every link install added was in `fs0` already.
   */
  lemma AddedWasThere(fs0: Tree, fs1: Tree, fs2: Tree, home: Path, store: Path, bound: int, k: Path)
    requires TreeClosed(fs0) && TreeClosed(fs2) && DirsBelow(fs0, bound) && EntriesApart(fs0, home, store)
    requires Shrinks(fs0, fs1, home, store, store) && Grows(fs1, fs2, home, store, store)
    requires forall c | c in fs0 && IsChild(c, store) :: Settled(fs0, home, store, c, bound)
    requires k in fs2 && k !in fs1
    ensures k in fs0 && fs0[k] == fs2[k]
  {
    ShrinksKeepsStoreApart(fs0, fs1, home, store);
    GrowsKeepsStoreApart(fs1, fs2, home, store);
    var t := fs2[k].target;
    var c := t[..|store| + 1];
    if c != t {
      AncestorIsDir(fs0, t, c);
    }
    assert IsChild(c, store);
    forall i | |c| <= i < |t|
      ensures IsDir(fs0, HomeSide(home, store, t[..i]))
    {
      HomeSideBelow(home, store, t[..i], t);
      AncestorIsDir(fs2, k, HomeSide(home, store, t[..i]));
    }
    SettledDown(fs0, home, store, c, t, bound);
    if k in fs0 {
      HomeSideInjective(home, store, t, fs0[k].target);
    }
  }

  /**
   * Uninstall followed by install restores the tree: from a tree in which
   * every store entry is settled, a run of uninstall and a run of install
   * that leaves every entry settled give back exactly the tree they
   * started from, when the store's entries are apart.
   */
  lemma {:induction false} UninstallThenInstall(fs0: Tree, fs1: Tree, fs2: Tree, home: Path, store: Path, bound: int)
    requires TreeClosed(fs0) && TreeClosed(fs2) && DirsBelow(fs0, bound) && DirsBelow(fs2, bound)
    requires EntriesApart(fs0, home, store)
    requires Shrinks(fs0, fs1, home, store, store) && Grows(fs1, fs2, home, store, store)
    requires forall c | c in fs0 && IsChild(c, store) :: Settled(fs0, home, store, c, bound)
    requires forall c | c in fs2 && IsChild(c, store) :: Settled(fs2, home, store, c, bound)
    ensures fs2 == fs0
  {
    forall k | k in fs0 && k !in fs1
      ensures k in fs2 && fs2[k] == fs0[k]
    {
      RemovedComesBack(fs0, fs1, fs2, home, store, bound, k);
    }
    forall k | k in fs2 && k !in fs1
      ensures k in fs0 && fs0[k] == fs2[k]
    {
      AddedWasThere(fs0, fs1, fs2, home, store, bound, k);
    }
    SameEntries(fs0, fs2);
  }
}
