/**
 * The filesystem as the dotfile manager sees it: a finite map from absolute
 * paths to nodes, and the primitive changes the source makes to it
 * (`mkdir(parents=True)`, `shutil.move`, `symlink_to`, `unlink`).
 *
 * Paths are looked up literally: a symlink is followed only where the
 * source asks about the final name (`exists`, `resolve`), never in the
 * middle of a path.
 */
module FileSystem {
  import opened Paths

  datatype Node = File(content: seq<bv8>) | Dir | Link(target: Path)

  type Tree = map<Path, Node>

  /** Every entry other than the root sits in a directory that is itself an entry. */
  ghost predicate TreeClosed(fs: Tree) {
    forall p {:trigger Parent(p)} | p in fs && p != [] :: Parent(p) in fs && fs[Parent(p)].Dir?
  }

  /** `is_dir()`, for a path that is not reached through a symlink. */
  predicate IsDir(fs: Tree, p: Path) {
    p in fs && fs[p].Dir?
  }

  /** `is_symlink()`. */
  predicate IsLink(fs: Tree, p: Path) {
    p in fs && fs[p].Link?
  }

  /** `exists()`: follows a final symlink, so a broken symlink does not exist. */
  predicate Exists(fs: Tree, p: Path) {
    p in fs && (fs[p].Link? ==> fs[p].target in fs)
  }

  /** `resolve()`: a symlink stands for its (canonical) target. */
  function Resolve(fs: Tree, p: Path): Path {
    if IsLink(fs, p) then fs[p].target else p
  }

  predicate IsChild(c: Path, p: Path) {
    |c| == |p| + 1 && Under(c, p)
  }

  /** The entries `iterdir()` lists for directory `p`. */
  function Children(fs: Tree, p: Path): set<Path> {
    set c | c in fs && IsChild(c, p)
  }

  /** Every proper ancestor of an entry is a directory. */
  lemma {:induction false} AncestorIsDir(fs: Tree, p: Path, q: Path)
    requires TreeClosed(fs) && p in fs && Under(p, q) && q != p
    ensures IsDir(fs, q)
    decreases |p|
  {
    var pp := Parent(p);
    assert q == p[..|q|] == pp[..|q|];
    if pp != q {
      AncestorIsDir(fs, pp, q);
    }
  }

  /** Nothing lies strictly below an entry that is not a directory, or below a missing one. */
  lemma NothingBelow(fs: Tree, p: Path, k: Path)
    requires TreeClosed(fs) && !IsDir(fs, p)
    ensures k in fs && Under(k, p) ==> k == p
  {
    if k in fs && Under(k, p) && k != p {
      AncestorIsDir(fs, k, p);
    }
  }

  /** A path strictly below `r` has its parent below `r` too. */
  lemma ParentStaysUnder(q: Path, r: Path)
    ensures Under(q, r) && q != r ==> Under(Parent(q), r)
  {
    if Under(q, r) && q != r {
      assert r == Parent(q)[..|r|];
    }
  }

  /** A path lies under every path its parent lies under. */
  lemma ParentUnder(q: Path, r: Path)
    requires q != []
    ensures Under(Parent(q), r) ==> Under(q, r)
  {
  }

  // mkdir(parents=True)

  function Prefixes(d: Path): set<Path> {
    set i | 0 <= i <= |d| :: d[..i]
  }

  lemma PrefixesAre(d: Path, q: Path)
    ensures q in Prefixes(d) <==> Under(d, q)
  {
    if Under(d, q) {
      assert q == d[..|q|];
    }
  }

  /** `mkdir(parents=True)` on `d` succeeds only if every existing prefix of `d` is a directory. */
  predicate CanMkdirs(fs: Tree, d: Path) {
    forall q | q in fs && Under(d, q) :: fs[q].Dir?
  }

  /** The tree after `mkdir(parents=True)` on `d`: every missing prefix of `d` becomes a directory. */
  function Mkdirs(fs: Tree, d: Path): Tree {
    fs + map q | q in Prefixes(d) && q !in fs :: Dir
  }

  lemma MkdirsAt(fs: Tree, d: Path, q: Path)
    ensures q in Mkdirs(fs, d) <==> q in fs || Under(d, q)
    ensures q in Mkdirs(fs, d) ==> Mkdirs(fs, d)[q] == if q in fs then fs[q] else Dir
  {
    PrefixesAre(d, q);
  }

  /** `mkdir(parents=True)` keeps the tree closed, leaves `d` a directory and changes no entry. */
  lemma MkdirsClosed(fs: Tree, d: Path)
    requires TreeClosed(fs) && CanMkdirs(fs, d)
    ensures TreeClosed(Mkdirs(fs, d)) && IsDir(Mkdirs(fs, d), d)
    ensures forall k | k in fs :: k in Mkdirs(fs, d) && Mkdirs(fs, d)[k] == fs[k]
    ensures forall k | k in Mkdirs(fs, d) && k !in fs :: Under(d, k) && Mkdirs(fs, d)[k] == Dir
  {
    var m := Mkdirs(fs, d);
    forall q | q in m && q != []
      ensures Parent(q) in m && m[Parent(q)].Dir?
    {
      MkdirsAt(fs, d, q);
      MkdirsAt(fs, d, Parent(q));
      if q !in fs {
        assert Parent(q) == d[..|q| - 1];
      }
    }
    MkdirsAt(fs, d, d);
    forall k | k in m
      ensures k in fs ==> m[k] == fs[k]
      ensures k !in fs ==> Under(d, k) && m[k] == Dir
    {
      MkdirsAt(fs, d, k);
    }
  }

  // shutil.move

  function Rebase(k: Path, src: Path, dst: Path): Path
    requires Under(k, src)
  {
    dst + k[|src|..]
  }

  lemma RebaseInjective(src: Path, dst: Path)
    ensures forall k1, k2 ::
      Under(k1, src) && Under(k2, src) && Rebase(k1, src, dst) == Rebase(k2, src, dst) ==> k1 == k2
  {
    forall k1, k2 | Under(k1, src) && Under(k2, src) && Rebase(k1, src, dst) == Rebase(k2, src, dst)
      ensures k1 == k2
    {
      assert k1[|src|..] == Rebase(k1, src, dst)[|dst|..];
      assert k2[|src|..] == Rebase(k2, src, dst)[|dst|..];
      assert k1 == src + k1[|src|..];
      assert k2 == src + k2[|src|..];
    }
  }

  /** The subtree at `src`, renamed to lie at `dst`. */
  function Moved(fs: Tree, src: Path, dst: Path): Tree {
    RebaseInjective(src, dst);
    map k | k in fs && Under(k, src) :: Rebase(k, src, dst) := fs[k]
  }

  /**
   * The tree after `shutil.move(src, dst)` renames `src`, with everything
   * below it, to `dst`; an entry already at `dst` is replaced, as `rename`
   * replaces a file.
   */
  function MoveTree(fs: Tree, src: Path, dst: Path): Tree {
    (map k | k in fs && !Under(k, src) && k != dst :: fs[k]) + Moved(fs, src, dst)
  }

  /**
   * `shutil.move(src, dst)` raises, for a `dst` that is not an existing
   * directory and whose parent entry exists: if `src` does not exist, if the
   * parent of `dst` is not a directory, or if `src` is a directory and `dst`
   * lies inside it or is already taken (the fallback `copytree` refuses an
   * existing name).
   */
  predicate MoveFails(fs: Tree, src: Path, dst: Path) {
    src !in fs || !IsDir(fs, Parent(dst)) || (fs[src].Dir? && (Under(dst, src) || dst in fs))
  }

  lemma MovedAt(fs: Tree, src: Path, dst: Path, q: Path)
    ensures q in Moved(fs, src, dst) <==> Under(q, dst) && src + q[|dst|..] in fs
    ensures q in Moved(fs, src, dst) ==> Moved(fs, src, dst)[q] == fs[src + q[|dst|..]]
  {
    RebaseInjective(src, dst);
    if Under(q, dst) && src + q[|dst|..] in fs {
      var k := src + q[|dst|..];
      assert k[|src|..] == q[|dst|..];
      assert Rebase(k, src, dst) == q;
    }
    if q in Moved(fs, src, dst) {
      var k :| k in fs && Under(k, src) && Rebase(k, src, dst) == q;
      assert q[|dst|..] == k[|src|..];
      assert k == src + k[|src|..];
    }
  }

  /** Where each entry of the moved tree comes from. */
  lemma MoveTreeAt(fs: Tree, src: Path, dst: Path, q: Path)
    ensures q in MoveTree(fs, src, dst) <==>
      (q in fs && !Under(q, src) && q != dst) || (Under(q, dst) && src + q[|dst|..] in fs)
    ensures q in MoveTree(fs, src, dst) ==>
      MoveTree(fs, src, dst)[q] ==
        if Under(q, dst) && src + q[|dst|..] in fs then fs[src + q[|dst|..]] else fs[q]
  {
    MovedAt(fs, src, dst, q);
  }

  /** In the moved tree, the parent of an entry that stayed, or of `dst` itself, is the same directory as before. */
  lemma MoveTreeParentKept(fs: Tree, src: Path, dst: Path, q: Path)
    requires TreeClosed(fs) && dst != [] && IsDir(fs, Parent(dst)) && !IsDir(fs, dst) && !Under(dst, src)
    requires q == dst || (q in fs && q != [] && !Under(q, src) && q != dst)
    ensures IsDir(MoveTree(fs, src, dst), Parent(q))
  {
    var pq := Parent(q);
    ParentUnder(q, src);
    NothingBelow(fs, dst, pq);
    MoveTreeAt(fs, src, dst, pq);
  }

  /** In the moved tree, the parent of a moved entry other than `dst` is the moved parent. */
  lemma MoveTreeParentMoved(fs: Tree, src: Path, dst: Path, q: Path)
    requires TreeClosed(fs) && src in fs
    requires Under(q, dst) && q != dst && src + q[|dst|..] in fs
    ensures IsDir(MoveTree(fs, src, dst), Parent(q))
  {
    var pq := Parent(q);
    var j := src + q[|dst|..];
    assert j != [] && j != src;
    assert Parent(j) == src + pq[|dst|..];
    AncestorIsDir(fs, j, Parent(j));
    assert Under(pq, dst);
    MoveTreeAt(fs, src, dst, pq);
  }

  /** In the moved tree, the parent of an entry is a directory. */
  lemma MoveTreeParent(fs: Tree, src: Path, dst: Path, q: Path)
    requires TreeClosed(fs) && src in fs && dst != []
    requires IsDir(fs, Parent(dst)) && !IsDir(fs, dst) && !Under(dst, src)
    requires q in MoveTree(fs, src, dst) && q != []
    ensures IsDir(MoveTree(fs, src, dst), Parent(q))
  {
    MoveTreeAt(fs, src, dst, q);
    if Under(q, dst) && src + q[|dst|..] in fs && q != dst {
      MoveTreeParentMoved(fs, src, dst, q);
    } else {
      MoveTreeParentKept(fs, src, dst, q);
    }
  }

  /**
   * A move into a directory, onto a name that is not a directory and not
   * inside `src`, keeps the tree closed; the node of `src` is now at `dst`.
   */
  lemma MoveTreeClosed(fs: Tree, src: Path, dst: Path)
    requires TreeClosed(fs) && src in fs && dst != []
    requires IsDir(fs, Parent(dst)) && !IsDir(fs, dst) && !Under(dst, src)
    ensures TreeClosed(MoveTree(fs, src, dst))
    ensures dst in MoveTree(fs, src, dst) && MoveTree(fs, src, dst)[dst] == fs[src]
    ensures src !in MoveTree(fs, src, dst)
  {
    var m := MoveTree(fs, src, dst);
    forall q | q in m && q != []
      ensures Parent(q) in m && m[Parent(q)].Dir?
    {
      MoveTreeParent(fs, src, dst, q);
    }
    MoveTreeAt(fs, src, dst, dst);
    assert src + dst[|dst|..] == src;
    MoveTreeAt(fs, src, dst, src);
    NothingBelow(fs, dst, src);
  }

  lemma MoveTreeBackAt(fs: Tree, a: Path, b: Path, q: Path)
    requires TreeClosed(fs) && a in fs && !IsDir(fs, b) && !Under(b, a) && !Under(a, b)
    ensures q in MoveTree(MoveTree(fs, a, b), b, a) <==> q in fs && q != b
    ensures q in fs && q != b ==> MoveTree(MoveTree(fs, a, b), b, a)[q] == fs[q]
  {
    var m := MoveTree(fs, a, b);
    MoveTreeAt(m, b, a, q);
    if Under(q, a) {
      var k := b + q[|a|..];
      assert k[|b|..] == q[|a|..];
      assert a + q[|a|..] == q;
      MoveTreeAt(fs, a, b, k);
      NothingBelow(fs, b, k);
      MoveTreeAt(fs, a, b, q);
      if Under(q, b) {
        PrefixesOfOnePath(a, b, q);
      }
    } else {
      MoveTreeAt(fs, a, b, q);
      NothingBelow(fs, b, q);
    }
  }

  /** Moving a subtree away and back restores the tree, less whatever sat at `b`. */
  lemma MoveTreeBack(fs: Tree, a: Path, b: Path)
    requires TreeClosed(fs) && a in fs && !IsDir(fs, b) && !Under(b, a)
    ensures MoveTree(MoveTree(fs, a, b), b, a) == fs - {b}
  {
    var r := MoveTree(MoveTree(fs, a, b), b, a);
    var e := fs - {b};
    NothingBelow(fs, b, a);
    forall q
      ensures q in r <==> q in e
      ensures q in r ==> r[q] == e[q]
    {
      MoveTreeBackAt(fs, a, b, q);
    }
    SameEntries(r, e);
  }

  /** Two trees with the same entries, holding the same nodes, are equal. */
  lemma SameEntries(m1: Tree, m2: Tree)
    requires forall q :: q in m1 <==> q in m2
    requires forall q | q in m1 :: m1[q] == m2[q]
    ensures m1 == m2
  {
  }

  // unlink, symlink_to

  /** Removing an entry that is not a directory keeps the tree closed. */
  lemma RemoveLeafClosed(fs: Tree, k: Path)
    requires TreeClosed(fs) && !IsDir(fs, k)
    ensures TreeClosed(fs - {k})
  {
  }

  /** Adding a non-directory in an existing directory keeps the tree closed. */
  lemma AddLeafClosed(fs: Tree, k: Path, n: Node)
    requires TreeClosed(fs) && k != [] && k !in fs && IsDir(fs, Parent(k)) && !n.Dir?
    ensures TreeClosed(fs[k := n])
  {
  }

  /** `mkdir(parents=True)` on an existing directory would fail nowhere. */
  lemma DirCanMkdirs(fs: Tree, d: Path)
    requires TreeClosed(fs) && IsDir(fs, d)
    ensures CanMkdirs(fs, d)
  {
    forall q | q in fs && Under(d, q)
      ensures fs[q].Dir?
    {
      if q != d {
        AncestorIsDir(fs, d, q);
      }
    }
  }

  /** `mkdir(parents=True)` on an existing directory adds nothing. */
  lemma MkdirsExisting(fs: Tree, d: Path)
    requires TreeClosed(fs) && IsDir(fs, d)
    ensures Mkdirs(fs, d) == fs
  {
    forall q | q in Mkdirs(fs, d)
      ensures q in fs
    {
      MkdirsAt(fs, d, q);
      if q != d && Under(d, q) {
        AncestorIsDir(fs, d, q);
      }
    }
    forall q | q in fs
      ensures q in Mkdirs(fs, d) && Mkdirs(fs, d)[q] == fs[q]
    {
      MkdirsAt(fs, d, q);
    }
  }

  // The two compound changes of add and remove

  /** A move that does not fail never puts `src` inside itself. */
  lemma MoveNotInside(m: Tree, src: Path, dst: Path)
    requires TreeClosed(m) && !MoveFails(m, src, dst) && src != dst
    ensures !Under(dst, src)
  {
    if !m[src].Dir? {
      ParentStaysUnder(dst, src);
      NothingBelow(m, src, Parent(dst));
    }
  }

  /** Entry by entry, the tree after `shutil.move(src, dst)` and `src.symlink_to(dst)`. */
  lemma MoveAndLinkAt(m: Tree, src: Path, dst: Path, q: Path)
    requires TreeClosed(m) && !MoveFails(m, src, dst) && !IsDir(m, dst) && !Under(src, dst)
    ensures var t := MoveTree(m, src, dst)[src := Link(dst)];
      && (Under(q, dst) ==> (q in t <==> src + q[|dst|..] in m))
      && (Under(q, dst) && q in t ==> t[q] == m[src + q[|dst|..]])
      && (Under(q, src) && q != src ==> q !in t)
      && (!Under(q, src) && !Under(q, dst) ==> (q in t <==> q in m))
      && (!Under(q, src) && !Under(q, dst) && q in m ==> t[q] == m[q])
  {
    MoveNotInside(m, src, dst);
    MoveTreeAt(m, src, dst, q);
    NothingBelow(m, dst, q);
    PrefixesOfOnePath(src, dst, q);
  }

  /** After `shutil.move(src, dst)`, `src.symlink_to(dst)` cannot fail. */
  lemma MoveLeavesRoom(m: Tree, src: Path, dst: Path)
    requires TreeClosed(m) && !MoveFails(m, src, dst) && !IsDir(m, dst) && !Under(src, dst)
    ensures TreeClosed(MoveTree(m, src, dst)) && src != []
    ensures src !in MoveTree(m, src, dst) && IsDir(MoveTree(m, src, dst), Parent(src))
    ensures dst in MoveTree(m, src, dst) && MoveTree(m, src, dst)[dst] == m[src]
  {
    MoveNotInside(m, src, dst);
    assert dst != [];
    MoveTreeClosed(m, src, dst);
    assert src != [] && Parent(src) != src;
    ParentUnder(src, src);
    MoveTreeAt(m, src, dst, Parent(src));
    ParentStaysUnder(Parent(src), src);
    NothingBelow(m, dst, Parent(src));
    PrefixesOfOnePath(src, dst, Parent(src));
  }

  /** `shutil.move(src, dst)` then `src.symlink_to(dst)` keeps the tree closed. */
  lemma MoveAndLinkClosed(m: Tree, src: Path, dst: Path)
    requires TreeClosed(m) && !MoveFails(m, src, dst) && !IsDir(m, dst) && !Under(src, dst)
    ensures var t := MoveTree(m, src, dst)[src := Link(dst)];
      TreeClosed(t) && src in t && t[src] == Link(dst) && dst in t && t[dst] == m[src]
  {
    MoveNotInside(m, src, dst);
    MoveTreeClosed(m, src, dst);
    MoveLeavesRoom(m, src, dst);
    AddLeafClosed(MoveTree(m, src, dst), src, Link(dst));
  }

  /** Entry by entry, the tree after `h.unlink()` and `shutil.move(r, h)`. */
  lemma UnlinkAndMoveAt(m: Tree, h: Path, r: Path, q: Path)
    requires TreeClosed(m) && IsLink(m, h) && r != h && !MoveFails(m - {h}, r, h)
    ensures var t := MoveTree(m - {h}, r, h);
      && (Under(q, h) ==> (q in t <==> r + q[|h|..] in m))
      && (Under(q, h) && q in t ==> t[q] == m[r + q[|h|..]])
      && (Under(q, r) ==> q !in t)
      && (!Under(q, r) && !Under(q, h) ==> (q in t <==> q in m))
      && (!Under(q, r) && !Under(q, h) && q in m ==> t[q] == m[q])
  {
    RemoveLeafClosed(m, h);
    MoveNotInside(m - {h}, r, h);
    NothingBelow(m, h, r);
    NothingBelow(m, h, q);
    MoveTreeAt(m - {h}, r, h, q);
    PrefixesOfOnePath(r, h, q);
  }

  /** `h.unlink()` then `shutil.move(r, h)` keeps the tree closed and puts the node of `r` at `h`. */
  lemma UnlinkAndMoveClosed(m: Tree, h: Path, r: Path)
    requires TreeClosed(m) && IsLink(m, h) && r != h && !MoveFails(m - {h}, r, h)
    ensures var t := MoveTree(m - {h}, r, h);
      TreeClosed(t) && h in t && t[h] == m[r] && r !in t
  {
    RemoveLeafClosed(m, h);
    MoveNotInside(m - {h}, r, h);
    MoveTreeClosed(m - {h}, r, h);
  }

  /**
   * After `shutil.move(src, dst)` and `src.symlink_to(dst)`, unlinking `src`
   * and moving `dst` back succeeds and restores the tree, less whatever sat
   * at `dst`.
   */
  lemma MoveAndLinkUndone(m: Tree, src: Path, dst: Path)
    requires TreeClosed(m) && !MoveFails(m, src, dst) && !IsDir(m, dst) && !Under(src, dst)
    ensures var t := MoveTree(m, src, dst)[src := Link(dst)];
      && IsLink(t, src) && t[src].target == dst && dst in t && t[dst] == m[src]
      && !MoveFails(t - {src}, dst, src)
      && MoveTree(t - {src}, dst, src) == m - {dst}
  {
    var moved := MoveTree(m, src, dst);
    var t := moved[src := Link(dst)];
    MoveLeavesRoom(m, src, dst);
    assert t - {src} == moved;
    assert !MoveFails(moved, dst, src);
    MoveTreeBack(m, src, dst);
  }

  /** After `h.unlink()` and `shutil.move(r, h)`, moving `h` back to `r` does not fail. */
  lemma UnlinkAndMoveReversible(m: Tree, h: Path, r: Path)
    requires TreeClosed(m) && IsLink(m, h) && r != h && r != []
    requires !MoveFails(m - {h}, r, h)
    ensures var t := MoveTree(m - {h}, r, h);
      h in t && t[h] == m[r] && r !in t && IsDir(t, Parent(r)) && !MoveFails(t, h, r)
  {
    var t := MoveTree(m - {h}, r, h);
    UnlinkAndMoveClosed(m, h, r);
    var d := Parent(r);
    ParentUnder(r, r);
    AncestorIsDir(m, r, d);
    NothingBelow(m, h, d);
    UnlinkAndMoveAt(m, h, r, d);
    NothingBelow(m, h, r);
  }

  /**
   * After `h.unlink()` and `shutil.move(r, h)` for a symlink `h` to `r`,
   * moving `h` back and linking it to `r` again succeeds and restores the
   * tree exactly.
   */
  lemma UnlinkAndMoveUndone(m: Tree, h: Path, r: Path)
    requires TreeClosed(m) && IsLink(m, h) && m[h].target == r && r != h && r != []
    requires !MoveFails(m - {h}, r, h)
    ensures var t := MoveTree(m - {h}, r, h);
      && h in t && t[h] == m[r] && r !in t && IsDir(t, Parent(r))
      && !MoveFails(t, h, r)
      && MoveTree(t, h, r)[h := Link(r)] == m
  {
    var unlinked := m - {h};
    UnlinkAndMoveReversible(m, h, r);
    RemoveLeafClosed(m, h);
    MoveNotInside(unlinked, r, h);
    MoveTreeBack(unlinked, r, h);
    Relinked(m, h);
  }

  lemma Relinked(m: Tree, h: Path)
    requires h in m
    ensures (m - {h}) - {h} == m - {h} && (m - {h})[h := m[h]] == m
  {
  }
}
