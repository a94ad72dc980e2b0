/**
 * `add` and `remove` as functions of the filesystem: the guard checks in the
 * source's order, then the effect of the mutation, or the point at which an
 * exception escapes, and the messages that `err` reports. The methods of
 * `Dfm.Dotfiles` take the same steps one at a time and are proved to agree
 * with these functions; the lemmas here state what the steps achieve.
 */
module Operations {
  import opened Paths
  import opened Outcomes
  import opened FileSystem

  /** What one operation leaves behind: how it ended, the new tree, the messages reported. */
  datatype Step = Step(outcome: Outcome, fs: Tree, msgs: seq<Message>)

  /**
   * The operations `fold` applies to paths named on the command line;
   * install and uninstall are folded over directory entries by loops of
   * their own in `Dfm`.
   */
  datatype Op = AddOp | RemoveOp

  // The two namespaces

  /** add's destination, `dotfiles_home / str(relative_path)[1:]`. */
  function AddDest(home: Path, store: Path, p: Path): Path
    requires Under(p, home) && IsDotted(RelativeTo(p, home))
  {
    store + StoreName(RelativeTo(p, home))
  }

  /** The home-side name of a store entry, `Path.home() / ('.' + str(relative_path))`. */
  function HomeSide(home: Path, store: Path, q: Path): Path
    requires Under(q, store) && q != store
  {
    home + HomeName(RelativeTo(q, store))
  }

  /** The home side of add's destination is the path that was added. */
  lemma HomeSideOfAddDest(home: Path, store: Path, p: Path)
    requires Under(p, home) && p != home && IsDotted(RelativeTo(p, home))
    ensures Under(AddDest(home, store, p), store) && AddDest(home, store, p) != store
    ensures HomeSide(home, store, AddDest(home, store, p)) == p
  {
    var rel := RelativeTo(p, home);
    var dest := AddDest(home, store, p);
    assert RelativeTo(dest, store) == StoreName(rel);
    HomeNameOfStoreName(rel);
  }

  /** add's destination for the home side of a store entry is that entry. */
  lemma AddDestOfHomeSide(home: Path, store: Path, q: Path)
    requires Under(q, store) && q != store
    ensures Under(HomeSide(home, store, q), home) && IsDotted(RelativeTo(HomeSide(home, store, q), home))
    ensures AddDest(home, store, HomeSide(home, store, q)) == q
  {
    var rel := RelativeTo(q, store);
    var h := HomeSide(home, store, q);
    assert RelativeTo(h, home) == HomeName(rel);
    StoreNameOfHomeName(rel);
  }

  /** Distinct store entries have distinct home sides. */
  lemma HomeSideInjective(home: Path, store: Path, q1: Path, q2: Path)
    requires Under(q1, store) && q1 != store && Under(q2, store) && q2 != store
    ensures HomeSide(home, store, q1) == HomeSide(home, store, q2) <==> q1 == q2
  {
    var r1, r2 := RelativeTo(q1, store), RelativeTo(q2, store);
    if HomeSide(home, store, q1) == HomeSide(home, store, q2) {
      assert HomeName(r1) == HomeSide(home, store, q1)[|home|..];
      assert HomeName(r2) == HomeSide(home, store, q2)[|home|..];
      HomeNameInjective(r1, r2);
    }
  }

  /**
   * The home sides follow the store's nesting: the home side of an entry
   * below store entry `b` lies strictly below the home side of `b`, and the
   * entry is hidden exactly when `b` is.
   */
  lemma HomeSideBelow(home: Path, store: Path, b: Path, t: Path)
    requires Under(b, store) && b != store && Under(t, b) && t != b
    ensures Under(HomeSide(home, store, t), HomeSide(home, store, b))
    ensures HomeSide(home, store, t) != HomeSide(home, store, b)
    ensures IsDotted(RelativeTo(t, store)) <==> IsDotted(RelativeTo(b, store))
  {
    var rb, rt := RelativeTo(b, store), RelativeTo(t, store);
    assert rt[..|rb|] == rb;
    var hb, ht := HomeSide(home, store, b), HomeSide(home, store, t);
    assert ht[..|hb|] == hb by {
      forall j | 0 <= j < |hb|
        ensures ht[j] == hb[j]
      {
        if j > |home| {
          assert hb[j] == rb[j - |home|] && ht[j] == rt[j - |home|];
        }
      }
    }
  }

  // add

  /** add's guard checks, in the source's order; the first that fails decides. */
  function AddCheck(fs: Tree, home: Path, store: Path, p: Path): Check {
    if !Exists(fs, p) then Fail(DoesNotExist)
    else if IsLink(fs, p) then Fail(CannotAddSymlinks)
    else if Under(p, store) then Fail(AlreadyInStore)
    else if !Under(p, home) then Fail(NotInHome)
    else if !IsDotted(RelativeTo(p, home)) then Fail(NotADotfile)
    else if Exists(fs, AddDest(home, store, p)) then Fail(Collides)
    else Pass
  }

  /**
   * `add(dotfiles_home, p)`: report the first failed check; otherwise create
   * the destination's missing parents (`ensure_dir`), move `p` there and
   * leave a symlink to it at `p`. `mkdir` and `shutil.move` may raise.
   */
  function AddStep(fs: Tree, home: Path, store: Path, p: Path): Step {
    match AddCheck(fs, home, store, p)
    case Fail(why) => Step(Returned(ERR), fs, [Message(p, why)])
    case Pass =>
      var dest := AddDest(home, store, p);
      var d := Parent(dest);
      if !Exists(fs, d) && !CanMkdirs(fs, d) then Step(Raised, fs, [])
      else
        var made := if Exists(fs, d) then fs else Mkdirs(fs, d);
        if MoveFails(made, p, dest) then Step(Raised, made, [])
        else Step(Returned(OK), MoveTree(made, p, dest)[p := Link(dest)], [])
  }

  /** add reports ERR exactly when a check fails; then it reports that check and changes nothing. */
  lemma AddRefusal(fs: Tree, home: Path, store: Path, p: Path)
    ensures AddStep(fs, home, store, p).outcome == Returned(ERR) <==> AddCheck(fs, home, store, p).Fail?
    ensures AddCheck(fs, home, store, p).Fail? ==>
      AddStep(fs, home, store, p).fs == fs &&
      AddStep(fs, home, store, p).msgs == [Message(p, AddCheck(fs, home, store, p).reason)]
    ensures AddCheck(fs, home, store, p).Pass? ==> AddStep(fs, home, store, p).msgs == []
  {
  }

  /** What a successful add has established, and the tree it leaves, in terms of the primitive changes. */
  lemma AddStepOk(fs: Tree, home: Path, store: Path, p: Path)
    requires TreeClosed(fs) && IsDir(fs, store)
    requires AddStep(fs, home, store, p).outcome == Returned(OK)
    ensures AddCheck(fs, home, store, p) == Pass
    ensures Under(p, home) && p != home && IsDotted(RelativeTo(p, home))
    ensures var dest, m := AddDest(home, store, p), Mkdirs(fs, Parent(AddDest(home, store, p)));
      && Under(dest, store) && dest != store && HomeSide(home, store, dest) == p
      && CanMkdirs(fs, Parent(dest)) && !MoveFails(m, p, dest) && !IsDir(m, dest) && !Under(p, dest)
      && AddStep(fs, home, store, p).fs == MoveTree(m, p, dest)[p := Link(dest)]
      && (Exists(fs, Parent(dest)) ==> m == fs)
  {
    var rel := RelativeTo(p, home);
    var dest := AddDest(home, store, p);
    var d := Parent(dest);
    assert p != home by {
      assert rel == [] ==> dest == store;
    }
    HomeSideOfAddDest(home, store, p);
    if Exists(fs, d) {
      assert !MoveFails(fs, p, dest);
      MkdirsExisting(fs, d);
      DirCanMkdirs(fs, d);
    }
    MkdirsAt(fs, d, dest);
  }

  /** Entry by entry, the tree a successful add leaves. */
  lemma AddEffectAt(fs: Tree, home: Path, store: Path, p: Path, q: Path)
    requires TreeClosed(fs) && IsDir(fs, store)
    requires AddStep(fs, home, store, p).outcome == Returned(OK)
    ensures Under(p, home) && IsDotted(RelativeTo(p, home))
    ensures var dest, fs' := AddDest(home, store, p), AddStep(fs, home, store, p).fs;
      && (Under(q, dest) ==> (q in fs' <==> p + q[|dest|..] in fs))
      && (Under(q, dest) && q in fs' ==> fs'[q] == fs[p + q[|dest|..]])
      && (Under(q, p) && q != p ==> q !in fs')
      && (!Under(q, p) && !Under(q, dest) && q in fs ==> q in fs' && fs'[q] == fs[q])
      && (!Under(q, p) && !Under(q, dest) && q in fs' && q !in fs ==> Under(Parent(dest), q) && fs'[q] == Dir)
  {
    AddStepOk(fs, home, store, p);
    var dest := AddDest(home, store, p);
    var d := Parent(dest);
    var m := Mkdirs(fs, d);
    MkdirsClosed(fs, d);
    MoveNotInside(m, p, dest);
    MoveAndLinkAt(m, p, dest, q);
    MkdirsAt(fs, d, q);
    if Under(q, dest) {
      var k := p + q[|dest|..];
      MkdirsAt(fs, d, k);
      assert Under(d, k) ==> Under(d, p);
      ParentUnder(dest, p);
    }
  }

  /**
   * A successful add: every check passed; the destination's parents are
   * directories; the node of `p`, with everything below it, now lies at the
   * destination; `p` is a symlink to the destination; every other entry is
   * unchanged, and the only new ones are the parent directories created.
   */
  lemma AddEffect(fs: Tree, home: Path, store: Path, p: Path)
    requires TreeClosed(fs) && IsDir(fs, store)
    requires AddStep(fs, home, store, p).outcome == Returned(OK)
    ensures AddCheck(fs, home, store, p).Pass?
    ensures Exists(fs, p) && !IsLink(fs, p) && !Under(p, store) && Under(p, home) && p != home
    ensures IsDotted(RelativeTo(p, home)) && !Exists(fs, AddDest(home, store, p))
    ensures var dest, fs' := AddDest(home, store, p), AddStep(fs, home, store, p).fs;
      && TreeClosed(fs') && IsDir(fs', store) && IsDir(fs', Parent(dest))
      && p in fs' && fs'[p] == Link(dest)
      && dest in fs' && fs'[dest] == fs[p]
      && (forall q | Under(q, dest) :: q in fs' <==> p + q[|dest|..] in fs)
      && (forall q | Under(q, dest) && q in fs' :: fs'[q] == fs[p + q[|dest|..]])
      && (forall q | Under(q, p) && q != p :: q !in fs')
      && (forall q | !Under(q, p) && !Under(q, dest) && q in fs :: q in fs' && fs'[q] == fs[q])
      && (forall q | !Under(q, p) && !Under(q, dest) && q in fs' && q !in fs :: Under(Parent(dest), q) && fs'[q] == Dir)
  {
    AddStepOk(fs, home, store, p);
    var dest := AddDest(home, store, p);
    var d := Parent(dest);
    var m := Mkdirs(fs, d);
    MkdirsClosed(fs, d);
    MoveAndLinkClosed(m, p, dest);
    MoveNotInside(m, p, dest);
    assert !Under(store, p);
    ParentUnder(dest, p);
    MoveAndLinkAt(m, p, dest, store);
    MoveAndLinkAt(m, p, dest, d);
    forall q
      ensures var fs' := AddStep(fs, home, store, p).fs;
        && (Under(q, dest) ==> (q in fs' <==> p + q[|dest|..] in fs))
        && (Under(q, dest) && q in fs' ==> fs'[q] == fs[p + q[|dest|..]])
        && (Under(q, p) && q != p ==> q !in fs')
        && (!Under(q, p) && !Under(q, dest) && q in fs ==> q in fs' && fs'[q] == fs[q])
        && (!Under(q, p) && !Under(q, dest) && q in fs' && q !in fs ==> Under(d, q) && fs'[q] == Dir)
    {
      AddEffectAt(fs, home, store, p, q);
    }
  }

  // remove

  /** remove's guard checks, in the source's order, on the resolved path. */
  function RemoveCheck(fs: Tree, home: Path, store: Path, p: Path): Check {
    var r := Resolve(fs, p);
    if !Exists(fs, r) then Fail(DoesNotExist)
    else if !Under(r, store) then Fail(NotInStore)
    // The store itself maps to `home / '..'`, the directory above home.
    else if r == store || !IsLink(fs, HomeSide(home, store, r)) then Fail(NotASymlink)
    else if fs[HomeSide(home, store, r)].target != r then Fail(IncorrectTarget)
    else Pass
  }

  /**
   * `remove(dotfiles_home, p)`: report the first failed check; otherwise
   * delete the home-side symlink and move the store entry back in its place.
   * `shutil.move` may raise, after the unlink.
   */
  function RemoveStep(fs: Tree, home: Path, store: Path, p: Path): Step {
    match RemoveCheck(fs, home, store, p)
    case Fail(why) => Step(Returned(ERR), fs, [Message(p, why)])
    case Pass =>
      var r := Resolve(fs, p);
      var h := HomeSide(home, store, r);
      var unlinked := fs - {h};
      if MoveFails(unlinked, r, h) then Step(Raised, unlinked, [])
      else Step(Returned(OK), MoveTree(unlinked, r, h), [])
  }

  /** remove reports ERR exactly when a check fails; then it reports that check and changes nothing. */
  lemma RemoveRefusal(fs: Tree, home: Path, store: Path, p: Path)
    ensures RemoveStep(fs, home, store, p).outcome == Returned(ERR) <==> RemoveCheck(fs, home, store, p).Fail?
    ensures RemoveCheck(fs, home, store, p).Fail? ==>
      RemoveStep(fs, home, store, p).fs == fs &&
      RemoveStep(fs, home, store, p).msgs == [Message(p, RemoveCheck(fs, home, store, p).reason)]
    ensures RemoveCheck(fs, home, store, p).Pass? ==> RemoveStep(fs, home, store, p).msgs == []
  {
  }

  /** What a successful remove has established, and the tree it leaves, in terms of the primitive changes. */
  lemma RemoveStepOk(fs: Tree, home: Path, store: Path, p: Path)
    requires RemoveStep(fs, home, store, p).outcome == Returned(OK)
    ensures RemoveCheck(fs, home, store, p) == Pass
    ensures var r := Resolve(fs, p);
      && Exists(fs, r) && Under(r, store) && r != store
      && IsLink(fs, HomeSide(home, store, r)) && fs[HomeSide(home, store, r)].target == r
      && HomeSide(home, store, r) != r
      && !MoveFails(fs - {HomeSide(home, store, r)}, r, HomeSide(home, store, r))
      && RemoveStep(fs, home, store, p).fs == MoveTree(fs - {HomeSide(home, store, r)}, r, HomeSide(home, store, r))
  {
  }

  /** Entry by entry, the tree a successful remove leaves. */
  lemma RemoveEffectAt(fs: Tree, home: Path, store: Path, p: Path, q: Path)
    requires TreeClosed(fs)
    requires RemoveStep(fs, home, store, p).outcome == Returned(OK)
    ensures Under(Resolve(fs, p), store) && Resolve(fs, p) != store
    ensures var r := Resolve(fs, p);
      var h, fs' := HomeSide(home, store, r), RemoveStep(fs, home, store, p).fs;
      && (Under(q, h) ==> (q in fs' <==> r + q[|h|..] in fs))
      && (Under(q, h) && q in fs' ==> fs'[q] == fs[r + q[|h|..]])
      && (Under(q, r) ==> q !in fs')
      && (!Under(q, r) && !Under(q, h) ==> (q in fs' <==> q in fs))
      && (!Under(q, r) && !Under(q, h) && q in fs ==> fs'[q] == fs[q])
  {
    RemoveStepOk(fs, home, store, p);
    var r := Resolve(fs, p);
    UnlinkAndMoveAt(fs, HomeSide(home, store, r), r, q);
  }

  /**
   * A successful remove: the resolved path `r` is a store entry whose home
   * side is a symlink to it; the node of `r`, with everything below it, now
   * lies at the home side; nothing is left at or below `r`; every other entry
   * is unchanged.
   */
  lemma RemoveEffect(fs: Tree, home: Path, store: Path, p: Path)
    requires TreeClosed(fs) && IsDir(fs, store)
    requires RemoveStep(fs, home, store, p).outcome == Returned(OK)
    ensures RemoveCheck(fs, home, store, p).Pass?
    ensures var r := Resolve(fs, p);
      && Exists(fs, r) && Under(r, store) && r != store
      && IsLink(fs, HomeSide(home, store, r)) && fs[HomeSide(home, store, r)].target == r
    ensures var r := Resolve(fs, p);
      var h, fs' := HomeSide(home, store, r), RemoveStep(fs, home, store, p).fs;
      && TreeClosed(fs') && IsDir(fs', store)
      && h in fs' && fs'[h] == fs[r]
      && (forall q | Under(q, h) :: q in fs' <==> r + q[|h|..] in fs)
      && (forall q | Under(q, h) && q in fs' :: fs'[q] == fs[r + q[|h|..]])
      && (forall q | Under(q, r) :: q !in fs')
      && (forall q | !Under(q, r) && !Under(q, h) :: q in fs' <==> q in fs)
      && (forall q | !Under(q, r) && !Under(q, h) && q in fs :: fs'[q] == fs[q])
  {
    RemoveStepOk(fs, home, store, p);
    var r := Resolve(fs, p);
    var h := HomeSide(home, store, r);
    UnlinkAndMoveClosed(fs, h, r);
    NothingBelow(fs, h, store);
    UnlinkAndMoveAt(fs, h, r, store);
    forall q
      ensures var fs' := RemoveStep(fs, home, store, p).fs;
        && (Under(q, h) ==> (q in fs' <==> r + q[|h|..] in fs))
        && (Under(q, h) && q in fs' ==> fs'[q] == fs[r + q[|h|..]])
        && (Under(q, r) ==> q !in fs')
        && (!Under(q, r) && !Under(q, h) ==> (q in fs' <==> q in fs))
        && (!Under(q, r) && !Under(q, h) && q in fs ==> fs'[q] == fs[q])
    {
      RemoveEffectAt(fs, home, store, p, q);
    }
  }

  /** A successful remove keeps the tree closed and the store a directory. */
  lemma RemoveKeepsStore(fs: Tree, home: Path, store: Path, p: Path)
    requires TreeClosed(fs) && IsDir(fs, store)
    requires RemoveStep(fs, home, store, p).outcome == Returned(OK)
    ensures TreeClosed(RemoveStep(fs, home, store, p).fs) && IsDir(RemoveStep(fs, home, store, p).fs, store)
  {
    RemoveEffect(fs, home, store, p);
  }

  /**
   * remove behaves the same whether it is given the home-side symlink or the
   * store entry it points to; only the path in a message differs.
   */
  lemma RemoveLinkOrTarget(fs: Tree, home: Path, store: Path, p: Path)
    requires IsLink(fs, p) && !IsLink(fs, fs[p].target)
    ensures var viaLink, viaTarget := RemoveStep(fs, home, store, p), RemoveStep(fs, home, store, fs[p].target);
      viaLink.outcome == viaTarget.outcome && viaLink.fs == viaTarget.fs &&
      |viaLink.msgs| == |viaTarget.msgs| &&
      forall i | 0 <= i < |viaLink.msgs| :: viaLink.msgs[i].reason == viaTarget.msgs[i].reason
  {
    assert Resolve(fs, fs[p].target) == Resolve(fs, p);
  }

  // Round trips

  /** remove, given a path that resolves to a store entry whose home side links back to it. */
  lemma RemoveStepOfLinkedEntry(fs: Tree, home: Path, store: Path, p: Path, r: Path)
    requires Resolve(fs, p) == r && Exists(fs, r) && Under(r, store) && r != store
    requires IsLink(fs, HomeSide(home, store, r)) && fs[HomeSide(home, store, r)].target == r
    requires !MoveFails(fs - {HomeSide(home, store, r)}, r, HomeSide(home, store, r))
    ensures RemoveStep(fs, home, store, p) ==
      Step(Returned(OK), MoveTree(fs - {HomeSide(home, store, r)}, r, HomeSide(home, store, r)), [])
  {
  }

  /** add, given a path that passes every check and whose destination's parent is a directory. */
  lemma AddStepOfPassingPath(fs: Tree, home: Path, store: Path, p: Path)
    requires AddCheck(fs, home, store, p) == Pass
    requires IsDir(fs, Parent(AddDest(home, store, p)))
    requires !MoveFails(fs, p, AddDest(home, store, p))
    ensures AddStep(fs, home, store, p) ==
      Step(Returned(OK), MoveTree(fs, p, AddDest(home, store, p))[p := Link(AddDest(home, store, p))], [])
  {
  }

  /**
   * add followed by remove, given either the home path or the store path,
   * gives back the original tree, apart from the parent directories add
   * created and a dangling symlink that may have sat at the destination:
   * the home path holds its original node again and nothing is left in the
   * store.
   */
  lemma AddThenRemove(fs: Tree, home: Path, store: Path, p: Path)
    requires TreeClosed(fs) && IsDir(fs, store)
    requires AddStep(fs, home, store, p).outcome == Returned(OK)
    ensures Under(p, home) && IsDotted(RelativeTo(p, home))
    ensures var dest, added := AddDest(home, store, p), AddStep(fs, home, store, p).fs;
      var back := Mkdirs(fs, Parent(dest)) - {dest};
      && RemoveStep(added, home, store, p) == Step(Returned(OK), back, [])
      && RemoveStep(added, home, store, dest) == Step(Returned(OK), back, [])
      && p in back && back[p] == fs[p] && dest !in back
      && (forall q | q in fs && q != dest :: q in back && back[q] == fs[q])
  {
    AddStepOk(fs, home, store, p);
    var dest := AddDest(home, store, p);
    var m := Mkdirs(fs, Parent(dest));
    var added := MoveTree(m, p, dest)[p := Link(dest)];
    MkdirsClosed(fs, Parent(dest));
    MoveAndLinkUndone(m, p, dest);
    assert Resolve(added, p) == dest && Resolve(added, dest) == dest;
    RemoveStepOfLinkedEntry(added, home, store, p, dest);
    RemoveStepOfLinkedEntry(added, home, store, dest, dest);
  }

  /**
   * remove followed by add of the restored home path gives back the original
   * tree exactly, provided the store entry is not itself a symlink and the
   * home side does not lie inside the store.
   */
  lemma RemoveThenAdd(fs: Tree, home: Path, store: Path, p: Path)
    requires TreeClosed(fs) && IsDir(fs, store)
    requires RemoveStep(fs, home, store, p).outcome == Returned(OK)
    requires !IsLink(fs, Resolve(fs, p))
    requires Under(Resolve(fs, p), store) && Resolve(fs, p) != store
    requires !Under(HomeSide(home, store, Resolve(fs, p)), store)
    ensures AddStep(RemoveStep(fs, home, store, p).fs, home, store, HomeSide(home, store, Resolve(fs, p)))
      == Step(Returned(OK), fs, [])
  {
    RemoveStepOk(fs, home, store, p);
    var r := Resolve(fs, p);
    var h := HomeSide(home, store, r);
    var removed := MoveTree(fs - {h}, r, h);
    UnlinkAndMoveUndone(fs, h, r);
    AddDestOfHomeSide(home, store, r);
    assert AddCheck(removed, home, store, h) == Pass;
    AddStepOfPassingPath(removed, home, store, h);
  }

  // fold over add or remove

  /** One application of add or remove. */
  function Run(op: Op, fs: Tree, home: Path, store: Path, p: Path): Step
  {
    if op.AddOp? then AddStep(fs, home, store, p) else RemoveStep(fs, home, store, p)
  }

  /** Add or remove as the function value `fold` is given: one call on a tree and a path. */
  function Runner(op: Op, home: Path, store: Path): (Tree, Path) -> Step
  {
    (fs: Tree, p: Path) => Run(op, fs, home, store, p)
  }

  /**
   * `fold(dotfiles_home, paths, op)`: apply `run` to each path in turn,
   * or-ing the statuses, until an exception escapes.
   */
  function RunAll(run: (Tree, Path) -> Step, fs: Tree, paths: seq<Path>): Step
    decreases |paths|, 1
  {
    if paths == [] then Step(Returned(OK), fs, []) else RunLast(run, fs, paths)
  }

  /** The fold over non-empty `paths`: the fold over all but the last path, then the last one. */
  function RunLast(run: (Tree, Path) -> Step, fs: Tree, paths: seq<Path>): Step
    requires paths != []
    decreases |paths|, 0
  {
    var before := RunAll(run, fs, paths[..|paths| - 1]);
    if before.outcome.Raised? then before
    else Then(before, run(before.fs, paths[|paths| - 1]))
  }

  /** `last` runs after `before` returned: the statuses are or-ed, unless `last` raised. */
  function Then(before: Step, last: Step): Step
    requires before.outcome.Returned?
  {
    var outcome := if last.outcome.Raised? then Raised else Returned(before.outcome.status.Or(last.outcome.status));
    Step(outcome, last.fs, before.msgs + last.msgs)
  }

  /** The fold over a single path is the one application. */
  lemma RunAllOne(run: (Tree, Path) -> Step, fs: Tree, p: Path)
    ensures RunAll(run, fs, [p]) == run(fs, p)
  {
    assert [p][..0] == [];
    var last := run(fs, p);
    assert RunAll(run, fs, []) == Step(Returned(OK), fs, []);
    assert RunLast(run, fs, [p]) == Then(Step(Returned(OK), fs, []), last);
    assert [] + last.msgs == last.msgs;
  }

  /**
   * The fold over one more path, from the fold so far and the fold over
   * that path alone: whatever the earlier calls returned, ERR included, the
   * next path is still processed, unless an exception escaped.
   */
  lemma RunAllStep(run: (Tree, Path) -> Step, fs: Tree, paths: seq<Path>, i: nat,
                   status: Status, mid: Tree, msgs: seq<Message>, last: Step)
    requires i < |paths| && RunAll(run, fs, paths[..i]) == Step(Returned(status), mid, msgs)
    requires RunAll(run, mid, [paths[i]]) == last
    ensures last.outcome.Raised? ==>
      RunAll(run, fs, paths) == Step(Raised, last.fs, msgs + last.msgs)
    ensures last.outcome.Returned? ==>
      RunAll(run, fs, paths[..i + 1]) == Step(Returned(status.Or(last.outcome.status)), last.fs, msgs + last.msgs)
  {
    RunAllOne(run, mid, paths[i]);
    assert paths[..i + 1][..i] == paths[..i];
    if last.outcome.Raised? {
      RunAllStopsOnRaise(run, fs, paths, i + 1);
    }
  }

  /** One add or remove returns OK exactly when it reports nothing, and reports at most one message. */
  lemma RunReportsFailure(op: Op, fs: Tree, home: Path, store: Path, p: Path)
    requires Run(op, fs, home, store, p).outcome.Returned?
    ensures Run(op, fs, home, store, p).outcome.status == OK <==> Run(op, fs, home, store, p).msgs == []
    ensures |Run(op, fs, home, store, p).msgs| <= 1
  {
    if op.AddOp? {
      AddRefusal(fs, home, store, p);
    } else {
      RemoveRefusal(fs, home, store, p);
    }
  }

  /** Each call of `run` that returns reports a message exactly when it fails, and at most one. */
  ghost predicate ReportsOnce(run: (Tree, Path) -> Step) {
    forall fs, p | run(fs, p).outcome.Returned? ::
      (run(fs, p).outcome.status == OK <==> run(fs, p).msgs == []) && |run(fs, p).msgs| <= 1
  }

  /** Add and remove, as `fold` is given them, report once per failure. */
  lemma RunnerReportsOnce(op: Op, home: Path, store: Path)
    ensures ReportsOnce(Runner(op, home, store))
  {
    forall fs, p | Runner(op, home, store)(fs, p).outcome.Returned?
      ensures var call := Runner(op, home, store)(fs, p);
        (call.outcome.status == OK <==> call.msgs == []) && |call.msgs| <= 1
    {
      RunReportsFailure(op, fs, home, store, p);
    }
  }

  /**
   * The status of each call the fold makes, in order: call `j` runs on the
   * tree the first `j` calls left behind. A call that raised counts as ERR.
   */
  function Statuses(run: (Tree, Path) -> Step, fs: Tree, paths: seq<Path>): (s: seq<Status>)
    ensures |s| == |paths|
  {
    seq(|paths|, j requires 0 <= j < |paths| =>
      var call := run(RunAll(run, fs, paths[..j]).fs, paths[j]);
      if call.outcome.Returned? then call.outcome.status else ERR)
  }

  /** The statuses of a fold over all but the last path are the first ones of the whole fold. */
  lemma StatusesInit(run: (Tree, Path) -> Step, fs: Tree, paths: seq<Path>)
    requires paths != []
    ensures var n := |paths|; Statuses(run, fs, paths[..n - 1]) == Statuses(run, fs, paths)[..n - 1]
  {
    var n := |paths|;
    var init := paths[..n - 1];
    forall j | 0 <= j < n - 1
      ensures Statuses(run, fs, init)[j] == Statuses(run, fs, paths)[j]
    {
      assert init[..j] == paths[..j];
    }
  }

  /**
   * A fold that returns gives the or of the statuses of all its calls, so
   * it is OK exactly when every call returned OK.
   */
  lemma {:induction false} RunAllIsOrAll(run: (Tree, Path) -> Step, fs: Tree, paths: seq<Path>)
    requires RunAll(run, fs, paths).outcome.Returned?
    ensures RunAll(run, fs, paths).outcome == Returned(OrAll(Statuses(run, fs, paths)))
    ensures RunAll(run, fs, paths).outcome.status == OK <==>
      forall j | 0 <= j < |paths| :: Statuses(run, fs, paths)[j] == OK
    decreases |paths|
  {
    if paths != [] {
      var n := |paths|;
      var init := paths[..n - 1];
      var before := RunAll(run, fs, init);
      var last := run(before.fs, paths[n - 1]);
      assert RunAll(run, fs, paths) == RunLast(run, fs, paths);
      assert before.outcome.Returned? && last.outcome.Returned?;
      RunAllIsOrAll(run, fs, init);
      StatusesInit(run, fs, paths);
    }
    OrAllIsOkIff(Statuses(run, fs, paths));
  }

  /**
   * A fold over calls that report once per failure, such as add and remove,
   * returns OK exactly when it reports nothing, and when it returns it has
   * reported one message for each call that returned ERR.
   */
  lemma {:induction false} RunAllReportsFailures(run: (Tree, Path) -> Step, fs: Tree, paths: seq<Path>)
    requires ReportsOnce(run) && RunAll(run, fs, paths).outcome.Returned?
    ensures RunAll(run, fs, paths).outcome.status == OK <==> RunAll(run, fs, paths).msgs == []
    ensures |RunAll(run, fs, paths).msgs| == Failures(Statuses(run, fs, paths))
    decreases |paths|
  {
    if paths != [] {
      var n := |paths|;
      var init := paths[..n - 1];
      var before := RunAll(run, fs, init);
      var last := run(before.fs, paths[n - 1]);
      assert RunAll(run, fs, paths) == RunLast(run, fs, paths);
      RunAllReportsFailures(run, fs, init);
      assert (last.outcome.status == OK <==> last.msgs == []) && |last.msgs| <= 1;
      StatusesInit(run, fs, paths);
    }
  }

  /** Once an exception has escaped, `fold` applies `op` to none of the remaining paths. */
  lemma {:induction false} RunAllStopsOnRaise(run: (Tree, Path) -> Step, fs: Tree, paths: seq<Path>, i: nat)
    requires i <= |paths| && RunAll(run, fs, paths[..i]).outcome.Raised?
    ensures RunAll(run, fs, paths) == RunAll(run, fs, paths[..i])
    decreases |paths|
  {
    if i == |paths| {
      assert paths[..i] == paths;
    } else {
      var init := paths[..|paths| - 1];
      assert init[..i] == paths[..i];
      RunAllStopsOnRaise(run, fs, init, i);
    }
  }
}
