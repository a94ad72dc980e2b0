# dfm, modelled in Dafny

dfm is a small dotfile manager. It keeps dotfiles in a store directory
(`~/.dotfiles` by default) and leaves a symlink at each file's original
place in the home directory. It has four operations:

- `add` moves a home dotfile `~/.foo/bar` into the store as `foo/bar` and
  links it back.
- `remove` undoes an `add`. It takes either the home symlink or the store
  entry.
- `install` creates the home symlinks for every entry of the store.
- `uninstall` deletes exactly those symlinks.

Each operation runs a fixed sequence of guard checks. A failing check
writes `<path>: <message>` to the error stream, returns `ERR` and changes
nothing. `fold` applies an operation to many paths and ors the statuses
together.

The model keeps the source's shape:

- `paths.dfy` (`Paths`): paths as sequences of names, and the mapping
  between the two namespaces. The leading dot is dropped on the way into
  the store and put back on the way out. The module proves the round trips.
  It also proves that names agree with the source's string slicing.
- `outcomes.dfy` (`Outcomes`):
  - `Status` and its flag union;
  - `OrAll`, the accumulator of `fold`;
  - `Outcome`, which is a returned status or an escaped exception;
  - the messages `err` writes.
- `filesystem.dfy` (`FileSystem`): the filesystem as a finite map from
  paths to `File | Dir | Link` nodes. It defines the primitive changes the
  source makes: `mkdir(parents=True)`, `shutil.move`, `symlink_to` and
  `unlink`. Its lemmas say where every entry ends up and that the tree
  stays closed, meaning every entry sits in a directory.
- `operations.dfy` (`Operations`): `add` and `remove` as functions of the
  filesystem (`AddStep`, `RemoveStep`), giving the outcome, the new tree
  and the messages. It also has `RunAll`, the `fold`, which like the
  source takes the call it applies as a function value. Its lemmas cover:
  - the refusals;
  - the effects of a successful call;
  - the two round trips, add then remove and remove then add;
  - what `fold` reports.
- `installation.dfy` (`Installation`): what `install` and `uninstall` leave
  behind.
  - `Settled`: install has nothing left to do for a store entry. It is
    hidden (its name starts with a dot), or its home side is the right
    symlink, or both sides are directories whose entries are all settled
    (install recursed into it), or its home side is something else that
    exists (install reports it as in the way).
  - `Cleared`: uninstall has nothing left to do for a store entry. It is
    hidden, or its home side is not its symlink and, where the home side is
    a directory, the store side is one too and its entries are all cleared.
  - `Grows` and `Shrinks`: only links that install could have made are
    added or taken away.
  - Lemmas showing that one entry's result survives the work on its
    siblings, and that uninstall followed by install gives back a settled
    tree.
- `dfm.dfy` (`Dfm`): class `Dotfiles` holds the filesystem and the error
  log as fields. It has one method per function of the source:
  - `Add` and `Remove` run the checks and the mutations one at a time, and
    are proved equal to `AddStep` and `RemoveStep`.
  - `Install` and `Uninstall` recurse through `fold` over the entries of
    a directory.
  - `Fold`, `FoldInstall` and `FoldUninstall` are the `fold` loop, one
    per kind of operation.
  - `InstallAll` and `UninstallAll` are the `dfm install` and
    `dfm uninstall` commands.

The source's exceptions, from `iterdir`, `mkdir`, `shutil.move` and
`symlink_to`, are the outcome `Raised`. `fold` does not catch them, so a
raise ends the whole command. The home and store directories are the
fields `home` and `store`. `err`'s output is the field `log`.

Install is idempotent in this sense: `Install` leaves a settled entry
unchanged, and it leaves an entry it returns from settled when that
entry is apart. An entry is apart (`NoOverlap`) when no path at or below
it has its home side inside the store. The store's entries are apart
(`EntriesApart`) when each of them is. With the store at `~/.dotfiles`,
every entry is apart except one named `dotfiles`, whose home side is the
store itself (`EntriesApartInDefaultLayout`). When the store's entries
are apart, `dfm install` leaves the store untouched and, if it returns,
every entry settled, so a second `install` changes nothing. Also in that
case, a run of `uninstall` followed by a run of `install` that returns
gives back exactly the tree it started from, when every entry was settled
there (`UninstallThenInstall`). The
recursion of `install` and `uninstall` is measured by a ghost `bound`,
which is larger than the length of every directory path (`DirBound`
gives one for any tree).

## Model

| member | source | states |
|---|---|---|
| Paths.Under | dfm/dfm.py:92 | definition: `is_relative_to`, the path begins with all the names of the root, as at dfm/dfm.py:95 and 120 |
| Paths.Parent | dfm/dfm.py:108 | definition: pathlib's `parent`, the path less its last name; the root is its own parent |
| Paths.IsDotted | dfm/dfm.py:102 | definition: a relative path is hidden when its first name starts with a dot, or when it is empty and prints as "."; also dfm/dfm.py:141 and 161 |
| Paths.Join | dfm/dfm.py:100 | definition: `str()` of a relative path with at least one name, the names joined by "/" |
| Paths.Str | dfm/dfm.py:102 | definition: `str(relative_path)`, "." for the empty path and the joined names otherwise |
| Paths.StoreName | dfm/dfm.py:100 | definition: the store name of a dotted home-relative path drops the dot from its first name, `str(rel)[1:]` |
| Paths.HomeName | dfm/dfm.py:124 | definition: the home name of a store-relative path puts a dot before its first name, `'.' + str(rel)` |
| Paths.RelativeTo | dfm/dfm.py:99 | `relative_to`: the root followed by the relative path is the original path |
| Paths.HomeNameOfStoreName | dfm/dfm.py:99-100 | for a dotted home-relative path, putting the dot back on its store name gives the path again |
| Paths.StoreNameOfHomeName | dfm/dfm.py:123-124 | for a store-relative path, dropping the dot from its home name gives the path again |
| Paths.HomeNameInjective | dfm/dfm.py:138-139 | distinct store entries have distinct home names, and equal ones have equal names |
| Paths.IsDottedIsStartsWith | dfm/dfm.py:102 | the name-level dotted test is exactly `str(rel).startswith('.')` on the printed path |
| Paths.StoreNameIsSlice | dfm/dfm.py:100 | the store name, printed, is `str(rel)[1:]` |
| Paths.HomeNameIsPrefixed | dfm/dfm.py:124 | the home name, printed, is `'.' + str(rel)` |
| Outcomes.Status.Or | dfm/dfm.py:11-13 | the combined status has the bitwise or of the two flag values as its value |
| Outcomes.OrAll | dfm/dfm.py:78-79 | definition: the statuses or-ed together, starting from OK |
| Outcomes.OrAllIsOkIff | dfm/dfm.py:76-80 | the accumulated status is OK exactly when every combined status is OK |
| Outcomes.Reason.Text | dfm/dfm.py:87-151 | definition: the message each failing check passes to `err`, word for word |
| Outcomes.Message.Line | dfm/dfm.py:64-66 | definition: the line `err` prints, the path, a colon and the message |
| FileSystem.IsDir | dfm/dfm.py:147 | definition: `is_dir()` on the entry itself, without following a symlink; also dfm/dfm.py:168 |
| FileSystem.IsLink | dfm/dfm.py:126 | definition: `is_symlink()`, the entry is a symlink; also dfm/dfm.py:89, 144 and 164 |
| FileSystem.Children | dfm/dfm.py:148 | definition: the entries `iterdir()` lists, every entry one name below the directory |
| FileSystem.Exists | dfm/dfm.py:86-87 | definition: `exists()`, which follows a final symlink, so a dangling link does not exist |
| FileSystem.Resolve | dfm/dfm.py:115 | definition: `resolve()` at the last name, the target of a final symlink and the path itself otherwise |
| FileSystem.CanMkdirs | dfm/dfm.py:72 | definition: `mkdir(parents=True)` does not raise when no prefix of the path is taken by anything but a directory |
| FileSystem.Mkdirs | dfm/dfm.py:72 | definition: `mkdir(parents=True)` makes every missing prefix of the path a directory |
| FileSystem.MoveFails | dfm/dfm.py:109 | definition: when `shutil.move` raises: the source is missing, the destination's parent is not a directory, or a directory would move into itself or onto a taken name |
| FileSystem.MoveTree | dfm/dfm.py:109 | definition: `shutil.move` as a rename, every entry at or below the source now at the same place below the destination, replacing an entry at the destination |
| FileSystem.MkdirsClosed | dfm/dfm.py:69-73 | `mkdir(parents=True)` keeps the tree closed, makes the path a directory, keeps every entry, and adds only directories that are prefixes of the path |
| FileSystem.MoveTreeClosed | dfm/dfm.py:109 | a move onto a free name under a directory keeps the tree closed; the moved node is at the destination and nothing is left at the source |
| FileSystem.MoveTreeBack | dfm/dfm.py:133 | moving a subtree away and back restores the tree, less whatever sat at the destination |
| FileSystem.MoveAndLinkUndone | dfm/dfm.py:109-110 | after move and link, unlinking and moving back cannot fail and restore the tree, less whatever sat at the destination |
| FileSystem.UnlinkAndMoveUndone | dfm/dfm.py:132-133 | after unlink and move, moving back and relinking cannot fail and restore the tree exactly |
| Operations.AddDest | dfm/dfm.py:99-100 | definition: add's destination, the store followed by the store name of the path relative to home |
| Operations.HomeSide | dfm/dfm.py:123-124 | definition: the home side of a store entry, home followed by the home name of the path relative to the store, as remove, install and uninstall compute it (dfm/dfm.py:138-139, 158-159) |
| Operations.HomeSideOfAddDest | dfm/dfm.py:99-100 | add's store destination lies strictly inside the store, and its home side is the added path |
| Operations.AddDestOfHomeSide | dfm/dfm.py:123-124 | the home side of a store entry is a dotted home path whose add destination is that entry |
| Operations.HomeSideInjective | dfm/dfm.py:138-139 | two store entries share a home side exactly when they are equal |
| Operations.HomeSideBelow | dfm/dfm.py:138-139 | the home side of an entry inside store entry `b` lies strictly inside the home side of `b`, and is hidden exactly when `b` is |
| Operations.AddCheck | dfm/dfm.py:86-106 | definition: add's checks in the source's order, giving the first that fails, or a pass |
| Operations.AddStep | dfm/dfm.py:83-111 | definition: add as a function: a failed check gives ERR, the unchanged tree and one message; otherwise the parent directories are made, the path moved into the store and linked back, and each of those may raise |
| Operations.RemoveCheck | dfm/dfm.py:117-130 | definition: remove's checks in the source's order, giving the first that fails, or a pass |
| Operations.RemoveStep | dfm/dfm.py:114-134 | definition: remove as a function of the resolved path: a failed check gives ERR, the unchanged tree and one message; otherwise the home symlink is unlinked and the store entry moved to its place, which may raise |
| Operations.AddRefusal | dfm/dfm.py:86-106 | add returns ERR exactly when one of its checks fails, in the source's order; it then changes nothing and reports that check's message; otherwise it reports nothing |
| Operations.AddEffect | dfm/dfm.py:108-111 | a successful add passed every check: `p` is a dotted existing non-link outside the store and the destination is free. Afterwards the destination's parents are directories, `p`'s subtree sits at the destination, `p` is a symlink to it, other entries are unchanged, and the only new entries are the created parent directories |
| Operations.RemoveRefusal | dfm/dfm.py:117-130 | remove returns ERR exactly when one of its checks fails, in the source's order; it then changes nothing and reports that check's message |
| Operations.RemoveEffect | dfm/dfm.py:132-134 | a successful remove resolved to a store entry whose home side links to it; that entry's subtree now lies at the home side, nothing is left at or below the entry, other entries are unchanged |
| Operations.RemoveLinkOrTarget | dfm/dfm.py:115 | for a symlink whose target is not a symlink, remove of the link and remove of its target have the same outcome, the same tree and messages with the same reasons |
| Operations.AddThenRemove | dfm/dfm.py:108-134 | after a successful add, remove by the home path or by the store path returns OK and reports nothing. It leaves the tree from before the add, plus the parent directories add created and minus the destination: every original entry other than the destination holds its original node again |
| Operations.RemoveThenAdd | dfm/dfm.py:108-134 | after a successful remove of a non-link store entry whose home side lies outside the store, add of the home side returns OK and restores the tree exactly |
| Operations.Run | dfm/dfm.py:79 | definition: one call `op(dotfiles_home, path)` of add or remove on a tree |
| Operations.Runner | dfm/dfm.py:76 | definition: add or remove as the function value `op` that `fold` is given |
| Operations.RunAll | dfm/dfm.py:76-80 | definition: `fold` as a function over the call it applies, run on each path in turn on the tree the earlier calls left |
| Operations.RunLast | dfm/dfm.py:78-79 | definition: the fold over all paths but the last, then the last call on the tree it left, unless the fold raised |
| Operations.Then | dfm/dfm.py:79 | definition: one more call after a fold that returned: the statuses or-ed, the new tree, the messages appended; a raise ends the fold |
| Operations.RunAllOne | dfm/dfm.py:76-80 | the fold over one path is that one call |
| Operations.RunAllStep | dfm/dfm.py:76-80 | one more path: the fold ors one more status and appends its messages, or stops at a raise, which then ends the whole fold. Whatever the earlier calls returned, ERR included, the next path is still processed: a failure does not stop the paths after it |
| Operations.RunnerReportsOnce | dfm/dfm.py:83-134 | each add or remove call that returns reports a message exactly when it returns ERR, and at most one |
| Operations.RunAllIsOrAll | dfm/dfm.py:76-80 | a fold that returns gives the or of the statuses of all its calls, call `j` run on the tree the calls before it left; it is OK exactly when every call returned OK |
| Operations.RunAllReportsFailures | dfm/dfm.py:76-80 | a fold over calls that report once per failure, as add and remove do, that returns gives OK exactly when nothing was reported, and has reported exactly one message for each call that returned ERR |
| Operations.RunAllStopsOnRaise | dfm/dfm.py:76-80 | once an exception escapes, no later path is processed |
| Installation.ScopeOfChild | dfm/dfm.py:138-139 | the home side of an entry of a store directory lies within that directory's home side, or within the home directory for the store itself |
| Installation.HomeSidesApart | dfm/dfm.py:138-139 | distinct entries of one store directory have home sides with no path at or below both |
| Installation.InstallReportUnique | dfm/dfm.py:76-80 | for a returning fold of install over distinct entries, the log alone fixes how it splits among the calls, and so every call's status |
| Installation.LinkedAt | dfm/dfm.py:144 | definition: `is_symlink() and readlink() == path`, the home side is a symlink to the entry; also dfm/dfm.py:164 |
| Installation.NoOverlap | dfm/dfm.py:139 | definition: no store path at or below `root` has its home side inside the store |
| Installation.EntriesApart | dfm/dfm.py:139 | definition: every entry of the store directory is apart, each in the sense of `NoOverlap` |
| Installation.ApartInDefaultLayout | dfm/dfm.py:139 | with the store directly in the home directory under the name `n`, a store entry is apart exactly when its name is not `n` less its leading dot |
| Installation.EntriesApartInDefaultLayout | dfm/dfm.py:139 | with the store directly in the home directory under the name `n`, the store's entries are apart exactly when none of them is named `n` less its leading dot; with the store at `~/.dotfiles`, exactly when there is no entry `dotfiles` |
| Installation.HomeSideOfEntryDotted | dfm/dfm.py:139 | when the home side of a store entry is itself an entry of the store, that home side is hidden, since the store is then the home directory |
| Installation.GrowsOutsideStoreApart | dfm/dfm.py:153 | when install over the whole store only adds links and the store's entries are apart, every new link lies outside the store |
| Installation.GrowsKeepsStoreApart | dfm/dfm.py:153 | when install over the whole store only adds links and the store's entries are apart, the store's entries are unchanged |
| Installation.ShrinksKeepsStoreApart | dfm/dfm.py:165 | when uninstall over the whole store only removes links and the store's entries are apart, the store's entries are unchanged |
| Installation.DirBound | dfm/dfm.py:147-148 | every tree has a bound on the length of its directory paths, the measure of the recursion |
| Installation.GrowsKeepsStore | dfm/dfm.py:153 | when install below `root` only adds links and `root` is apart, the store's entries are unchanged |
| Installation.ShrinksKeepsStore | dfm/dfm.py:165 | when uninstall below `root` only removes links and `root` is apart, the store's entries are unchanged |
| Installation.SettledGrows | dfm/dfm.py:148 | a settled entry stays settled when entries are only added, none of them below it |
| Installation.ClearedShrinks | dfm/dfm.py:169 | a cleared entry stays cleared when non-directory entries are only taken away |
| Installation.InstallLink | dfm/dfm.py:150-154 | an entry whose home side does not exist is not settled, and the symlink install makes settles it while adding only that link |
| Installation.UninstallUnlink | dfm/dfm.py:164-166 | an entry whose home side is its symlink is not cleared, and unlinking it clears it |
| Installation.SettledDir | dfm/dfm.py:147-148 | a store directory whose home side is a directory is settled exactly when all its entries are; after install over them, when the directory is apart (`NoOverlap`), it is settled when they all are |
| Installation.ClearedDir | dfm/dfm.py:168-169 | a store directory whose home side is a directory is cleared exactly when all its entries are, before and after uninstall over them |
| Installation.InstallFoldStep | dfm/dfm.py:148 | one more install call inside the fold keeps the tree growing only by links; when every entry of the fold is apart (`PathsApart`), it keeps the entries already settled and, if it returns, its own entry is settled too |
| Installation.UninstallFoldStep | dfm/dfm.py:169 | one more uninstall call inside the fold keeps the tree shrinking only by links and keeps the entries already cleared; if it returns, its own entry is cleared too |
| Installation.SettledDown | dfm/dfm.py:146-148 | a settled store entry passes its state down: an entry inside it, not hidden, whose home-side ancestors on the way are directories, is settled too |
| Installation.RemovedComesBack | dfm/dfm.py:137-171 | from a settled tree whose store entries are apart (`EntriesApart`), every link uninstall took away is back, with the same target, after an install that leaves every entry settled |
| Installation.AddedWasThere | dfm/dfm.py:137-171 | from a settled tree whose store entries are apart (`EntriesApart`), every link install adds after uninstall was in the tree before uninstall, with the same target |
| Installation.UninstallThenInstall | dfm/dfm.py:137-171 | uninstall followed by install restores the tree: from a tree whose store entries are all settled, an uninstall run and then an install run that leaves every entry settled give back exactly the original tree, when the store's entries are apart (`EntriesApart`) |
| Dfm.Dotfiles.constructor | dfm/dfm.py:18 | the object starts from a closed tree in which the store is a directory, with an empty error log |
| Dfm.Dotfiles.Err | dfm/dfm.py:64-66 | `err` returns ERR and appends exactly one message to the log |
| Dfm.Dotfiles.EnsureDir | dfm/dfm.py:69-73 | succeeds exactly when the directory exists or can be made; makes the missing prefixes only when it did not exist |
| Dfm.Dotfiles.Move | dfm/dfm.py:109 | `shutil.move` returns true exactly when the source exists, the destination's parent is a directory and a directory source neither contains the destination nor meets a taken name. Then the source's subtree lies at the destination; otherwise nothing changes |
| Dfm.Dotfiles.Symlink | dfm/dfm.py:110 | `symlink_to` succeeds exactly when the name is free and its parent is a directory, and then adds only that link |
| Dfm.Dotfiles.Unlink | dfm/dfm.py:132 | `unlink` removes exactly the symlink |
| Dfm.Dotfiles.IterDir | dfm/dfm.py:148 | `iterdir` lists each entry of the directory exactly once |
| Dfm.Dotfiles.Add | dfm/dfm.py:83-111 | the step-by-step add has exactly the outcome, the tree and the messages of `AddStep`, and keeps the tree closed with the store a directory |
| Dfm.Dotfiles.Remove | dfm/dfm.py:114-134 | the step-by-step remove has exactly the outcome, the tree and the messages of `RemoveStep`, and keeps the tree closed with the store a directory |
| Dfm.Dotfiles.Restore | dfm/dfm.py:132-133 | the symlink is gone in every case; the store entry's subtree then lies at the link's place with OK, or the move raises and the tree stays unlinked |
| Dfm.Dotfiles.Install | dfm/dfm.py:137-154 | adds only links install could have made and reports only `already exists`, each for a path at or below the entry's home side, with OK exactly when nothing is reported. A settled entry is left alone; a dotted entry or a correct link gives OK and changes nothing; a directory home side for an entry that is not a directory raises in `iterdir` and changes nothing; an existing non-directory gives ERR and reports the home side; otherwise one link is created, OK exactly when the name is free and its parent a directory. When the entry is apart (`NoOverlap`), an entry it returns from is settled |
| Dfm.Dotfiles.Uninstall | dfm/dfm.py:157-171 | removes only links install could have made and never reports. A correct link is unlinked with OK; any other non-directory home side gives OK; a directory home side for an entry that is not a directory raises in `iterdir` and changes nothing; a cleared entry is left alone; when it returns, the entry is cleared and the status is OK |
| Dfm.Dotfiles.Apply | dfm/dfm.py:79 | one add or remove call is the fold over that path alone |
| Dfm.Dotfiles.Fold | dfm/dfm.py:76-80 | the loop over add or remove has exactly the outcome, tree and messages of `RunAll` applied to that operation |
| Dfm.Dotfiles.FoldInstall | dfm/dfm.py:76-80 | the loop over install returns the or of the statuses of all its calls, OK exactly when nothing was reported. It reports only `already exists`, for paths within the home side of its directory. Call `j` wrote the stretch of the log from `marks[j]` to `marks[j + 1]`, naming only paths at or below the home side of entry `j`, and returned ERR exactly when its stretch is non-empty; a call that raised wrote only below its own entry's home side. A returning fold went through every entry. It keeps growing only by links; with every entry settled nothing changes; when its entries are apart (`PathsApart`) and it returns, every entry is settled |
| Dfm.Dotfiles.FoldUninstall | dfm/dfm.py:76-80 | the loop over uninstall returns OK and reports nothing; it shrinks only by links; with every entry cleared nothing changes; when it returns every entry is cleared |
| Dfm.Dotfiles.InstallAll | dfm/dfm.py:19-23 | `dfm install` only adds links install could have made and reports only `already exists`, for paths in the home directory, with OK exactly when nothing is reported; when every entry is already settled it returns and changes nothing; when the store's entries are apart (`EntriesApart`), the store's own entries are untouched and a returning run leaves every entry settled |
| Dfm.Dotfiles.UninstallAll | dfm/dfm.py:19-23 | `dfm uninstall` removes only links install could have made and reports nothing; when every entry is already cleared it returns and changes nothing; a returning run gives OK and leaves every entry cleared; when the store's entries are apart (`EntriesApart`), the store's own entries are untouched |

## Left out

- `main`, `argparse`, the subcommand aliases and `sys.exit` are left out as command-line glue. The commands are `Fold` for `add`/`remove` over given paths, and `InstallAll`/`UninstallAll` over the store's entries.
- The environment (`DOTFILES_HOME`, `Path.home()`) is replaced by the object's `home` and `store` fields.
- `ensure_dir` on the store at startup is not modelled: the constructor requires the store to be a directory already.
- `err` appends to `log` instead of printing to standard error.
- Path resolution is modelled only at the last name. `exists()` and `resolve()` follow one final symlink. `ensure_dir` resolves its argument before `mkdir` (dfm/dfm.py:70-72): where the parent of add's destination is a dangling symlink, the source creates the link's target and the move then goes through the link, while `EnsureDir` fails on the taken name and `Add` returns `Raised`. Symlinks in the middle of a path, relative link targets, `expanduser`, and the difference between `absolute()` and `resolve()` are not modelled. Names are opaque, so `.` and `..` are not interpreted: a home entry `...` maps to a store name `..` that the model treats as an ordinary name.
- `is_dir()` is modelled on the entry itself, so a home-side symlink to a directory (other than the entry's own link) counts as a non-directory. There `Install` reports `already exists` and returns ERR, where the source's `is_dir()` follows the link and the source recurses into the store directory (dfm/dfm.py:147-148). `Uninstall` returns OK and changes nothing, where the source would recurse too.
- `install` and `uninstall` on a store entry that is not a directory, whose home side is a directory, raise in `iterdir` as the source does: `Install` and `Uninstall` then return `Raised` and change nothing. A store entry that is a symlink to a directory is not followed, so it raises there too, where the source's `iterdir` would list the link's target.
- `shutil.move` is modelled as renaming a subtree. Its cross-device copy fallback, permissions, metadata, and the creation of missing parents by `copytree` are left out.
- A move onto an existing directory never arises at the call sites, so the model does not cover it.
- There is no interruption between the steps of an operation and no concurrent invocation, because there is no concurrency model.
- `iterdir()` order: `IterDir` returns the entries in an unspecified order.
- `fold` takes the operation as a function value in the source, as `RunAll` does. The methods of `Dotfiles` have one loop per kind of operation, because a method cannot be passed as a value.
- Dfm.Dotfiles.Install: that an entry is settled after a returning call is proved only when the entry is apart (`NoOverlap`): no path at or below it has its home side in the store. Otherwise a link install creates can itself be a store entry. With the store at `~/.dotfiles`, this is the case of an entry `dotfiles`: the home side of `dotfiles/x` is `~/.dotfiles/x`.
- Dfm.Dotfiles.FoldInstall: that a returning fold leaves every entry settled is proved only when every entry of the fold is apart (`PathsApart`), for the same reason.
- Installation.InstallFoldStep: that the entries already settled stay settled is proved only when every entry of the fold is apart, because a later call could otherwise add a link inside an earlier entry.
- Dfm.Dotfiles.InstallAll: that the store is untouched and that a returning run leaves every entry settled are proved only when the store's entries are apart (`EntriesApart`). With the store at `~/.dotfiles`, that holds exactly when no entry is named `dotfiles` (`Installation.EntriesApartInDefaultLayout`).
- Dfm.Dotfiles.UninstallAll: that the store is untouched is proved only when the store's entries are apart, because otherwise the links uninstall removes may lie inside the store.
- Installation.RemovedComesBack: proved only when the store's entries are apart, because it relies on the store being untouched by both runs.
- Installation.AddedWasThere: proved only when the store's entries are apart, for the same reason.
- Installation.UninstallThenInstall: proved only when the store's entries are apart, for the same reason.
- Dfm.Dotfiles.Move: it requires a destination that is not a directory and differs from the source. `add` and `remove` call it only after checking that the destination is free.
