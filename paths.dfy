/**
 * Paths of the dotfile manager and the mapping between the two namespaces it
 * works with: the home directory, where a dotfile is named `.foo/bar`, and the
 * store (the dotfiles directory), where the same file is named `foo/bar`.
 *
 * The source does this arithmetic on strings: it prints a relative path,
 * drops or prepends one character, and joins the result back onto a
 * directory. Here it is done on the sequence of names, and the lemmas at the
 * end of the module show that the two agree.
 */
module Paths {

  type Name = string

  /** An absolute, normalised path: the names from the root down. */
  type Path = seq<Name>

  /** pathlib's `p.is_relative_to(root)`: `root` is a prefix of `p`, name by name. */
  predicate Under(p: Path, root: Path) {
    root <= p
  }

  /** pathlib's `p.relative_to(root)`. */
  function RelativeTo(p: Path, root: Path): (rel: Path)
    requires Under(p, root)
    ensures root + rel == p
  {
    p[|root|..]
  }

  /** pathlib's `p.parent`; the root is its own parent. */
  function Parent(p: Path): Path {
    if p == [] then [] else p[..|p| - 1]
  }

  /** Two paths that lie under a common path are one under the other. */
  lemma PrefixesOfOnePath(a: Path, b: Path, t: Path)
    ensures Under(t, a) && Under(t, b) ==> Under(a, b) || Under(b, a)
  {
    if Under(t, a) && Under(t, b) {
      if |a| <= |b| {
        assert a == t[..|a|] == b[..|a|];
      } else {
        assert b == t[..|b|] == a[..|b|];
      }
    }
  }

  /**
   * `str(rel).startswith('.')`. pathlib prints the empty relative path as
   * ".", so the empty path counts as dotted.
   */
  predicate IsDotted(rel: Path) {
    rel == [] || (rel[0] != "" && rel[0][0] == '.')
  }

  /**
   * The store-side name of a home-relative dotfile path, `str(rel)[1:]`:
   * the leading dot of the first name is dropped.
   */
  function StoreName(rel: Path): (r: Path)
    requires IsDotted(rel)
    ensures |r| == |rel| && (rel != [] ==> r[1..] == rel[1..])
  {
    if rel == [] then [] else [rel[0][1..]] + rel[1..]
  }

  /** The home-side name of a store-relative path, `'.' + str(rel)`. */
  function HomeName(rel: Path): (r: Path)
    requires rel != []
    ensures |r| == |rel| && r[1..] == rel[1..]
    ensures IsDotted(r) && r[0][1..] == rel[0]
  {
    ["." + rel[0]] + rel[1..]
  }

  /** Going into the store and back out gives the original home-relative path. */
  lemma HomeNameOfStoreName(rel: Path)
    requires rel != [] && IsDotted(rel)
    ensures HomeName(StoreName(rel)) == rel
  {
    assert "." + rel[0][1..] == rel[0];
  }

  /** Coming out of the store and back in gives the original store-relative path. */
  lemma StoreNameOfHomeName(rel: Path)
    requires rel != []
    ensures StoreName(HomeName(rel)) == rel
  {
  }

  /** Distinct store entries have distinct home-side names. */
  lemma HomeNameInjective(r1: Path, r2: Path)
    requires r1 != [] && r2 != []
    ensures HomeName(r1) == HomeName(r2) <==> r1 == r2
  {
    if HomeName(r1) == HomeName(r2) {
      StoreNameOfHomeName(r1);
      StoreNameOfHomeName(r2);
    }
  }

  // The string view used by the source.

  /** `str(p)` of a relative path with at least one name: the names joined by "/". */
  function Join(p: Path): string {
    if p == [] then "" else if |p| == 1 then p[0] else p[0] + "/" + Join(p[1..])
  }

  /** `str(rel)` of a relative path; pathlib prints the empty one as ".". */
  function Str(rel: Path): string {
    if rel == [] then "." else Join(rel)
  }

  /** `IsDotted` is the source's `startswith('.')` on the printed path. */
  lemma IsDottedIsStartsWith(rel: Path)
    requires rel == [] || rel[0] != ""
    ensures IsDotted(rel) <==> (Str(rel) != "" && Str(rel)[0] == '.')
  {
    if rel != [] && |rel| > 1 {
      assert Str(rel) == rel[0] + ("/" + Join(rel[1..]));
    }
  }

  /** `StoreName` is the source's slice `str(rel)[1:]`, read back as names. */
  lemma StoreNameIsSlice(rel: Path)
    requires IsDotted(rel)
    ensures Join(StoreName(rel)) == Str(rel)[1..]
  {
    if |rel| > 1 {
      var s := StoreName(rel);
      assert s[0] == rel[0][1..];
      assert Join(s) == rel[0][1..] + "/" + Join(rel[1..]);
      assert Str(rel) == rel[0] + ("/" + Join(rel[1..]));
      assert (rel[0] + ("/" + Join(rel[1..])))[1..] == rel[0][1..] + ("/" + Join(rel[1..]));
    }
  }

  /** `HomeName` is the source's `'.' + str(rel)`, read back as names. */
  lemma HomeNameIsPrefixed(rel: Path)
    requires rel != []
    ensures Join(HomeName(rel)) == "." + Str(rel)
  {
    if |rel| > 1 {
      var h := HomeName(rel);
      assert Join(h) == ("." + rel[0]) + "/" + Join(rel[1..]);
      assert Str(rel) == rel[0] + "/" + Join(rel[1..]);
    }
  }
}
