/** The error codes of path lookup, read off the tree. */
module LookupErrors {
  import opened Layout
  import opened Volume
  import opened Lookup
  import opened Creation

  /** Component j is the first one at which the walk of p stops. */
  predicate StopsAt(img: Image, p: Path, j: nat) {
    j < |p| && Walk(img, p[..j]).Some? && Walk(img, p[..j + 1]).None?
  }

  /** While the walk goes on, each component leads from directory to directory. */
  lemma StopsLater(img: Image, own: Owners, p: Path, i: nat, j: nat)
    requires WellFormed(img, own) && i < j && StopsAt(img, p, j)
    ensures |p[i]| <= NAME_MAX && Walk(img, p[..i]).Some? && Walk(img, p[..i + 1]).Some?
    ensures Child(img, Walk(img, p[..i]).value, p[i]) == Walk(img, p[..i + 1])
    ensures i + 1 < j ==> HasDir(img, Walk(img, p[..i + 1]).value)
  {
    var r := p[..j];
    assert r[..i] == p[..i] && r[..i + 1] == p[..i + 1] && r[i] == p[i];
    WalkThroughDirs(img, r, i);
    WalkNames(img, own, r);
    if i + 1 < j {
      WalkThroughDirs(img, r, i + 1);
    }
  }

  lemma {:induction false} ErrorFrom(img: Image, own: Owners, p: Path, i: nat, cur: nat, j: nat)
    requires WellFormed(img, own) && i <= j && StopsAt(img, p, j)
    requires Walk(img, p[..i]) == Some(cur) && HasDir(img, cur)
    ensures ResolveFrom(img, p, i, cur) == LookupError(img, p, j)
    decreases |p| - i
  {
    hide WellFormed, Walk, Child, HasDir;
    if i < j {
      StopsLater(img, own, p, i, j);
      var next := Walk(img, p[..i + 1]).value;
      if HasDir(img, next) {
        ErrorFrom(img, own, p, i + 1, next, j);
      }
    } else {
      StopsHere(img, p, j);
    }
  }

  lemma StopsHere(img: Image, p: Path, j: nat)
    requires StopsAt(img, p, j)
    ensures Child(img, Walk(img, p[..j]).value, p[j]) == None
  {
    assert Parent(p[..j + 1]) == p[..j] && Last(p[..j + 1]) == p[j];
  }

  /** The code path2inum gives when the walk stops at component j. */
  function LookupError(img: Image, p: Path, j: nat): int
    requires StopsAt(img, p, j)
  {
    StopCode(p, j, HasDir(img, Walk(img, p[..j]).value))
  }

  /** The code for stopping at component j of p, in a directory or at a file. */
  function StopCode(p: Path, j: nat, inDir: bool): int
    requires j < |p|
  {
    if !inDir then -ENOTDIR
    else if |p[j]| > NAME_MAX then (if j < |p| - 1 then -ENOTDIR else -ENOENT)
    else if |p| > 1 && j == |p| - 1 then -ENOTDIR
    else -ENOENT
  }

  /** The comment at fs5600.c:108-116 promises ENOTDIR when a component on the way is a file and
      ENOENT when one does not exist. The code answers so exactly when the missing name is not a
      short last name below the root, nor an over-long name on the way; in those two cases it
      answers ENOTDIR instead. */
  lemma LookupErrorExact(img: Image, own: Owners, p: Path, j: nat)
    requires WellFormed(img, own) && StopsAt(img, p, j)
    ensures Resolve(img, p) == LookupError(img, p, j)
    ensures var promised := if !HasDir(img, Walk(img, p[..j]).value) then -ENOTDIR else -ENOENT;
            Resolve(img, p) == promised <==>
              !HasDir(img, Walk(img, p[..j]).value)
              || (if j < |p| - 1 then |p[j]| <= NAME_MAX else |p| == 1 || |p[j]| > NAME_MAX)
  {
    assert p[..0] == [];
    RootExists(img, own);
    AbsWalk(img, own, []);
    ErrorFrom(img, own, p, 0, ROOT, j);
  }

  // ---------- The same code from the tree alone ----------

  /** How many components of p lead somewhere, when p does not. */
  ghost function StopOf(fs: Tree, p: Path): (j: nat)
    requires p != []
    ensures j < |p|
    decreases |p|
  {
    if |p| == 1 || Parent(p) in fs then |p| - 1 else StopOf(fs, Parent(p))
  }

  /** What path2inum answers for a path that is not in the tree. */
  ghost function MissCode(fs: Tree, p: Path): int
    requires p != []
  {
    var j := StopOf(fs, p);
    StopCode(p, j, p[..j] in fs && fs[p[..j]].Directory?)
  }

  /** The walk of a path stops where that of its parent does. */
  lemma StopsSooner(img: Image, p: Path, j: nat)
    requires p != [] && StopsAt(img, Parent(p), j)
    ensures StopsAt(img, p, j)
  {
    hide Walk;
    var q := Parent(p);
    assert p[..j] == q[..j] && p[..j + 1] == q[..j + 1];
  }

  lemma {:induction false} StopOfExact(img: Image, own: Owners, p: Path)
    requires WellFormed(img, own) && p != [] && p !in Abs(img)
    ensures StopsAt(img, p, StopOf(Abs(img), p))
    decreases |p|
  {
    hide WellFormed, Abs, Resolve, Child;
    RootExists(img, own);
    AbsWalk(img, own, p);
    AbsWalk(img, own, Parent(p));
    if |p| == 1 || Parent(p) in Abs(img) {
      assert p[..|p| - 1] == Parent(p) && p[..|p| - 1 + 1] == p;
    } else {
      StopOfExact(img, own, Parent(p));
      StopsSooner(img, p, StopOf(Abs(img), Parent(p)));
    }
  }

  /** The code of a failed lookup, or 0. */
  ghost function PathCode(fs: Tree, p: Path): int {
    if p == [] || p in fs then 0 else MissCode(fs, p)
  }

  /** A path outside the tree fails with the code read off the tree. */
  lemma PathExact(img: Image, own: Owners, p: Path)
    requires WellFormed(img, own)
    ensures p in Abs(img) <==> PathCode(Abs(img), p) == 0
    ensures p !in Abs(img) ==> Resolve(img, p) == PathCode(Abs(img), p) && Resolve(img, p) in {-ENOENT, -ENOTDIR}
  {
    RootExists(img, own);
    if p !in Abs(img) {
      StopOfExact(img, own, p);
      var j := StopOf(Abs(img), p);
      LookupErrorExact(img, own, p, j);
      AbsWalk(img, own, p[..j]);
    }
  }
}
