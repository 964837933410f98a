/** Names and paths of the directory tree, and the "lies under" order on paths. */
module Paths {
  import opened Codec

  const NO_EXT: Ext := [0, 0, 0]

  /** An entry is identified by its eight name bytes and its three extension bytes. */
  datatype Key = Key(name: Name, ext: Ext)

  datatype Path = Root | Child(parent: Path, key: Key)

  /** Is `q` the path `p` itself or a path below it? */
  predicate Under(p: Path, q: Path) {
    q == p || (q.Child? && Under(p, q.parent))
  }

  function Depth(p: Path): nat {
    if p.Root? then 0 else 1 + Depth(p.parent)
  }

  /** The child of `p` through which `q` is reached. */
  function Step(p: Path, q: Path): (s: Path)
    requires Under(p, q) && q != p
    ensures s.Child? && s.parent == p && Under(s, q)
  {
    if q.parent == p then q else Step(p, q.parent)
  }

  /** `q`, seen from `p`, carried over to `r`. */
  function Rebase(q: Path, p: Path, r: Path): (s: Path)
    requires Under(p, q)
    ensures Under(r, s)
    ensures Depth(s) + Depth(p) == Depth(q) + Depth(r)
  {
    if q == p then r else Child(Rebase(q.parent, p, r), q.key)
  }

  lemma {:induction false} UnderDepth(p: Path, q: Path)
    requires Under(p, q)
    ensures Depth(p) <= Depth(q)
    ensures q != p ==> Depth(p) < Depth(q)
  {
    if q != p {
      UnderDepth(p, q.parent);
    }
  }

  lemma {:induction false} UnderRoot(q: Path)
    ensures Under(Root, q)
  {
    if q.Child? {
      UnderRoot(q.parent);
    }
  }

  lemma {:induction false} UnderTransitive(p: Path, q: Path, r: Path)
    requires Under(p, q) && Under(q, r)
    ensures Under(p, r)
  {
    if r != q {
      UnderTransitive(p, q, r.parent);
    }
  }

  lemma {:induction false} UnderComparable(p: Path, q: Path, r: Path)
    requires Under(p, r) && Under(q, r)
    ensures Under(p, q) || Under(q, p)
  {
    if r != p && r != q {
      UnderComparable(p, q, r.parent);
    }
  }

  /** A path below `p` is reached through exactly one child of `p`. */
  lemma {:induction false} StepUnique(p: Path, k: Key, q: Path)
    requires Under(Child(p, k), q)
    ensures Under(p, q) && q != p && Step(p, q) == Child(p, k)
  {
    UnderDepth(Child(p, k), q);
    if q != Child(p, k) {
      StepUnique(p, k, q.parent);
    }
  }

  /** Paths that do not lie under each other share no path below them. */
  lemma ApartBelow(p: Path, q: Path, r: Path)
    requires !Under(p, q) && !Under(q, p) && Under(p, r)
    ensures !Under(q, r)
  {
    if Under(q, r) {
      UnderComparable(p, q, r);
    }
  }

  lemma {:induction false} RebaseBack(q: Path, p: Path, r: Path)
    requires Under(p, q)
    ensures Rebase(Rebase(q, p, r), r, p) == q
  {
    if q != p {
      UnderDepth(p, q);
      RebaseBack(q.parent, p, r);
    }
  }

  lemma {:induction false} RebaseStep(q: Path, p: Path, r: Path)
    requires Under(p, q) && q != p
    ensures Rebase(q, p, r) != r && Step(r, Rebase(q, p, r)) == Child(r, Step(p, q).key)
  {
    UnderDepth(p, q);
    if q.parent != p {
      RebaseStep(q.parent, p, r);
    }
  }

  /** Carrying over from `p` is carrying over from the child it is reached through. */
  lemma {:induction false} RebaseChild(q: Path, p: Path, k: Key, r: Path)
    requires Under(Child(p, k), q)
    ensures Under(p, q) && Rebase(q, p, r) == Rebase(q, Child(p, k), Child(r, k))
  {
    StepUnique(p, k, q);
    if q != Child(p, k) {
      RebaseChild(q.parent, p, k, r);
    }
  }
}
