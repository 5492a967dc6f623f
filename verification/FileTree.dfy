/**
  One volume of a hierarchical file system: every path that exists, with its node. Moving a path
  moves everything below it, so what a move leaves alone depends on where the paths lie.
 */
module FileTree {
  import opened Paths

  type Blob = seq<nat>  // file contents, never looked into

  datatype Node = Directory | File(content: Blob)

  datatype Kind = DirectoryKind | FileKind

  type Volume = map<Path, Node>

  /** What stands at a path: nothing, or a file or directory with everything below it. */
  datatype Tree = Nothing | Rooted(kind: Kind, nodes: map<Path, Node>)

  /** Everything that exists lies in a directory that exists. */
  ghost predicate Closed(v: Volume) {
    forall k, n {:trigger k[..n]} | k in v && 0 < n < |k| :: k[..n] in v && v[k[..n]].Directory?
  }

  function Suffixes(v: Volume, p: Path): (s: set<Path>)
    ensures forall r :: r in s <==> p + r in v
  {
    var s := set k | k in v && p <= k :: k[|p|..];
    assert forall r | p + r in v :: p <= p + r && (p + r)[|p|..] == r;
    assert forall k | k in v && p <= k :: p + k[|p|..] == k;
    s
  }

  /** Everything at or below p, keyed relative to p. */
  function Nodes(v: Volume, p: Path): (t: map<Path, Node>)
    ensures forall r :: r in t <==> p + r in v
    ensures forall r | r in t :: t[r] == v[p + r]
  {
    map r | r in Suffixes(v, p) :: v[p + r]
  }

  function At(v: Volume, p: Path): Tree {
    if p in v then Rooted(KindOf(v[p]), Nodes(v, p)) else Nothing
  }

  function Without(v: Volume, p: Path): Volume {
    map k | k in v && !(p <= k) :: v[k]
  }

  function Graft(t: map<Path, Node>, p: Path): (v: Volume)
    ensures forall k :: k in v <==> p <= k && k[|p|..] in t
    ensures forall k | k in v :: v[k] == t[k[|p|..]]
  {
    var keys := set r | r in t :: p + r;
    assert forall k | p <= k && k[|p|..] in t :: k == p + k[|p|..];
    map k | k in keys :: t[k[|p|..]]
  }

  function KindOf(n: Node): Kind {
    if n.Directory? then DirectoryKind else FileKind
  }

  /** Directory.Exists or File.Exists. */
  predicate Exists(v: Volume, p: Path, kind: Kind) {
    p in v && KindOf(v[p]) == kind
  }

  predicate HasKind(t: Tree, kind: Kind) {
    t.Rooted? ==> t.kind == kind
  }

  /** Directory.CreateDirectory can make every directory above p: none of them is a file. */
  ghost predicate ParentsFree(v: Volume, p: Path) {
    forall n {:trigger p[..n]} | 0 < n < |p| && p[..n] in v :: v[p[..n]].Directory?
  }

  function MissingParents(v: Volume, p: Path): set<Path> {
    set n | 0 < n < |p| && p[..n] !in v :: p[..n]
  }

  function WithParents(v: Volume, p: Path): Volume {
    v + (map k | k in MissingParents(v, p) :: Directory)
  }

  /** Directory.Move and File.Move refuse a missing source, a drive's root and an occupied destination. */
  ghost predicate Movable(v: Volume, source: Path, target: Path, kind: Kind) {
    && Exists(v, source, kind) && 1 < |source|
    && target !in v
    && Disjoint(source, target)
    && ParentsFree(v, target)
  }

  /** A completed move: missing parents of the target appear, then the source is renamed. */
  function Moved(v: Volume, source: Path, target: Path): Volume {
    var ready := WithParents(v, target);
    Without(ready, source) + Graft(Nodes(ready, source), target)
  }

  /** What a delete of p may leave when it is interrupted: less of p, and nothing else touched. */
  ghost predicate PartlyDeleted(v: Volume, v': Volume, p: Path) {
    && Closed(v')
    && (forall k | k in v' :: k in v && v'[k] == v[k])
    && (forall k | k in v && k !in v' :: p <= k)
  }

  lemma SuffixPath(p: Path, q: Path, r: Path)
    requires q <= p + r
    ensures !Disjoint(p, q)
  {
    if |q| <= |p| {
      assert q == (p + r)[..|q|] == p[..|q|];
    } else {
      assert p == (p + r)[..|p|] == q[..|p|];
    }
  }

  lemma ParentsKeepTrees(v: Volume, target: Path, q: Path)
    requires 0 < |target| && !(q <= target && q != target)
    ensures Nodes(WithParents(v, target), q) == Nodes(v, q)
    ensures At(WithParents(v, target), q) == At(v, q)
  {
    var w := WithParents(v, target);
    forall r: Path {:trigger q + r}
      ensures q + r !in MissingParents(v, target)
    {
      assert q <= q + r;
    }
    SameNodes(w, q, v, q);
    assert q + [] == q;
    assert q in w <==> q in v;
  }

  lemma ParentsKeepClosed(v: Volume, target: Path)
    requires Closed(v) && ParentsFree(v, target)
    ensures Closed(WithParents(v, target))
    ensures forall n | 0 < n < |target| ::
      target[..n] in WithParents(v, target) && WithParents(v, target)[target[..n]].Directory?
  {
    var w := WithParents(v, target);
    forall k, n | k in w && 0 < n < |k|
      ensures k[..n] in w && w[k[..n]].Directory?
    {
      if k in MissingParents(v, target) {
        assert k[..n] == target[..n];
      }
    }
  }

  /** Where one path of a completed move comes from. */
  lemma MovedOrigin(v: Volume, source: Path, target: Path, k: Path)
    ensures var w, m := WithParents(v, target), Moved(v, source, target);
      if target <= k && source + k[|target|..] in w
      then k in m && m[k] == w[source + k[|target|..]]
      else (k in m <==> k in w && !(source <= k)) && (k in m ==> m[k] == w[k])
  {
  }

  lemma MoveEmptiesSource(v: Volume, source: Path, target: Path)
    requires 0 < |target| && Disjoint(source, target)
    ensures At(Moved(v, source, target), source) == Nothing
  {
    MovedOrigin(v, source, target, source);
  }

  lemma NothingBelow(v: Volume, target: Path, k: Path)
    requires Closed(v) && 0 < |target| && target !in v && target <= k
    ensures k !in WithParents(v, target)
  {
    if |target| < |k| {
      assert k[..|target|] == target;
    } else {
      assert k == target;
    }
    assert forall n | 0 < n < |target| :: |target[..n]| < |k|;
  }

  lemma SameNodes(v: Volume, p: Path, v': Volume, p': Path)
    requires forall r {:trigger p + r} :: p + r in v <==> p' + r in v'
    requires forall r {:trigger p + r} | p + r in v && p' + r in v' :: v[p + r] == v'[p' + r]
    ensures Nodes(v, p) == Nodes(v', p')
  {
    forall r
      ensures r in Nodes(v, p) <==> r in Nodes(v', p')
      ensures r in Nodes(v, p) ==> Nodes(v, p)[r] == Nodes(v', p')[r]
    {
      assert r in Nodes(v, p) <==> p + r in v;
    }
  }

  lemma MoveFillsTarget(v: Volume, source: Path, target: Path)
    requires Closed(v) && 0 < |target| && target !in v && source in v && Disjoint(source, target)
    ensures At(Moved(v, source, target), target) == At(v, source)
  {
    MovedNodesFillTarget(v, source, target);
    MovedRoot(v, source, target);
    ParentsKeepTrees(v, target, source);
  }

  lemma MovedRoot(v: Volume, source: Path, target: Path)
    requires source in v
    ensures target in Moved(v, source, target) && Moved(v, source, target)[target] == v[source]
  {
    assert target[|target|..] == [] && source + [] == source;
    MovedOrigin(v, source, target, target);
  }

  lemma MovedNodesFillTarget(v: Volume, source: Path, target: Path)
    requires Closed(v) && 0 < |target| && target !in v && Disjoint(source, target)
    ensures Nodes(Moved(v, source, target), target) == Nodes(WithParents(v, target), source)
  {
    var w, m := WithParents(v, target), Moved(v, source, target);
    forall r: Path {:trigger target + r}
      ensures target + r in m <==> source + r in w
      ensures target + r in m && source + r in w ==> m[target + r] == w[source + r]
    {
      assert (target + r)[|target|..] == r;
      NothingBelow(v, target, target + r);
      MovedOrigin(v, source, target, target + r);
    }
    SameNodes(m, target, w, source);
  }

  /** A move touches no path disjoint from both of its ends. */
  lemma MoveSpares(v: Volume, source: Path, target: Path, q: Path)
    requires 0 < |target| && Disjoint(q, source) && Disjoint(q, target)
    ensures At(Moved(v, source, target), q) == At(v, q)
  {
    MoveSparesNodes(v, source, target, q);
    MovedOrigin(v, source, target, q);
    ParentsKeepTrees(v, target, q);
  }

  lemma MoveSparesNodes(v: Volume, source: Path, target: Path, q: Path)
    requires 0 < |target| && Disjoint(q, source) && Disjoint(q, target)
    ensures Nodes(Moved(v, source, target), q) == Nodes(WithParents(v, target), q)
  {
    var w, m := WithParents(v, target), Moved(v, source, target);
    forall r: Path {:trigger q + r}
      ensures q + r in m <==> q + r in w
      ensures q + r in m && q + r in w ==> m[q + r] == w[q + r]
    {
      MovedOrigin(v, source, target, q + r);
      if source <= q + r {
        SuffixPath(q, source, r);
      } else if target <= q + r {
        SuffixPath(q, target, r);
      }
    }
    SameNodes(m, q, w, q);
  }

  // The directory above a path that a move brought to the target was brought along, or was there.
  lemma GraftedParent(w: Volume, source: Path, target: Path, k: Path, n: nat)
    requires Closed(w) && 0 < |source| && Disjoint(source, target)
    requires target <= k && source + k[|target|..] in w && 0 < n < |k|
    requires forall i | 0 < i < |target| :: target[..i] in w && w[target[..i]].Directory?
    ensures if n < |target| then !(source <= k[..n]) && k[..n] in w && w[k[..n]].Directory?
            else target <= k[..n] && source + k[..n][|target|..] in w
                 && w[source + k[..n][|target|..]].Directory?
  {
    var r := k[|target|..];
    if n < |target| {
      assert k[..n] == target[..n];
    } else {
      assert k[..n][|target|..] == r[..n - |target|];
      assert (source + r)[..|source| + n - |target|] == source + r[..n - |target|];
    }
  }

  lemma MoveKeepsClosed(v: Volume, source: Path, target: Path)
    requires Closed(v) && 0 < |source| && 0 < |target|
    requires Disjoint(source, target) && target !in v && ParentsFree(v, target)
    ensures Closed(Moved(v, source, target))
  {
    var w, m := WithParents(v, target), Moved(v, source, target);
    ParentsKeepClosed(v, target);
    forall k, n | k in m && 0 < n < |k|
      ensures k[..n] in m && m[k[..n]].Directory?
    {
      MovedOrigin(v, source, target, k);
      MovedOrigin(v, source, target, k[..n]);
      if target <= k && source + k[|target|..] in w {
        GraftedParent(w, source, target, k, n);
      } else if target <= k {
        NothingBelow(v, target, k);
        assert false;
      }
    }
  }

  lemma DeleteSpares(v: Volume, v': Volume, p: Path, q: Path)
    requires PartlyDeleted(v, v', p) && Disjoint(p, q)
    ensures At(v', q) == At(v, q)
  {
    forall r: Path {:trigger q + r}
      ensures q + r in v' <==> q + r in v
    {
      if p <= q + r {
        SuffixPath(q, p, r);
      }
    }
    SameNodes(v', q, v, q);
    assert q + [] == q;
  }

  /** The way to a path stays open as long as nothing is put above it. */
  lemma MoveKeepsParentsFree(v: Volume, source: Path, target: Path, q: Path)
    requires 0 < |target| && Disjoint(q, target) && ParentsFree(v, q)
    ensures ParentsFree(WithParents(v, target), q)
    ensures ParentsFree(Moved(v, source, target), q)
  {
    forall n | 0 < n < |q| && q[..n] in Moved(v, source, target)
      ensures Moved(v, source, target)[q[..n]].Directory?
    {
      MovedOrigin(v, source, target, q[..n]);
    }
  }
}
