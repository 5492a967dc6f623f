/**
  Windows paths as the installer compares them (FileSystemUtilities.cs). A path is its list of
  components, the drive first; names are already in one case, because every comparison in the
  source is OrdinalIgnoreCase.
 */
module Paths {

  type Path = seq<string>

  const SEPARATOR: char := '\\'

  /** A component: not empty and free of separators, as Path.GetFullPath leaves it. */
  predicate IsName(s: string) {
    s != "" && SEPARATOR !in s
  }

  predicate IsPath(p: Path) {
    0 < |p| && forall i | 0 <= i < |p| :: IsName(p[i])
  }

  function Join(p: Path): string
    requires 0 < |p|
  {
    if |p| == 1 then p[0] else Join(p[..|p| - 1]) + [SEPARATOR] + p[|p| - 1]
  }

  /** NormalizePath's spelling: the trailing separator is dropped except on a drive root. */
  function Render(p: Path): string
    requires 0 < |p|
  {
    if |p| == 1 then p[0] + [SEPARATOR] else Join(p)
  }

  predicate PathContains(container: Path, candidate: Path)
    requires 0 < |container| && 0 < |candidate|
  {
    Render(candidate) == Render(container) || Render(container) + [SEPARATOR] <= Render(candidate)
  }

  predicate PathsOverlap(left: Path, right: Path)
    requires 0 < |left| && 0 < |right|
  {
    PathContains(left, right) || PathContains(right, left)
  }

  /** Neither location is the other nor lies inside it, in terms of the tree itself. */
  predicate Disjoint(p: Path, q: Path) {
    !(p <= q) && !(q <= p)
  }

  // The text after the first component, empty or beginning with a separator.
  function Rest(p: Path): string
    requires 0 < |p|
  {
    if |p| == 1 then "" else [SEPARATOR] + Join(p[1..])
  }

  lemma {:induction false} JoinIsHeadThenRest(p: Path)
    requires 0 < |p|
    ensures Join(p) == p[0] + Rest(p)
  {
    if |p| == 1 {
    } else {
      var front := p[..|p| - 1];
      JoinIsHeadThenRest(front);
      RestGrows(front, p[|p| - 1]);
      assert p == front + [p[|p| - 1]];
    }
  }

  lemma RestGrows(p: Path, last: string)
    requires 0 < |p|
    ensures Rest(p + [last]) == Rest(p) + [SEPARATOR] + last
  {
    var tail := (p + [last])[1..];
    assert tail[..|tail| - 1] == p[1..];
  }

  // Two texts that each start with a separator-free name and go on with nothing or a separator
  // agree on that name as soon as one is a prefix of the other up to a boundary.
  lemma NameBoundary(a: string, b: string, restA: string, restB: string)
    requires IsName(a) && IsName(b)
    requires restA == "" || restA[0] == SEPARATOR
    requires restB == "" || restB[0] == SEPARATOR
    requires a + restA + [SEPARATOR] <= b + restB || a + restA == b + restB
    ensures a == b
  {
    var left, right := a + restA, b + restB;
    assert left <= right by {
      assert left == (left + [SEPARATOR])[..|left|];
    }
    assert forall i | 0 <= i < |a| :: left[i] == a[i] && a[i] in a && left[i] != SEPARATOR;
    assert forall i | 0 <= i < |b| :: right[i] == b[i] && b[i] in b && right[i] != SEPARATOR;
    assert left != right ==> (left + [SEPARATOR])[|left|] == SEPARATOR == right[|left|];
    assert |a| < |left| ==> left[|a|] == SEPARATOR;
    assert |b| < |right| ==> right[|b|] == SEPARATOR;
    if |a| == |b| {
      assert left[..|a|] == a && right[..|a|] == b;
    }
  }

  lemma JoinOfTail(a: Path)
    requires 1 < |a|
    ensures Join(a) == a[0] + [SEPARATOR] + Join(a[1..])
  {
    JoinIsHeadThenRest(a);
  }

  // Paths with the same first component compare like the rest of them, as texts and as paths.
  lemma SameHead(a: Path, b: Path)
    requires 1 < |a| && 1 < |b| && a[0] == b[0]
    ensures Join(a) == Join(b) <==> Join(a[1..]) == Join(b[1..])
    ensures Join(a) + [SEPARATOR] <= Join(b) <==> Join(a[1..]) + [SEPARATOR] <= Join(b[1..])
    ensures a <= b <==> a[1..] <= b[1..]
    ensures a == b <==> a[1..] == b[1..]
  {
    var head := a[0] + [SEPARATOR];
    JoinOfTail(a);
    JoinOfTail(b);
    assert Join(a) + [SEPARATOR] == head + (Join(a[1..]) + [SEPARATOR]);
    SamePrefix(head, Join(a[1..]) + [SEPARATOR], Join(b[1..]));
    SamePrefix(head, Join(a[1..]), Join(b[1..]));
    assert a == [a[0]] + a[1..] && b == [b[0]] + b[1..];
    SamePrefix([a[0]], a[1..], b[1..]);
  }

  lemma DifferentHeads(a: Path, b: Path)
    requires IsPath(a) && IsPath(b) && a[0] != b[0]
    ensures Join(a) != Join(b) && !(Join(a) + [SEPARATOR] <= Join(b)) && !(a <= b)
  {
    JoinIsHeadThenRest(a);
    JoinIsHeadThenRest(b);
    if Join(a) == Join(b) || Join(a) + [SEPARATOR] <= Join(b) {
      NameBoundary(a[0], b[0], Rest(a), Rest(b));
    }
  }

  lemma {:induction false} JoinContainment(a: Path, b: Path)
    requires IsPath(a) && IsPath(b)
    ensures (Join(a) == Join(b) || Join(a) + [SEPARATOR] <= Join(b)) <==> a <= b
    ensures Join(a) == Join(b) <==> a == b
    decreases |a|
  {
    if a[0] != b[0] {
      DifferentHeads(a, b);
    } else if |a| > 1 && |b| > 1 {
      SameHead(a, b);
      JoinContainment(a[1..], b[1..]);
    } else if |b| > 1 {
      JoinOfTail(b);
    } else if |a| > 1 {
      JoinOfTail(a);
      assert |Join(a)| > |Join(b)|;
    }
  }

  lemma SamePrefix<T>(head: seq<T>, a: seq<T>, b: seq<T>)
    ensures head + a <= head + b <==> a <= b
    ensures head + a == head + b <==> a == b
  {
    assert (head + a)[|head|..] == a && (head + b)[|head|..] == b;
    if head + a <= head + b {
      assert a == (head + b)[..|head + a|][|head|..];
      assert a == b[..|a|];
    }
    if a <= b {
      assert b == a + b[|a|..];
      assert head + b == (head + a) + b[|a|..];
    }
  }

  /** A path below a drive: the drive, one separator, and a name. */
  lemma BelowDrive(p: Path)
    requires IsPath(p) && 1 < |p|
    ensures Render(p) == p[0] + Rest(p) && |Rest(p)| > 1 && Rest(p)[0] == SEPARATOR && Rest(p)[1] != SEPARATOR
  {
    JoinIsHeadThenRest(p);
    JoinIsHeadThenRest(p[1..]);
    assert p[1][0] in p[1];
  }

  lemma DriveContainsItself(container: Path, candidate: Path)
    requires IsPath(container) && IsPath(candidate) && |container| == 1 < |candidate|
    ensures !PathContains(container, candidate)
  {
    BelowDrive(candidate);
    var source, target := Render(container), Render(candidate);
    assert target[|candidate[0]| + 1] == Rest(candidate)[1];
    assert (source + [SEPARATOR])[|source|] == SEPARATOR;
    if source + [SEPARATOR] <= target || source == target {
      NameBoundary(container[0], candidate[0], [SEPARATOR], Rest(candidate));
      assert false;
    }
  }

  lemma DriveIsNotInside(container: Path, candidate: Path)
    requires IsPath(container) && IsPath(candidate) && |candidate| == 1 < |container|
    ensures !PathContains(container, candidate)
  {
    BelowDrive(container);
    var source, target := Render(container), Render(candidate);
    if source == target || source + [SEPARATOR] <= target {
      NameBoundary(container[0], candidate[0], Rest(container), [SEPARATOR]);
      assert false;
    }
  }

  /**
    The textual check means containment in the tree, so C:\Games2 is not inside C:\Games; but a
    drive root keeps its separator and is found to contain nothing except itself.
   */
  lemma PathContainsExactly(container: Path, candidate: Path)
    requires IsPath(container) && IsPath(candidate)
    ensures PathContains(container, candidate) <==>
            container == candidate || (1 < |container| && container <= candidate)
  {
    if |container| == 1 && |candidate| == 1 {
      SameDrive(container[0], candidate[0]);
    } else if |container| == 1 {
      DriveContainsItself(container, candidate);
    } else if |candidate| == 1 {
      DriveIsNotInside(container, candidate);
    } else {
      JoinContainment(container, candidate);
    }
  }

  lemma SameDrive(a: string, b: string)
    requires IsName(a) && IsName(b)
    ensures a + [SEPARATOR] == b + [SEPARATOR] <==> a == b
    ensures !(a + [SEPARATOR] + [SEPARATOR] <= b + [SEPARATOR])
  {
    if a + [SEPARATOR] + [SEPARATOR] <= b + [SEPARATOR] {
      NameBoundary(a, b, [SEPARATOR], [SEPARATOR]);
    }
    if a + [SEPARATOR] == b + [SEPARATOR] {
      NameBoundary(a, b, [SEPARATOR], [SEPARATOR]);
    }
  }

  /** A drive root with something on that drive: the one case where the textual test finds no overlap. */
  predicate DriveRootOf(container: Path, candidate: Path) {
    |container| == 1 && container < candidate
  }

  /** "The paths do not overlap" is disjointness of the trees, or one path is the other one's drive root. */
  lemma NoOverlapExactly(left: Path, right: Path)
    requires IsPath(left) && IsPath(right)
    ensures !PathsOverlap(left, right) <==>
            Disjoint(left, right) || DriveRootOf(left, right) || DriveRootOf(right, left)
  {
    PathContainsExactly(left, right);
    PathContainsExactly(right, left);
  }
}
