/**
  How a path is stored in Config.toml and read back (RuntimeConfiguration.cs, PortableRoot.cs): relative to
  the configuration's directory inside a portable root, absolute otherwise. Paths are lists of
  components in one case, the drive first.
 */
module PortablePaths {
  import opened Paths
  import opened Wrappers

  const MAXIMUM_SEARCH_DEPTH := 4

  predicate IsDrive(s: string) {
    |s| == 2 && ('a' <= s[0] <= 'z' || 'A' <= s[0] <= 'Z') && s[1] == ':'
  }

  predicate IsFileName(s: string) {
    IsName(s) && '/' !in s && ':' !in s && s != "." && s != ".."
  }

  /** A full path on a drive, as Path.GetFullPath leaves it. */
  predicate IsFullPath(p: Path) {
    0 < |p| && IsDrive(p[0]) && forall i | 1 <= i < |p| :: IsFileName(p[i])
  }

  // ---------- from text to path ----------

  predicate IsSeparator(c: char) { c == SEPARATOR || c == '/' }

  /** The text cut at every separator. */
  function Parts(text: string): (parts: seq<string>)
    ensures |parts| > 0
  {
    if text == "" then [""]
    else if IsSeparator(text[0]) then [""] + Parts(text[1..])
    else
      var rest := Parts(text[1..]);
      [[text[0]] + rest[0]] + rest[1..]
  }

  /** One step from a directory; the drive has no parent. */
  function Step(from: Path, part: string): Path {
    if part == "" || part == "." then from
    else if part == ".." then if |from| > 1 then from[..|from| - 1] else from
    else from + [part]
  }

  function Walk(from: Path, parts: seq<string>): Path
    decreases |parts|
  {
    if parts == [] then from else Walk(Step(from, parts[0]), parts[1..])
  }

  /** Path.GetFullPath with a base: a text may be absolute, relative to a drive's root, relative to a drive's
      directory, or relative. */
  function Resolve(base: Path, text: string): Path
    requires 0 < |base|
  {
    if |text| >= 3 && IsDrive(text[..2]) && IsSeparator(text[2]) then Walk([text[..2]], Parts(text[3..]))
    else if text != "" && IsSeparator(text[0]) then Walk([base[0]], Parts(text))
    else if |text| >= 2 && IsDrive(text[..2]) then
      Walk(if text[..2] == base[0] then base else [text[..2]], Parts(text[2..]))
    else Walk(base, Parts(text))
  }

  // ---------- from path to text ----------

  function Slashed(parts: seq<string>): string {
    if parts == [] then "" else if |parts| == 1 then parts[0] else parts[0] + "/" + Slashed(parts[1..])
  }

  function Up(n: nat): (parts: seq<string>)
    ensures |parts| == n && forall i | 0 <= i < n :: parts[i] == ".."
  {
    seq(n, _ => "..")
  }

  function CommonLength(p: Path, q: Path): (n: nat)
    ensures n <= |p| && n <= |q| && p[..n] == q[..n]
    ensures n < |p| && n < |q| ==> p[n] != q[n]
  {
    if p == [] || q == [] || p[0] != q[0] then 0
    else
      var n := CommonLength(p[1..], q[1..]);
      assert p[..n + 1] == [p[0]] + p[1..][..n] && q[..n + 1] == [q[0]] + q[1..][..n];
      n + 1
  }

  function RelativeParts(directory: Path, full: Path): seq<string> {
    var n := CommonLength(directory, full);
    if directory == full then ["."] else Up(|directory| - n) + full[n..]
  }

  /** What SetPath stores for a path: the portable root, if there is one, decides. */
  function FormatPathValue(directory: Path, root: Option<Path>, full: Path): string
    requires 0 < |directory| && 0 < |full| && (root.Some? ==> 0 < |root.value|)
  {
    if root.None? || !PathContains(root.value, full) || directory[0] != full[0] then Render(full)
    else Slashed(RelativeParts(directory, full))
  }

  /** PortableRoot.TryFind: the nearest marked directory, at most four levels up. */
  method TryFind(hasMarker: Path -> bool, start: Path) returns (root: Option<Path>)
    requires 0 < |start|
    ensures root.Some? ==>
              0 < |root.value| && root.value <= start && |start| - |root.value| <= 4 &&
              hasMarker(root.value)
    ensures forall n | 0 < n <= |start| && |start| - n <= 4 && hasMarker(start[..n]) ::
              root.Some? && n <= |root.value|
  {
    var current := start;
    assert start[..|start|] == start;
    for level := 0 to MAXIMUM_SEARCH_DEPTH + 1
      invariant 0 < |current| <= |start| && current == start[..|current|] && |start| - |current| == level
      invariant forall n | |current| < n <= |start| :: !hasMarker(start[..n])
    {
      if hasMarker(current) { return Some(current); }
      if |current| == 1 { break; }
      current := current[..|current| - 1];
    }
    return None;
  }

  // ---------- reading back ----------

  predicate Unseparated(part: string) { forall i | 0 <= i < |part| :: !IsSeparator(part[i]) }

  lemma {:induction false} PartsStep(name: string, separator: char, rest: string)
    requires Unseparated(name) && IsSeparator(separator)
    ensures Parts(name + [separator] + rest) == [name] + Parts(rest)
  {
    var text := name + [separator] + rest;
    if name == "" {
      assert text[1..] == rest;
    } else {
      PartsStep(name[1..], separator, rest);
      assert text[1..] == name[1..] + [separator] + rest;
      assert [name[0]] + name[1..] == name;
    }
  }

  lemma {:induction false} PartsOfOne(name: string)
    requires Unseparated(name)
    ensures Parts(name) == [name]
  {
    if name == "" {
    } else {
      PartsOfOne(name[1..]);
      assert [name[0]] + name[1..] == name;
    }
  }

  lemma {:induction false} PartsOfSlashed(parts: seq<string>)
    requires 0 < |parts| && forall i | 0 <= i < |parts| :: Unseparated(parts[i])
    ensures Parts(Slashed(parts)) == parts
  {
    if |parts| == 1 {
      PartsOfOne(parts[0]);
    } else {
      PartsOfSlashed(parts[1..]);
      PartsStep(parts[0], '/', Slashed(parts[1..]));
    }
  }

  lemma {:induction false} PartsOfJoin(names: Path)
    requires 0 < |names| && forall i | 0 <= i < |names| :: Unseparated(names[i])
    ensures Parts(Join(names)) == names
  {
    if |names| == 1 {
      PartsOfOne(names[0]);
    } else {
      PartsOfJoin(names[1..]);
      JoinOfTail(names);
      PartsStep(names[0], SEPARATOR, Join(names[1..]));
    }
  }

  lemma {:induction false} WalkDown(from: Path, names: seq<string>)
    requires forall i | 0 <= i < |names| :: IsFileName(names[i])
    ensures Walk(from, names) == from + names
    decreases |names|
  {
    if names == [] {
      assert from + names == from;
    } else {
      WalkDown(from + [names[0]], names[1..]);
      assert from + names == from + [names[0]] + names[1..];
    }
  }

  lemma {:induction false} WalkUp(from: Path, n: nat, rest: seq<string>)
    requires n < |from|
    ensures Walk(from, Up(n) + rest) == Walk(from[..|from| - n], rest)
    decreases n
  {
    var parts := Up(n) + rest;
    if n == 0 {
      assert parts == rest && from[..|from|] == from;
    } else {
      var parent := from[..|from| - 1];
      assert parts[1..] == Up(n - 1) + rest;
      WalkUp(parent, n - 1, rest);
      assert parent[..|parent| - (n - 1)] == from[..|from| - n];
    }
  }

  lemma {:induction false} SlashedText(parts: seq<string>)
    requires 0 < |parts| && parts[0] != "" && Unseparated(parts[0])
    requires forall i | 0 <= i < |parts| :: ':' !in parts[i]
    ensures ':' !in Slashed(parts) && Slashed(parts) != "" && !IsSeparator(Slashed(parts)[0])
    decreases |parts|
  {
    if |parts| > 1 {
      NoColon(parts[1..]);
    }
  }

  lemma {:induction false} NoColon(parts: seq<string>)
    requires forall i | 0 <= i < |parts| :: ':' !in parts[i]
    ensures ':' !in Slashed(parts)
  {
    if |parts| <= 1 {
    } else {
      NoColon(parts[1..]);
    }
  }

  /** A relative text is walked from the base. */
  lemma RelativeTextResolves(base: Path, parts: seq<string>)
    requires 0 < |base| && 0 < |parts|
    requires forall i | 0 <= i < |parts| :: parts[i] != "" && Unseparated(parts[i]) && ':' !in parts[i]
    ensures Resolve(base, Slashed(parts)) == Walk(base, parts)
  {
    var text := Slashed(parts);
    SlashedText(parts);
    PartsOfSlashed(parts);
    if |text| >= 2 {
      assert text[..2][1] == text[1] && text[1] in text;
    }
  }

  lemma AbsoluteTextResolves(base: Path, full: Path)
    requires 0 < |base| && IsFullPath(full)
    ensures Resolve(base, Render(full)) == full
  {
    var text := Render(full);
    if |full| == 1 {
      assert text[..2] == full[0] && text[3..] == "";
      assert Walk([full[0]], [""]) == Walk([full[0]], []);
    } else {
      JoinOfTail(full);
      assert text == full[0] + [SEPARATOR] + Join(full[1..]);
      assert text[..2] == full[0] && text[3..] == Join(full[1..]);
      PartsOfJoin(full[1..]);
      WalkDown([full[0]], full[1..]);
      assert full == [full[0]] + full[1..];
    }
  }

  lemma CommonAbove(above: Path, here: Path, there: Path)
    ensures CommonLength(above + here, above + there) >= |above|
  {
    var p, q := above + here, above + there;
    assert forall i | 0 <= i < |above| :: p[i] == above[i] && q[i] == above[i];
  }

  /** Up from one place below a directory and down to another. */
  lemma UpAndDown(from: Path, here: Path, there: Path, shared: nat)
    requires 0 < |from| && shared <= |here| && shared <= |there| && here[..shared] == there[..shared]
    requires forall i | 0 <= i < |there| :: IsFileName(there[i])
    ensures Walk(from + here, Up(|here| - shared) + there[shared..]) == from + there
  {
    var start, n := from + here, |here| - shared;
    WalkUp(start, n, there[shared..]);
    assert start[..|start| - n] == from + here[..shared];
    WalkDown(from + here[..shared], there[shared..]);
    assert from + here[..shared] + there[shared..] == from + there;
  }

  lemma RelativePartsAbove(above: Path, here: Path, there: Path)
    requires here != there
    ensures var shared := CommonLength(above + here, above + there) - |above|;
            && 0 <= shared <= |here| && shared <= |there| && here[..shared] == there[..shared]
            && (shared < |here| || shared < |there|)
            && RelativeParts(above + here, above + there) == Up(|here| - shared) + there[shared..]
  {
    var directory, full := above + here, above + there;
    CommonAbove(above, here, there);
    var n := CommonLength(directory, full);
    var shared := n - |above|;
    assert here[..shared] == directory[..n][|above|..] && there[..shared] == full[..n][|above|..];
    assert directory[|above|..] == here && full[|above|..] == there;
    assert full[n..] == there[shared..];
    assert here[..|here|] == here && there[..|there|] == there;
  }

  lemma PartsArePlain(parts: seq<string>, n: nat, names: Path)
    requires parts == Up(n) + names && forall i | 0 <= i < |names| :: IsFileName(names[i])
    ensures forall i | 0 <= i < |parts| :: parts[i] != "" && Unseparated(parts[i]) && ':' !in parts[i]
  {
    forall i | 0 <= i < |parts|
      ensures parts[i] != "" && Unseparated(parts[i]) && ':' !in parts[i]
    {
      if n <= i {
        assert parts[i] == names[i - n];
      } else {
        assert parts[i] == "..";
      }
    }
  }

  lemma UpAndDownText(from: Path, here: Path, there: Path, shared: nat)
    requires 0 < |from| && shared <= |here| && shared <= |there| && here[..shared] == there[..shared]
    requires shared < |here| || shared < |there|
    requires forall i | 0 <= i < |there| :: IsFileName(there[i])
    ensures Resolve(from + here, Slashed(Up(|here| - shared) + there[shared..])) == from + there
  {
    var parts := Up(|here| - shared) + there[shared..];
    PartsArePlain(parts, |here| - shared, there[shared..]);
    RelativeTextResolves(from + here, parts);
    UpAndDown(from, here, there, shared);
  }

  lemma DotText(from: Path)
    requires 0 < |from|
    ensures Resolve(from, Slashed(["."])) == from
  {
    RelativeTextResolves(from, ["."]);
    assert Walk(from, ["."]) == Walk(Step(from, "."), []);
  }

  /** The relative parts lead from the directory to the path, wherever the tree they share stands. */
  lemma RelativePartsLead(above: Path, here: Path, there: Path, elsewhere: Path)
    requires 0 < |above| && 0 < |elsewhere| && forall i | 0 <= i < |there| :: IsFileName(there[i])
    ensures Resolve(elsewhere + here, Slashed(RelativeParts(above + here, above + there))) == elsewhere + there
  {
    if here == there {
      DotText(elsewhere + here);
    } else {
      RelativePartsAbove(above, here, there);
      UpAndDownText(elsewhere, here, there, CommonLength(above + here, above + there) - |above|);
    }
  }

  lemma NamesBelow(above: Path, there: Path)
    requires IsFullPath(above + there) && 0 < |above|
    ensures forall i | 0 <= i < |there| :: IsFileName(there[i])
  {
    assert forall i | 0 <= i < |there| :: (above + there)[|above| + i] == there[i];
  }

  /** Whatever way a path was stored, the runtime resolves it to the same path. */
  lemma StoredPathResolves(directory: Path, root: Option<Path>, full: Path)
    requires IsFullPath(directory) && IsFullPath(full) && (root.Some? ==> 0 < |root.value|)
    ensures Resolve(directory, FormatPathValue(directory, root, full)) == full
  {
    if root.None? || !PathContains(root.value, full) || directory[0] != full[0] {
      AbsoluteTextResolves(directory, full);
    } else {
      var drive := [full[0]];
      assert directory == drive + directory[1..] && full == drive + full[1..];
      NamesBelow(drive, full[1..]);
      RelativePartsLead(drive, directory[1..], full[1..], drive);
    }
  }

  /** Moving or renaming a portable root moves the stored path with it exactly when the textual containment
      check placed the path inside the root: for everything under a root that is not a drive's own. */
  lemma PortableTreeMoves(root: Path, here: Path, there: Path, moved: Path)
    requires IsFullPath(root + here) && IsFullPath(root + there) && IsFullPath(root) && 0 < |moved|
    ensures var text := FormatPathValue(root + here, Some(root), root + there);
            Resolve(moved + here, text) == (if 1 < |root| || there == [] then moved + there else root + there)
  {
    var full := root + there;
    assert IsPath(root) && IsPath(full);
    PathContainsExactly(root, full);
    assert root <= full;
    assert root == full <==> there == [] by {
      assert full[|root|..] == there;
    }
    if 1 < |root| || there == [] {
      NamesBelow(root, there);
      RelativePartsLead(root, here, there, moved);
    } else {
      AbsoluteTextResolves(moved + here, full);
    }
  }

  // ---------- texts that were not stored by the program ----------

  /** The directory n levels up, or the drive. */
  function Climbed(from: Path, n: nat): Path
    requires 0 < |from|
  {
    if n < |from| then from[..|from| - n] else from[..1]
  }

  lemma {:induction false} WalkUpToDrive(from: Path, n: nat, rest: seq<string>)
    requires 0 < |from|
    ensures Walk(from, Up(n) + rest) == Walk(Climbed(from, n), rest)
    decreases n
  {
    var parts := Up(n) + rest;
    if n < |from| {
      WalkUp(from, n, rest);
    } else {
      assert parts[0] == ".." && parts[1..] == Up(n - 1) + rest;
      WalkUpToDrive(Step(from, ".."), n - 1, rest);
      assert Climbed(Step(from, ".."), n - 1) == Climbed(from, n);
    }
  }

  lemma PartsLead(from: Path, n: nat, names: Path, parts: seq<string>)
    requires 0 < |from| && parts == Up(n) + names && forall i | 0 <= i < |names| :: IsFileName(names[i])
    ensures Walk(from, parts) == Climbed(from, n) + names
  {
    WalkUpToDrive(from, n, names);
    WalkDown(Climbed(from, n), names);
  }

  lemma RootedTextResolves(base: Path, parts: seq<string>)
    requires 0 < |base| && 0 < |parts|
    requires forall i | 0 <= i < |parts| :: parts[i] != "" && Unseparated(parts[i]) && ':' !in parts[i]
    ensures Resolve(base, "/" + Slashed(parts)) == Walk([base[0]], parts)
  {
    var text := Slashed(parts);
    SlashedText(parts);
    PartsOfSlashed(parts);
    assert ("/" + text)[1..] == text && ("/" + text)[..2][0] == '/';
    assert Walk([base[0]], [""] + parts) == Walk([base[0]], parts) by {
      assert ([""] + parts)[1..] == parts;
    }
  }

  lemma DriveTextResolves(base: Path, drive: string, parts: seq<string>)
    requires 0 < |base| && 0 < |parts| && IsDrive(drive)
    requires forall i | 0 <= i < |parts| :: parts[i] != "" && Unseparated(parts[i]) && ':' !in parts[i]
    ensures Resolve(base, drive + "/" + Slashed(parts)) == Walk([drive], parts)
    ensures Resolve(base, drive + Slashed(parts)) == Walk(if drive == base[0] then base else [drive], parts)
  {
    var text := Slashed(parts);
    SlashedText(parts);
    PartsOfSlashed(parts);
    assert (drive + "/" + text)[..2] == drive && (drive + "/" + text)[3..] == text;
    assert (drive + text)[..2] == drive && (drive + text)[2..] == text && (drive + text)[2] == text[0];
  }

  /** What a text written by hand stands for: any number of steps up, which end at the drive, and then names,
      counted from the directory or from the drive's root. */
  lemma EditedTextResolves(base: Path, n: nat, names: Path, parts: seq<string>)
    requires 0 < |base| && parts == Up(n) + names != [] && forall i | 0 <= i < |names| :: IsFileName(names[i])
    ensures Resolve(base, Slashed(parts)) == Climbed(base, n) + names
    ensures Resolve(base, "/" + Slashed(parts)) == [base[0]] + names
  {
    PartsArePlain(parts, n, names);
    RelativeTextResolves(base, parts);
    RootedTextResolves(base, parts);
    PartsLead(base, n, names, parts);
    PartsLead([base[0]], n, names, parts);
  }

  /** The same behind a drive: counted from that drive's root, or from its directory, which is known only for
      the drive of the configuration. */
  lemma EditedDriveTextResolves(base: Path, drive: string, n: nat, names: Path, parts: seq<string>)
    requires 0 < |base| && IsDrive(drive)
    requires parts == Up(n) + names != [] && forall i | 0 <= i < |names| :: IsFileName(names[i])
    ensures Resolve(base, drive + "/" + Slashed(parts)) == [drive] + names
    ensures Resolve(base, drive + Slashed(parts)) ==
              Climbed(if drive == base[0] then base else [drive], n) + names
  {
    PartsArePlain(parts, n, names);
    DriveTextResolves(base, drive, parts);
    PartsLead([drive], n, names, parts);
    PartsLead(if drive == base[0] then base else [drive], n, names, parts);
  }

  /** A drive is one letter and a colon. */
  lemma DriveExactly(s: string)
    ensures IsDrive(s) <==> |s| == 2 && s[1] == ':' && (65 <= s[0] as int <= 90 || 97 <= s[0] as int <= 122)
  {
  }
}
