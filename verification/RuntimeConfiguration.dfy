/** Editing Config.toml line by line: setting one key of one section, reading a key back, and removing a
    path only while it still names what the installer put there. */
module RuntimeConfiguration {
  import Paths
  import PortablePaths
  import opened TextLines
  import opened Texts
  import opened TomlText
  import opened Wrappers

  type Lines = seq<string>

  function Header(section: string): string { "[" + section + "]" }

  function Entry(key: string, value: string): string { key + " = " + value }

  // ---- Reading ----

  /** Where reading stands after some lines: inside a section with this header, or not. */
  function Inside(lines: Lines, inside: bool, header: string): bool {
    if lines == [] then inside
    else
      var line := Cleaned(lines[0]);
      Inside(lines[1..], if IsSection(line) then line == header else inside, header)
  }

  /** The first value a key has in any section with this header. */
  function Lookup(lines: Lines, inside: bool, header: string, key: string): Option<string> {
    if lines == [] then None
    else
      var line := Cleaned(lines[0]);
      if IsSection(line) then Lookup(lines[1..], line == header, header, key)
      else if inside && ValueFor(line, key).Some? then ValueFor(line, key)
      else Lookup(lines[1..], inside, header, key)
  }

  function RawValue(lines: Lines, section: string, key: string): Option<string> {
    Lookup(lines, false, Header(section), key)
  }

  method Clean(line: string) returns (cleaned: string)
    ensures cleaned == Cleaned(line)
  {
    var code := RemoveComment(line);
    cleaned := Trim(code);
  }

  /** The value an entry line gives a key; the part before the first '=' must be the key. */
  method ReadEntry(trimmed: string, key: string) returns (value: Option<string>)
    ensures value == ValueFor(trimmed, key)
  {
    var equals := IndexOf(trimmed, '=');
    if equals.None? || Trim(trimmed[..equals.value]) != key {
      return None;
    }
    return Some(Trim(trimmed[equals.value + 1..]));
  }

  method GetRawValue(lines: Lines, section: string, key: string) returns (r: Option<string>)
    ensures r == RawValue(lines, section, key)
  {
    var header, inSection := Header(section), false;
    ghost var rest := lines;
    for n := 0 to |lines|
      invariant rest == lines[n..]
      invariant Lookup(lines, false, header, key) == Lookup(rest, inSection, header, key)
    {
      rest := rest[1..];
      var trimmed := Clean(lines[n]);
      if IsSection(trimmed) {
        inSection := trimmed == header;
        continue;
      }
      if !inSection || trimmed == "" {
        continue;
      }
      var value := ReadEntry(trimmed, key);
      if value.Some? {
        return value;
      }
    }
    return None;
  }

  // ---- Reading in pieces ----

  lemma {:induction false} LookupSplit(a: Lines, b: Lines, inside: bool, header: string, key: string)
    ensures Inside(a + b, inside, header) == Inside(b, Inside(a, inside, header), header)
    ensures Lookup(a + b, inside, header, key) ==
              if Lookup(a, inside, header, key).Some? then Lookup(a, inside, header, key)
              else Lookup(b, Inside(a, inside, header), header, key)
  {
    if a == [] {
      assert a + b == b;
    } else {
      var line := Cleaned(a[0]);
      assert (a + b)[0] == a[0] && (a + b)[1..] == a[1..] + b;
      LookupSplit(a[1..], b, if IsSection(line) then line == header else inside, header, key);
    }
  }

  /** A line that is no header and gives the key nothing, or lies outside the section, is not seen. */
  predicate Silent(line: string, inside: bool, key: string) {
    !IsSection(Cleaned(line)) && (inside ==> ValueFor(Cleaned(line), key).None?)
  }

  lemma SilentLine(line: string, rest: Lines, inside: bool, header: string, key: string)
    requires Silent(line, inside, key)
    ensures Inside([line] + rest, inside, header) == Inside(rest, inside, header)
    ensures Lookup([line] + rest, inside, header, key) == Lookup(rest, inside, header, key)
  {
    assert ([line] + rest)[1..] == rest;
  }

  lemma {:induction false} NoHeader(lines: Lines, header: string, key: string)
    requires forall n :: 0 <= n < |lines| ==> Cleaned(lines[n]) != header
    ensures !Inside(lines, false, header) && Lookup(lines, false, header, key) == None
  {
    if lines == [] {
    } else {
      NoHeader(lines[1..], header, key);
    }
  }

  lemma {:induction false} SilentBody(lines: Lines, inside: bool, header: string, key: string)
    requires forall n :: 0 <= n < |lines| ==> Silent(lines[n], inside, key)
    ensures Inside(lines, inside, header) == inside && Lookup(lines, inside, header, key) == None
  {
    if lines == [] {
    } else {
      SilentBody(lines[1..], inside, header, key);
    }
  }

  // ---- Written lines ----

  predicate IsNameChar(c: char) {
    'a' <= c <= 'z' || 'A' <= c <= 'Z' || '0' <= c <= '9' || c == '_' || c == '-'
  }

  predicate IsBareName(s: string) { s != "" && forall n :: 0 <= n < |s| ==> IsNameChar(s[n]) }

  /** A value the reader takes as it stands. */
  predicate IsLiteral(value: string) {
    value != "" && Tight(value) && Uncommented(value, Outside) == value
  }

  lemma QuotedIsLiteral(value: string)
    ensures IsLiteral(QuoteToml(value))
  {
    QuotedScans(value);
  }

  lemma {:induction false} PlainScans(s: string)
    requires forall n :: 0 <= n < |s| ==> s[n] != '#' && s[n] != '"' && s[n] != '\''
    ensures Uncommented(s, Outside) == s && ScanAll(s, Outside) == Outside
  {
    if s == "" {
    } else {
      PlainScans(s[1..]);
    }
  }

  lemma EntryCleans(key: string, value: string)
    requires IsBareName(key) && IsLiteral(value)
    ensures Cleaned(Entry(key, value)) == Entry(key, value) && !IsSection(Entry(key, value))
  {
    PlainScans(key + " = ");
    UncommentedAcross(key + " = ", value, Outside);
    assert Tight(Entry(key, value));
    TrimTight(Entry(key, value));
  }

  lemma EntryReads(key: string, value: string)
    requires IsBareName(key) && IsLiteral(value)
    ensures ValueFor(Entry(key, value), key) == Some(value)
    ensures forall other :: other != key ==> ValueFor(Entry(key, value), other) == None
  {
    var line, left := Entry(key, value), key + " ";
    assert line[|left|] == '=' && line[..|left|] == left && line[|left| + 1..] == " " + value;
    assert '=' !in left;
    FirstIndex(line, '=', |left|);
    TrimOneAfter(key);
    TrimOneBefore(value);
  }

  lemma HeaderReads(section: string)
    requires IsBareName(section)
    ensures Cleaned(Header(section)) == Header(section) && IsSection(Header(section))
  {
    PlainScans(Header(section));
    TrimTight(Header(section));
  }

  lemma HeadersDiffer(a: string, b: string)
    requires a != b
    ensures Header(a) != Header(b)
  {
    assert Header(a)[1..|a| + 1] == a && Header(b)[1..|b| + 1] == b;
  }

  // ---- What an edit changes ----

  /** Nothing but this one key reads differently. */
  ghost predicate OnlyChanges(before: Lines, after: Lines, section: string, key: string) {
    forall s, k :: s != section || k != key ==> RawValue(after, s, k) == RawValue(before, s, k)
  }

  lemma OneLineReplaced(front: Lines, x: string, y: string, back: Lines, header: string, key: string)
    requires !IsSection(Cleaned(x)) && !IsSection(Cleaned(y))
    requires Inside(front, false, header) ==> ValueFor(Cleaned(x), key) == ValueFor(Cleaned(y), key)
    ensures Lookup(front + ([x] + back), false, header, key) == Lookup(front + ([y] + back), false, header, key)
  {
    LookupSplit(front, [x] + back, false, header, key);
    LookupSplit(front, [y] + back, false, header, key);
    assert ([x] + back)[1..] == back && ([y] + back)[1..] == back;
  }

  lemma OneLineInserted(front: Lines, y: string, back: Lines, header: string, key: string)
    requires Silent(y, Inside(front, false, header), key)
    ensures Lookup(front + ([y] + back), false, header, key) == Lookup(front + back, false, header, key)
  {
    LookupSplit(front, [y] + back, false, header, key);
    LookupSplit(front, back, false, header, key);
    SilentLine(y, back, Inside(front, false, header), header, key);
  }

  /** Lines up to somewhere inside the first section with this header, none of them giving the key. */
  predicate OpensSection(front: Lines, start: nat, header: string, key: string) {
    && start < |front|
    && Cleaned(front[start]) == header && IsSection(header)
    && (forall n :: 0 <= n < start ==> Cleaned(front[n]) != header)
    && (forall n :: start < n < |front| ==> Silent(front[n], true, key))
  }

  lemma SectionOpened(front: Lines, start: nat, section: string, key: string)
    requires OpensSection(front, start, Header(section), key)
    ensures Inside(front, false, Header(section)) && RawValue(front, section, key) == None
    ensures forall s :: s != section ==> !Inside(front, false, Header(s))
  {
    var header := Header(section);
    var a, b := front[..start], front[start..];
    assert front == a + b;
    NoHeader(a, header, key);
    assert b[0] == front[start] && b[1..] == front[start + 1..];
    SilentBody(b[1..], true, header, key);
    LookupSplit(a, b, false, header, key);
    forall s | s != section ensures !Inside(front, false, Header(s)) {
      HeadersDiffer(s, section);
      assert forall n :: 0 <= n < |b[1..]| ==> Silent(b[1..][n], false, key);
      SilentBody(b[1..], false, Header(s), key);
      LookupSplit(a, b, false, Header(s), key);
    }
  }

  /** Putting the entry at the end of such lines, whether it replaces the key's old line or is new. */
  lemma EntryPlaced(front: Lines, start: nat, back: Lines, section: string, key: string, value: string)
    requires IsBareName(key) && IsLiteral(value)
    requires OpensSection(front, start, Header(section), key)
    ensures RawValue(front + ([Entry(key, value)] + back), section, key) == Some(value)
    ensures OnlyChanges(front + back, front + ([Entry(key, value)] + back), section, key)
    ensures forall line :: !IsSection(Cleaned(line)) && ValueFor(Cleaned(line), key).Some? ==>
              OnlyChanges(front + ([line] + back), front + ([Entry(key, value)] + back), section, key)
  {
    var entry := Entry(key, value);
    EntryCleans(key, value);
    EntryReads(key, value);
    SectionOpened(front, start, section, key);
    LookupSplit(front, [entry] + back, false, Header(section), key);
    assert ([entry] + back)[0] == entry;
    forall s, k | s != section || k != key
      ensures RawValue(front + ([entry] + back), s, k) == RawValue(front + back, s, k)
    {
      OneLineInserted(front, entry, back, Header(s), k);
    }
    forall line | !IsSection(Cleaned(line)) && ValueFor(Cleaned(line), key).Some?
      ensures OnlyChanges(front + ([line] + back), front + ([entry] + back), section, key)
    {
      forall s, k | s != section || k != key
        ensures RawValue(front + ([entry] + back), s, k) == RawValue(front + ([line] + back), s, k)
      {
        OneLineReplaced(front, line, entry, back, Header(s), k);
      }
    }
  }

  lemma NewSectionIsSilent(section: string, key: string, value: string, s: string, k: string, inside: bool)
    requires IsBareName(section) && IsBareName(key) && IsLiteral(value)
    requires s != section || k != key
    ensures Lookup([Header(section), Entry(key, value)], inside, Header(s), k) == None
  {
    var added := [Header(section), Entry(key, value)];
    HeaderReads(section);
    EntryCleans(key, value);
    EntryReads(key, value);
    if s != section {
      HeadersDiffer(s, section);
    }
    var entry, here := Entry(key, value), Header(section) == Header(s);
    assert added[0] == Header(section) && added[1..] == [entry] + [];
    assert Silent(entry, here, k);
    SilentLine(entry, [], here, Header(s), k);
  }

  /** A new section at the end of lines that have none with its header. */
  lemma SectionAppended(before: Lines, gap: Lines, section: string, key: string, value: string)
    requires IsBareName(section) && IsBareName(key) && IsLiteral(value)
    requires gap == [] || gap == [""]
    requires forall n :: 0 <= n < |before| ==> Cleaned(before[n]) != Header(section)
    ensures var after := before + (gap + [Header(section), Entry(key, value)]);
            RawValue(after, section, key) == Some(value) && OnlyChanges(before, after, section, key)
  {
    var header, entry := Header(section), Entry(key, value);
    var added := [header, entry];
    HeaderReads(section);
    EntryCleans(key, value);
    EntryReads(key, value);
    assert Cleaned("") == "";
    assert gap + added == (if gap == [] then added else [""] + added);
    assert added[1..] == [entry] && [entry][1..] == [];
    NoHeader(before, header, key);
    LookupSplit(before, gap + added, false, header, key);
    SilentLine("", added, false, header, key);
    forall s, k | s != section || k != key
      ensures RawValue(before + (gap + added), s, k) == RawValue(before, s, k)
    {
      var inside := Inside(before, false, Header(s));
      LookupSplit(before, gap + added, false, Header(s), k);
      SilentLine("", added, inside, Header(s), k);
      NewSectionIsSilent(section, key, value, s, k, inside);
    }
  }

  /** How the other lines survive an edit: in order, apart from the one line of the key, with at most the
      new section's lines behind them. */
  predicate Edits(before: Lines, after: Lines, section: string, key: string, value: string) {
    || (exists n :: 0 <= n < |before| && ValueFor(Cleaned(before[n]), key).Some? &&
                    after == before[..n] + ([Entry(key, value)] + before[n + 1..]))
    || (exists n :: 0 <= n <= |before| && after == before[..n] + ([Entry(key, value)] + before[n..]))
    || (exists gap :: gap in [[], [""]] && after == before + (gap + [Header(section), Entry(key, value)]))
  }

  /** The first section with the header, and where it ends. */
  predicate SectionSpan(lines: Lines, start: nat, end: nat, header: string) {
    && start < end <= |lines| && Cleaned(lines[start]) == header
    && (forall n | 0 <= n < start :: Cleaned(lines[n]) != header)
    && (forall n | start < n < end :: !IsSection(Cleaned(lines[n])))
    && (end == |lines| || IsSection(Cleaned(lines[end])))
  }

  predicate Gives(line: string, key: string) { ValueFor(Cleaned(line), key).Some? }

  /** No line from one place on up to another gives the key a value. */
  predicate NoneGives(lines: Lines, from: nat, end: nat, key: string)
    requires end <= |lines|
  {
    forall n | from <= n < end :: !Gives(lines[n], key)
  }

  /** The section's first line for the key is the entry now; without one, the entry follows the section's last
      line that is not blank. */
  ghost predicate EditedWithin(before: Lines, after: Lines, start: nat, end: nat, key: string, entry: string)
    requires start < end <= |before|
  {
    if NoneGives(before, start + 1, end, key)
    then exists at :: InsertedAt(before, after, start, end, at, entry)
    else exists at :: ReplacedAt(before, after, start, end, at, key, entry)
  }

  ghost predicate ReplacedAt(before: Lines, after: Lines, start: nat, end: nat, at: nat, key: string, entry: string)
    requires start < end <= |before|
  {
    && start < at < end && Gives(before[at], key) && NoneGives(before, start + 1, at, key)
    && after == before[..at] + ([entry] + before[at + 1..])
  }

  ghost predicate InsertedAt(before: Lines, after: Lines, start: nat, end: nat, at: nat, entry: string)
    requires start < end <= |before|
  {
    && start < at <= end && after == before[..at] + ([entry] + before[at..])
    && (forall n | at <= n < end :: Trim(before[n]) == "")
    && (at > start + 1 ==> Trim(before[at - 1]) != "")
  }

  /** Exactly which line an edit changes or adds: the section comes with it where there is none. */
  ghost predicate EditedExactly(before: Lines, after: Lines, section: string, key: string, value: string) {
    if forall n | 0 <= n < |before| :: Cleaned(before[n]) != Header(section) then
      var gap: Lines := if before != [] && before[|before| - 1] != "" then [""] else [];
      after == before + (gap + [Header(section), Entry(key, value)])
    else
      exists start, end :: SectionSpan(before, start, end, Header(section)) &&
                           EditedWithin(before, after, start, end, key, Entry(key, value))
  }

  lemma SectionIsThere(before: Lines, start: nat, end: nat, section: string)
    requires SectionSpan(before, start, end, Header(section))
    ensures exists n :: 0 <= n < |before| && Cleaned(before[n]) == Header(section)
  {
    assert Cleaned(before[start]) == Header(section);
  }

  lemma ReplacedExactly(before: Lines, start: nat, end: nat, at: nat, section: string, key: string, value: string)
    requires SectionSpan(before, start, end, Header(section))
    requires start < at < end && Gives(before[at], key) && NoneGives(before, start + 1, at, key)
    ensures EditedExactly(before, before[..at] + ([Entry(key, value)] + before[at + 1..]), section, key, value)
  {
    var after := before[..at] + ([Entry(key, value)] + before[at + 1..]);
    SectionIsThere(before, start, end, section);
    assert ReplacedAt(before, after, start, end, at, key, Entry(key, value));
    assert EditedWithin(before, after, start, end, key, Entry(key, value));
  }

  lemma InsertedExactly(before: Lines, start: nat, end: nat, at: nat, section: string, key: string, value: string)
    requires SectionSpan(before, start, end, Header(section)) && NoneGives(before, start + 1, end, key)
    requires start < at <= end && (forall n | at <= n < end :: Trim(before[n]) == "")
    requires at > start + 1 ==> Trim(before[at - 1]) != ""
    ensures EditedExactly(before, before[..at] + ([Entry(key, value)] + before[at..]), section, key, value)
  {
    var after := before[..at] + ([Entry(key, value)] + before[at..]);
    SectionIsThere(before, start, end, section);
    assert InsertedAt(before, after, start, end, at, Entry(key, value));
    assert EditedWithin(before, after, start, end, key, Entry(key, value));
  }

  lemma LineReplaced(before: Lines, start: nat, at: nat, section: string, key: string, value: string)
    requires IsBareName(key) && IsLiteral(value) && at < |before|
    requires OpensSection(before[..at], start, Header(section), key)
    requires !IsSection(Cleaned(before[at])) && ValueFor(Cleaned(before[at]), key).Some?
    ensures var after := before[..at] + ([Entry(key, value)] + before[at + 1..]);
            && RawValue(after, section, key) == Some(value) && OnlyChanges(before, after, section, key)
            && Edits(before, after, section, key, value)
  {
    assert before == before[..at] + ([before[at]] + before[at + 1..]);
    EntryPlaced(before[..at], start, before[at + 1..], section, key, value);
  }

  lemma LineInserted(before: Lines, start: nat, at: nat, section: string, key: string, value: string)
    requires IsBareName(key) && IsLiteral(value) && at <= |before|
    requires OpensSection(before[..at], start, Header(section), key)
    ensures var after := before[..at] + ([Entry(key, value)] + before[at..]);
            && RawValue(after, section, key) == Some(value) && OnlyChanges(before, after, section, key)
            && Edits(before, after, section, key, value)
  {
    assert before == before[..at] + before[at..];
    EntryPlaced(before[..at], start, before[at..], section, key, value);
  }

  // ---- Removing ----

  lemma {:induction false} OneSectionAtATime(lines: Lines, a: string, b: string)
    requires a != b
    ensures !(Inside(lines, false, a) && Inside(lines, false, b))
  {
    if lines == [] {
    } else {
      var front, last := lines[..|lines| - 1], lines[|lines| - 1..];
      assert lines == front + last;
      LookupSplit(front, last, false, a, "");
      LookupSplit(front, last, false, b, "");
      assert last[1..] == [];
      OneSectionAtATime(front, a, b);
    }
  }

  /** The key's first line, found by reading from the top. */
  predicate FirstEntry(lines: Lines, at: nat, section: string, key: string) {
    && at < |lines|
    && Inside(lines[..at], false, Header(section)) && RawValue(lines[..at], section, key) == None
    && !IsSection(Cleaned(lines[at])) && ValueFor(Cleaned(lines[at]), key).Some?
  }

  /** Removing the key's first line changes nothing else; a later line for the key shows through. */
  lemma LineRemoved(before: Lines, at: nat, section: string, key: string)
    requires FirstEntry(before, at, section, key)
    ensures RawValue(before, section, key) == ValueFor(Cleaned(before[at]), key)
    ensures var after := before[..at] + before[at + 1..];
            && OnlyChanges(before, after, section, key)
            && RawValue(after, section, key) == Lookup(before[at + 1..], true, Header(section), key)
  {
    var front, line, back := before[..at], before[at], before[at + 1..];
    assert before == front + ([line] + back);
    assert ([line] + back)[0] == line;
    LookupSplit(front, [line] + back, false, Header(section), key);
    LookupSplit(front, back, false, Header(section), key);
    forall s, k | s != section || k != key ensures RawValue(front + back, s, k) == RawValue(before, s, k) {
      if s != section {
        HeadersDiffer(s, section);
        OneSectionAtATime(front, Header(s), Header(section));
      }
      OneLineInserted(front, line, back, Header(s), k);
    }
  }

  predicate NoneIs(lines: Lines, header: string) {
    forall n :: 0 <= n < |lines| ==> Cleaned(lines[n]) != header
  }

  predicate NoSections(lines: Lines) {
    forall n :: 0 <= n < |lines| ==> !IsSection(Cleaned(lines[n]))
  }

  lemma NoneIsGrows(lines: Lines, start: int, n: nat, header: string)
    requires -1 <= start < n < |lines|
    ensures NoneIs(lines[..n], header) && Cleaned(lines[n]) != header ==> NoneIs(lines[..n + 1], header)
    ensures NoSections(lines[start + 1..n]) && !IsSection(Cleaned(lines[n])) ==> NoSections(lines[start + 1..n + 1])
  {
    assert lines[..n + 1] == lines[..n] + [lines[n]];
    assert lines[start + 1..n + 1] == lines[start + 1..n] + [lines[n]];
  }

  lemma SectionStarts(lines: Lines, start: nat, header: string, key: string)
    requires start < |lines| && IsSection(header)
    requires NoneIs(lines[..start], header) && Cleaned(lines[start]) == header
    ensures OpensSection(lines[..start + 1], start, header, key)
  {
    assert forall n :: 0 <= n < start ==> lines[..start][n] == lines[..start + 1][n];
  }

  lemma SectionGrows(lines: Lines, start: nat, n: nat, header: string, key: string)
    requires start < n < |lines| && OpensSection(lines[..n], start, header, key)
    ensures Silent(lines[n], true, key) ==> OpensSection(lines[..n + 1], start, header, key)
  {
    assert forall k :: 0 <= k < n ==> lines[..n][k] == lines[..n + 1][k];
  }

  /** One step through the section: its line is no header, and unless it gives the key the scan goes on. */
  lemma EntryStep(lines: Lines, start: nat, end: nat, n: nat, header: string, key: string)
    requires start < n < end <= |lines| && NoSections(lines[start + 1..end])
    requires OpensSection(lines[..n], start, header, key)
    ensures !IsSection(Cleaned(lines[n]))
    ensures Cleaned(lines[n]) == "" || ValueFor(Cleaned(lines[n]), key).None? ==>
              OpensSection(lines[..n + 1], start, header, key)
  {
    NotASection(lines, start + 1, end, n);
    SectionGrows(lines, start, n, header, key);
  }

  lemma OpenedGivesNone(lines: Lines, start: nat, at: nat, header: string, key: string)
    requires at <= |lines| && OpensSection(lines[..at], start, header, key)
    ensures NoneGives(lines, start + 1, at, key)
  {
    forall n | start < n < at
      ensures !Gives(lines[n], key)
    {
      assert lines[..at][n] == lines[n];
    }
  }

  lemma SectionShrinks(lines: Lines, start: nat, at: nat, header: string, key: string)
    requires start + 1 < at <= |lines| && OpensSection(lines[..at], start, header, key)
    ensures OpensSection(lines[..at - 1], start, header, key)
  {
    assert forall k :: 0 <= k < at - 1 ==> lines[..at][k] == lines[..at - 1][k];
  }

  lemma NotASection(lines: Lines, from: nat, to: nat, n: nat)
    requires from <= n < to <= |lines| && NoSections(lines[from..to])
    ensures !IsSection(Cleaned(lines[n]))
  {
    assert lines[n] == lines[from..to][n - from];
  }

  lemma SpanFound(lines: Lines, start: int, end: nat, header: string)
    requires -1 <= start < end <= |lines| && NoneIs(lines[..if start < 0 then |lines| else start], header)
    requires start >= 0 ==> Cleaned(lines[start]) == header && NoSections(lines[start + 1..end])
    requires start >= 0 ==> end == |lines| || IsSection(Cleaned(lines[end]))
    ensures start >= 0 ==> SectionSpan(lines, start, end, header)
    ensures start < 0 ==> forall n | 0 <= n < |lines| :: Cleaned(lines[n]) != header
  {
    var before := lines[..if start < 0 then |lines| else start];
    assert forall n | 0 <= n < |before| :: before[n] == lines[n];
    if start >= 0 {
      forall n | start < n < end
        ensures !IsSection(Cleaned(lines[n]))
      {
        NotASection(lines, start + 1, end, n);
      }
    }
  }

  class LineList {
    var lines: Lines

    constructor (contents: Lines)
      ensures lines == contents
    {
      lines := contents;
    }

    /** Finds the first section with a header and where it ends. */
    method FindSection(header: string) returns (start: int, end: nat)
      requires IsSection(header)
      ensures -1 <= start < end <= |lines|
      ensures NoneIs(lines[..if start < 0 then |lines| else start], header)
      ensures start >= 0 ==> Cleaned(lines[start]) == header && NoSections(lines[start + 1..end])
      ensures start >= 0 ==> SectionSpan(lines, start, end, header)
      ensures start < 0 ==> forall n | 0 <= n < |lines| :: Cleaned(lines[n]) != header
    {
      start, end := -1, |lines|;
      for n := 0 to |lines|
        invariant -1 <= start < n && end == |lines|
        invariant NoneIs(lines[..if start < 0 then n else start], header)
        invariant start >= 0 ==> Cleaned(lines[start]) == header && NoSections(lines[start + 1..n])
      {
        var trimmed := Clean(lines[n]);
        if !IsSection(trimmed) {
          NoneIsGrows(lines, start, n, header);
          continue;
        }
        if start >= 0 {
          end := n;
          break;
        }
        NoneIsGrows(lines, start, n, header);
        if trimmed == header {
          start := n;
        }
      }
      SpanFound(lines, start, end, header);
    }

    /** Finds the key's line in a section, or the end of the section. */
    method FindEntry(start: nat, end: nat, header: string, key: string) returns (at: nat, found: bool)
      requires start < end <= |lines| && IsBareName(key) && IsSection(header)
      requires NoneIs(lines[..start], header) && Cleaned(lines[start]) == header && NoSections(lines[start + 1..end])
      ensures start < at <= end && (found ==> at < end && !IsSection(Cleaned(lines[at])))
      ensures found ==> ValueFor(Cleaned(lines[at]), key).Some?
      ensures OpensSection(lines[..at], start, header, key)
      ensures !found ==> at == end
      ensures NoneGives(lines, start + 1, at, key)
    {
      SectionStarts(lines, start, header, key);
      ghost var all := lines;
      for n := start + 1 to end
        invariant OpensSection(all[..n], start, header, key)
      {
        EntryStep(all, start, end, n, header, key);
        var gives := LineGives(lines[n], key);
        if gives {
          OpenedGivesNone(lines, start, n, header, key);
          return n, true;
        }
      }
      OpenedGivesNone(lines, start, end, header, key);
      return end, false;
    }

    method LineGives(line: string, key: string) returns (gives: bool)
      ensures gives == Gives(line, key)
    {
      var trimmed := Clean(line);
      if trimmed == "" {
        return false;
      }
      var value := ReadEntry(trimmed, key);
      return value.Some?;
    }

    /** Replaces one key in one section, or adds it, or adds the section. */
    method SetSectionValue(section: string, key: string, value: string)
      requires IsBareName(section) && IsBareName(key) && IsLiteral(value)
      modifies this
      ensures RawValue(lines, section, key) == Some(value)
      ensures OnlyChanges(old(lines), lines, section, key)
      ensures forall s, k :: s != section || k != key ==> RawValue(lines, s, k) == RawValue(old(lines), s, k)
      ensures Edits(old(lines), lines, section, key, value)
      ensures EditedExactly(old(lines), lines, section, key, value)
    {
      var header, entry := Header(section), Entry(key, value);
      HeaderReads(section);
      var start, end := FindSection(header);
      if start < 0 {
        assert lines[..|lines|] == lines;
        var gap: Lines := if |lines| > 0 && lines[|lines| - 1] != "" then [""] else [];
        SectionAppended(lines, gap, section, key, value);
        lines := lines + (gap + [header, entry]);
        return;
      }
      var at, found := FindEntry(start, end, header, key);
      if found {
        LineReplaced(lines, start, at, section, key, value);
        ReplacedExactly(lines, start, end, at, section, key, value);
        lines := lines[..at] + ([entry] + lines[at + 1..]);
        return;
      }
      at := BeforeTrailingBlanks(start, at, header, key);
      InsertedExactly(lines, start, end, at, section, key, value);
      LineInserted(lines, start, at, section, key, value);
      lines := lines[..at] + ([entry] + lines[at..]);
    }

    /** Steps back over the blank lines that separate a section from the next header. */
    method BeforeTrailingBlanks(start: nat, end: nat, header: string, key: string) returns (at: nat)
      requires start < end <= |lines| && OpensSection(lines[..end], start, header, key)
      ensures start < at <= end && OpensSection(lines[..at], start, header, key)
      ensures forall n :: at <= n < end ==> Trim(lines[n]) == ""
      ensures at > start + 1 ==> Trim(lines[at - 1]) != ""
    {
      at := end;
      while at > start + 1 && Trim(lines[at - 1]) == ""
        invariant start + 1 <= at <= end
        invariant OpensSection(lines[..at], start, header, key)
        invariant forall n :: at <= n < end ==> Trim(lines[n]) == ""
      {
        SectionShrinks(lines, start, at, header, key);
        at := at - 1;
      }
    }

    /** Drops the path a key holds, if the first line giving it is a string that resolves to the path the
        caller owns. */
    method RemovePathIfOwned(key: string, directory: Paths.Path, full: Paths.Path) returns (changed: bool)
      requires 0 < |directory|
      modifies this
      ensures var raw := RawValue(old(lines), "paths", key);
              changed <==> (raw.Some? && Unquoted(raw.value).Some? &&
                            PortablePaths.Resolve(directory, Unquoted(raw.value).value) == full)
      ensures !changed ==> lines == old(lines)
      ensures changed ==> OnlyChanges(old(lines), lines, "paths", key)
      ensures changed ==> exists at :: 0 <= at < |old(lines)| && FirstEntry(old(lines), at, "paths", key) &&
                                       lines == old(lines)[..at] + old(lines)[at + 1..]
    {
      var header, inPaths := Header("paths"), false;
      assert lines[..0] == [];
      for n := 0 to |lines|
        invariant lines == old(lines)
        invariant inPaths == Inside(lines[..n], false, header) && RawValue(lines[..n], "paths", key) == None
      {
        assert lines[..n + 1] == lines[..n] + [lines[n]];
        LookupSplit(lines[..n], [lines[n]], false, header, key);
        var trimmed := Clean(lines[n]);
        if IsSection(trimmed) {
          inPaths := trimmed == header;
          continue;
        }
        if !inPaths || trimmed == "" {
          continue;
        }
        var value := ReadEntry(trimmed, key);
        if value.None? {
          continue;
        }
        LineRemoved(lines, n, "paths", key);
        var ok, configured := TryUnquoteToml(value.value);
        if !ok || PortablePaths.Resolve(directory, configured) != full {
          return false;
        }
        lines := lines[..n] + lines[n + 1..];
        return true;
      }
      assert lines[..|lines|] == lines;
      return false;
    }
  }

  // ---- The file ----

  lemma {:induction false} UncommentedIsPrefix(line: string, q: Quote)
    ensures Uncommented(line, q) <= line
  {
    if line == "" {
    } else {
      UncommentedIsPrefix(line[1..], Scan(q, line[0]));
      assert line == [line[0]] + line[1..];
    }
  }

  lemma {:induction false} TrimEndKeeps(s: string)
    requires OneLine(s)
    ensures OneLine(TrimEnd(s))
  {
    if s != "" && IsSpace(s[|s| - 1]) {
      TrimEndKeeps(s[..|s| - 1]);
    }
  }

  lemma {:induction false} TrimKeeps(s: string)
    requires OneLine(s)
    ensures OneLine(Trim(s))
    decreases |s|
  {
    if s != "" && IsSpace(s[0]) {
      TrimKeeps(s[1..]);
    } else {
      TrimEndKeeps(s);
    }
  }

  lemma {:induction false} UnescapedKeeps(s: string)
    requires OneLine(s)
    ensures OneLine(Unescaped(s))
    decreases |s|
  {
    if s == "" {
    } else {
      if s[0] == '\\' && |s| > 1 {
        UnescapedKeeps(s[2..]);
      } else {
        UnescapedKeeps(s[1..]);
      }
    }
  }

  lemma {:induction false} LookupKeeps(lines: Lines, inside: bool, header: string, key: string)
    requires forall n :: 0 <= n < |lines| ==> OneLine(lines[n])
    ensures Lookup(lines, inside, header, key).Some? ==> OneLine(Lookup(lines, inside, header, key).value)
  {
    if lines == [] {
    } else {
      var line := Cleaned(lines[0]);
      UncommentedIsPrefix(lines[0], Outside);
      TrimKeeps(Uncommented(lines[0], Outside));
      LookupKeeps(lines[1..], if IsSection(line) then line == header else inside, header, key);
      var equals := IndexOf(line, '=');
      if equals.Some? {
        TrimKeeps(line[equals.value + 1..]);
      }
    }
  }

  function PathValue(contents: string, key: string): Option<string> {
    var raw := RawValue(ReadLines(contents), "paths", key);
    if raw.Some? then Unquoted(raw.value) else None
  }

  /** No file can hold a path with a line break in it. */
  lemma PathsAreOneLine(contents: string, key: string)
    ensures PathValue(contents, key).Some? ==> OneLine(PathValue(contents, key).value)
  {
    var lines := ReadLines(contents);
    LookupKeeps(lines, false, Header("paths"), key);
    var raw := RawValue(lines, "paths", key);
    if raw.Some? && |raw.value| >= 2 {
      UnescapedKeeps(raw.value[1..|raw.value| - 1]);
    }
  }

  const DEFAULT_LINES: Lines := ["# WiiCompiled user configuration", "", "[paths]"]

  lemma {:induction false} EscapedKeeps(value: string)
    requires OneLine(value)
    ensures OneLine(Escaped(value))
  {
    if value == "" {
    } else {
      assert value == [value[0]] + value[1..];
      EscapedStep(value[0], value[1..]);
      EscapedKeeps(value[1..]);
    }
  }

  lemma WrittenLinesAreOneLine(section: string, key: string, value: string)
    requires IsBareName(section) && IsBareName(key) && OneLine(value)
    ensures OneLine(Entry(key, value)) && OneLine(Header(section)) && OneLine("")
  {
  }

  predicate OneLines(lines: Lines) { forall n :: 0 <= n < |lines| ==> OneLine(lines[n]) }

  lemma OneLinesJoin(a: Lines, b: Lines, c: Lines)
    requires OneLines(a) && OneLines(b) && OneLines(c)
    ensures OneLines(a + (b + c))
  {
  }

  lemma EditKeepsOneLine(before: Lines, after: Lines, section: string, key: string, value: string)
    requires OneLine(Entry(key, value)) && OneLine(Header(section)) && OneLines(before)
    requires Edits(before, after, section, key, value)
    ensures OneLines(after)
  {
    var entry, header := Entry(key, value), Header(section);
    if n :| 0 <= n < |before| && after == before[..n] + ([entry] + before[n + 1..]) {
      OneLinesJoin(before[..n], [entry], before[n + 1..]);
    } else if n :| 0 <= n <= |before| && after == before[..n] + ([entry] + before[n..]) {
      OneLinesJoin(before[..n], [entry], before[n..]);
    } else {
      var gap :| gap in [[], [""]] && after == before + (gap + [header, entry]);
      OneLinesJoin(before, gap, [header, entry]);
    }
  }

  /** GetResolvedPath: the path a key stands for, as the runtime will use it. */
  function ResolvedPath(contents: string, directory: Paths.Path, key: string): Option<Paths.Path>
    requires 0 < |directory|
  {
    var stored := PathValue(contents, key);
    if stored.None? || IsBlank(stored.value) then None else Some(PortablePaths.Resolve(directory, stored.value))
  }

  /** The file holds, for this key, a text that stands for exactly this path. */
  predicate Owns(contents: string, directory: Paths.Path, key: string, full: Paths.Path)
    requires 0 < |directory|
  {
    var stored := PathValue(contents, key);
    stored.Some? && PortablePaths.Resolve(directory, stored.value) == full
  }

  /** The file is the edited lines, written out. */
  ghost predicate Rewritten(before: Lines, contents: string, newLine: string, key: string, stored: string) {
    exists after :: EditedExactly(before, after, "paths", key, QuoteToml(stored)) &&
                    contents == Terminated(after, newLine)
  }

  /** The file is the lines without the first one for the key, written out. */
  ghost predicate Shortened(before: Lines, contents: string, newLine: string, key: string) {
    exists at: nat :: FirstEntry(before, at, "paths", key) &&
                 contents == Terminated(before[..at] + before[at + 1..], newLine)
  }

  class ConfigFile {
    var contents: Option<string>
    const newLine: string
    const directory: Paths.Path

    constructor (file: Option<string>, platformBreak: string, home: Paths.Path)
      requires IsNewLine(platformBreak) && PortablePaths.IsFullPath(home)
      ensures contents == file && newLine == platformBreak && directory == home
    {
      contents, newLine, directory := file, platformBreak, home;
    }

    /** The lines of the file, or of the default file. */
    function CurrentLines(): (lines: Lines)
      reads this
      ensures forall n :: 0 <= n < |lines| ==> OneLine(lines[n])
    {
      if contents.Some? then ReadLines(contents.value) else DEFAULT_LINES
    }

    /** Stores a text under a key. What is read back is the text, exactly when it has no line break; and then
        nothing else in the file reads differently. */
    method SetText(key: string, value: string)
      requires IsBareName(key) && IsNewLine(newLine)
      modifies this`contents
      ensures contents.Some? && Rewritten(old(CurrentLines()), contents.value, newLine, key, value)
      ensures PathValue(contents.value, key) == Some(value) <==> OneLine(value)
      ensures OneLine(value) ==> OnlyChanges(old(CurrentLines()), ReadLines(contents.value), "paths", key)
    {
      ghost var before := CurrentLines();
      var list := new LineList(CurrentLines());
      QuotedIsLiteral(value);
      list.SetSectionValue("paths", key, QuoteToml(value));
      contents := Some(Terminated(list.lines, newLine));
      assert Rewritten(before, contents.value, newLine, key, value);
      PathsAreOneLine(contents.value, key);
      if OneLine(value) {
        EscapedKeeps(value);
        WrittenLinesAreOneLine("paths", key, QuoteToml(value));
        EditKeepsOneLine(before, list.lines, "paths", key, QuoteToml(value));
        WrittenLinesReadBack(list.lines, newLine);
        UnquoteUndoes(value);
      }
    }

    /** Records a path, relative or absolute as the portable root decides. Unless the stored text has a line
        break, it is read back as the same path, except when that text is blank; the path is owned in
        both cases, and nothing else in the file reads differently. */
    method SetPath(key: string, full: Paths.Path, hasMarker: Paths.Path -> bool) returns (stored: string)
      requires IsBareName(key) && IsNewLine(newLine)
      requires PortablePaths.IsFullPath(directory) && PortablePaths.IsFullPath(full)
      modifies this`contents
      ensures contents.Some? && Rewritten(old(CurrentLines()), contents.value, newLine, key, stored)
      ensures PortablePaths.Resolve(directory, stored) == full
      ensures PathValue(contents.value, key) == Some(stored) <==> OneLine(stored)
      ensures OneLine(stored) ==>
                && Owns(contents.value, directory, key, full)
                && (forall s, k :: s != "paths" || k != key ==>
                      RawValue(ReadLines(contents.value), s, k) == RawValue(old(CurrentLines()), s, k))
                && (ResolvedPath(contents.value, directory, key) == Some(full) <==> !IsBlank(stored))
    {
      var root := PortablePaths.TryFind(hasMarker, directory);
      stored := PortablePaths.FormatPathValue(directory, root, full);
      PortablePaths.StoredPathResolves(directory, root, full);
      SetText(key, stored);
    }

    /** Forgets a path, if the file's own text for it stands for the path the caller owns. */
    method RemovePathIfOwned(key: string, full: Paths.Path)
      requires IsNewLine(newLine) && PortablePaths.IsFullPath(directory)
      modifies this`contents
      ensures var owned := old(contents).Some? && Owns(old(contents).value, directory, key, full);
              && (!owned ==> contents == old(contents))
              && (owned ==> contents.Some? && Shortened(ReadLines(old(contents).value), contents.value, newLine, key))
              && (owned ==> contents.Some? && forall s, k :: s != "paths" || k != key ==>
                    RawValue(ReadLines(contents.value), s, k) == RawValue(ReadLines(old(contents).value), s, k))
    {
      if contents.None? { return; }
      var before := ReadLines(contents.value);
      var list := new LineList(before);
      var changed := list.RemovePathIfOwned(key, directory, full);
      if changed {
        contents := Some(Terminated(list.lines, newLine));
        RemovedReadsBack(before, list.lines, newLine, key);
      }
    }
  }

  /** Lines without one of theirs are written and read back. */
  lemma RemovedReadsBack(before: Lines, after: Lines, newLine: string, key: string)
    requires IsNewLine(newLine) && OneLines(before)
    requires exists at: nat :: FirstEntry(before, at, "paths", key) && after == before[..at] + before[at + 1..]
    ensures ReadLines(Terminated(after, newLine)) == after
    ensures Shortened(before, Terminated(after, newLine), newLine, key)
  {
    var at: nat :| FirstEntry(before, at, "paths", key) && after == before[..at] + before[at + 1..];
    WrittenLinesReadBack(after, newLine);
  }
}
