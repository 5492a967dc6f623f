/** The text rules of Config.toml: comments, trimming, section headers and quoted values. */
module TomlText {
  import opened Wrappers
  import opened Texts

  // ---- Trimming ----

  /** The characters .NET trims. */
  predicate IsSpace(c: char) {
    || '\U{0009}' <= c <= '\U{000d}' || c == ' ' || c == '\U{0085}' || c == '\U{00a0}' || c == '\U{1680}'
    || '\U{2000}' <= c <= '\U{200a}' || c == '\U{2028}' || c == '\U{2029}' || c == '\U{202f}'
    || c == '\U{205f}' || c == '\U{3000}'
  }

  function TrimStart(s: string): string {
    if s != "" && IsSpace(s[0]) then TrimStart(s[1..]) else s
  }

  function TrimEnd(s: string): string {
    if s != "" && IsSpace(s[|s| - 1]) then TrimEnd(s[..|s| - 1]) else s
  }

  function Trim(s: string): string { TrimEnd(TrimStart(s)) }

  /** The 25 characters of Unicode's white space. */
  lemma SpacesExactly(c: char)
    ensures IsSpace(c) <==>
              || 9 <= c as int <= 13 || 0x2000 <= c as int <= 0x200A
              || c as int in {0x20, 0x85, 0xA0, 0x1680, 0x2028, 0x2029, 0x202F, 0x205F, 0x3000}
  {
  }

  predicate IsBlank(s: string) { forall i | 0 <= i < |s| :: IsSpace(s[i]) }

  predicate Tight(s: string) { s != "" ==> !IsSpace(s[0]) && !IsSpace(s[|s| - 1]) }

  lemma {:induction false} TrimStartCuts(s: string) returns (front: string)
    ensures IsBlank(front) && s == front + TrimStart(s)
    ensures TrimStart(s) != "" ==> !IsSpace(TrimStart(s)[0])
  {
    if s != "" && IsSpace(s[0]) {
      front := TrimStartCuts(s[1..]);
      front := [s[0]] + front;
    } else {
      front := "";
    }
  }

  lemma {:induction false} TrimEndCuts(s: string) returns (back: string)
    ensures IsBlank(back) && s == TrimEnd(s) + back
    ensures TrimEnd(s) != "" ==> TrimEnd(s)[0] == s[0] && !IsSpace(TrimEnd(s)[|TrimEnd(s)| - 1])
  {
    if s != "" && IsSpace(s[|s| - 1]) {
      back := TrimEndCuts(s[..|s| - 1]);
      back := back + [s[|s| - 1]];
    } else {
      back := "";
    }
  }

  /** Trimming takes white space from both ends and no more. */
  lemma TrimCuts(s: string) returns (front: string, back: string)
    ensures IsBlank(front) && IsBlank(back) && s == front + Trim(s) + back && Tight(Trim(s))
    ensures Trim(s) == "" <==> IsBlank(s)
  {
    front := TrimStartCuts(s);
    back := TrimEndCuts(TrimStart(s));
    if Trim(s) != "" {
      assert s[|front|] == Trim(s)[0];
    }
  }

  lemma TrimTight(s: string)
    requires Tight(s)
    ensures Trim(s) == s
  {
  }

  lemma TrimOneBefore(s: string)
    requires Tight(s) && s != ""
    ensures Trim(" " + s) == s
  {
    var padded := " " + s;
    assert padded[1..] == s && IsSpace(padded[0]);
    TrimTight(s);
  }

  lemma TrimOneAfter(s: string)
    requires Tight(s) && s != ""
    ensures Trim(s + " ") == s
  {
    var padded := s + " ";
    assert padded[0] == s[0];
    assert padded[..|padded| - 1] == s && IsSpace(padded[|padded| - 1]);
    TrimTight(s);
  }

  // ---- Comments ----

  datatype Quote = Outside | Single | Double(escaped: bool)

  /** What one character does to the scanner; a comment starts at a '#' outside both kinds of quote. */
  function Scan(q: Quote, c: char): Quote {
    match q
    case Outside => if c == '\'' then Single else if c == '"' then Double(false) else Outside
    case Single => if c == '\'' then Outside else Single
    case Double(escaped) =>
      if c == '\\' && !escaped then Double(true)
      else if c == '"' && !escaped then Outside
      else Double(false)
  }

  /** The line up to its comment, read from a scanner state on. */
  function Uncommented(line: string, q: Quote): string {
    if line == "" then ""
    else if q.Outside? && line[0] == '#' then ""
    else [line[0]] + Uncommented(line[1..], Scan(q, line[0]))
  }

  function ScanAll(s: string, q: Quote): Quote {
    if s == "" then q else ScanAll(s[1..], Scan(q, s[0]))
  }

  /** The source's loop keeps three flags; `escaped` only ever matters inside double quotes. */
  method RemoveComment(line: string) returns (r: string)
    ensures r == Uncommented(line, Outside)
  {
    var inSingle, inDouble, escaped := false, false, false;
    var index := 0;
    ghost var q := Outside;
    assert line[0..] == line;
    while index < |line|
      invariant 0 <= index <= |line|
      invariant inSingle <==> q.Single?
      invariant inDouble <==> q.Double?
      invariant escaped <==> q == Double(true)
      invariant Uncommented(line, Outside) == line[..index] + Uncommented(line[index..], q)
    {
      var c := line[index];
      assert line[index..][1..] == line[index + 1..];
      if q.Outside? && c == '#' {
        assert line[..index] + "" == line[..index];
      } else {
        MoveOver(line, index, Uncommented(line[index + 1..], Scan(q, c)));
      }
      if inDouble && c == '\\' && !escaped {
        escaped := true;
        q := Double(true);
        index := index + 1;
        continue;
      }
      if c == '\'' && !inDouble {
        inSingle := !inSingle;
      } else if c == '"' && !inSingle && !escaped {
        inDouble := !inDouble;
      } else if c == '#' && !inSingle && !inDouble {
        return line[..index];
      }
      escaped := false;
      q := Scan(q, c);
      index := index + 1;
    }
    assert line[..|line|] + "" == line;
    return line;
  }

  lemma MoveOver(line: string, index: nat, rest: string)
    requires index < |line|
    ensures line[..index] + ([line[index]] + rest) == line[..index + 1] + rest
  {
  }

  lemma {:induction false} UncommentedAcross(a: string, b: string, q: Quote)
    requires Uncommented(a, q) == a
    ensures Uncommented(a + b, q) == a + Uncommented(b, ScanAll(a, q))
  {
    if a == "" {
      assert a + b == b;
    } else {
      var c, rest, next := a[0], a[1..], Scan(q, a[0]);
      assert Uncommented(a, q)[1..] == rest;
      UncommentedAcross(rest, b, next);
      assert (a + b)[0] == c && (a + b)[1..] == rest + b;
      Regroup([c], rest, Uncommented(b, ScanAll(rest, next)));
      assert a == [c] + rest;
    }
  }

  // ---- Sections and keys ----

  predicate IsSection(s: string) { |s| >= 2 && s[0] == '[' && s[|s| - 1] == ']' }

  /** A section line begins and ends with a bracket. */
  lemma SectionExactly(s: string)
    ensures IsSection(s) <==> s != "" && s[0] == '[' && s[|s| - 1] == ']'
  {
  }

  /** A line as the reader sees it. */
  function Cleaned(line: string): string { Trim(Uncommented(line, Outside)) }

  /** The value a cleaned line gives a key, if it is an entry for that key. */
  function ValueFor(cleaned: string, key: string): Option<string> {
    var equals := IndexOf(cleaned, '=');
    if equals.None? || Trim(cleaned[..equals.value]) != key then None
    else Some(Trim(cleaned[equals.value + 1..]))
  }

  // ---- Quoting ----

  /** Every occurrence of a character replaced by a text. */
  function Replace(s: string, c: char, text: string): string {
    if s == "" then "" else (if s[0] == c then text else [s[0]]) + Replace(s[1..], c, text)
  }

  function Escaped(value: string): string { Replace(Replace(value, '\\', "\\\\"), '"', "\\\"") }

  function QuoteToml(value: string): string { "\"" + Escaped(value) + "\"" }

  function Unescaped(inner: string): string {
    if inner == "" then ""
    else if inner[0] == '\\' && |inner| > 1 then [inner[1]] + Unescaped(inner[2..])
    else [inner[0]] + Unescaped(inner[1..])
  }

  /** The text a TOML string literal stands for; literal strings carry no escapes. */
  function Unquoted(value: string): Option<string> {
    if |value| < 2 then None
    else if value[0] == '\'' && value[|value| - 1] == '\'' then Some(value[1..|value| - 1])
    else if value[0] != '"' || value[|value| - 1] != '"' then None
    else Some(Unescaped(value[1..|value| - 1]))
  }

  method TryUnquoteToml(value: string) returns (ok: bool, result: string)
    ensures ok == Unquoted(value).Some?
    ensures ok ==> result == Unquoted(value).value
  {
    result := "";
    if |value| < 2 {
      return false, "";
    }
    if value[0] == '\'' && value[|value| - 1] == '\'' {
      return true, value[1..|value| - 1];
    }
    if value[0] != '"' || value[|value| - 1] != '"' {
      return false, "";
    }
    var inner := value[1..|value| - 1];
    ghost var rest := inner;
    var index := 1;
    while index < |value| - 1
      invariant 1 <= index <= |value| - 1
      invariant rest == value[index..|value| - 1]
      invariant Unescaped(inner) == result + Unescaped(rest)
    {
      if value[index] == '\\' && index + 1 < |value| - 1 {
        index := index + 1;
        rest := rest[2..];
      } else {
        rest := rest[1..];
      }
      Regroup(result, [value[index]], Unescaped(rest));
      result := result + [value[index]];
      index := index + 1;
    }
    assert rest == "";
    return true, result;
  }

  function EscapeOf(c: char): string {
    if c == '\\' then "\\\\" else if c == '"' then "\\\"" else [c]
  }

  /** Quoting one character in front of a value. */
  lemma EscapedStep(c: char, rest: string)
    ensures Escaped([c] + rest) == EscapeOf(c) + Escaped(rest)
  {
    var tail := Replace(rest, '\\', "\\\\");
    assert ([c] + rest)[1..] == rest;
    if c == '\\' {
      assert Replace([c] + rest, '\\', "\\\\") == ['\\'] + (['\\'] + tail);
      assert (['\\'] + (['\\'] + tail))[1..] == ['\\'] + tail;
      assert (['\\'] + tail)[1..] == tail;
      assert Replace(['\\'] + tail, '"', "\\\"") == ['\\'] + Replace(tail, '"', "\\\"");
    } else {
      assert ([c] + tail)[1..] == tail;
    }
  }

  /** Unquoting what was quoted gives the value back, whatever it contains. */
  lemma {:induction false} UnescapeUndoes(value: string)
    ensures Unescaped(Escaped(value)) == value
  {
    if value == "" {
    } else {
      var c, rest := value[0], value[1..];
      assert value == [c] + rest;
      EscapedStep(c, rest);
      UnescapeUndoes(rest);
      var e := Escaped(value);
      if c == '\\' || c == '"' {
        assert e[2..] == Escaped(rest);
      } else {
        assert e[1..] == Escaped(rest);
      }
    }
  }

  lemma UnquoteUndoes(value: string)
    ensures Unquoted(QuoteToml(value)) == Some(value)
  {
    var q := QuoteToml(value);
    assert q[1..|q| - 1] == Escaped(value);
    UnescapeUndoes(value);
  }

  /** One escaped character inside double quotes neither ends the line nor leaves the quotes. */
  lemma EscapeScans(c: char, rest: string)
    ensures Uncommented(EscapeOf(c) + rest, Double(false)) == EscapeOf(c) + Uncommented(rest, Double(false))
    ensures ScanAll(EscapeOf(c) + rest, Double(false)) == ScanAll(rest, Double(false))
  {
    var text := EscapeOf(c) + rest;
    if c == '\\' || c == '"' {
      var after := [c] + rest;
      assert text[1..] == after && after[1..] == rest;
      Regroup(['\\'], [c], Uncommented(rest, Double(false)));
      assert ['\\'] + [c] == EscapeOf(c);
    } else {
      assert text[1..] == rest;
    }
  }

  /** A quoted value is never cut by the comment scanner, and stays inside its quotes. */
  lemma {:induction false} EscapedScans(value: string)
    ensures Uncommented(Escaped(value), Double(false)) == Escaped(value)
    ensures ScanAll(Escaped(value), Double(false)) == Double(false)
  {
    if value == "" {
    } else {
      var c, rest := value[0], value[1..];
      assert value == [c] + rest;
      EscapedStep(c, rest);
      EscapedScans(rest);
      EscapeScans(c, Escaped(rest));
    }
  }

  lemma QuotedScans(value: string)
    ensures Uncommented(QuoteToml(value), Outside) == QuoteToml(value)
  {
    var e := Escaped(value);
    EscapedScans(value);
    UncommentedAcross(e, "\"", Double(false));
    assert "\""[1..] == "";
    assert QuoteToml(value)[1..] == e + "\"";
  }

  // ---- Lines written by hand ----

  /** Text outside quotes and comments. */
  predicate Plain(s: string) { '\'' !in s && '"' !in s && '#' !in s }

  lemma {:induction false} PlainScans(s: string)
    requires Plain(s)
    ensures Uncommented(s, Outside) == s && ScanAll(s, Outside) == Outside
  {
    if s != "" {
      PlainScans(s[1..]);
    }
  }

  lemma {:induction false} LiteralScans(value: string)
    requires '\'' !in value
    ensures Uncommented(value + "'", Single) == value + "'" && ScanAll(value + "'", Single) == Outside
  {
    if value == "" {
      assert "'"[1..] == "";
    } else {
      assert (value + "'")[1..] == value[1..] + "'";
      LiteralScans(value[1..]);
    }
  }

  lemma {:induction false} ScansInTurn(a: string, b: string, q: Quote)
    ensures ScanAll(a + b, q) == ScanAll(b, ScanAll(a, q))
  {
    if a == "" {
      assert a + b == b;
    } else {
      assert (a + b)[0] == a[0] && (a + b)[1..] == a[1..] + b;
      ScansInTurn(a[1..], b, Scan(q, a[0]));
    }
  }

  /** A value as a string of either kind: basic, with escapes, or literal, without. */
  function Literal(value: string, basic: bool): string {
    if basic then QuoteToml(value) else "'" + value + "'"
  }

  lemma LiteralReturns(value: string, basic: bool)
    requires basic || '\'' !in value
    ensures Uncommented(Literal(value, basic), Outside) == Literal(value, basic)
    ensures ScanAll(Literal(value, basic), Outside) == Outside
  {
    if basic {
      var e := Escaped(value);
      QuotedScans(value);
      EscapedScans(value);
      ScansInTurn(e, "\"", Double(false));
      assert "\""[1..] == "";
      assert QuoteToml(value)[1..] == e + "\"";
    } else {
      LiteralScans(value);
      assert ("'" + value + "'")[1..] == value + "'";
    }
  }

  /** A comment is cut off behind a string of either kind, whatever stands in the string. */
  lemma CommentIsCut(front: string, value: string, basic: bool, back: string, comment: string)
    requires Plain(front) && Plain(back) && (basic || '\'' !in value)
    ensures Uncommented(front + (Literal(value, basic) + (back + ("#" + comment))), Outside) ==
              front + (Literal(value, basic) + back)
  {
    PlainScans(front);
    PlainScans(back);
    LiteralReturns(value, basic);
    assert Uncommented("#" + comment, Outside) == "";
    UncommentedAcross(back, "#" + comment, Outside);
    assert back + "" == back;
    UncommentedAcross(Literal(value, basic), back + ("#" + comment), Outside);
    UncommentedAcross(front, Literal(value, basic) + (back + ("#" + comment)), Outside);
  }

  /** A string of either kind stands for its value; a literal one for whatever is between its quotes. Nothing
      else is a string. */
  lemma UnquotedExactly(value: string)
    ensures Unquoted(Literal(value, true)) == Some(value) && Unquoted(Literal(value, false)) == Some(value)
    ensures Unquoted(value).Some? <==>
              |value| >= 2 && value[0] == value[|value| - 1] && (value[0] == '"' || value[0] == '\'')
  {
    UnquoteUndoes(value);
    assert ("'" + value + "'")[1..|value| + 1] == value;
  }
}
