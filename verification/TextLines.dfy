/** Splitting a text file into lines and writing lines back. */
module TextLines {

  predicate IsBreak(c: char) { c == '\r' || c == '\n' }

  predicate OneLine(s: string) { '\r' !in s && '\n' !in s }

  /** The first line break at or after the start, or the end of the text. */
  function BreakAt(s: string): (n: nat)
    ensures n <= |s| && OneLine(s[..n]) && (n < |s| ==> IsBreak(s[n]))
  {
    if s == "" || IsBreak(s[0]) then 0
    else
      var n := BreakAt(s[1..]);
      assert s[..n + 1] == [s[0]] + s[1..][..n];
      n + 1
  }

  /** The lines a reader sees: a break is a line feed, a carriage return, or the two together. */
  function ReadLines(s: string): (lines: seq<string>)
    ensures forall n :: 0 <= n < |lines| ==> OneLine(lines[n])
    decreases |s|
  {
    if s == "" then []
    else
      var n := BreakAt(s);
      if n == |s| then [s[..n]]
      else if s[n] == '\r' && n + 1 < |s| && s[n + 1] == '\n' then [s[..n]] + ReadLines(s[n + 2..])
      else [s[..n]] + ReadLines(s[n + 1..])
  }

  predicate IsNewLine(s: string) { s == "\n" || s == "\r\n" }

  /** Every line followed by the platform's line break. */
  function Terminated(lines: seq<string>, newLine: string): string {
    if lines == [] then "" else lines[0] + newLine + Terminated(lines[1..], newLine)
  }

  lemma FirstBreak(s: string, at: nat)
    requires at < |s| && IsBreak(s[at]) && OneLine(s[..at])
    ensures BreakAt(s) == at
  {
    var n := BreakAt(s);
    assert forall i :: 0 <= i < at ==> s[..at][i] == s[i];
    assert forall i :: 0 <= i < n ==> s[..n][i] == s[i];
  }

  /** The first line of a text is what stands before its first break. */
  lemma LineReadsBack(line: string, newLine: string, rest: string)
    requires OneLine(line) && IsNewLine(newLine)
    ensures ReadLines(line + newLine + rest) == [line] + ReadLines(rest)
  {
    var text, n := line + newLine + rest, |line|;
    assert text[..n] == line && text[n] == newLine[0];
    FirstBreak(text, n);
    if newLine == "\n" {
      assert text[n + 1..] == rest;
    } else {
      assert text[n + 1] == '\n' && text[n + 2..] == rest;
    }
  }

  /** Lines without breaks of their own are read back as they were written. */
  lemma {:induction false} WrittenLinesReadBack(lines: seq<string>, newLine: string)
    requires IsNewLine(newLine) && forall n :: 0 <= n < |lines| ==> OneLine(lines[n])
    ensures ReadLines(Terminated(lines, newLine)) == lines
  {
    if lines == [] {
    } else {
      WrittenLinesReadBack(lines[1..], newLine);
      LineReadsBack(lines[0], newLine, Terminated(lines[1..], newLine));
    }
  }
}
