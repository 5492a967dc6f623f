/** Searching in strings. */
module Texts {
  import opened Wrappers

  function IndexOf(s: string, c: char): (r: Option<nat>)
    ensures r.None? <==> c !in s
    ensures r.Some? ==> r.value < |s| && s[r.value] == c && c !in s[..r.value]
  {
    if s == "" then None
    else if s[0] == c then Some(0)
    else
      var rest := IndexOf(s[1..], c);
      assert rest.Some? ==> s[..rest.value + 1] == [s[0]] + s[1..][..rest.value];
      if rest.None? then None else Some(rest.value + 1)
  }

  lemma FirstIndex(s: string, c: char, at: nat)
    requires at < |s| && s[at] == c && c !in s[..at]
    ensures IndexOf(s, c) == Some(at)
  {
    var r := IndexOf(s, c);
    assert forall i :: 0 <= i < at ==> s[..at][i] == s[i];
    assert r.Some?;
  }

  lemma Regroup(a: string, b: string, c: string)
    ensures a + (b + c) == (a + b) + c
  {
  }
}
