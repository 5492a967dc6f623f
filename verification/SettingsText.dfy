/** The text inside setting.txt: one `key=value` per line, the first value of a key counting. */
module SettingsText {
  import opened Texts

  type Settings = map<string, string>

  /** What one line contributes: nothing without a key before its first '='. */
  function FieldOf(line: string): Settings {
    var equals := IndexOf(line, '=');
    if equals.Some? && equals.value != 0
    then map[line[..equals.value] := line[equals.value + 1..]]
    else map[]
  }

  /** The settings a text spells: an earlier line's value for a key hides every later one. */
  function Fields(text: string): Settings {
    var end := IndexOf(text, '\n');
    if end.None? then FieldOf(text)
    else Fields(text[end.value + 1..]) + FieldOf(text[..end.value])
  }

  lemma FirstWins(rest: Settings, field: Settings, settings: Settings)
    ensures (rest + field) + settings == rest + (field + settings)
  {
  }

  /** Adds the line's field unless its key is already there. */
  method Emplace(before: Settings, line: string) returns (settings: Settings)
    ensures settings == FieldOf(line) + before
  {
    settings := before;
    var equals := IndexOf(line, '=');
    if equals.Some? && equals.value != 0 {
      var name := line[..equals.value];
      if name !in settings {
        settings := settings[name := line[equals.value + 1..]];
      }
    }
  }

  method ParseSettings(decoded: string) returns (settings: Settings)
    ensures settings == Fields(decoded)
  {
    settings := map[];
    var rest := decoded;
    ghost var all := Fields(decoded);
    while rest != ""
      invariant all == Fields(rest) + settings
      decreases |rest|
    {
      var end := IndexOf(rest, '\n');
      if end.None? {
        settings := Emplace(settings, rest);
        return;
      }
      var line, after := rest[..end.value], rest[end.value + 1..];
      FirstWins(Fields(after), FieldOf(line), settings);
      settings := Emplace(settings, line);
      rest := after;
    }
    assert Fields("") == map[];
  }

  predicate Digits(s: string) { forall i :: 0 <= i < |s| ==> '0' <= s[i] <= '9' }

  predicate IsSerial(s: string) {
    && 1 <= |s| <= 9
    && Digits(s)
    && exists i :: 0 <= i < |s| && s[i] != '0'
  }

  predicate Present(settings: Settings, name: string, most: nat) {
    name in settings && 1 <= |settings[name]| <= most
  }

  predicate HasIdentity(settings: Settings) {
    && "SERNO" in settings && IsSerial(settings["SERNO"])
    && Present(settings, "CODE", 5) && Present(settings, "AREA", 3) && Present(settings, "GAME", 2)
  }

  lemma FieldIs(name: string, value: string)
    requires name != "" && '=' !in name
    ensures FieldOf(name + "=" + value) == map[name := value]
  {
    var line := name + "=" + value;
    assert line[..|name|] == name && line[|name| + 1..] == value;
    FirstIndex(line, '=', |name|);
  }

  lemma FieldsPeel(line: string, rest: string)
    requires '\n' !in line
    ensures Fields(line + "\n" + rest) == Fields(rest) + FieldOf(line)
  {
    var text := line + "\n" + rest;
    assert text[..|line|] == line && text[|line| + 1..] == rest;
    FirstIndex(text, '\n', |line|);
  }

  /** A line without a line feed of its own and a name without '=' contributes exactly its field. */
  lemma EntryPeel(line: string, name: string, value: string, rest: string)
    requires line == name + "=" + value
    requires '\n' !in line && name != "" && '=' !in name
    ensures Fields(line + "\n" + rest) == Fields(rest)[name := value]
  {
    FieldsPeel(line, rest);
    FieldIs(name, value);
  }
}
