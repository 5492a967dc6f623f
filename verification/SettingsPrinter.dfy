/** Printing a new setting.txt: a 256-byte buffer under the rotating key. Line feeds are inserted before a
    line until none of its encoded bytes is zero. */
module SettingsPrinter {
  import opened MachineTypes
  import opened Wrappers
  import opened SettingsKey
  import opened SettingsText
  import opened Texts

  const SIZE := 256

  function SerialLine(serial: string): string { "SERNO=" + serial + "\r\n" }

  function Lines(serial: string): seq<string> {
    ["AREA=EUR\r\n", "MODEL=RVL-001(EUR)\r\n", "DVD=0\r\n", "MPCH=0x7FFE\r\n", "CODE=LEH\r\n",
     SerialLine(serial), "VIDEO=PAL\r\n", "GAME=EU\r\n"]
  }

  /** Some character of the line would be encoded as zero if the line were written at this position. */
  predicate Clashes(line: string, position: nat) {
    ClashesWithin(line, position, |line|)
  }

  predicate ClashesWithin(line: string, position: nat, n: nat)
    requires n <= |line|
  {
    exists i :: 0 <= i < n && line[i] as int == KeyByte(position + i)
  }

  lemma ClashesOneMore(line: string, position: nat, n: nat)
    requires n < |line|
    ensures ClashesWithin(line, position, n + 1) <==>
              ClashesWithin(line, position, n) || line[n] as int == KeyByte(position + n)
  {
  }

  /** The lines after each other, each one pushed on by line feeds until it does not clash. */
  function Printed(lines: seq<string>, text: string): Option<string>
    decreases |lines|, SIZE - |text|
  {
    if lines == [] then Some(text)
    else if |text| + |lines[0]| > SIZE then None
    else if Clashes(lines[0], |text|) then Printed(lines, text + "\n")
    else Printed(lines[1..], text + lines[0])
  }

  predicate Ascii(text: string) { forall i :: 0 <= i < |text| ==> text[i] as int < 128 }

  /** The buffer starts with the encoding of a text. */
  predicate Encodes(bytes: seq<Byte>, text: string) {
    && Ascii(text) && |text| <= |bytes| == SIZE
    && forall i :: 0 <= i < |text| ==> bytes[i] == Xor(text[i] as int, KeyByte(i))
  }

  predicate ZeroFrom(bytes: seq<Byte>, position: nat) {
    forall i :: position <= i < |bytes| ==> bytes[i] == 0
  }

  /** The buffer holding a text: its encoding, then untouched zeros. */
  predicate Holds(bytes: seq<Byte>, text: string) {
    Encodes(bytes, text) && ZeroFrom(bytes, |text|)
  }

  lemma EncodesMore(before: seq<Byte>, after: seq<Byte>, text: string, c: char)
    requires Encodes(before, text) && |text| < SIZE && c as int < 128
    requires after == before[|text| := Xor(c as int, KeyByte(|text|))]
    ensures Encodes(after, text + [c])
  {
  }

  method WriteByte(bytes: array<Byte>, value: char, position: nat, key: nat, ghost text: string)
    returns (nextKey: nat)
    requires bytes.Length == SIZE && |text| == position < SIZE && value as int < 128
    requires key == KeyAt(position) && Encodes(bytes[..], text)
    modifies bytes
    ensures nextKey == KeyAt(position + 1)
    ensures Encodes(bytes[..], text + [value])
    ensures bytes[position] == 0 <==> value as int == KeyByte(position)
    ensures forall i :: position < i < SIZE ==> bytes[i] == old(bytes[i])
  {
    var pad := key % 256;
    XorUndoes(value as int, pad);
    bytes[position] := Xor(value as int, pad);
    EncodesMore(old(bytes[..]), bytes[..], text, value);
    NextKey(position);
    nextKey := Rotate(key);
  }

  method WriteLine(bytes: array<Byte>, line: string, position: nat, key: nat, ghost text: string)
    returns (next: nat, nextKey: nat, hasNull: bool)
    requires bytes.Length == SIZE && |text| == position && position + |line| <= SIZE
    requires key == KeyAt(position) && Ascii(line) && Encodes(bytes[..], text)
    modifies bytes
    ensures next == position + |line| && nextKey == KeyAt(next)
    ensures hasNull <==> Clashes(line, position)
    ensures Encodes(bytes[..], text + line)
    ensures forall i :: next <= i < SIZE ==> bytes[i] == old(bytes[i])
  {
    next, nextKey, hasNull := position, key, false;
    assert text + line[..0] == text;
    for n := 0 to |line|
      invariant next == position + n && nextKey == KeyAt(next)
      invariant hasNull <==> ClashesWithin(line, position, n)
      invariant Encodes(bytes[..], text + line[..n])
      invariant forall i :: next <= i < SIZE ==> bytes[i] == old(bytes[i])
    {
      nextKey := WriteByte(bytes, line[n], next, nextKey, text + line[..n]);
      ClashesOneMore(line, position, n);
      assert text + line[..n + 1] == text + line[..n] + [line[n]];
      hasNull := hasNull || bytes[next] == 0;
      next := next + 1;
    }
    assert line[..|line|] == line;
  }

  lemma LinesAreAscii(serial: string)
    requires Digits(serial)
    ensures forall i :: 0 <= i < 8 ==> Ascii(Lines(serial)[i])
  {
  }

  lemma EncodesPrefix(bytes: seq<Byte>, text: string, line: string)
    requires Encodes(bytes, text + line)
    ensures Encodes(bytes, text)
  {
    assert forall i :: 0 <= i < |text| ==> (text + line)[i] == text[i];
  }

  lemma PrintedStep(lines: seq<string>, text: string)
    requires lines != [] && |text| + |lines[0]| <= SIZE
    ensures Clashes(lines[0], |text|) ==> |text| < SIZE && Printed(lines, text) == Printed(lines, text + "\n")
    ensures !Clashes(lines[0], |text|) ==> Printed(lines, text) == Printed(lines[1..], text + lines[0])
  {
  }

  lemma PrintedFull(lines: seq<string>, text: string)
    requires lines != [] && |text| + |lines[0]| > SIZE
    ensures Printed(lines, text) == None
  {
  }

  lemma ZerosKept(before: seq<Byte>, after: seq<Byte>, position: nat)
    requires |before| == |after| && ZeroFrom(before, position)
    requires forall i :: position <= i < |after| ==> after[i] == before[i]
    ensures ZeroFrom(after, position)
  {
  }

  /** Writes a line; if one of its bytes came out as zero, a line feed takes the place of its first. */
  method TryLine(bytes: array<Byte>, line: string, position: nat, key: nat, ghost text: string)
    returns (placed: bool, next: nat, nextKey: nat)
    requires bytes.Length == SIZE && |text| == position && position + |line| <= SIZE
    requires key == KeyAt(position) && Ascii(line)
    requires Encodes(bytes[..], text) && ZeroFrom(bytes[..], position + |line|)
    modifies bytes
    ensures placed <==> !Clashes(line, position)
    ensures next == (if placed then position + |line| else position + 1) && nextKey == KeyAt(next)
    ensures placed ==> Holds(bytes[..], text + line)
    ensures !placed ==> Encodes(bytes[..], text + "\n") && ZeroFrom(bytes[..], position + |line|)
  {
    var hasNull;
    next, nextKey, hasNull := WriteLine(bytes, line, position, key, text);
    ZerosKept(old(bytes[..]), bytes[..], position + |line|);
    if !hasNull {
      return true, next, nextKey;
    }
    ghost var written := bytes[..];
    EncodesPrefix(written, text, line);
    nextKey := WriteByte(bytes, '\n', position, key, text);
    ZerosKept(written, bytes[..], position + |line|);
    return false, position + 1, nextKey;
  }

  /** Writes one line where it does not clash, shifting it by line feeds; gives up when it no longer fits. */
  method PlaceLine(bytes: array<Byte>, line: string, position: nat, key: nat,
                   ghost text: string, ghost lines: seq<string>)
    returns (ok: bool, next: nat, nextKey: nat, ghost grown: string)
    requires bytes.Length == SIZE && |text| == position <= SIZE
    requires key == KeyAt(position) && Ascii(line) && Holds(bytes[..], text)
    requires lines != [] && lines[0] == line
    modifies bytes
    ensures !ok ==> Printed(lines, text) == None
    ensures ok ==> Printed(lines, text) == Printed(lines[1..], grown)
    ensures ok ==> next == |grown| <= SIZE && nextKey == KeyAt(next) && Holds(bytes[..], grown)
  {
    ok, next, nextKey, grown := false, position, key, text;
    ghost var printed := Printed(lines, text);
    while next + |line| <= SIZE
      invariant next == |grown| <= SIZE && nextKey == KeyAt(next)
      invariant printed == Printed(lines, grown)
      invariant Encodes(bytes[..], grown) && ZeroFrom(bytes[..], next + |line|)
      decreases SIZE - next
    {
      PrintedStep(lines, grown);
      ok, next, nextKey := TryLine(bytes, line, next, nextKey, grown);
      if ok {
        grown := grown + line;
        return;
      }
      grown := grown + "\n";
    }
    PrintedFull(lines, grown);
  }

  method EncodeNew(serial: string) returns (result: Option<seq<Byte>>)
    ensures result.Some? <==> IsSerial(serial) && Printed(Lines(serial), "").Some?
    ensures result.Some? ==> |result.value| == 256 && Holds(result.value, Printed(Lines(serial), "").value)
  {
    if !IsSerial(serial) {
      return None;
    }
    var bytes := new Byte[SIZE](_ => 0);
    var lines := Lines(serial);
    LinesAreAscii(serial);
    var position, key := 0, FIRST_KEY;
    ghost var text := "";
    for n := 0 to |lines|
      invariant position == |text| <= SIZE && key == KeyAt(position) && Holds(bytes[..], text)
      invariant Printed(lines, "") == Printed(lines[n..], text)
    {
      assert lines[n..][1..] == lines[n + 1..];
      var ok;
      ok, position, key, text := PlaceLine(bytes, lines[n], position, key, text, lines[n..]);
      if !ok {
        return None;
      }
    }
    assert lines[|lines|..] == [];
    return Some(bytes[..]);
  }

  // ---- Every serial can be written ----

  predicate AllHarmless(line: string) { forall i :: 0 <= i < |line| ==> Harmless(line[i] as int) }

  lemma HarmlessNeverClashes(line: string, position: nat)
    requires AllHarmless(line)
    ensures !Clashes(line, position)
  {
    forall i | 0 <= i < |line| ensures line[i] as int != KeyByte(position + i) {
      KeyFits(position + i);
    }
  }

  lemma SerialCharacterFitsAt67(serial: string, i: nat)
    requires IsSerial(serial) && i < |SerialLine(serial)|
    ensures SerialLine(serial)[i] as int != KeyByte(67 + i)
  {
    KeyFits(67 + i);
    var c := SerialLine(serial)[i];
    if i < 6 {
      assert c == "SERNO="[i];
    } else if i < 6 + |serial| {
      assert c == serial[i - 6];
      assert (67 + i) % 32 == i + 3;
    } else {
      assert c == "\r\n"[i - 6 - |serial|];
    }
  }

  /** After 67 characters the serial's line cannot clash: 'N' sits at phase 6 and the digits at 9 to 17. */
  lemma SerialLineFitsAt67(serial: string)
    requires IsSerial(serial)
    ensures !Clashes(SerialLine(serial), 67)
  {
    forall i | 0 <= i < |SerialLine(serial)| ensures SerialLine(serial)[i] as int != KeyByte(67 + i) {
      SerialCharacterFitsAt67(serial, i);
    }
  }

  function Feeds(n: nat): (r: string)
    ensures |r| == n && forall i :: 0 <= i < n ==> r[i] == '\n'
  {
    seq(n, _ => '\n')
  }

  function Head(): string {
    "AREA=EUR\r\n" + "MODEL=RVL-001(EUR)\r\n" + "DVD=0\r\n" + "MPCH=0x7FFE\r\n" + "CODE=LEH\r\n"
  }

  function Foot(): string { "VIDEO=PAL\r\n" + "GAME=EU\r\n" }

  lemma PlainLine(lines: seq<string>, text: string)
    requires lines != [] && |text| + |lines[0]| <= SIZE
    requires AllHarmless(lines[0])
    ensures Printed(lines, text) == Printed(lines[1..], text + lines[0])
  {
    HarmlessNeverClashes(lines[0], |text|);
  }

  /** From 60 on, at most seven line feeds bring the serial's line to a place where it fits. */
  lemma {:induction false} SerialLinePlaced(serial: string, lines: seq<string>, text: string) returns (feeds: nat)
    requires IsSerial(serial) && lines != [] && lines[0] == SerialLine(serial)
    requires 60 <= |text| <= 67
    ensures feeds <= 67 - |text|
    ensures Printed(lines, text) == Printed(lines[1..], text + Feeds(feeds) + SerialLine(serial))
    decreases 67 - |text|
  {
    var line := SerialLine(serial);
    PrintedStep(lines, text);
    if |text| == 67 {
      SerialLineFitsAt67(serial);
    }
    if Clashes(line, |text|) {
      var more := SerialLinePlaced(serial, lines, text + "\n");
      feeds := more + 1;
      assert Feeds(feeds) == "\n" + Feeds(more);
      assert text + Feeds(feeds) + line == text + "\n" + Feeds(more) + line;
    } else {
      feeds := 0;
      assert text + Feeds(0) + line == text + line;
    }
  }

  function Layout(serial: string, feeds: nat): string {
    Head() + Feeds(feeds) + SerialLine(serial) + Foot()
  }

  lemma TwoPlainLines(lines: seq<string>, n: nat, text: string)
    requires n + 2 <= |lines| && |text| + |lines[n]| + |lines[n + 1]| <= SIZE
    requires AllHarmless(lines[n]) && AllHarmless(lines[n + 1])
    ensures Printed(lines[n..], text) == Printed(lines[n + 2..], text + lines[n] + lines[n + 1])
  {
    PlainLine(lines[n..], text);
    assert lines[n..][1..] == lines[n + 1..];
    PlainLine(lines[n + 1..], text + lines[n]);
    assert lines[n + 1..][1..] == lines[n + 2..];
  }

  lemma FivePlainLines(lines: seq<string>)
    requires |lines| >= 5 && |lines[0] + lines[1] + lines[2] + lines[3] + lines[4]| <= SIZE
    requires forall i :: 0 <= i < 5 ==> AllHarmless(lines[i])
    ensures Printed(lines, "") == Printed(lines[5..], lines[0] + lines[1] + lines[2] + lines[3] + lines[4])
  {
    var a, b, c, d := lines[0], lines[1], lines[2], lines[3];
    TwoPlainLines(lines, 0, "");
    assert lines[0..] == lines && "" + a + b == a + b;
    TwoPlainLines(lines, 2, a + b);
    PlainLine(lines[4..], a + b + c + d);
    assert lines[4..][1..] == lines[5..];
  }

  lemma HeadPrinted(lines: seq<string>, serial: string)
    requires lines == Lines(serial)
    ensures Printed(lines, "") == Printed(lines[5..], Head())
  {
    assert AllHarmless(lines[0]) && AllHarmless(lines[1]);
    assert AllHarmless(lines[2]) && AllHarmless(lines[3]) && AllHarmless(lines[4]);
    FivePlainLines(lines);
  }

  lemma FootPrinted(lines: seq<string>, serial: string, text: string)
    requires lines == Lines(serial) && |text| <= SIZE - 20
    ensures Printed(lines[6..], text) == Some(text + Foot())
  {
    var a, b := lines[6], lines[7];
    TwoPlainLines(lines, 6, text);
    assert lines[8..] == [];
    Regroup(text, a, b);
  }

  /** The retry loop always succeeds: every valid serial is printed, with at most seven line feeds, and
      only in front of the serial's own line. */
  lemma EverySerialIsPrinted(serial: string) returns (feeds: nat)
    requires IsSerial(serial)
    ensures feeds <= 7 && Printed(Lines(serial), "") == Some(Layout(serial, feeds))
  {
    var lines := Lines(serial);
    HeadPrinted(lines, serial);
    feeds := SerialLinePlaced(serial, lines[5..], Head());
    assert lines[5..][1..] == lines[6..];
    FootPrinted(lines, serial, Head() + Feeds(feeds) + SerialLine(serial));
  }
}
