/** Reading a setting.txt, and the round trip from a new console identity. */
module NandSettings {
  import opened MachineTypes
  import opened Numerals
  import opened Wrappers
  import opened SettingsKey
  import opened SettingsText
  import opened Texts
  import opened SettingsPrinter

  /** The plain text of a buffer: up to the first zero, without carriage returns. `kept` is what the
      bytes before `from` have contributed. */
  function Decoded(bytes: seq<Byte>, from: nat, kept: string): string
    requires from <= |bytes|
    decreases |bytes| - from
  {
    if from == |bytes| then kept
    else
      var value := Xor(bytes[from], KeyByte(from));
      if value == 0 then kept
      else Decoded(bytes, from + 1, kept + Kept(value))
  }

  function Kept(value: Byte): string { if value == 0x0d then "" else [value as char] }

  method Decrypt(bytes: seq<Byte>) returns (decoded: string)
    ensures decoded == Decoded(bytes, 0, "")
  {
    var key, i := FIRST_KEY, 0;
    decoded := "";
    while i < |bytes|
      invariant 0 <= i <= |bytes|
      invariant key == KeyAt(i)
      invariant Decoded(bytes, 0, "") == Decoded(bytes, i, decoded)
    {
      var value := Xor(bytes[i], key % 256);
      NextKey(i);
      key := Rotate(key);
      if value == 0 {
        return;
      }
      decoded := decoded + if value != 0x0d then [value as char] else "";
      i := i + 1;
    }
  }

  method Read(file: seq<Byte>) returns (result: Option<Settings>)
    ensures result == if |file| < 256 then None else Some(Fields(Decoded(file[..256], 0, "")))
  {
    if |file| < SIZE {
      return None;
    }
    var decoded := Decrypt(file[..SIZE]);
    var settings := ParseSettings(decoded);
    return Some(settings);
  }

  // ---- Round trip ----

  function WithoutReturns(text: string): string {
    if text == "" then ""
    else (if text[0] == '\r' then "" else [text[0]]) + WithoutReturns(text[1..])
  }

  lemma {:induction false} WithoutReturnsConcat(a: string, b: string)
    ensures WithoutReturns(a + b) == WithoutReturns(a) + WithoutReturns(b)
  {
    if a == "" {
      assert a + b == b;
    } else {
      WithoutReturnsConcat(a[1..], b);
      assert (a + b)[1..] == a[1..] + b;
      Regroup(if a[0] == '\r' then "" else [a[0]], WithoutReturns(a[1..]), WithoutReturns(b));
    }
  }

  /** What the untouched end of the buffer decodes to: the key itself. */
  function Junk(from: nat): string
    decreases SIZE - from
  {
    if from >= SIZE then "" else [KeyByte(from) as char] + Junk(from + 1)
  }

  lemma {:induction false} JunkIsOneBareLine(from: nat)
    ensures '\n' !in Junk(from) && '=' !in Junk(from)
    decreases SIZE - from
  {
    if from >= SIZE {
    } else {
      KeyFits(from);
      JunkIsOneBareLine(from + 1);
    }
  }

  lemma {:induction false} JunkDecoded(bytes: seq<Byte>, from: nat, kept: string)
    requires |bytes| == SIZE && from <= SIZE && ZeroFrom(bytes, from)
    ensures Decoded(bytes, from, kept) == kept + Junk(from)
    decreases SIZE - from
  {
    if from >= SIZE {
    } else {
      XorUndoes(bytes[from], KeyByte(from));
      KeyFits(from);
      JunkDecoded(bytes, from + 1, kept + Kept(KeyByte(from)));
      Regroup(kept, [KeyByte(from) as char], Junk(from + 1));
    }
  }

  lemma {:induction false} TextDecoded(bytes: seq<Byte>, text: string, from: nat, kept: string)
    requires Encodes(bytes, text) && from <= |text| && forall i :: 0 <= i < |text| ==> text[i] as int != 0
    ensures Decoded(bytes, from, kept) == Decoded(bytes, |text|, kept + WithoutReturns(text[from..]))
    decreases |text| - from
  {
    if from == |text| {
      assert kept + WithoutReturns(text[from..]) == kept;
    } else {
      var c := text[from] as int;
      assert bytes[from] == Xor(text[from] as int, KeyByte(from));
      XorUndoes(c, KeyByte(from));
      TextDecoded(bytes, text, from + 1, kept + Kept(c));
      assert text[from..][1..] == text[from + 1..];
      Regroup(kept, Kept(c), WithoutReturns(text[from + 1..]));
    }
  }

  /** A whole buffer decodes to its text and one line of junk. */
  lemma HeldTextDecoded(bytes: seq<Byte>, text: string)
    requires Holds(bytes, text) && forall i :: 0 <= i < |text| ==> text[i] as int != 0
    ensures Decoded(bytes, 0, "") == WithoutReturns(text) + Junk(|text|)
  {
    TextDecoded(bytes, text, 0, "");
    assert text[0..] == text && "" + WithoutReturns(text) == WithoutReturns(text);
    JunkDecoded(bytes, |text|, WithoutReturns(text));
  }

  predicate Plain(s: string) { '\r' !in s && '\n' !in s }

  lemma {:induction false} PlainKept(s: string)
    requires Plain(s)
    ensures WithoutReturns(s) == s
  {
    if s == "" {
    } else {
      assert forall c :: c in s[1..] ==> c in s;
      PlainKept(s[1..]);
      assert s == [s[0]] + s[1..];
    }
  }

  /** The settings of a text that is followed by junk in its buffer. */
  function Spelled(text: string, junk: string): Settings { Fields(WithoutReturns(text) + junk) }

  lemma ReturnDropped(line: string, rest: string)
    requires Plain(line)
    ensures WithoutReturns(line + "\r\n" + rest) == line + "\n" + WithoutReturns(rest)
  {
    PlainKept(line);
    WithoutReturnsConcat(line + "\r\n", rest);
    WithoutReturnsConcat(line, "\r\n");
    assert WithoutReturns("\r\n") == "\n" by {
      assert "\r\n"[1..] == "\n";
    }
  }

  /** A printed line: a name, '=', a value and the line end. */
  predicate IsEntry(line: string, name: string, value: string) {
    && line == name + "=" + value + "\r\n"
    && Plain(name + "=" + value) && name != "" && '=' !in name
  }

  lemma LineSpelled(line: string, name: string, value: string, rest: string, junk: string)
    requires IsEntry(line, name, value)
    ensures Spelled(line + rest, junk) == Spelled(rest, junk)[name := value]
  {
    var field, after := name + "=" + value, WithoutReturns(rest);
    ReturnDropped(field, rest);
    Regroup(field + "\n", after, junk);
    EntryPeel(field, name, value, after + junk);
  }

  lemma {:induction false} FeedsSpelled(feeds: nat, rest: string, junk: string)
    ensures Spelled(Feeds(feeds) + rest, junk) == Spelled(rest, junk)
  {
    if feeds == 0 {
      assert Feeds(0) + rest == rest;
    } else {
      var more := Feeds(feeds - 1) + rest;
      assert Feeds(feeds) + rest == "\n" + more;
      WithoutReturnsConcat("\n", more);
      assert WithoutReturns("\n" + more) + junk == "" + "\n" + (WithoutReturns(more) + junk);
      FieldsPeel("", WithoutReturns(more) + junk);
      FeedsSpelled(feeds - 1, rest, junk);
    }
  }

  function Identity(serial: string): Settings {
    map[][
      "GAME" := "EU"]["VIDEO" := "PAL"]["SERNO" := serial]["CODE" := "LEH"]["MPCH" := "0x7FFE"][
      "DVD" := "0"]["MODEL" := "RVL-001(EUR)"]["AREA" := "EUR"]
  }

  lemma FootSpelled(video: string, game: string, junk: string)
    requires IsEntry(video, "VIDEO", "PAL") && IsEntry(game, "GAME", "EU")
    requires '\n' !in junk && '=' !in junk
    ensures Spelled(video + game, junk) == map[]["GAME" := "EU"]["VIDEO" := "PAL"]
  {
    assert WithoutReturns("") + junk == junk;
    assert game + "" == game;
    LineSpelled(game, "GAME", "EU", "", junk);
    LineSpelled(video, "VIDEO", "PAL", game, junk);
  }

  predicate HeadLines(area: string, model: string, dvd: string, mpch: string, code: string) {
    && IsEntry(area, "AREA", "EUR") && IsEntry(model, "MODEL", "RVL-001(EUR)") && IsEntry(dvd, "DVD", "0")
    && IsEntry(mpch, "MPCH", "0x7FFE") && IsEntry(code, "CODE", "LEH")
  }

  /** Five lines in front of a text, whatever it is. */
  lemma HeadSpelled(area: string, model: string, dvd: string, mpch: string, code: string, rest: string, junk: string)
    requires HeadLines(area, model, dvd, mpch, code)
    ensures Spelled((area + model + dvd + mpch + code) + rest, junk) ==
              Spelled(rest, junk)["CODE" := "LEH"]["MPCH" := "0x7FFE"]["DVD" := "0"]["MODEL" := "RVL-001(EUR)"][
                "AREA" := "EUR"]
  {
    RegroupHead(area, model, dvd, mpch, code, rest);
    LineSpelled(code, "CODE", "LEH", rest, junk);
    LineSpelled(mpch, "MPCH", "0x7FFE", code + rest, junk);
    LineSpelled(dvd, "DVD", "0", mpch + (code + rest), junk);
    LineSpelled(model, "MODEL", "RVL-001(EUR)", dvd + (mpch + (code + rest)), junk);
    LineSpelled(area, "AREA", "EUR", model + (dvd + (mpch + (code + rest))), junk);
  }

  lemma RegroupHead(a: string, b: string, c: string, d: string, e: string, rest: string)
    ensures (a + b + c + d + e) + rest == a + (b + (c + (d + (e + rest))))
  {
    Regroup(a + b + c + d, e, rest);
    Regroup(a + b + c, d, e + rest);
    Regroup(a + b, c, d + (e + rest));
    Regroup(a, b, c + (d + (e + rest)));
  }

  lemma FirstHeadIsEntries()
    ensures IsEntry("AREA=EUR\r\n", "AREA", "EUR") && IsEntry("DVD=0\r\n", "DVD", "0")
  {
  }

  lemma LastHeadIsEntries()
    ensures IsEntry("MPCH=0x7FFE\r\n", "MPCH", "0x7FFE") && IsEntry("CODE=LEH\r\n", "CODE", "LEH")
  {
  }

  lemma ModelIsEntry()
    ensures IsEntry("MODEL=RVL-001(EUR)\r\n", "MODEL", "RVL-001(EUR)")
  {
  }

  lemma FootIsEntries(serial: string)
    requires Digits(serial)
    ensures IsEntry(SerialLine(serial), "SERNO", serial)
    ensures IsEntry("VIDEO=PAL\r\n", "VIDEO", "PAL") && IsEntry("GAME=EU\r\n", "GAME", "EU")
  {
  }

  lemma BodySpelled(serial: string, line: string, feeds: string, foot: string, junk: string)
    requires IsEntry(line, "SERNO", serial) && feeds == Feeds(|feeds|)
    ensures Spelled(feeds + (line + foot), junk) == Spelled(foot, junk)["SERNO" := serial]
  {
    LineSpelled(line, "SERNO", serial, foot, junk);
    FeedsSpelled(|feeds|, line + foot, junk);
  }

  lemma LayoutSpelled(serial: string, feeds: nat, junk: string)
    requires IsSerial(serial) && '\n' !in junk && '=' !in junk
    ensures Spelled(Layout(serial, feeds), junk) == Identity(serial)
  {
    var line, body := SerialLine(serial), Feeds(feeds) + (SerialLine(serial) + Foot());
    FirstHeadIsEntries();
    ModelIsEntry();
    LastHeadIsEntries();
    FootIsEntries(serial);
    FootSpelled("VIDEO=PAL\r\n", "GAME=EU\r\n", junk);
    BodySpelled(serial, line, Feeds(feeds), Foot(), junk);
    HeadSpelled("AREA=EUR\r\n", "MODEL=RVL-001(EUR)\r\n", "DVD=0\r\n", "MPCH=0x7FFE\r\n", "CODE=LEH\r\n",
                body, junk);
    Regroup(Head(), Feeds(feeds), line + Foot());
    Regroup(Head() + Feeds(feeds), line, Foot());
  }

  /** A new console's buffer reads back as exactly the eight settings it was printed from, and as a valid
      identity. */
  lemma NewIdentityReadsBack(serial: string, bytes: seq<Byte>)
    requires IsSerial(serial)
    requires Printed(Lines(serial), "").Some? && Holds(bytes, Printed(Lines(serial), "").value)
    ensures Fields(Decoded(bytes, 0, "")) == Identity(serial)
    ensures HasIdentity(Identity(serial))
  {
    var feeds := EverySerialIsPrinted(serial);
    var text := Layout(serial, feeds);
    LayoutHasNoZero(serial, feeds);
    HeldTextDecoded(bytes, text);
    JunkIsOneBareLine(|text|);
    LayoutSpelled(serial, feeds, Junk(|text|));
    IdentityIsValid(serial);
  }

  lemma IdentityIsValid(serial: string)
    requires IsSerial(serial)
    ensures HasIdentity(Identity(serial))
  {
    var settings := Identity(serial);
    assert settings["SERNO"] == serial;
    assert settings["CODE"] == "LEH" && settings["AREA"] == "EUR" && settings["GAME"] == "EU";
  }

  lemma LayoutHasNoZero(serial: string, feeds: nat)
    requires IsSerial(serial)
    ensures forall i :: 0 <= i < |Layout(serial, feeds)| ==> Layout(serial, feeds)[i] as int != 0
  {
  }

  // ---- The serial of a new console ----

  lemma {:induction false} DecimalFits(n: nat, width: nat, limit: nat)
    requires n < limit && width >= 1 && limit == PowerOfTen(width)
    ensures 1 <= |Decimal(n)| <= width && Digits(Decimal(n))
    ensures n > 0 ==> Decimal(n)[0] != '0'
  {
    if n >= 10 {
      DecimalFits(n / 10, width - 1, PowerOfTen(width - 1));
    }
  }

  function PowerOfTen(width: nat): nat { if width == 0 then 1 else 10 * PowerOfTen(width - 1) }

  const SERIALS := 1_000_000_000

  /** The low nine digits of the clock, padded with zeros; nothing before 1970. */
  function GenerateSerial(now: int): string {
    if now < 0 then ""
    else
      var digits := Decimal(now % SERIALS);
      Zeros(if |digits| <= 9 then 9 - |digits| else 0) + digits
  }

  /** The clock gives a usable serial except before 1970 and in the one second in a billion that would
      give nine zeros. */
  lemma ClockGivesSerialExactly(now: int)
    ensures IsSerial(GenerateSerial(now)) <==> now >= 0 && now % SERIALS != 0
    ensures now >= 0 ==> |GenerateSerial(now)| == 9
  {
    if now >= 0 {
      var n := now % SERIALS;
      assert PowerOfTen(3) == 1000;
      assert PowerOfTen(6) == 1_000_000;
      assert PowerOfTen(9) == SERIALS;
      DecimalFits(n, 9, SERIALS);
      var digits := Decimal(n);
      var pad := 9 - |digits|;
      var serial := GenerateSerial(now);
      assert serial == Zeros(pad) + digits;
      if n > 0 {
        assert serial[pad] == digits[0];
      } else {
        assert digits == "0";
        assert forall i :: 0 <= i < 9 ==> serial[i] == '0';
      }
    }
  }

  /** The serial shows the clock's low nine digits as a number. */
  lemma SerialShowsClock(now: nat)
    ensures |GenerateSerial(now)| == 9 && Value(GenerateSerial(now)) == now % 1_000_000_000
  {
    ClockGivesSerialExactly(now);
    DecimalValue(now % SERIALS);
    LeadingZeros(9 - |Decimal(now % SERIALS)|, Decimal(now % SERIALS));
  }

  lemma {:induction false} PositiveExactly(s: string)
    requires Digits(s)
    ensures Value(s) > 0 <==> exists i :: 0 <= i < |s| && s[i] != '0'
  {
    if s == "" {
    } else {
      var front := s[..|s| - 1];
      PositiveExactly(front);
      if i :| 0 <= i < |s| && s[i] != '0' {
        assert i < |front| ==> front[i] == s[i];
      }
    }
  }

  /** What makes settings a console's identity: a positive serial number of at most nine digits, and the three
      codes within their lengths. */
  lemma IdentityExactly(settings: Settings)
    ensures HasIdentity(settings) <==>
              && {"SERNO", "CODE", "AREA", "GAME"} <= settings.Keys
              && |settings["SERNO"]| <= 9 && Digits(settings["SERNO"]) && Value(settings["SERNO"]) > 0
              && 1 <= |settings["CODE"]| <= 5 && 1 <= |settings["AREA"]| <= 3 && 1 <= |settings["GAME"]| <= 2
  {
    if "SERNO" in settings && Digits(settings["SERNO"]) {
      PositiveExactly(settings["SERNO"]);
    }
  }
}
