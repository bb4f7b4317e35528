/** The S-record loader: what it makes of any lines, and that it reproduces what has been encoded. */
module Srec {
  import opened Words
  import opened Memories
  import opened Regions

  // ---- Hexadecimal numbers ----

  /** The value of a hexadecimal digit, or -1. */
  function HexValue(c: char): int {
    if '0' <= c <= '9' then c as int - '0' as int
    else if 'A' <= c <= 'F' then c as int - 'A' as int + 10
    else if 'a' <= c <= 'f' then c as int - 'a' as int + 10
    else -1
  }

  function HexChar(n: int): (c: char)
    requires 0 <= n < 16
    ensures HexValue(c) == n
  {
    if n < 10 then '0' + n as char else 'A' + (n - 10) as char
  }

  /** The result of scanning a number. */
  datatype Scan = NoNumber | Number(value: nat)

  /** The number that the digits from `at` make, at most `width` of them. */
  function Digits(line: string, at: nat, width: nat, before: nat): nat
    decreases width
  {
    if width == 0 || at >= |line| || HexValue(line[at]) < 0 then before
    else Digits(line, at + 1, width - 1, before * 16 + HexValue(line[at]))
  }

  function ScanHex(line: string, at: nat, width: nat): Scan {
    if at >= |line| || HexValue(line[at]) < 0 then NoNumber else Number(Digits(line, at, width, 0))
  }

  // ---- Loading ----

  /** The data bytes of a line from column `i` to `end`; a pair that is no number leaves its byte out. */
  function LoadedData(ram: Ram, line: string, i: nat, end: nat, at: int): Ram
    decreases end - i
  {
    if i >= end then ram
    else
      var ram' := match ScanHex(line, i, 2) case Number(v) => Write8(ram, at, v % 0x100) case NoNumber => ram;
      LoadedData(ram', line, i + 2, end, at + 1)
  }

  /** A line that is no S1 or S2 record, or lacks its count or address, has no effect. */
  function LoadedLine(ram: Ram, line: string): Ram {
    if |line| < 2 || line[0] != 'S' || (line[1] != '1' && line[1] != '2') then ram
    else
      var width := if line[1] == '1' then 4 else 6;
      match (ScanHex(line, 2, 2), ScanHex(line, 4, width))
      case (Number(count), Number(address)) =>
        LoadedData(ram, line, 4 + width, count % 0x100 * 2 + 2, Wrap32(address))
      case _ => ram
  }

  /** What is read at once: up to and including a newline, but no more than 127 characters. */
  function LineLength(text: string, limit: nat): (n: nat)
    requires text != "" && limit > 0
    ensures 1 <= n <= |text| && n <= limit
  {
    if text[0] == '\n' || |text| == 1 || limit == 1 then 1 else 1 + LineLength(text[1..], limit - 1)
  }

  function LoadedText(ram: Ram, text: string): Ram
    decreases |text|
  {
    if text == "" then ram
    else
      var n := LineLength(text, 127);
      LoadedText(LoadedLine(ram, text[..n]), text[n..])
  }

  method LoadLine(mem: Memory, line: string)
    requires mem.Valid()
    modifies mem.ram
    ensures mem.Bytes() == LoadedLine(old(mem.Bytes()), line)
  {
    hide Digits, HexValue, Write8, Cell, Wrap32;
    if |line| < 2 || line[0] != 'S' {
      return;
    }
    var kind := line[1];
    if !(kind == '1' || kind == '2') {
      return;
    }
    var count := ScanHex(line, 2, 2);
    if count.NoNumber? {
      return;
    }
    var i := if kind == '1' then 8 else 10;
    var address := ScanHex(line, 4, i - 4);
    if address.NoNumber? {
      return;
    }
    var end := count.value % 0x100 * 2 + 2;
    ghost var ram, start := mem.Bytes(), i;
    var base: int := Wrap32(address.value);
    var n := 0;
    while i < end
      invariant n >= 0 && i == start + 2 * n
      invariant LoadedData(ram, line, start, end, base) == LoadedData(mem.Bytes(), line, i, end, base + n)
    {
      var byte := ScanHex(line, i, 2);
      if byte.Number? {
        WrapCell(base + n);
        WriteWraps(mem.Bytes(), base + n, byte.value % 0x100);
        mem.WriteByte(Wrap32(base + n), byte.value % 0x100);
      }
      i, n := i + 2, n + 1;
    }
  }

  lemma WriteWraps(ram: Ram, address: int, v: u8)
    ensures Write8(ram, Wrap32(address), v) == Write8(ram, address, v)
  {
    hide Wrap32, Cell;
    WrapCell(address);
  }

  method LoadSrec(mem: Memory, text: string)
    requires mem.Valid()
    modifies mem.ram
    ensures mem.Bytes() == LoadedText(old(mem.Bytes()), text)
  {
    hide LoadedLine;
    var rest := text;
    while rest != ""
      invariant LoadedText(mem.Bytes(), rest) == LoadedText(old(mem.Bytes()), text)
      decreases |rest|
    {
      var n := LineLength(rest, 127);
      LoadLine(mem, rest[..n]);
      rest := rest[n..];
    }
  }

  // ---- Records ----

  /** `s` is a hexadecimal spelling of `v`: so many digits of either case, the most significant first. */
  predicate Spells(s: string, v: int) {
    if s == "" then v == 0
    else v >= 0 && HexValue(s[|s| - 1]) == v % 16 && Spells(s[..|s| - 1], v / 16)
  }

  /** Two digits for each byte. */
  predicate SpellsBytes(s: string, bytes: seq<u8>) {
    if bytes == [] then s == ""
    else |s| >= 2 && Spells(s[..2], bytes[0]) && SpellsBytes(s[2..], bytes[1..])
  }

  /** A record with a 16-bit or a 24-bit address. */
  datatype Record = Record(wide: bool, address: int, data: seq<u8>) {
    /** The address fits, and the count of the bytes after it, checksum included, fits into a byte. */
    predicate Valid() {
      0 <= address < (if wide then 0x100_0000 else 0x1_0000) && Count() < 0x100
    }

    function Count(): int {
      |data| + if wide then 4 else 3
    }

    /** The columns of the address. */
    function Width(): int {
      if wide then 6 else 4
    }

    /** A line that spells the record. What comes after the data (a checksum, a line end) does not matter. */
    predicate IsLine(line: string) {
      && |line| >= 4 + Width() + 2 * |data|
      && line[0] == 'S' && line[1] == (if wide then '2' else '1')
      && Spells(line[2..4], Count()) && Spells(line[4..4 + Width()], address)
      && SpellsBytes(line[4 + Width()..4 + Width() + 2 * |data|], data)
    }

    /** The line in capitals, with its checksum and its newline. */
    function Line(checksum: u8): string
      requires Valid()
    {
      (if wide then "S2" else "S1") + Hex(Count(), 2) + Hex(address, Width()) + HexBytes(data) + Hex(checksum, 2)
      + "\n"
    }
  }

  /** A number as so many digits, the most significant first. */
  function Hex(v: int, digits: nat): (s: string)
    requires v >= 0
    ensures |s| == digits
  {
    if digits == 0 then "" else Hex(v / 16, digits - 1) + [HexChar(v % 16)]
  }

  function HexBytes(bytes: seq<u8>): (s: string)
    ensures |s| == 2 * |bytes|
  {
    if bytes == [] then "" else Hex(bytes[0], 2) + HexBytes(bytes[1..])
  }

  // ---- Scanning what has been spelled ----

  lemma {:induction false} SpelledDigits(s: string, v: int, i: nat)
    requires Spells(s, v) && i < |s|
    ensures HexValue(s[i]) >= 0 && v >= 0
  {
    hide HexValue;
    if i < |s| - 1 {
      SpelledDigits(s[..|s| - 1], v / 16, i);
    }
  }

  /** One digit more. */
  lemma {:induction false} DigitsSplit(line: string, at: nat, width: nat, before: nat)
    requires at + width < |line|
    requires forall i :: at <= i <= at + width ==> HexValue(line[i]) >= 0
    ensures Digits(line, at, width + 1, before) == Digits(line, at, width, before) * 16 + HexValue(line[at + width])
    decreases width
  {
    hide HexValue;
    if width > 0 {
      DigitsSplit(line, at + 1, width - 1, before * 16 + HexValue(line[at]));
    }
  }

  lemma {:induction false} DigitsOfSpelling(line: string, at: nat, v: int, digits: nat)
    requires at + digits <= |line| && Spells(line[at..at + digits], v)
    ensures Digits(line, at, digits, 0) == v
    decreases digits
  {
    hide HexValue;
    if digits > 0 {
      var s, low := line[at..at + digits], at + digits - 1;
      assert s[..digits - 1] == line[at..low] && s[digits - 1] == line[low];
      DigitsOfSpelling(line, at, v / 16, digits - 1);
      forall i | at <= i <= low
        ensures HexValue(line[i]) >= 0
      {
        SpelledDigits(s, v, i - at);
        assert line[i] == s[i - at];
      }
      DigitsSplit(line, at, digits - 1, 0);
    }
  }

  /** A number that has been spelled is scanned, wherever it stands in a line. */
  lemma ScanOfSpelling(line: string, at: nat, v: int, digits: nat)
    requires at + digits <= |line| && Spells(line[at..at + digits], v) && digits > 0
    ensures ScanHex(line, at, digits) == Number(v)
  {
    hide HexValue, Digits, Spells;
    SpelledDigits(line[at..at + digits], v, 0);
    assert line[at] == line[at..at + digits][0];
    DigitsOfSpelling(line, at, v, digits);
  }

  /** The digits of an encoder are a spelling. */
  lemma {:induction false} HexSpells(v: int, digits: nat)
    requires 0 <= v < Pow(16, digits)
    ensures Spells(Hex(v, digits), v)
  {
    hide Times;
    if digits > 0 {
      FewerDigits(v, Pow(16, digits - 1));
      HexSpells(v / 16, digits - 1);
      assert Hex(v, digits)[..digits - 1] == Hex(v / 16, digits - 1);
    }
  }

  lemma FewerDigits(v: nat, p: int)
    requires v < Times(16, p)
    ensures v / 16 < p
  {
  }

  lemma HexPowers()
    ensures Pow(16, 2) == 0x100 && Pow(16, 4) == 0x1_0000 && Pow(16, 6) == 0x100_0000
  {
    assert Pow(16, 2) == 0x100;
    PowAdd(16, 2, 2);
    PowAdd(16, 2, 4);
  }

  lemma {:induction false} HexBytesSpell(bytes: seq<u8>)
    ensures SpellsBytes(HexBytes(bytes), bytes)
  {
    hide Hex, Spells, Pow;
    if bytes != [] {
      HexPowers();
      HexSpells(bytes[0], 2);
      HexBytesSpell(bytes[1..]);
      assert HexBytes(bytes)[..2] == Hex(bytes[0], 2) && HexBytes(bytes)[2..] == HexBytes(bytes[1..]);
    }
  }

  // ---- Loading what has been spelled ----

  lemma {:induction false} DataLoads(ram: Ram, line: string, i: nat, data: seq<u8>, at: int)
    requires i + 2 * |data| <= |line| && SpellsBytes(line[i..i + 2 * |data|], data)
    ensures LoadedData(ram, line, i, i + 2 * |data|, at) == Poke(ram, at, data)
    decreases |data|
  {
    hide Spells, HexValue, Digits, ScanHex, Write8;
    if data != [] {
      var end := i + 2 * |data|;
      assert line[i..i + 2] == line[i..end][..2];
      assert line[i + 2..end] == line[i..end][2..];
      ScanOfSpelling(line, i, data[0], 2);
      DataLoads(Write8(ram, at, data[0]), line, i + 2, data[1..], at + 1);
      OneByte(ram, at, data[0]);
      PokeTwice(ram, at, [data[0]], data[1..]);
      assert [data[0]] + data[1..] == data;
    }
  }

  lemma OneByte(ram: Ram, at: int, b: u8)
    ensures Poke(ram, at, [b]) == Write8(ram, at, b)
  {
    hide Write8;
    assert [b][..0] == [];
  }

  /** Any spelling of a record puts exactly its data at its address. */
  lemma RecordLoads(ram: Ram, r: Record, line: string)
    requires r.Valid() && r.IsLine(line)
    ensures LoadedLine(ram, line) == Poke(ram, r.address, r.data)
  {
    hide Spells, SpellsBytes, ScanHex, LoadedData, Poke, Wrap32;
    ScanOfSpelling(line, 2, r.Count(), 2);
    ScanOfSpelling(line, 4, r.address, r.Width());
    DataLoads(ram, line, 4 + r.Width(), r.data, r.address);
  }

  // ---- Files ----

  /** A line of a file: a record as it is spelled, or a line of another kind. */
  datatype Entry = Data(record: Record, line: string) | Other(line: string) {
    predicate Valid() {
      match this
      case Data(r, s) => r.Valid() && r.IsLine(s)
      case Other(s) => |s| < 2 || s[0] != 'S' || (s[1] != '1' && s[1] != '2')
    }
  }

  predicate NoNewline(s: string) {
    forall i :: 0 <= i < |s| ==> s[i] != '\n'
  }

  /** What is read at once: it ends with its only newline, after 127 characters, or with the file. */
  predicate ReadAtOnce(s: string, last: bool) {
    && 1 <= |s| <= 127 && NoNewline(s[..|s| - 1])
    && (s[|s| - 1] == '\n' || |s| == 127 || last)
  }

  ghost predicate IsFile(entries: seq<Entry>) {
    forall i :: 0 <= i < |entries| ==> entries[i].Valid() && ReadAtOnce(entries[i].line, i == |entries| - 1)
  }

  function Text(entries: seq<Entry>): string {
    if entries == [] then "" else entries[0].line + Text(entries[1..])
  }

  function RecordsOf(entries: seq<Entry>): seq<Record> {
    if entries == [] then []
    else (if entries[0].Data? then [entries[0].record] else []) + RecordsOf(entries[1..])
  }

  /** Memory overlaid with the data of the records, in order. */
  function Overlaid(ram: Ram, records: seq<Record>): Ram
    decreases |records|
  {
    if records == [] then ram else Overlaid(Poke(ram, records[0].address, records[0].data), records[1..])
  }

  lemma {:induction false} LineLengthOf(line: string, rest: string, limit: nat)
    requires 1 <= |line| <= limit && NoNewline(line[..|line| - 1])
    requires line[|line| - 1] == '\n' || |line| == limit || rest == ""
    ensures LineLength(line + rest, limit) == |line|
    decreases |line|
  {
    if |line| > 1 {
      assert line[0] != '\n' by { assert line[0] == line[..|line| - 1][0]; }
      assert (line + rest)[1..] == line[1..] + rest;
      TailIsPlain(line);
      LineLengthOf(line[1..], rest, limit - 1);
    }
  }

  lemma TailIsPlain(s: string)
    requires |s| > 1 && NoNewline(s[..|s| - 1])
    ensures NoNewline(s[1..][..|s| - 2])
  {
    var tail := s[1..][..|s| - 2];
    forall i | 0 <= i < |tail|
      ensures tail[i] != '\n'
    {
      assert tail[i] == s[..|s| - 1][i + 1];
    }
  }

  /** Loading a file of S1 and S2 records, in any spelling, among lines of other kinds overlays memory with the
      records' data, each at its address, in order; the other lines have no effect. */
  lemma {:induction false} FileLoads(ram: Ram, entries: seq<Entry>)
    requires IsFile(entries)
    ensures LoadedText(ram, Text(entries)) == Overlaid(ram, RecordsOf(entries))
    decreases |entries|
  {
    hide LoadedLine, Record.IsLine, Record.Valid, Poke, LineLength;
    if entries != [] {
      var e, rest := entries[0], Text(entries[1..]);
      assert e.Valid() && ReadAtOnce(e.line, 0 == |entries| - 1);
      EntryLoads(ram, e);
      LineLengthOf(e.line, rest, 127);
      assert (e.line + rest)[..|e.line|] == e.line && (e.line + rest)[|e.line|..] == rest;
      FileLoads(LoadedLine(ram, e.line), entries[1..]);
      if e.Data? {
        OverlaidFirst(ram, e.record, RecordsOf(entries[1..]));
      } else {
        assert RecordsOf(entries) == RecordsOf(entries[1..]);
      }
    }
  }

  lemma EntryLoads(ram: Ram, e: Entry)
    requires e.Valid()
    ensures LoadedLine(ram, e.line) == if e.Data? then Poke(ram, e.record.address, e.record.data) else ram
  {
    hide Poke, Record.IsLine, Record.Valid, LoadedData, ScanHex;
    if e.Data? {
      RecordLoads(ram, e.record, e.line);
    }
  }

  lemma OverlaidFirst(ram: Ram, r: Record, records: seq<Record>)
    ensures Overlaid(ram, [r] + records) == Overlaid(Poke(ram, r.address, r.data), records)
  {
    hide Poke;
    assert ([r] + records)[1..] == records;
  }

  // ---- Whole images ----

  /** The records hold the image from `at` on, one after the other. */
  predicate Covers(records: seq<Record>, image: seq<u8>, at: int) {
    if records == [] then image == []
    else
      && records[0].address == at && records[0].data <= image
      && Covers(records[1..], image[|records[0].data|..], at + |records[0].data|)
  }

  /** However an image has been cut into records and spelled, loading the file reproduces it, and nothing else
      changes. */
  lemma ImageRoundTrip(ram: Ram, entries: seq<Entry>, image: seq<u8>, at: int)
    requires IsFile(entries) && Covers(RecordsOf(entries), image, at) && |image| <= MEM_MAX
    ensures LoadedText(ram, Text(entries)) == Poke(ram, at, image)
    ensures Peek(LoadedText(ram, Text(entries)), at, |image|) == image
  {
    hide LoadedText, Text, Poke, Peek, IsFile, Covers, RecordsOf;
    FileLoads(ram, entries);
    CoverOverlays(ram, RecordsOf(entries), image, at);
    PeekPoke(ram, at, image);
  }

  lemma {:induction false} CoverOverlays(ram: Ram, records: seq<Record>, image: seq<u8>, at: int)
    requires Covers(records, image, at)
    ensures Overlaid(ram, records) == Poke(ram, at, image)
    decreases |records|
  {
    if records == [] {
    } else {
      hide Poke, Overlaid;
      var first := records[0].data;
      var rest := image[|first|..];
      CoverOverlays(Poke(ram, at, first), records[1..], rest, at + |first|);
      PokeTwice(ram, at, first, rest);
      assert first + rest == image;
      OverlaidFirst(ram, records[0], records[1..]);
      assert [records[0]] + records[1..] == records;
    }
  }

  // ---- An encoder ----

  /** Blocks of 32 bytes, and what is left. */
  function BlockLength(image: seq<u8>): (n: nat)
    requires image != []
    ensures 1 <= n <= |image| && n <= 32
  {
    if |image| < 32 then |image| else 32
  }

  /** An image as S2 records of at most 32 bytes. */
  function Blocks(image: seq<u8>, at: int): (records: seq<Record>)
    requires 0 <= at && at + |image| <= MEM_MAX
    ensures forall r :: r in records ==> r.Valid() && |r.data| <= 32
    decreases |image|
  {
    if image == [] then []
    else
      var n := BlockLength(image);
      [Record(true, at, image[..n])] + Blocks(image[n..], at + n)
  }

  lemma {:induction false} BlocksCover(image: seq<u8>, at: int)
    requires 0 <= at && at + |image| <= MEM_MAX
    ensures Covers(Blocks(image, at), image, at)
    decreases |image|
  {
    hide BlockLength, Covers;
    if image == [] {
      CoversNothing(at);
    } else {
      var n := BlockLength(image);
      BlocksCover(image[n..], at + n);
      CoversFirst(Record(true, at, image[..n]), Blocks(image[n..], at + n), image, at);
    }
  }

  lemma CoversNothing(at: int)
    ensures Covers([], [], at)
  {
  }

  lemma CoversFirst(r: Record, records: seq<Record>, image: seq<u8>, at: int)
    requires r.address == at && r.data <= image && Covers(records, image[|r.data|..], at + |r.data|)
    ensures Covers([r] + records, image, at)
  {
    assert ([r] + records)[1..] == records;
  }

  /** Every record on a line of its own. */
  function Lines(records: seq<Record>): (entries: seq<Entry>)
    requires forall r :: r in records ==> r.Valid()
  {
    if records == [] then [] else [Data(records[0], records[0].Line(0))] + Lines(records[1..])
  }

  /** The parts of an encoded line. */
  lemma LineParts(r: Record, checksum: u8)
    requires r.Valid()
    ensures var line, width := r.Line(checksum), r.Width();
      && |line| == 7 + width + 2 * |r.data|
      && line[0] == 'S' && line[1] == (if r.wide then '2' else '1')
      && line[2..4] == Hex(r.Count(), 2)
      && line[4..4 + width] == Hex(r.address, width)
      && line[4 + width..4 + width + 2 * |r.data|] == HexBytes(r.data)
  {
    hide Hex, HexBytes;
  }

  /** The encoder's line is a spelling of the record. */
  lemma LineIsLine(r: Record, checksum: u8)
    requires r.Valid()
    ensures r.IsLine(r.Line(checksum))
  {
    hide Hex, HexBytes, Spells, SpellsBytes, Pow, Record.Line;
    LineParts(r, checksum);
    HexPowers();
    HexSpells(r.Count(), 2);
    HexSpells(r.address, r.Width());
    HexBytesSpell(r.data);
  }

  lemma {:induction false} HexIsPlain(v: int, digits: nat)
    requires v >= 0
    ensures NoNewline(Hex(v, digits))
  {
    if digits > 0 {
      HexIsPlain(v / 16, digits - 1);
    }
  }

  lemma {:induction false} HexBytesArePlain(bytes: seq<u8>)
    ensures NoNewline(HexBytes(bytes))
  {
    hide Hex;
    if bytes != [] {
      HexIsPlain(bytes[0], 2);
      HexBytesArePlain(bytes[1..]);
    }
  }

  lemma LineIsReadAtOnce(r: Record, checksum: u8, last: bool)
    requires r.Valid() && |r.data| <= 57
    ensures ReadAtOnce(r.Line(checksum), last)
  {
    hide Hex, HexBytes;
    HexIsPlain(r.Count(), 2);
    HexIsPlain(r.address, r.Width());
    HexBytesArePlain(r.data);
    HexIsPlain(checksum, 2);
    var body := (if r.wide then "S2" else "S1") + Hex(r.Count(), 2) + Hex(r.address, r.Width())
      + HexBytes(r.data) + Hex(checksum, 2);
    assert r.Line(checksum)[..|r.Line(checksum)| - 1] == body;
  }

  lemma {:induction false} LinesAreFile(records: seq<Record>)
    requires forall r :: r in records ==> r.Valid() && |r.data| <= 57
    ensures IsFile(Lines(records)) && RecordsOf(Lines(records)) == records
  {
    hide Record.Line, Record.IsLine, Record.Valid, ReadAtOnce;
    if records != [] {
      var entries := Lines(records);
      LinesAreFile(records[1..]);
      LineIsLine(records[0], 0);
      LineIsReadAtOnce(records[0], 0, |entries| == 1);
      assert entries[1..] == Lines(records[1..]);
      forall i | 0 <= i < |entries|
        ensures entries[i].Valid() && ReadAtOnce(entries[i].line, i == |entries| - 1)
      {
        if i > 0 {
          assert entries[i] == entries[1..][i - 1];
        }
      }
    }
  }

  /** Encoding an image anywhere in memory and loading the text reproduces it, and nothing else changes. */
  lemma EncodedRoundTrip(ram: Ram, image: seq<u8>, at: int)
    requires 0 <= at && at + |image| <= MEM_MAX
    ensures LoadedText(ram, Text(Lines(Blocks(image, at)))) == Poke(ram, at, image)
    ensures Peek(LoadedText(ram, Text(Lines(Blocks(image, at)))), at, |image|) == image
  {
    hide LoadedText, Text, Poke, Peek, IsFile, Covers, RecordsOf, Lines, Blocks;
    var records := Blocks(image, at);
    BlocksCover(image, at);
    LinesAreFile(records);
    ImageRoundTrip(ram, Lines(records), image, at);
  }
}
