/**
  The hexadecimal renderings the value formatter writes into `.reg` data:
  comma-separated byte pairs (`ByteToHexList`), the per-character encoding of a
  string (`StringToHexList`), of a string array (`StringArrayToHexList`), and the
  eight-digit rendering of a DWORD. Each rendering comes with the reading that
  undoes it.
*/
module Hex {
  import opened Wrappers
  import opened Strings
  import opened Registry

  /** The hexadecimal digit for `d`, in upper or lower case. */
  function HexDigit(d: int, upper: bool): (c: char)
    requires 0 <= d < 16
    ensures c != ',' && c != '-'
  {
    if d < 10 then (48 + d) as char
    else if upper then (55 + d) as char
    else (87 + d) as char
  }

  /** The value of a hexadecimal digit of either case. */
  function DigitValue(c: char): (r: Option<int>)
    ensures r.Some? ==> 0 <= r.value < 16
  {
    if '0' <= c <= '9' then Some(c as int - 48)
    else if 'a' <= c <= 'f' then Some(c as int - 87)
    else if 'A' <= c <= 'F' then Some(c as int - 55)
    else Option.None
  }

  /** Reading a digit back gives its value, whatever the case it was written in. */
  lemma DigitRoundTrip(d: int, upper: bool)
    requires 0 <= d < 16
    ensures DigitValue(HexDigit(d, upper)) == Some(d)
  {
  }

  /** A byte as two hexadecimal digits, the high nibble first (`{0:x2}`, or `X2` for upper case). */
  function Hex2(b: byte, upper: bool): (s: string)
    ensures |s| == 2 && ',' !in s && '-' !in s
  {
    [HexDigit(b as int / 16, upper), HexDigit(b as int % 16, upper)]
  }

  /** The byte written by two hexadecimal digits. */
  function ParseByte(s: string): (r: Option<byte>)
    requires |s| == 2
  {
    match (DigitValue(s[0]), DigitValue(s[1]))
    case (Some(h), Some(l)) => Some((h * 16 + l) as byte)
    case _ => Option.None
  }

  lemma ParseByteRoundTrip(b: byte, upper: bool)
    ensures ParseByte(Hex2(b, upper)) == Some(b)
  {
    DigitRoundTrip(b as int / 16, upper);
    DigitRoundTrip(b as int % 16, upper);
  }

  /** The two-digit rendering of each byte. */
  function Pairs(bs: seq<byte>, upper: bool): (parts: seq<string>)
    ensures |parts| == |bs|
    ensures forall i :: 0 <= i < |bs| ==> parts[i] == Hex2(bs[i], upper)
  {
    seq(|bs|, i requires 0 <= i < |bs| => Hex2(bs[i], upper))
  }

  /** The `.reg` hex list: each byte as two digits, separated by commas. */
  function HexList(bs: seq<byte>, upper: bool): string {
    Join(Pairs(bs, upper), ",")
  }

  /** Reads a non-empty hex list back; `None` for anything that is not one. */
  function ParseNonEmpty(s: string): (r: Option<seq<byte>>)
    requires |s| >= 2
    decreases |s|
  {
    match ParseByte(s[..2])
    case None => Option.None
    case Some(b) =>
      if |s| == 2 then Some([b])
      else if |s| >= 5 && s[2] == ',' then
        match ParseNonEmpty(s[3..])
        case None => Option.None
        case Some(rest) => Some([b] + rest)
      else Option.None
  }

  /** Reads a hex list back into its bytes: the empty string is the empty list. */
  function ParseHexList(s: string): Option<seq<byte>> {
    if s == "" then Some([]) else if |s| < 2 then Option.None else ParseNonEmpty(s)
  }

  /** A hex list of n bytes is n pairs and n - 1 commas, and it is empty exactly for no bytes. */
  lemma {:induction false} HexListShape(bs: seq<byte>, upper: bool)
    ensures |bs| == 0 ==> HexList(bs, upper) == ""
    ensures |bs| > 0 ==> |HexList(bs, upper)| == 3 * |bs| - 1
    ensures |bs| > 1 ==> HexList(bs, upper) == Hex2(bs[0], upper) + "," + HexList(bs[1..], upper)
    ensures |bs| == 1 ==> HexList(bs, upper) == Hex2(bs[0], upper)
    decreases |bs|
  {
    if |bs| > 1 {
      assert Pairs(bs, upper)[1..] == Pairs(bs[1..], upper);
      HexListShape(bs[1..], upper);
    }
  }

  /** A pair, a comma and a longer text parse as the pair's byte followed by the text's bytes. */
  lemma ParsePairThen(h: string, t: string)
    requires |h| == 2 && |t| >= 2
    ensures ParseNonEmpty(h + "," + t) ==
      match ParseByte(h)
      case None => Option.None
      case Some(b) =>
        match ParseNonEmpty(t)
        case None => Option.None
        case Some(rest) => Some([b] + rest)
  {
    var s := h + "," + t;
    assert s[..2] == h;
    assert s[2] == ',';
    assert s[3..] == t;
  }

  /** Reading a non-empty hex list gives back the bytes it was written from. */
  lemma {:induction false} NonEmptyRoundTrip(bs: seq<byte>, upper: bool)
    requires |bs| > 0
    ensures |HexList(bs, upper)| >= 2 && ParseNonEmpty(HexList(bs, upper)) == Some(bs)
    decreases |bs|
  {
    HexListShape(bs, upper);
    ParseByteRoundTrip(bs[0], upper);
    if |bs| == 1 {
      var s := HexList(bs, upper);
      assert s[..2] == s;
      assert bs == [bs[0]];
    } else {
      NonEmptyRoundTrip(bs[1..], upper);
      ParsePairThen(Hex2(bs[0], upper), HexList(bs[1..], upper));
      assert bs == [bs[0]] + bs[1..];
    }
  }

  /** Reading a hex list gives back the bytes it was written from. */
  lemma {:induction false} HexListRoundTrip(bs: seq<byte>, upper: bool)
    ensures ParseHexList(HexList(bs, upper)) == Some(bs)
  {
    HexListShape(bs, upper);
    if |bs| > 0 {
      NonEmptyRoundTrip(bs, upper);
    }
  }

  /** Two non-empty hex lists joined by a comma are the hex list of both byte sequences. */
  lemma {:induction false} HexListAppend(a: seq<byte>, b: seq<byte>, upper: bool)
    requires |a| > 0 && |b| > 0
    ensures HexList(a + b, upper) == HexList(a, upper) + "," + HexList(b, upper)
    decreases |a|
  {
    HexListShape(a + b, upper);
    HexListShape(a, upper);
    assert (a + b)[0] == a[0];
    if |a| > 1 {
      assert (a + b)[1..] == a[1..] + b;
      HexListAppend(a[1..], b, upper);
    } else {
      assert (a + b)[1..] == b;
    }
  }

  /** `BitConverter.ToString`: upper-case pairs separated by hyphens. */
  function BitConverterToString(bs: seq<byte>): string {
    Join(Pairs(bs, true), "-")
  }

  /** Replacing the separator of a join by another one rejoins the parts with it,
      when no part contains the old separator. */
  lemma {:induction false} ReplaceSeparator(parts: seq<string>, a: char, b: char)
    requires forall i :: 0 <= i < |parts| ==> a !in parts[i]
    ensures Replace(Join(parts, [a]), [a], [b]) == Join(parts, [b])
    decreases |parts|
  {
    if |parts| == 1 {
      ReplaceCharAbsent(parts[0], a, [b]);
    } else if |parts| > 1 {
      var rest := parts[1..];
      assert forall i :: 0 <= i < |rest| ==> a !in rest[i] by {
        forall i | 0 <= i < |rest|
          ensures a !in rest[i]
        {
          assert rest[i] == parts[i + 1];
        }
      }
      ReplaceSeparator(rest, a, b);
      ReplaceSeparatorStep(parts[0], Join(rest, [a]), a, b);
    }
  }

  /** The step of `ReplaceSeparator`: a part without the old separator, the separator, and the rest. */
  lemma ReplaceSeparatorStep(first: string, rest: string, a: char, b: char)
    requires a !in first
    ensures Replace(first + [a] + rest, [a], [b]) == first + [b] + Replace(rest, [a], [b])
  {
    ReplaceCharAbsent(first, a, [b]);
    assert Replace([a], [a], [b]) == [b] + Replace([], [a], [b]);
    ReplaceCharAppend(first, [a], a, [b]);
    ReplaceCharAppend(first + [a], rest, a, [b]);
  }

  /** `ByteToHexList`: the `BitConverter` rendering with every hyphen turned into a comma. */
  function ByteToHexList(bs: seq<byte>): (s: string)
    ensures s == HexList(bs, true)
  {
    ReplaceSeparator(Pairs(bs, true), '-', ',');
    Replace(BitConverterToString(bs), "-", ",")
  }

  /** The byte `(byte)c` of a character: its low eight bits. */
  function LowByte(c: char): byte {
    (c as int % 0x100) as byte
  }

  /** One character as `StringToHexList` writes it: its low byte in lower case, then `00`. */
  function CharHex(c: char): (s: string)
    ensures s == HexList([LowByte(c), 0], false)
  {
    HexListShape([LowByte(c), 0], false);
    assert [LowByte(c), 0 as byte][1..] == [0 as byte];
    Hex2(LowByte(c), false) + ",00"
  }

  /** The rendering of each character of a string. */
  function CharHexes(line: string): (parts: seq<string>)
    ensures |parts| == |line|
    ensures forall i :: 0 <= i < |line| ==> parts[i] == CharHex(line[i])
  {
    seq(|line|, i requires 0 <= i < |line| => CharHex(line[i]))
  }

  /** What `StringToHexList` returns: nothing for the empty string, otherwise the
      characters' renderings separated by commas and followed by `,00,00`. */
  function StringHex(line: string): string {
    if |line| == 0 then "" else Join(CharHexes(line), ",") + ",00,00"
  }

  /** The bytes `StringToHexList` writes per character: the low byte, then zero. */
  function LowBytes(line: string): (bs: seq<byte>)
    ensures |bs| == 2 * |line|
  {
    if |line| == 0 then [] else [LowByte(line[0]), 0 as byte] + LowBytes(line[1..])
  }

  /** The hex list of each chunk. */
  function HexLists(chunks: seq<seq<byte>>, upper: bool): (lists: seq<string>)
    ensures |lists| == |chunks|
    ensures forall i :: 0 <= i < |chunks| ==> lists[i] == HexList(chunks[i], upper)
  {
    seq(|chunks|, i requires 0 <= i < |chunks| => HexList(chunks[i], upper))
  }

  /** Joining non-empty hex lists with commas is the hex list of all their bytes. */
  lemma {:induction false} JoinHexLists(chunks: seq<seq<byte>>, upper: bool)
    requires |chunks| > 0
    requires forall i :: 0 <= i < |chunks| ==> |chunks[i]| > 0
    ensures Join(HexLists(chunks, upper), ",") == HexList(Concat(chunks), upper)
    decreases |chunks|
  {
    var lists := HexLists(chunks, upper);
    if |chunks| > 1 {
      var tail := chunks[1..];
      JoinHexLists(tail, upper);
      assert lists[1..] == HexLists(tail, upper);
      ConcatNonEmpty(tail);
      assert Concat(chunks) == chunks[0] + Concat(tail);
      HexListAppend(chunks[0], Concat(tail), upper);
    } else {
      assert Concat(chunks) == chunks[0] + Concat([]);
      assert Concat(chunks) == chunks[0];
    }
  }

  /** The byte sequences written one after another. */
  function Concat(chunks: seq<seq<byte>>): seq<byte> {
    if |chunks| == 0 then [] else chunks[0] + Concat(chunks[1..])
  }

  lemma {:induction false} ConcatNonEmpty(chunks: seq<seq<byte>>)
    requires |chunks| > 0 && |chunks[0]| > 0
    ensures |Concat(chunks)| > 0
  {
  }

  /** The pairs of a string's characters, chunked per character. */
  function CharChunks(line: string): (chunks: seq<seq<byte>>)
    ensures |chunks| == |line|
    ensures forall i :: 0 <= i < |line| ==> chunks[i] == [LowByte(line[i]), 0]
  {
    seq(|line|, i requires 0 <= i < |line| => [LowByte(line[i]), 0 as byte])
  }

  lemma {:induction false} ConcatCharChunks(line: string)
    ensures Concat(CharChunks(line)) == LowBytes(line)
    decreases |line|
  {
    if |line| > 0 {
      assert CharChunks(line)[1..] == CharChunks(line[1..]);
      ConcatCharChunks(line[1..]);
    }
  }

  /** `StringToHexList` of a non-empty string is the hex list of its low bytes, each
      followed by zero, and a terminating zero character. */
  lemma {:induction false} StringHexBytes(line: string)
    requires |line| > 0
    ensures StringHex(line) == HexList(LowBytes(line) + [0, 0], false)
  {
    var chunks := CharChunks(line);
    CharHexesAreHexLists(line);
    JoinHexLists(chunks, false);
    ConcatCharChunks(line);
    assert Join(CharHexes(line), ",") == HexList(LowBytes(line), false);
    ZeroCharHex();
    HexListAppend(LowBytes(line), [0, 0], false);
  }

  lemma CharHexesAreHexLists(line: string)
    ensures CharHexes(line) == HexLists(CharChunks(line), false)
  {
  }

  /** The zero character renders as `00,00`. */
  lemma ZeroCharHex()
    ensures HexList([0, 0], false) == "00,00"
  {
    HexListShape([0, 0], false);
    assert [0 as byte, 0][1..] == [0 as byte];
    HexListShape([0], false);
    assert Hex2(0, false) == "00";
  }

  /** The characters whose bytes `bs` holds as (low byte, zero) pairs; `None` if a high byte is not zero. */
  function FromLowBytes(bs: seq<byte>): Option<string>
    decreases |bs|
  {
    if |bs| == 0 then Some([])
    else if |bs| == 1 || bs[1] != 0 then Option.None
    else
      match FromLowBytes(bs[2..])
      case None => Option.None
      case Some(rest) => Some([bs[0] as int as char] + rest)
  }

  /** For a string of characters below U+0100 the low bytes are its UTF-16LE encoding,
      so they give the string back. */
  lemma {:induction false} Latin1RoundTrip(line: string)
    requires forall i :: 0 <= i < |line| ==> line[i] < '\U{100}'
    ensures FromLowBytes(LowBytes(line)) == Some(line)
    decreases |line|
  {
    if |line| > 0 {
      var bs := LowBytes(line);
      assert bs[2..] == LowBytes(line[1..]);
      Latin1RoundTrip(line[1..]);
      assert line == [line[0]] + line[1..];
    }
  }

  /** Characters from U+0100 on lose their high byte: U+0100 renders as U+0000 does. */
  lemma HighByteLost()
    ensures StringHex("\U{100}") == StringHex("\U{0}") == "00,00,00,00"
  {
    assert LowByte('\U{100}') == 0 == LowByte('\U{0}');
    assert Hex2(0, false) == "00";
    assert CharHex('\U{100}') == "00,00" == CharHex('\U{0}');
    assert CharHexes("\U{100}") == ["00,00"];
    assert CharHexes("\U{0}") == ["00,00"];
  }

  /** The `StringToHexList` loop: a comma before every rendering but the first, and
      `,00,00` after the last. */
  method StringToHexList(line: string) returns (hex: string)
    ensures hex == StringHex(line)
  {
    hex := "";
    if |line| > 0 {
      for j := 0 to |line|
        invariant hex == Join(CharHexes(line[..j]), ",")
        invariant hex == "" <==> j == 0
      {
        ghost var done := CharHexes(line[..j]);
        assert CharHexes(line[..j + 1]) == done + [CharHex(line[j])];
        if hex != "" {
          JoinSnoc(done, CharHex(line[j]), ",");
          hex := hex + ",";
        }
        var item := Hex2(LowByte(line[j]), false) + ",00";
        hex := hex + item;
      }
      assert line[..|line|] == line;
      hex := hex + ",00,00";
    }
  }

  /** What one entry of a string array contributes: nothing for a null entry. */
  function EntryHex(entry: Option<string>): string {
    match entry
    case None => ""
    case Some(line) => StringHex(line)
  }

  function EntryHexes(entries: seq<Option<string>>): (parts: seq<string>)
    ensures |parts| == |entries|
    ensures forall i :: 0 <= i < |entries| ==> parts[i] == EntryHex(entries[i])
  {
    seq(|entries|, i requires 0 <= i < |entries| => EntryHex(entries[i]))
  }

  /** What `StringArrayToHexList` returns: nothing for an empty array, otherwise the
      entries' renderings separated by commas and followed by `,00,00`. */
  function StringArrayHex(entries: seq<Option<string>>): string {
    if |entries| == 0 then "" else Join(EntryHexes(entries), ",") + ",00,00"
  }

  /** One iteration of the `StringArrayToHexList` loop extends the joined renderings
      by a comma (except before the first entry) and the entry's rendering. */
  lemma EntryStep(entries: seq<Option<string>>, i: nat, hex: string)
    requires i < |entries| && hex == Join(EntryHexes(entries[..i]), ",")
    ensures var before := if i != 0 then hex + "," else hex;
            Join(EntryHexes(entries[..i + 1]), ",") == before + EntryHex(entries[i])
            && (entries[i].None? ==> Join(EntryHexes(entries[..i + 1]), ",") == before)
  {
    var done := EntryHexes(entries[..i]);
    assert EntryHexes(entries[..i + 1]) == done + [EntryHex(entries[i])];
    if i != 0 {
      JoinSnoc(done, EntryHex(entries[i]), ",");
    } else {
      assert done + [EntryHex(entries[i])] == [EntryHex(entries[i])];
    }
    var before := if i != 0 then hex + "," else hex;
    assert before + "" == before;
  }

  /** The `StringArrayToHexList` loop: a comma before every entry but the first, the
      entry's own rendering unless it is null, and `,00,00` at the end. */
  method StringArrayToHexList(entries: seq<Option<string>>) returns (hex: string)
    ensures hex == StringArrayHex(entries)
  {
    hex := "";
    if |entries| > 0 {
      for i := 0 to |entries|
        invariant hex == Join(EntryHexes(entries[..i]), ",")
      {
        EntryStep(entries, i, hex);
        if i != 0 {
          hex := hex + ",";
        }
        match entries[i]
        case Some(line) =>
          var part := StringToHexList(line);
          hex := hex + part;
        case None =>
      }
      assert entries[..|entries|] == entries;
      hex := hex + ",00,00";
    }
  }

  /** The bytes of a `REG_MULTI_SZ` value: each string's characters and its terminating
      zero character, then one more zero character after the last string. */
  function MultiBytes(lines: seq<string>): seq<byte> {
    Concat(LineChunks(lines)) + [0, 0]
  }

  /** Each string's bytes with its terminating zero character. */
  function LineChunks(lines: seq<string>): (chunks: seq<seq<byte>>)
    ensures |chunks| == |lines|
    ensures forall i :: 0 <= i < |lines| ==> chunks[i] == LowBytes(lines[i]) + [0, 0]
  {
    seq(|lines|, i requires 0 <= i < |lines| => LowBytes(lines[i]) + [0, 0])
  }

  /** When every entry is a non-empty string, `StringArrayToHexList` writes the
      `REG_MULTI_SZ` layout of the low bytes as one hex list. */
  lemma MultiStringLayout(lines: seq<string>)
    requires |lines| > 0
    requires forall i :: 0 <= i < |lines| ==> |lines[i]| > 0
    ensures StringArrayHex(seq(|lines|, i requires 0 <= i < |lines| => Some(lines[i]))) == HexList(MultiBytes(lines), false)
  {
    var entries := seq(|lines|, i requires 0 <= i < |lines| => Some(lines[i]));
    var chunks := LineChunks(lines);
    LinesJoinAsChunks(lines, entries);
    ConcatNonEmpty(chunks);
    TerminatorHex(Concat(chunks));
  }

  /** The joined renderings of non-empty strings are the hex list of their chunks laid end to end. */
  lemma LinesJoinAsChunks(lines: seq<string>, entries: seq<Option<string>>)
    requires |lines| > 0 && |entries| == |lines|
    requires forall i :: 0 <= i < |lines| ==> |lines[i]| > 0 && entries[i] == Some(lines[i])
    ensures Join(EntryHexes(entries), ",") == HexList(Concat(LineChunks(lines)), false)
  {
    var chunks := LineChunks(lines);
    forall i | 0 <= i < |lines|
      ensures EntryHexes(entries)[i] == HexLists(chunks, false)[i]
    {
      StringHexBytes(lines[i]);
    }
    assert EntryHexes(entries) == HexLists(chunks, false);
    JoinHexLists(chunks, false);
  }

  /** The final zero character adds `,00,00` to a non-empty hex list. */
  lemma TerminatorHex(bs: seq<byte>)
    requires |bs| > 0
    ensures HexList(bs + [0, 0], false) == HexList(bs, false) + ",00,00"
  {
    HexListShape([0, 0], false);
    assert [0 as byte, 0][1..] == [0 as byte];
    HexListAppend(bs, [0, 0], false);
  }

  /** The rendering of the one-character line `"a"`. */
  lemma LineAHex()
    ensures StringHex("a") == "61,00,00,00"
  {
    assert LowByte('a') == 0x61;
    assert Hex2(0x61, false) == "61";
    assert CharHex('a') == "61,00";
    assert CharHexes("a") == ["61,00"];
  }

  /** An empty string inside an array leaves an empty item in the list: the rendering
      of `["", "a"]` starts with a comma and does not read back as a hex list. */
  lemma EmptyEntryLeavesEmptyItem()
    ensures StringArrayHex([Some(""), Some("a")]) == ",61,00,00,00,00,00"
    ensures ParseHexList(StringArrayHex([Some(""), Some("a")])) == Option.None
  {
    LineAHex();
    var parts := EntryHexes([Some(""), Some("a")]);
    assert parts == ["", "61,00,00,00"];
    assert Join(parts, ",") == ",61,00,00,00";
    var s := ",61,00,00,00,00,00";
    assert ParseByte(s[..2]) == Option.None by {
      assert s[..2] == [',', '6'];
    }
  }

  /** 16 to the power `n`. */
  function Pow16(n: nat): (p: nat)
    ensures p >= 1
  {
    if n == 0 then 1 else 16 * Pow16(n - 1)
  }

  /** `u` as exactly `n` lower-case hexadecimal digits, most significant first (`{0:xn}`). */
  function HexDigits(u: nat, n: nat): (s: string)
    ensures |s| == n
  {
    if n == 0 then "" else HexDigits(u / 16, n - 1) + [HexDigit(u % 16, false)]
  }

  /** The number a string of hexadecimal digits writes; `None` if some character is not a digit. */
  function ParseHexDigits(s: string): Option<nat>
    decreases |s|
  {
    if |s| == 0 then Some(0)
    else
      match (ParseHexDigits(s[..|s| - 1]), DigitValue(s[|s| - 1]))
      case (Some(high), Some(d)) => Some(high * 16 + d)
      case _ => Option.None
  }

  /** Reading `n` digits back gives the number, when it fits in `n` digits. */
  lemma {:induction false} HexDigitsRoundTrip(u: nat, n: nat)
    requires u < Pow16(n)
    ensures ParseHexDigits(HexDigits(u, n)) == Some(u)
  {
    if n > 0 {
      var s := HexDigits(u, n);
      assert s[..|s| - 1] == HexDigits(u / 16, n - 1);
      HexDigitsRoundTrip(u / 16, n - 1);
      DigitRoundTrip(u % 16, false);
    }
  }

  /** The 32-bit pattern of an `int`, read as unsigned: the value `{0:x8}` prints. */
  function Unsigned32(n: int32): (u: nat)
    ensures u < 0x1_0000_0000
    ensures n >= 0 ==> u == n as int
    ensures n < 0 ==> u == n as int + 0x1_0000_0000
  {
    if n < 0 then n as int + 0x1_0000_0000 else n as int
  }

  /** The DWORD rendering: eight lower-case digits of the two's-complement pattern. */
  function DWordHex(n: int32): (s: string)
    ensures |s| == 8
  {
    HexDigits(Unsigned32(n), 8)
  }

  /** The eight digits read back give the `int` again. */
  lemma DWordRoundTrip(n: int32)
    ensures ParseHexDigits(DWordHex(n)).Some?
    ensures var u := ParseHexDigits(DWordHex(n)).value;
            (if u < 0x8000_0000 then u else u - 0x1_0000_0000) == n as int
  {
    assert Pow16(8) == 0x1_0000_0000;
    HexDigitsRoundTrip(Unsigned32(n), 8);
  }

  /** Zero renders as `n` zero digits. */
  lemma {:induction false} ZeroDigits(n: nat)
    ensures HexDigits(0, n) == seq(n, _ => '0')
  {
    if n > 0 {
      ZeroDigits(n - 1);
      assert HexDigit(0, false) == '0';
    }
  }

  /** 255 renders as `000000ff`, and -1 as its two's-complement pattern `ffffffff`. */
  lemma DWordExamples()
    ensures DWordHex(255) == "000000ff"
    ensures DWordHex(-1) == "ffffffff"
  {
    ZeroDigits(6);
    assert HexDigit(15, false) == 'f';
    assert HexDigits(255, 8) == HexDigits(15, 7) + "f";
    assert HexDigits(15, 7) == HexDigits(0, 6) + "f";
    assert HexDigits(0xffff_ffff, 8) == HexDigits(0xfff_ffff, 7) + "f";
    assert HexDigits(0xfff_ffff, 7) == HexDigits(0xff_ffff, 6) + "f";
    assert HexDigits(0xff_ffff, 6) == HexDigits(0xf_ffff, 5) + "f";
    assert HexDigits(0xf_ffff, 5) == HexDigits(0xffff, 4) + "f";
    assert HexDigits(0xffff, 4) == HexDigits(0xfff, 3) + "f";
    assert HexDigits(0xfff, 3) == HexDigits(0xff, 2) + "f";
    assert HexDigits(0xff, 2) == HexDigits(0xf, 1) + "f";
    assert HexDigits(0xf, 1) == HexDigits(0, 0) + "f";
  }
}
