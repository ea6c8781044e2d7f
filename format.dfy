/**
  `FormatValueData`: the `.reg` rendering of one typed registry value, and
  `HasValueName`. The rendering is an injective code for the kinds it keeps
  intact: `Parse` reads it back.
*/
module ValueFormat {
  import opened Wrappers
  import opened Strings
  import opened Registry
  import opened Hex

  /** What a cast of the raw value to the kind's .NET type throws when the shapes disagree. */
  const InvalidCast := Exception(Other, "Specified cast is not valid.", Option.None)

  /** What the formatter throws for `RegistryValueKind.Unknown`. */
  const UnknownKind := Exception(UnauthorizedAccess, "Unknown registry value kind.", Option.None)

  /** What the formatter throws for a kind its switch does not list. */
  const DefaultKind := Exception(UnauthorizedAccess, "Default registry value kind.", Option.None)

  /** The `.reg` escaping of one character of a string value. */
  function EscapeChar(c: char): string {
    if c == '\\' then "\\\\" else if c == '"' then "\\\"" else [c]
  }

  /** The escaping applied character by character. */
  function EscapeChars(s: string): string {
    if |s| == 0 then "" else EscapeChar(s[0]) + EscapeChars(s[1..])
  }

  /** The formatter's escaping: every backslash doubled first, then every quote preceded by a backslash. */
  function Escape(s: string): (t: string)
    ensures t == EscapeChars(s)
  {
    EscapeIsPerChar(s);
    Replace(Replace(s, "\\", "\\\\"), "\"", "\\\"")
  }

  /** The two replacements together escape each character on its own: the backslashes
      written by the first are not touched by the second. */
  lemma {:induction false} EscapeIsPerChar(s: string)
    ensures Replace(Replace(s, "\\", "\\\\"), "\"", "\\\"") == EscapeChars(s)
    decreases |s|
  {
    if |s| > 0 {
      EscapeIsPerChar(s[1..]);
      assert s[..1] == [s[0]];
      var first := if s[0] == '\\' then "\\\\" else [s[0]];
      assert Replace(s, "\\", "\\\\") == first + Replace(s[1..], "\\", "\\\\");
      ReplaceCharAppend(first, Replace(s[1..], "\\", "\\\\"), '"', "\\\"");
      if s[0] == '\\' {
        ReplaceCharAbsent(first, '"', "\\\"");
      } else if s[0] == '"' {
        assert Replace(first, "\"", "\\\"") == "\\\"" + Replace([], "\"", "\\\"");
      } else {
        ReplaceCharAbsent(first, '"', "\\\"");
      }
    }
  }

  /** Reads an escaped string back: a backslash makes the next character literal. */
  function Unescape(t: string): string
    decreases |t|
  {
    if |t| == 0 then ""
    else if t[0] == '\\' && |t| >= 2 then [t[1]] + Unescape(t[2..])
    else [t[0]] + Unescape(t[1..])
  }

  /** Unescaping undoes the escaping. */
  lemma {:induction false} UnescapeEscape(s: string)
    ensures Unescape(EscapeChars(s)) == s
    decreases |s|
  {
    if |s| > 0 {
      var rest := EscapeChars(s[1..]);
      UnescapeEscape(s[1..]);
      var t := EscapeChar(s[0]) + rest;
      if s[0] == '\\' || s[0] == '"' {
        assert t[0] == '\\' && t[1] == s[0] && t[2..] == rest;
      } else {
        assert t[0] == s[0] && t[1..] == rest;
      }
      assert s == [s[0]] + s[1..];
    }
  }

  /** The text in front of the data of each kind. */
  function Prefix(kind: ValueKind): string {
    match kind
    case None => "hex(0):"
    case String => "\""
    case ExpandString => "hex(2):"
    case Binary => "hex:"
    case DWord => "dword:"
    case MultiString => "hex(7):"
    case QWord => "hex(b):"
    case _ => ""
  }

  /** The formatter's switch on the value kind, applied to data already read. A null
      value renders as the empty string whatever its kind. */
  function Format(data: Data): (r: Result<string, Exception>)
    ensures data.raw == Null ==> r == Ok("")
    ensures data.raw != Null && data.kind == Unknown ==> r == Err(UnknownKind)
    ensures data.raw != Null && data.kind.Unlisted? ==> r == Err(DefaultKind)
    ensures r.Ok? && data.raw != Null ==> StartsWith(r.value, Prefix(data.kind))
    ensures r.Err? ==> r.error in {InvalidCast, UnknownKind, DefaultKind}
  {
    if data.raw == Null then Ok("")
    else
      var r := match data.kind
        case None => if data.raw.Bytes? then Ok("hex(0):" + ByteToHexList(data.raw.bytes)) else Err(InvalidCast)
        case Unknown => Err(UnknownKind)
        case String => if data.raw.Text? then Ok("\"" + Escape(data.raw.text) + "\"") else Err(InvalidCast)
        case ExpandString => if data.raw.Text? then Ok("hex(2):" + StringHex(data.raw.text)) else Err(InvalidCast)
        case Binary => if data.raw.Bytes? then Ok("hex:" + ByteToHexList(data.raw.bytes)) else Err(InvalidCast)
        case DWord => if data.raw.Int32? then Ok("dword:" + DWordHex(data.raw.number)) else Err(InvalidCast)
        case MultiString => if data.raw.Texts? then Ok("hex(7):" + StringArrayHex(data.raw.lines)) else Err(InvalidCast)
        case QWord => if data.raw.Bytes? then Ok("hex(b):" + ByteToHexList(data.raw.bytes)) else Err(InvalidCast)
        case Unlisted(_) => Err(DefaultKind);
      assert r.Ok? ==> r.value[..|Prefix(data.kind)|] == Prefix(data.kind);
      r
  }

  /** The text after `prefix`, when `text` starts with it. */
  function After(text: string, prefix: string): Option<string> {
    if StartsWith(text, prefix) then Some(text[|prefix|..]) else Option.None
  }

  /** The `int` whose two's-complement pattern is `u`. */
  function Signed32(u: nat): Option<int32> {
    if u < 0x8000_0000 then Some(u as int32)
    else if u < 0x1_0000_0000 then Some((u - 0x1_0000_0000) as int32)
    else Option.None
  }

  /** The string an `ExpandString` rendering encodes: empty, or characters below
      U+0100 followed by a terminating zero character. */
  function ExpandText(bs: seq<byte>): Option<string> {
    if |bs| == 0 then Some("")
    else if |bs| < 2 || bs[|bs| - 2..] != [0, 0] then Option.None
    else FromLowBytes(bs[..|bs| - 2])
  }

  /** Reads a rendering back into the raw value, for the kinds whose rendering keeps it intact. */
  function Parse(kind: ValueKind, text: string): Option<RawValue> {
    match After(text, Prefix(kind))
    case None => Option.None
    case Some(body) =>
      match kind
      case None => (match ParseHexList(body) case Some(bs) => Some(Bytes(bs)) case None => Option.None)
      case Binary => (match ParseHexList(body) case Some(bs) => Some(Bytes(bs)) case None => Option.None)
      case QWord => (match ParseHexList(body) case Some(bs) => Some(Bytes(bs)) case None => Option.None)
      case DWord =>
        if |body| != 8 then Option.None
        else (match ParseHexDigits(body)
              case Some(u) => (match Signed32(u) case Some(n) => Some(Int32(n)) case None => Option.None)
              case None => Option.None)
      case String =>
        if |body| == 0 || body[|body| - 1] != '"' then Option.None
        else Some(Text(Unescape(body[..|body| - 1])))
      case ExpandString =>
        (match ParseHexList(body)
         case Some(bs) => (match ExpandText(bs) case Some(t) => Some(Text(t)) case None => Option.None)
         case None => Option.None)
      case _ => Option.None
  }

  /** The raw shape the formatter casts each kind to. */
  predicate Shaped(data: Data) {
    match data.kind
    case None => data.raw.Bytes?
    case Binary => data.raw.Bytes?
    case QWord => data.raw.Bytes?
    case DWord => data.raw.Int32?
    case String => data.raw.Text?
    case ExpandString => data.raw.Text?
    case MultiString => data.raw.Texts?
    case _ => false
  }

  /** Formatting succeeds exactly for a non-null value of a listed kind in its shape. */
  lemma FormatSucceeds(data: Data)
    requires data.raw != Null
    ensures Format(data).Ok? <==> Shaped(data)
  {
  }

  /** A rendering of a byte value reads back to the bytes. */
  lemma {:induction false} BytesRoundTrip(kind: ValueKind, bs: seq<byte>)
    requires kind == ValueKind.None || kind == Binary || kind == QWord
    ensures Format(Data(kind, Bytes(bs))).Ok?
    ensures Parse(kind, Format(Data(kind, Bytes(bs))).value) == Some(Bytes(bs))
  {
    var text := Format(Data(kind, Bytes(bs))).value;
    assert text == Prefix(kind) + HexList(bs, true);
    assert After(text, Prefix(kind)) == Some(HexList(bs, true)) by {
      assert text[..|Prefix(kind)|] == Prefix(kind);
      assert text[|Prefix(kind)|..] == HexList(bs, true);
    }
    HexListRoundTrip(bs, true);
  }

  /** A DWORD rendering reads back to the number. */
  lemma {:induction false} DWordValueRoundTrip(n: int32)
    ensures Format(Data(DWord, Int32(n))).Ok?
    ensures Parse(DWord, Format(Data(DWord, Int32(n))).value) == Some(Int32(n))
  {
    var text := Format(Data(DWord, Int32(n))).value;
    assert text == "dword:" + DWordHex(n);
    assert After(text, "dword:") == Some(DWordHex(n)) by {
      assert text[..6] == "dword:";
      assert text[6..] == DWordHex(n);
    }
    DWordRoundTrip(n);
    assert Pow16(8) == 0x1_0000_0000;
    HexDigitsRoundTrip(Unsigned32(n), 8);
  }

  /** A string rendering reads back to the string: quotes and backslashes are escaped. */
  lemma {:induction false} StringRoundTrip(s: string)
    ensures Format(Data(String, Text(s))).Ok?
    ensures Parse(String, Format(Data(String, Text(s))).value) == Some(Text(s))
  {
    var text := Format(Data(String, Text(s))).value;
    var inner := EscapeChars(s);
    assert text == "\"" + inner + "\"";
    assert After(text, "\"") == Some(inner + "\"") by {
      assert text[..1] == "\"";
      assert text[1..] == inner + "\"";
    }
    assert (inner + "\"")[..|inner|] == inner;
    UnescapeEscape(s);
  }

  /** An expandable-string rendering reads back to the string when all its characters
      are below U+0100; above that the high byte is dropped. */
  lemma {:induction false} ExpandStringRoundTrip(s: string)
    requires forall i :: 0 <= i < |s| ==> s[i] < '\U{100}'
    ensures Format(Data(ExpandString, Text(s))).Ok?
    ensures Parse(ExpandString, Format(Data(ExpandString, Text(s))).value) == Some(Text(s))
  {
    var text := Format(Data(ExpandString, Text(s))).value;
    var body := StringHex(s);
    assert text == "hex(2):" + body;
    assert After(text, "hex(2):") == Some(body) by {
      assert text[..7] == "hex(2):";
      assert text[7..] == body;
    }
    if |s| == 0 {
      assert body == "";
    } else {
      StringHexBytes(s);
      var bs := LowBytes(s) + [0, 0];
      HexListRoundTrip(bs, false);
      assert bs[|bs| - 2..] == [0, 0];
      assert bs[..|bs| - 2] == LowBytes(s);
      Latin1RoundTrip(s);
    }
  }

  /** `FormatValueData(key, valueName)`: the kind and the value read from the key, then formatted. */
  function FormatValueData(key: Key, valueName: string): (r: Result<string, Exception>)
    ensures ReadValue(key, valueName).Err? ==> r == Err(ReadValue(key, valueName).error)
    ensures ReadValue(key, valueName).Ok? ==> r == Format(ReadValue(key, valueName).value)
  {
    match ReadValue(key, valueName)
    case Err(e) => Err(e)
    case Ok(data) => Format(data)
  }

  /** `HasValueName(valueName, key)`: whether `GetValue` finds a non-null value under that name. */
  function HasValueName(key: Key, valueName: string): (r: Result<bool, Exception>)
    requires !IsBlank(valueName)
    ensures r == Ok(true) ==> exists i :: 0 <= i < |key.values| && key.values[i].name == valueName
    ensures r == Ok(true) <==> FindValue(key.values, valueName).Some? && FindValue(key.values, valueName).value.read.Ok?
                                && FindValue(key.values, valueName).value.read.value.raw != Null
    ensures r.Err? <==> FindValue(key.values, valueName).Some? && FindValue(key.values, valueName).value.read.Err?
  {
    match GetValue(key, valueName)
    case Err(e) => Err(e)
    case Ok(raw) => Ok(raw != Null)
  }

  /** A value name the key does not hold: formatting fails with the IO exception of
      `GetValueKind`, and `HasValueName` is false. */
  lemma MissingValueName(key: Key, valueName: string)
    requires forall i :: 0 <= i < |key.values| ==> key.values[i].name != valueName
    ensures FormatValueData(key, valueName) == Err(ValueNotFound)
    ensures !IsBlank(valueName) ==> HasValueName(key, valueName) == Ok(false)
  {
    MissingValue(key, valueName);
  }
}
