/**
  `Export`: the result list written as the lines of a Registration Entries (`.reg`)
  file — the version header, a blank line and a `[key]` section line whenever the
  key changes, one value line per result, and a closing blank line.
*/
module RegExport {
  import opened Wrappers
  import opened Strings
  import opened Records

  /** The first line of the file. */
  const Header := "Windows Registry Editor Version 5.00"

  /** The data of a named value with every CR LF doubled. */
  function DoubleLineBreaks(s: string): string {
    Replace(s, "\r\n", "\r\n\r\n")
  }

  /** Turns every doubled CR LF back into one. */
  function UndoLineBreaks(s: string): string {
    Replace(s, "\r\n\r\n", "\r\n")
  }

  /** Doubling leaves the first character in place. */
  lemma {:induction false} DoubleHead(s: string)
    requires |s| > 0
    ensures |DoubleLineBreaks(s)| > 0 && DoubleLineBreaks(s)[0] == s[0]
  {
    if |s| >= 2 && s[..2] == "\r\n" {
      assert s[0] == '\r';
    }
  }

  /** Undoing the doubling gives the data back, so no line break of the data is lost. */
  lemma {:induction false} LineBreaksRoundTrip(s: string)
    ensures UndoLineBreaks(DoubleLineBreaks(s)) == s
    decreases |s|
  {
    if |s| < 2 {
      assert DoubleLineBreaks(s) == s;
    } else if s[..2] == "\r\n" {
      var d := DoubleLineBreaks(s[2..]);
      assert DoubleLineBreaks(s) == "\r\n\r\n" + d;
      LineBreaksRoundTrip(s[2..]);
      assert ("\r\n\r\n" + d)[..4] == "\r\n\r\n";
      assert ("\r\n\r\n" + d)[4..] == d;
      assert UndoLineBreaks("\r\n\r\n" + d) == "\r\n" + UndoLineBreaks(d);
      assert s == s[..2] + s[2..];
    } else {
      var d := DoubleLineBreaks(s[1..]);
      assert DoubleLineBreaks(s) == [s[0]] + d;
      LineBreaksRoundTrip(s[1..]);
      DoubleHead(s[1..]);
      var t := [s[0]] + d;
      if |t| >= 4 {
        assert t[1] == s[1];
        assert t[..4] != "\r\n\r\n" by {
          if s[0] == '\r' {
            assert s[..2] == [s[0], s[1]];
            assert t[..4][1] != "\r\n\r\n"[1];
          } else {
            assert t[..4][0] != "\r\n\r\n"[0];
          }
        }
        assert t[1..] == d;
        assert UndoLineBreaks(t) == [t[0]] + UndoLineBreaks(d);
      } else {
        assert UndoLineBreaks(d) == d;
      }
      assert s == [s[0]] + s[1..];
    }
  }

  /** The line of one value: `@=` and the data for the default value, otherwise the
      quoted name, `=`, and the data with its line breaks doubled. */
  function ValueLine(item: ResultItem): (line: string)
    ensures |line| > 0 && (line[0] == '@' || line[0] == '"')
  {
    if item.ValueName == "" then "@=" + item.ValueData
    else "\"" + item.ValueName + "\"=" + DoubleLineBreaks(item.ValueData)
  }

  /** The line that opens the section of a key. */
  function Section(keyName: string): string {
    "[" + keyName + "]"
  }

  /** The lines of the items from `keyName`, the key of the last item written, on.
      Items with a blank key are skipped; a new key is announced by a blank line and its section line. */
  function ExportBody(items: seq<ResultItem>, keyName: string): seq<string> {
    if |items| == 0 then []
    else if IsBlank(items[0].KeyName) then ExportBody(items[1..], keyName)
    else
      (if items[0].KeyName != keyName then ["", Section(items[0].KeyName)] else [])
      + [ValueLine(items[0])] + ExportBody(items[1..], items[0].KeyName)
  }

  /** What `Export` returns: nothing for an empty result, otherwise the header, the
      body starting from the empty key name, and a closing blank line. */
  function ExportLines(result: seq<ResultItem>): (lines: seq<string>)
    ensures |result| == 0 <==> lines == []
    ensures |result| > 0 ==> lines[0] == Header && lines[|lines| - 1] == ""
  {
    if |result| == 0 then [] else [Header] + ExportBody(result, "") + [""]
  }

  /** The (key, value line) pair of each item that is written. */
  function Entries(items: seq<ResultItem>): seq<(string, string)> {
    if |items| == 0 then []
    else if IsBlank(items[0].KeyName) then Entries(items[1..])
    else [(items[0].KeyName, ValueLine(items[0]))] + Entries(items[1..])
  }

  /** A section line, and the key it names. */
  predicate IsSection(line: string) {
    |line| >= 2 && line[0] == '[' && line[|line| - 1] == ']'
  }

  /** Reads a body back as (key, value line) pairs; `keyName` is the key of the current section. */
  function ParseBody(lines: seq<string>, keyName: string): Option<seq<(string, string)>>
    decreases |lines|
  {
    if |lines| == 0 then Some([])
    else if lines[0] == "" then
      if |lines| >= 2 && IsSection(lines[1]) then ParseBody(lines[2..], lines[1][1..|lines[1]| - 1])
      else Option.None
    else if lines[0][0] == '@' || lines[0][0] == '"' then
      match ParseBody(lines[1..], keyName)
      case None => Option.None
      case Some(rest) => Some([(keyName, lines[0])] + rest)
    else Option.None
  }

  /** Reads an exported file back as (key, value line) pairs. */
  function ParseExport(lines: seq<string>): Option<seq<(string, string)>> {
    if |lines| == 0 then Some([])
    else if |lines| >= 2 && lines[0] == Header && lines[|lines| - 1] == "" then ParseBody(lines[1..|lines| - 1], "")
    else Option.None
  }

  /** The body announces every change of key: read back, each value line sits under its own item's key. */
  lemma {:induction false} BodyRoundTrip(items: seq<ResultItem>, keyName: string)
    ensures ParseBody(ExportBody(items, keyName), keyName) == Some(Entries(items))
    decreases |items|
  {
    if |items| > 0 {
      var item := items[0];
      BodyRoundTrip(items[1..], item.KeyName);
      if IsBlank(item.KeyName) {
        BodyRoundTrip(items[1..], keyName);
      } else {
        var rest := ExportBody(items[1..], item.KeyName);
        var line := ValueLine(item);
        assert ParseBody([line] + rest, item.KeyName) == Some([(item.KeyName, line)] + Entries(items[1..])) by {
          assert ([line] + rest)[1..] == rest;
        }
        if item.KeyName != keyName {
          var s := Section(item.KeyName);
          assert s[1..|s| - 1] == item.KeyName;
          assert (["", s] + [line] + rest)[2..] == [line] + rest;
        } else {
          assert [] + [line] + rest == [line] + rest;
        }
      }
    }
  }

  /** Reading an export back gives every written item's key and value line, in result order. */
  lemma ExportRoundTrip(result: seq<ResultItem>)
    ensures ParseExport(ExportLines(result)) == Some(Entries(result))
  {
    if |result| > 0 {
      var lines := ExportLines(result);
      assert lines[1..|lines| - 1] == ExportBody(result, "");
      BodyRoundTrip(result, "");
    }
  }

  /** The first item written always opens a section, since no key name is empty. */
  lemma FirstItemOpensSection(result: seq<ResultItem>)
    requires |result| > 0 && !IsBlank(result[0].KeyName)
    ensures ExportLines(result)[..4] == [Header, "", Section(result[0].KeyName), ValueLine(result[0])]
  {
    assert result[0].KeyName != "";
  }
}
