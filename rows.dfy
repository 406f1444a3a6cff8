/**
 * One row of the generated table and its text, as the parser appends it:
 * `(0x{:X}, '{}')` for a status without a mapping and
 * `(0x{:X}, '{}', u'{}')` for one with a (already escaped) mapping.
 */
module Rows {
  import opened Common
  import opened Text

  /** A row: its code point, the one-character status code and, for mapping statuses, the escaped mapping. */
  datatype Entry = Entry(cp: nat, code: char, mapping: Option<string>)

  function Format(e: Entry): string {
    "(0x" + HexUpper(e.cp) + ", '" + [e.code] + "'"
    + (match e.mapping case Some(m) => ", u'" + m + "'" case None => "")
    + ")"
  }

  function FormatAll(es: seq<Entry>): (rows: seq<string>)
    ensures |rows| == |es|
    ensures forall k :: 0 <= k < |es| ==> rows[k] == Format(es[k])
  {
    seq(|es|, k requires 0 <= k < |es| => Format(es[k]))
  }

  lemma FormatAllAppend(es: seq<Entry>, e: Entry)
    ensures FormatAll(es + [e]) == FormatAll(es) + [Format(e)]
  {
  }

  lemma FormatAllConcat(a: seq<Entry>, b: seq<Entry>)
    ensures FormatAll(a + b) == FormatAll(a) + FormatAll(b)
  {
  }

  /** Reads a row back: the hex number after `(0x`, then the quoted code and the literal's body if there is one. */
  function ReadRow(t: string): Option<Entry> {
    if |t| < 3 || t[..3] != "(0x" then None
    else
      var body := t[3..];
      var n := HexRunLength(body);
      if n == 0 then None else ReadFields(HexValue(body[..n]), body[n..])
  }

  /** What follows the number: `, '<code>'`, then `)` or `, u'<mapping>')`. */
  function ReadFields(cp: nat, rest: string): Option<Entry> {
    if |rest| < 5 || rest[..3] != ", '" || rest[4] != '\'' then None
    else
      var tail := rest[5..];
      if tail == ")" then Some(Entry(cp, rest[3], None))
      else if |tail| >= 6 && tail[..4] == ", u'" && tail[|tail| - 2..] == "')" then
        Some(Entry(cp, rest[3], Some(tail[4..|tail| - 2])))
      else None
  }

  /** A row text starting with `(0x`, a hex number and a non-digit reads as that number and what follows. */
  lemma ReadRowNumber(h: string, rest: string)
    requires h != [] && IsHex(h)
    requires rest == [] || !IsHexDigit(rest[0])
    ensures ReadRow("(0x" + (h + rest)) == ReadFields(HexValue(h), rest)
  {
    var t := "(0x" + (h + rest);
    assert t[..3] == "(0x" && t[3..] == h + rest;
    HexRunOfHex(h, rest);
    assert (h + rest)[..|h|] == h && (h + rest)[|h|..] == rest;
  }

  lemma ReadFieldsFormat(e: Entry)
    ensures ReadFields(e.cp, ", '" + [e.code] + "'" + MappingText(e.mapping)) == Some(e)
  {
    var tail := MappingText(e.mapping);
    var rest := ", '" + [e.code] + "'" + tail;
    assert rest[..3] == ", '" && rest[3] == e.code && rest[4] == '\'';
    assert rest[5..] == tail;
    match e.mapping
    case None =>
    case Some(m) =>
      assert tail[..4] == ", u'";
      assert tail[|tail| - 2..] == "')";
      assert tail[4..|tail| - 2] == m;
  }

  /** The text after the quoted code: `)` or `, u'<mapping>')`. */
  function MappingText(mapping: Option<string>): string {
    match mapping
    case Some(m) => ", u'" + m + "')"
    case None => ")"
  }

  /** Every row the parser writes reads back as the entry it was formatted from. */
  lemma ReadFormat(e: Entry)
    ensures ReadRow(Format(e)) == Some(e)
  {
    var h := HexUpper(e.cp);
    var rest := ", '" + [e.code] + "'" + MappingText(e.mapping);
    assert Format(e) == "(0x" + (h + rest) by {
      match e.mapping
      case None =>
      case Some(m) =>
        assert ", u'" + m + "'" + ")" == ", u'" + m + "')";
    }
    ReadRowNumber(h, rest);
    HexUpperValue(e.cp);
    ReadFieldsFormat(e);
  }
}
