/**
 * The parser of the IDNA Mapping Table of Unicode Technical Standard #46
 * (`parse_idna_mapping_table`): each line `<cp>[..<cp>]; <status>[; <mapping cps>] # comment`
 * is checked for range syntax and contiguity, its status is looked up, its mapping
 * decoded and escaped, and the range is written out as rows, one per code point
 * below 256 and a single row at the start otherwise.
 *
 * `ParseLine`, `LineEntries` and `ParseTable` are the specification, a function of
 * the input lines; `ParseIdnaMappingTable` is the loop that appends rows and moves
 * `last_code` forward, proved to compute the same thing.
 */
module Uts46Table {
  import opened Common
  import opened Text
  import opened Literals
  import opened Rows

  datatype ParseError =
    | InvalidRange(field: string)   // field 0 is not a character or range
    | NotContiguous(field: string)  // the range does not start right after the previous one
    | MissingField(index: nat)      // a status or mapping field is absent
    | UnknownStatus(status: string) // field 1 is not in the status table
    | BadMappingToken(token: string) // a mapping word is not the hex of a Unicode scalar value

  // ---------------------------------------------------------------- RE_CHAR_RANGE

  /** A match of the range pattern: the first code point, and the second when `..` is present. */
  datatype CharRange = CharRange(first: nat, last: Option<nat>)

  /** 4 to 6 hex digits of either case. */
  predicate IsCodeField(h: string) {
    4 <= |h| <= 6 && IsHex(h)
  }

  /**
   * `RE_CHAR_RANGE.match(f)`: `f` is 4 to 6 hex digits, optionally followed by `..`
   * and 4 to 6 more, and nothing else.  (The fields it is applied to are stripped,
   * so the pattern's `$` never meets a final newline.)
   */
  function MatchCharRange(f: string): (r: Option<CharRange>)
    ensures r.Some? && r.value.last.None? ==> IsCodeField(f) && r.value.first == HexValue(f)
    ensures r.Some? && r.value.last.Some? ==>
      var k := HexRunLength(f);
      k + 2 <= |f| && f[k..k + 2] == ".." && IsCodeField(f[..k]) && IsCodeField(f[k + 2..])
      && r.value.first == HexValue(f[..k]) && r.value.last.value == HexValue(f[k + 2..])
  {
    var n := HexRunLength(f);
    if n < 4 || n > 6 then None
    else if n == |f| then
      assert f[..n] == f;
      Some(CharRange(HexValue(f), None))
    else if n + 2 <= |f| && f[n] == '.' && f[n + 1] == '.' && IsCodeField(f[n + 2..]) then
      Some(CharRange(HexValue(f[..n]), Some(HexValue(f[n + 2..]))))
    else None
  }

  /** Every field of 4 to 6 hex digits is a single code point. */
  lemma MatchCodePoint(h: string)
    requires IsCodeField(h)
    ensures MatchCharRange(h) == Some(CharRange(HexValue(h), None))
  {
    HexRunOfHex(h, []);
    assert h + [] == h;
  }

  /** Every two such fields joined by `..` are a range. */
  lemma MatchRange(a: string, b: string)
    requires IsCodeField(a) && IsCodeField(b)
    ensures MatchCharRange(a + ".." + b) == Some(CharRange(HexValue(a), Some(HexValue(b))))
  {
    var f := a + ".." + b;
    assert f == a + (".." + b);
    HexRunOfHex(a, ".." + b);
    assert f[..|a|] == a;
    assert f[|a| + 2..] == b;
  }

  /** The code point that becomes `last_code` once the range is accepted. */
  function RangeEnd(cr: CharRange): nat {
    if cr.last.Some? then cr.last.value else cr.first
  }

  // ---------------------------------------------------------------- STATUSES

  /** Status name to its one-character code and whether a mapping field follows. */
  const Statuses: map<string, (char, bool)> := map[
    "valid" := ('V', false),
    "ignored" := ('I', false),
    "mapped" := ('M', true),
    "deviation" := ('D', true),
    "disallowed" := ('X', false),
    "disallowed_STD3_valid" := ('3', false),
    "disallowed_STD3_mapped" := ('3', true)
  ]

  // ---------------------------------------------------------------- one line

  /** The line stripped and, when it holds a `#`, cut at the first one. */
  function Clean(raw: string): (line: string)
    ensures '#' !in line
  {
    var line := Strip(raw);
    if '#' in line then Before(line, '#') else line
  }

  /** `[field.strip() for field in line.split(b";")]` */
  function Fields(line: string): (fields: seq<string>)
    ensures |fields| >= 1
  {
    StripAll(Split(line, ';'))
  }

  function StripAll(pieces: seq<string>): (r: seq<string>)
    ensures |r| == |pieces|
    ensures forall k :: 0 <= k < |pieces| ==> r[k] == Strip(pieces[k])
  {
    if pieces == [] then [] else [Strip(pieces[0])] + StripAll(pieces[1..])
  }

  /** The range pattern applied to a line's first field. */
  function LineRange(raw: string): Option<CharRange> {
    MatchCharRange(Fields(Clean(raw))[0])
  }

  predicate IsScalarValue(v: nat) {
    v < 0xD800 || 0xE000 <= v < 0x11_0000
  }

  /** A mapping word that `unichr(int(w, 16))` turns into a character. */
  predicate IsCodePointWord(w: string) {
    w != [] && IsHex(w) && IsScalarValue(HexValue(w))
  }

  /** `u"".join(unichr(int(w, 16)) for w in words)`, or the first word that is not a code point. */
  function DecodeWords(words: seq<string>): (r: Result<string, string>)
    ensures r.Ok? <==> forall k :: 0 <= k < |words| ==> IsCodePointWord(words[k])
    ensures r.Ok? ==> |r.value| == |words| && forall k :: 0 <= k < |words| ==> r.value[k] as int == HexValue(words[k])
    ensures r.Err? ==> r.error in words && !IsCodePointWord(r.error)
  {
    if words == [] then Ok([])
    else if !IsCodePointWord(words[0]) then Err(words[0])
    else
      match DecodeWords(words[1..])
      case Ok(rest) => Ok([HexValue(words[0]) as char] + rest)
      case Err(w) => Err(w)
  }

  /** The word reported is the first one that is not a code point: every word before it decodes. */
  lemma {:induction false} DecodeWordsFirstBad(words: seq<string>)
    ensures DecodeWords(words).Err? ==>
      exists k :: 0 <= k < |words| && words[k] == DecodeWords(words).error
        && forall j :: 0 <= j < k ==> IsCodePointWord(words[j])
  {
    if words != [] && IsCodePointWord(words[0]) && DecodeWords(words).Err? {
      DecodeWordsFirstBad(words[1..]);
      var k :| 0 <= k < |words[1..]| && words[1..][k] == DecodeWords(words[1..]).error
        && forall j :: 0 <= j < k ==> IsCodePointWord(words[1..][j]);
      assert words[k + 1] == DecodeWords(words).error;
      assert forall j :: 0 <= j < k + 1 ==> IsCodePointWord(words[j]) by {
        forall j | 0 <= j < k + 1
          ensures IsCodePointWord(words[j])
        {
          if j > 0 {
            assert words[j] == words[1..][j - 1];
          }
        }
      }
    }
  }

  /** The mapping field: its whitespace-separated words, each decoded to one character. */
  function DecodeMapping(field: string): Result<string, string> {
    DecodeWords(SplitWords(field))
  }

  /** A non-blank line's range and, for mapping statuses, its escaped mapping. */
  datatype Line = Blank | Data(start: nat, end: nat, code: char, mapping: Option<string>)

  /** A non-blank line whose range matches and starts right after `lastCode`. */
  predicate Contiguous(raw: string, lastCode: int) {
    Clean(raw) != [] && LineRange(raw).Some? && LineRange(raw).value.first == lastCode + 1
  }

  /** A contiguous line whose status field is present and in the status table. */
  predicate KnownStatus(raw: string, lastCode: int) {
    var fields := Fields(Clean(raw));
    Contiguous(raw, lastCode) && |fields| >= 2 && fields[1] in Statuses
  }

  /** A line the parser accepts: known status and, for a mapping status, a mapping field that decodes. */
  predicate Accepts(raw: string, lastCode: int) {
    var fields := Fields(Clean(raw));
    KnownStatus(raw, lastCode)
    && (Statuses[fields[1]].1 ==> |fields| >= 3 && DecodeMapping(fields[2]).Ok?)
  }

  /** One line read with `last_code` equal to `lastCode`. */
  function ParseLine(raw: string, lastCode: int): (r: Result<Line, ParseError>)
    ensures r == Ok(Blank) <==> Clean(raw) == []
    ensures Clean(raw) != [] && LineRange(raw).None? ==> r == Err(InvalidRange(Fields(Clean(raw))[0]))
    ensures LineRange(raw).Some? && LineRange(raw).value.first != lastCode + 1 ==>
      r == Err(NotContiguous(Fields(Clean(raw))[0]))
    ensures r.Ok? && r.value.Data? ==>
      LineRange(raw).Some? && r.value.start == LineRange(raw).value.first == lastCode + 1
      && r.value.end == RangeEnd(LineRange(raw).value)
    ensures LineRange(raw).Some? && LineRange(raw).value.first == lastCode + 1 ==>
      var fields := Fields(Clean(raw));
      if |fields| < 2 then r == Err(MissingField(1))
      else if fields[1] !in Statuses then r == Err(UnknownStatus(fields[1]))
      else r.Err? || (r.value.Data? && r.value.code == Statuses[fields[1]].0
                      && (r.value.mapping.Some? <==> Statuses[fields[1]].1))
    ensures r.Ok? && r.value.Data? <==> Accepts(raw, lastCode)
    ensures KnownStatus(raw, lastCode) && Statuses[Fields(Clean(raw))[1]].1 ==>
      var fields := Fields(Clean(raw));
      (|fields| < 3 ==> r == Err(MissingField(2)))
      && (|fields| >= 3 && DecodeMapping(fields[2]).Err? ==> r == Err(BadMappingToken(DecodeMapping(fields[2]).error)))
    ensures r.Ok? && r.value.Data? && r.value.mapping.Some? ==>
      var fields := Fields(Clean(raw));
      |fields| >= 3 && DecodeMapping(fields[2]).Ok?
      && Unescape(r.value.mapping.value) == Some(DecodeMapping(fields[2]).value)
  {
    var line := Clean(raw);
    if line == [] then Ok(Blank)
    else
      var fields := Fields(line);
      match MatchCharRange(fields[0])
      case None => Err(InvalidRange(fields[0]))
      case Some(cr) =>
        if cr.first != lastCode + 1 then Err(NotContiguous(fields[0]))
        else if |fields| < 2 then Err(MissingField(1))
        else if fields[1] !in Statuses then Err(UnknownStatus(fields[1]))
        else
          var (code, hasMapping) := Statuses[fields[1]];
          if !hasMapping then Ok(Data(cr.first, RangeEnd(cr), code, None))
          else if |fields| < 3 then Err(MissingField(2))
          else
            match DecodeMapping(fields[2])
            case Err(w) => Err(BadMappingToken(w))
            case Ok(m) =>
              UnescapeEscape(m);
              Ok(Data(cr.first, RangeEnd(cr), code, Some(Escape(m))))
  }

  // ---------------------------------------------------------------- range splitting

  /**
   * The rows the inner loop appends from cursor `cur`: always one while `first`
   * holds, then one per code point while the cursor is below 256 and within the range.
   */
  function Run(cur: nat, end: nat, code: char, mapping: Option<string>, first: bool): seq<Entry>
    decreases first, 256 - cur
  {
    if first || (cur < 256 && cur <= end) then [Entry(cur, code, mapping)] + Run(cur + 1, end, code, mapping, false)
    else []
  }

  lemma RunStep(cur: nat, end: nat, code: char, mapping: Option<string>, first: bool)
    ensures Run(cur, end, code, mapping, first) ==
      if first || (cur < 256 && cur <= end) then [Entry(cur, code, mapping)] + Run(cur + 1, end, code, mapping, false)
      else []
  {
  }

  /** One step of the row loop, seen from the rows already written. */
  lemma RunAfter(done: seq<Entry>, cur: nat, end: nat, code: char, mapping: Option<string>, first: bool)
    requires first || (cur < 256 && cur <= end)
    ensures done + Run(cur, end, code, mapping, first) == (done + [Entry(cur, code, mapping)]) + Run(cur + 1, end, code, mapping, false)
  {
    var rest := Run(cur + 1, end, code, mapping, false);
    assert (done + [Entry(cur, code, mapping)]) + rest == done + ([Entry(cur, code, mapping)] + rest);
  }

  function LineEntries(start: nat, end: nat, code: char, mapping: Option<string>): seq<Entry> {
    Run(start, end, code, mapping, true)
  }

  function Min(a: int, b: int): int {
    if a <= b then a else b
  }

  lemma {:induction false} RunShape(cur: nat, end: nat, code: char, mapping: Option<string>, first: bool)
    ensures var es := Run(cur, end, code, mapping, first);
      |es| == (if cur < 256 && cur <= end then Min(end, 255) - cur + 1 else if first then 1 else 0)
      && forall k :: 0 <= k < |es| ==> es[k] == Entry(cur + k, code, mapping)
    decreases first, 256 - cur
  {
    if first || (cur < 256 && cur <= end) {
      RunShape(cur + 1, end, code, mapping, false);
    }
  }

  /**
   * A line's rows: at least one, the first at the range's start, code points
   * consecutive; exactly one at or above 256, and up to the range end or 255,
   * whichever is smaller, below it.
   */
  lemma LineEntriesShape(start: nat, end: nat, code: char, mapping: Option<string>)
    ensures var es := LineEntries(start, end, code, mapping);
      |es| >= 1 && es[0].cp == start
      && (forall k :: 0 <= k < |es| ==> es[k] == Entry(start + k, code, mapping))
      && (start >= 256 ==> |es| == 1)
      && (start < 256 && start <= end ==> |es| == Min(end, 255) - start + 1)
      && (end < start ==> |es| == 1)
      && (forall k :: 1 <= k < |es| ==> es[k].cp < 256 && es[k].cp <= end)
  {
    RunShape(start, end, code, mapping, true);
  }

  function CodePoints(es: seq<Entry>): (cps: seq<nat>)
    ensures |cps| == |es| && forall k :: 0 <= k < |es| ==> cps[k] == es[k].cp
  {
    seq(|es|, k requires 0 <= k < |es| => es[k].cp)
  }

  /**
   * The code points a line gives rows for: its start, and every later code point
   * of the range below 256.  In particular a range crossing 256 has no row at 256.
   */
  lemma LineCodePoints(start: nat, end: nat, code: char, mapping: Option<string>, c: int)
    ensures c in CodePoints(LineEntries(start, end, code, mapping)) <==> c == start || (start < c <= end && c < 256)
  {
    var es := LineEntries(start, end, code, mapping);
    LineEntriesShape(start, end, code, mapping);
    if c == start || (start < c <= end && c < 256) {
      assert CodePoints(es)[c - start] == c;
    }
  }

  // ---------------------------------------------------------------- the whole table

  function Prepend(es: seq<Entry>, r: Result<(seq<Entry>, int), ParseError>): Result<(seq<Entry>, int), ParseError> {
    match r
    case Ok((rest, last)) => Ok((es + rest, last))
    case Err(e) => Err(e)
  }

  /** The rows of `lines` and the final `last_code`, reading from `last_code == lastCode`. */
  function ParseFrom(lines: seq<string>, lastCode: int): Result<(seq<Entry>, int), ParseError>
    decreases |lines|
  {
    if lines == [] then Ok(([], lastCode))
    else
      match ParseLine(lines[0], lastCode)
      case Err(e) => Err(e)
      case Ok(Blank) => ParseFrom(lines[1..], lastCode)
      case Ok(Data(start, end, code, mapping)) =>
        Prepend(LineEntries(start, end, code, mapping), ParseFrom(lines[1..], end))
  }

  lemma ParseFromAt(lines: seq<string>, i: nat, lastCode: int)
    requires i < |lines|
    ensures ParseFrom(lines[i..], lastCode) ==
      match ParseLine(lines[i], lastCode)
      case Err(e) => Err(e)
      case Ok(Blank) => ParseFrom(lines[i + 1..], lastCode)
      case Ok(Data(start, end, code, mapping)) =>
        Prepend(LineEntries(start, end, code, mapping), ParseFrom(lines[i + 1..], end))
  {
    assert lines[i..][0] == lines[i] && lines[i..][1..] == lines[i + 1..];
  }

  lemma PrependTwice(a: seq<Entry>, b: seq<Entry>, r: Result<(seq<Entry>, int), ParseError>)
    ensures Prepend(a, Prepend(b, r)) == Prepend(a + b, r)
  {
    match r {
      case Ok((rest, _)) => assert a + (b + rest) == (a + b) + rest;
      case Err(_) =>
    }
  }

  /** The rows of the whole table, starting from `last_code == -1`. */
  function ParseTable(lines: seq<string>): Result<seq<Entry>, ParseError> {
    match ParseFrom(lines, -1)
    case Ok((es, _)) => Ok(es)
    case Err(e) => Err(e)
  }

  function FormatTable(r: Result<seq<Entry>, ParseError>): Result<seq<string>, ParseError> {
    match r
    case Ok(es) => Ok(FormatAll(es))
    case Err(e) => Err(e)
  }

  /**
   * The checks `parse_idna_mapping_table` makes on one line before it writes
   * rows: strip, cut the comment, split into fields, match the range, check it
   * against `lastCode`, look up the status and decode the mapping.
   */
  method ReadLine(raw: string, lastCode: int) returns (outcome: Result<Line, ParseError>)
    ensures outcome == ParseLine(raw, lastCode)
  {
    var line := Strip(raw);
    if '#' in line {
      line := Before(line, '#');
    }
    if line == [] {
      return Ok(Blank);
    }
    var fields := Fields(line);
    var charRange := MatchCharRange(fields[0]);
    if charRange.None? {
      return Err(InvalidRange(fields[0]));
    }
    var start := charRange.value.first;
    if start != lastCode + 1 {
      return Err(NotContiguous(fields[0]));
    }
    var end := start;
    if charRange.value.last.Some? {
      end := charRange.value.last.value;
    }
    if |fields| < 2 {
      return Err(MissingField(1));
    }
    if fields[1] !in Statuses {
      return Err(UnknownStatus(fields[1]));
    }
    var (status, hasMapping) := Statuses[fields[1]];
    var mapping: Option<string> := None;
    if hasMapping {
      if |fields| < 3 {
        return Err(MissingField(2));
      }
      var decoded := DecodeMapping(fields[2]);
      if decoded.Err? {
        return Err(BadMappingToken(decoded.error));
      }
      mapping := Some(Escape(decoded.value));
    }
    return Ok(Data(start, end, status, mapping));
  }

  /**
   * The row loop of `parse_idna_mapping_table`: appends a row for the cursor
   * `start` on the first pass, and again after each step while the cursor is
   * below 256 and not past `end`.
   */
  method AppendLineRows(ranges: seq<string>, start: nat, end: nat, status: char, mapping: Option<string>)
    returns (rows: seq<string>)
    ensures rows == ranges + FormatAll(LineEntries(start, end, status, mapping))
  {
    rows := ranges;
    ghost var written: seq<Entry> := [];
    var cursor: nat := start;
    var first := true;
    while first || (cursor < 256 && cursor <= end)
      invariant rows == ranges + FormatAll(written)
      invariant written + Run(cursor, end, status, mapping, first) == LineEntries(start, end, status, mapping)
      decreases first, 256 - cursor
    {
      RunAfter(written, cursor, end, status, mapping, first);
      FormatAllAppend(written, Entry(cursor, status, mapping));
      rows := rows + [Format(Entry(cursor, status, mapping))];
      written := written + [Entry(cursor, status, mapping)];
      first := false;
      cursor := cursor + 1;
    }
    RunStep(cursor, end, status, mapping, first);
    assert written + [] == written;
  }

  /**
   * `parse_idna_mapping_table`: the row texts of the table, or the first error
   * raised.  Every accepted line moves `lastCode` to its range end and appends
   * its rows, one per code point while the cursor stays below 256 and within
   * the range, and always at least one.
   */
  method ParseIdnaMappingTable(input: seq<string>) returns (r: Result<seq<string>, ParseError>)
    ensures r == FormatTable(ParseTable(input))
  {
    var ranges: seq<string> := [];
    var lastCode: int := -1;
    ghost var emitted: seq<Entry> := [];
    assert input[0..] == input;
    match ParseFrom(input, -1) {
      case Ok((es, _)) => assert [] + es == es;
      case Err(_) =>
    }
    for i := 0 to |input|
      invariant ranges == FormatAll(emitted)
      invariant Prepend(emitted, ParseFrom(input[i..], lastCode)) == ParseFrom(input, -1)
    {
      ParseFromAt(input, i, lastCode);
      var outcome := ReadLine(input[i], lastCode);
      if outcome.Err? {
        return Err(outcome.error);
      }
      if outcome.value.Blank? {
        continue;
      }
      var start: nat := outcome.value.start;
      var status, mapping := outcome.value.code, outcome.value.mapping;
      lastCode := outcome.value.end;
      ghost var lineEntries := LineEntries(start, lastCode, status, mapping);
      PrependTwice(emitted, lineEntries, ParseFrom(input[i + 1..], lastCode));
      ranges := AppendLineRows(ranges, start, lastCode, status, mapping);
      FormatAllConcat(emitted, lineEntries);
      emitted := emitted + lineEntries;
    }
    assert input[|input|..] == [];
    assert emitted + [] == emitted;
    r := Ok(ranges);
  }
}
