/**
 * Properties of the whole parse: where the rows start, that they come out in
 * increasing code point order and cover every code point below 256, what their
 * status codes and mappings look like, that blank and comment lines change
 * nothing, and that every row text reads back as its entry.
 */
module TableProperties {
  import opened Common
  import opened Rows
  import opened Uts46Table

  /** A line whose range, if it has one, does not end before it starts (the parser does not check this). */
  predicate RangeOrdered(line: string) {
    match LineRange(line)
    case Some(cr) => cr.first <= RangeEnd(cr)
    case None => true
  }

  /** A code point has a row in `a + b` exactly when it has one in `a` or in `b`. */
  lemma CodePointsConcat(a: seq<Entry>, b: seq<Entry>, c: int)
    ensures c in CodePoints(a + b) <==> c in CodePoints(a) || c in CodePoints(b)
  {
    if c in CodePoints(a) {
      var k :| 0 <= k < |a| && CodePoints(a)[k] == c;
      assert CodePoints(a + b)[k] == c;
    }
    if c in CodePoints(b) {
      var k :| 0 <= k < |b| && CodePoints(b)[k] == c;
      assert CodePoints(a + b)[|a| + k] == c;
    }
    if c in CodePoints(a + b) {
      var k :| 0 <= k < |a + b| && CodePoints(a + b)[k] == c;
      if k < |a| {
        assert CodePoints(a)[k] == c;
      } else {
        assert CodePoints(b)[k - |a|] == c;
      }
    }
  }

  /** The first row of a non-empty parse is at the code point right after the starting cursor. */
  lemma {:induction false} FirstRowAfterCursor(lines: seq<string>, lastCode: int)
    requires ParseFrom(lines, lastCode).Ok? && ParseFrom(lines, lastCode).value.0 != []
    ensures ParseFrom(lines, lastCode).value.0[0].cp == lastCode + 1
  {
    match ParseLine(lines[0], lastCode)
    case Ok(Blank) => FirstRowAfterCursor(lines[1..], lastCode);
    case Ok(Data(start, end, code, mapping)) => LineEntriesShape(start, end, code, mapping);
  }

  /** A table that parses and has rows starts at code point 0. */
  lemma TableStartsAtZero(lines: seq<string>)
    requires ParseTable(lines).Ok? && ParseTable(lines).value != []
    ensures ParseTable(lines).value[0].cp == 0
  {
    FirstRowAfterCursor(lines, -1);
  }

  /**
   * The rows `es` lie in (lo, hi], strictly increase, and include every code
   * point of that span below 256.
   */
  predicate Span(es: seq<Entry>, lo: int, hi: int) {
    lo <= hi
    && (forall k :: 0 <= k < |es| ==> lo < es[k].cp <= hi)
    && (forall j, k :: 0 <= j < k < |es| ==> es[j].cp < es[k].cp)
    && (forall c :: lo < c <= hi && c < 256 ==> c in CodePoints(es))
  }

  /** The rows of one line whose range is not reversed span the range. */
  lemma LineSpan(start: nat, end: nat, code: char, mapping: Option<string>)
    requires start <= end
    ensures Span(LineEntries(start, end, code, mapping), start - 1, end)
  {
    var line := LineEntries(start, end, code, mapping);
    LineEntriesShape(start, end, code, mapping);
    forall c | start - 1 < c <= end && c < 256
      ensures c in CodePoints(line)
    {
      LineCodePoints(start, end, code, mapping, c);
    }
  }

  /** Two spans side by side make one. */
  lemma SpanConcat(a: seq<Entry>, b: seq<Entry>, lo: int, mid: int, hi: int)
    requires Span(a, lo, mid) && Span(b, mid, hi)
    ensures Span(a + b, lo, hi)
  {
    var es := a + b;
    forall k | 0 <= k < |es|
      ensures lo < es[k].cp <= hi
    {
      if k >= |a| {
        assert es[k] == b[k - |a|];
      }
    }
    forall j, k | 0 <= j < k < |es|
      ensures es[j].cp < es[k].cp
    {
      if k >= |a| {
        assert es[k] == b[k - |a|];
        if j >= |a| {
          assert es[j] == b[j - |a|];
        }
      }
    }
    forall c | lo < c <= hi && c < 256
      ensures c in CodePoints(es)
    {
      CodePointsConcat(a, b, c);
    }
  }

  /**
   * When no range is reversed, the rows of a parse from cursor `lastCode` lie in
   * (lastCode, final cursor], strictly increase, and include every code point of
   * that span below 256.
   */
  lemma {:induction false} RowsOrdered(lines: seq<string>, lastCode: int)
    requires forall i :: 0 <= i < |lines| ==> RangeOrdered(lines[i])
    requires ParseFrom(lines, lastCode).Ok?
    ensures Span(ParseFrom(lines, lastCode).value.0, lastCode, ParseFrom(lines, lastCode).value.1)
  {
    if lines != [] {
      match ParseLine(lines[0], lastCode)
      case Ok(Blank) =>
        RowsOrdered(lines[1..], lastCode);
      case Ok(Data(start, end, code, mapping)) =>
        assert RangeOrdered(lines[0]);
        LineSpan(start, end, code, mapping);
        RowsOrdered(lines[1..], end);
        SpanConcat(LineEntries(start, end, code, mapping), ParseFrom(lines[1..], end).value.0,
                   lastCode, end, ParseFrom(lines[1..], end).value.1);
    }
  }

  /**
   * The whole table, when no range is reversed: rows strictly increase, and every
   * code point below 256 up to the final cursor has its own row.
   */
  lemma TableOrdered(lines: seq<string>)
    requires forall i :: 0 <= i < |lines| ==> RangeOrdered(lines[i])
    requires ParseTable(lines).Ok?
    ensures var es := ParseTable(lines).value;
      (forall j, k :: 0 <= j < k < |es| ==> es[j].cp < es[k].cp)
      && (forall c :: 0 <= c <= ParseFrom(lines, -1).value.1 && c < 256 ==> c in CodePoints(es))
  {
    RowsOrdered(lines, -1);
  }

  /** What a status code says about a row's mapping. */
  predicate CodeAgrees(code: char, mapped: bool) {
    code in "VIMDX3"
    && (code == 'M' || code == 'D' ==> mapped)
    && (code == 'V' || code == 'I' || code == 'X' ==> !mapped)
  }

  /** The status table: its codes, and which statuses carry a mapping. */
  lemma StatusTable(name: string)
    requires name in Statuses
    ensures CodeAgrees(Statuses[name].0, Statuses[name].1)
    ensures Statuses[name].1 <==> name == "mapped" || name == "deviation" || name == "disallowed_STD3_mapped"
  {
  }

  /** Every row has one of the six codes; M and D rows have a mapping, V, I and X rows none. */
  lemma {:induction false} RowCodes(lines: seq<string>, lastCode: int)
    requires ParseFrom(lines, lastCode).Ok?
    ensures forall e :: e in ParseFrom(lines, lastCode).value.0 ==> CodeAgrees(e.code, e.mapping.Some?)
  {
    if lines != [] {
      match ParseLine(lines[0], lastCode)
      case Ok(Blank) =>
        RowCodes(lines[1..], lastCode);
      case Ok(Data(start, end, code, mapping)) =>
        var fields := Fields(Clean(lines[0]));
        StatusTable(fields[1]);
        LineEntriesShape(start, end, code, mapping);
        RowCodes(lines[1..], end);
    }
  }

  predicate IsBlank(line: string) {
    Clean(line) == []
  }

  function NonBlank(lines: seq<string>): seq<string> {
    if lines == [] then []
    else if IsBlank(lines[0]) then NonBlank(lines[1..])
    else [lines[0]] + NonBlank(lines[1..])
  }

  /** Blank and comment-only lines can be removed without changing the result. */
  lemma {:induction false} BlankLinesIgnored(lines: seq<string>, lastCode: int)
    ensures ParseFrom(lines, lastCode) == ParseFrom(NonBlank(lines), lastCode)
  {
    if lines != [] {
      if IsBlank(lines[0]) {
        BlankLinesIgnored(lines[1..], lastCode);
      } else {
        var kept := NonBlank(lines);
        assert kept[0] == lines[0] && kept[1..] == NonBlank(lines[1..]);
        match ParseLine(lines[0], lastCode)
        case Err(_) =>
        case Ok(Blank) =>
        case Ok(Data(_, end, _, _)) =>
          BlankLinesIgnored(lines[1..], end);
      }
    }
  }

  /**
   * Lines every one of which is blank or accepted, each data line starting right
   * after the range end of the data line before it (the first after `lastCode`).
   */
  predicate WellFormedFrom(lines: seq<string>, lastCode: int)
    decreases |lines|
  {
    lines == []
    || (IsBlank(lines[0]) && WellFormedFrom(lines[1..], lastCode))
    || (Accepts(lines[0], lastCode) && WellFormedFrom(lines[1..], RangeEnd(LineRange(lines[0]).value)))
  }

  /** A parse from `lastCode` succeeds exactly when the lines are well formed from there. */
  lemma {:induction false} ParseAccepted(lines: seq<string>, lastCode: int)
    ensures ParseFrom(lines, lastCode).Ok? <==> WellFormedFrom(lines, lastCode)
    decreases |lines|
  {
    if lines != [] {
      match ParseLine(lines[0], lastCode)
      case Err(_) =>
      case Ok(Blank) =>
        ParseAccepted(lines[1..], lastCode);
      case Ok(Data(_, end, _, _)) =>
        ParseAccepted(lines[1..], end);
    }
  }

  /** The whole table is accepted exactly when its lines are well formed from `last_code == -1`. */
  lemma TableAccepted(lines: seq<string>)
    ensures ParseTable(lines).Ok? <==> WellFormedFrom(lines, -1)
  {
    ParseAccepted(lines, -1);
  }

  /** Every row text of a parsed table reads back as its entry. */
  lemma RowsReadBack(lines: seq<string>)
    requires ParseTable(lines).Ok?
    ensures var es := ParseTable(lines).value;
      forall k :: 0 <= k < |es| ==> ReadRow(FormatAll(es)[k]) == Some(es[k])
  {
    var es := ParseTable(lines).value;
    forall k | 0 <= k < |es|
      ensures ReadRow(FormatAll(es)[k]) == Some(es[k])
    {
      ReadFormat(es[k]);
    }
  }
}
