/**
 The CSV extract header check that `InputHandlerService.process()` writes out
 once per extract file: the header row must exist, have at least a minimum
 number of cells, and its first cell, trimmed (null as empty) and uppercased,
 must equal the file's key column name.
 */
module HeaderCheck {
  import opened Wrappers
  import opened Text

  /** One CSV cell as the reader hands it over; `None` is a Java `null`. */
  type Cell = Option<string>

  type Row = seq<Cell>

  /** What one extract file's header must satisfy. */
  datatype Rule = Rule(minColumns: nat, key: string)

  /** Why a header is rejected. */
  datatype HeaderError =
    | NoHeader                    // the reader returned no row at all
    | TooFewColumns(count: nat)   // fewer cells than the rule's minimum
    | NoFirstCell                 // `check[0]` on an empty row: an index exception
    | KeyMismatch(firstCell: string)  // the normalised first cell is not the key

  /** The first cell as the check compares it: trimmed to empty, then uppercased. */
  function Normalize(cell: Cell): string {
    Upper(TrimToEmpty(cell))
  }

  /**
   The check, in the order Java's short-circuit `&&` evaluates it: the null
   test, then the column count, then the first cell (whose read throws when
   the row is empty), then the key comparison.
   */
  function CheckHeader(header: Option<Row>, rule: Rule): (r: Outcome<HeaderError>)
    ensures (r.Fail? && r.error.NoHeader?) <==> header.None?
    ensures (r.Fail? && r.error.TooFewColumns?) <==> header.Some? && |header.value| < rule.minColumns
    ensures (r.Fail? && r.error.NoFirstCell?) <==> header == Some([]) && rule.minColumns == 0
    ensures r.Fail? && r.error.KeyMismatch? ==> r.error.firstCell != rule.key
  {
    match header
    case None => Fail(NoHeader)
    case Some(cells) =>
      if |cells| < rule.minColumns then Fail(TooFewColumns(|cells|))
      else if |cells| == 0 then Fail(NoFirstCell)
      else if Normalize(cells[0]) != rule.key then Fail(KeyMismatch(Normalize(cells[0])))
      else Pass
  }

  predicate Accepts(header: Option<Row>, rule: Rule) {
    CheckHeader(header, rule).Pass?
  }

  /** A header is accepted exactly when it exists, is long enough and non-empty, and its first cell normalises to the key. */
  lemma AcceptsIff(header: Option<Row>, rule: Rule)
    ensures Accepts(header, rule) <==>
      && header.Some?
      && |header.value| >= rule.minColumns
      && |header.value| >= 1
      && Upper(TrimToEmpty(header.value[0])) == rule.key
  {
  }

  /** Cells after the first matter only through their number, never through their contents. */
  lemma OnlyFirstCellMatters(a: Row, b: Row, rule: Rule)
    requires |a| == |b|
    requires |a| > 0 ==> a[0] == b[0]
    ensures Accepts(Some(a), rule) <==> Accepts(Some(b), rule)
  {
  }

  /** Padding the first cell with trimmable chars never changes the verdict. */
  lemma PaddingIrrelevant(cells: Row, p: string, q: string, rule: Rule)
    requires |cells| > 0 && cells[0].Some?
    requires AllTrimmable(p) && AllTrimmable(q)
    ensures Accepts(Some(cells[0 := Some(p + cells[0].value + q)]), rule) <==> Accepts(Some(cells), rule)
  {
    TrimIgnoresPadding(p, cells[0].value, q);
  }

  /** Changing the ASCII case of letters in the first cell never changes the verdict. */
  lemma CaseIrrelevant(cells: Row, s: string, rule: Rule)
    requires |cells| > 0 && cells[0].Some?
    requires EqualIgnoringCase(s, cells[0].value)
    ensures Accepts(Some(cells[0 := Some(s)]), rule) <==> Accepts(Some(cells), rule)
  {
    var t := cells[0].value;
    EqualIgnoringCaseUpper(s, t);
    UpperTrimCommute(s);
    UpperTrimCommute(t);
  }

  /** A null first cell is judged as an empty one, so it fails every non-empty key. */
  lemma NullCellActsAsEmpty(cells: Row, rule: Rule)
    requires |cells| > 0 && cells[0] == None
    ensures Accepts(Some(cells), rule) <==> Accepts(Some(cells[0 := Some("")]), rule)
    ensures rule.key != "" ==> !Accepts(Some(cells), rule)
  {
  }

  /** Lowering the minimum column count keeps an accepted header accepted. */
  lemma FewerColumnsStillAccepted(header: Option<Row>, minColumns: nat, fewer: nat, key: string)
    requires Accepts(header, Rule(minColumns, key))
    requires fewer <= minColumns
    ensures Accepts(header, Rule(fewer, key))
  {
  }

  /** Appending cells to an accepted header keeps it accepted. */
  lemma ExtraColumnsStillAccepted(cells: Row, extra: Row, rule: Rule)
    requires Accepts(Some(cells), rule)
    ensures Accepts(Some(cells + extra), rule)
  {
    assert (cells + extra)[0] == cells[0];
  }

  /**
   Only a key that is already trimmed and uppercase can ever match: a key
   with a lowercase ASCII letter or surrounding blanks rejects every header.
   */
  lemma AcceptedKeyIsNormal(header: Option<Row>, rule: Rule)
    requires Accepts(header, rule)
    ensures Upper(rule.key) == rule.key
    ensures Trim(rule.key) == rule.key
  {
    var t := TrimToEmpty(header.value[0]);
    assert rule.key == Upper(t);
    UpperIdempotent(t);
    match header.value[0]
    case None =>
    case Some(s) =>
      TrimIdempotent(s);
      UpperTrimCommute(t);
  }
}
