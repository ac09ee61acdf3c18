/** The per-row whitespace normalisation of the row loop in `Main` (Program.cs:58-101). `FixRow`
    and everything built on it use line 98 corrected: a row that is re-indented but has nothing
    left after `Trim()` becomes empty instead of a run of spaces (`AsWrittenDiffersExactly` says
    on which rows this matters). `FixRowAsWritten` is line 98 as it stands. */
module Rows {
  import opened Text
  import opened Indentation

  /** A row after normalisation, and whether the loop set `modified` for it. */
  datatype RowFix = RowFix(text: string, modified: bool)

  /** The row after the trailing-whitespace step (lines 74-78): `TrimEnd()` is applied only when
      the row ends in a space or a tab. */
  function AfterTrimEnd(row: string): string {
    if EndsWithSpaceOrTab(row) then TrimEnd(row) else row
  }

  /** The condition of line 82: the indentation has a tab or is not a multiple of `tabSize`. */
  predicate NeedsReindent(row: string, tabSize: nat)
    requires tabSize > 0
  {
    HadTabs(row) || !IsTabStop(IndentWidth(row, tabSize), tabSize)
  }

  /** The width line 98 re-expresses the indentation with. */
  function NewWidth(row: string, tabSize: nat): nat
    requires tabSize > 0
  {
    RoundIndentation(IndentWidth(row, tabSize), tabSize)
  }

  /** A row the loop leaves alone: empty, or ending in neither space nor tab with an
      indentation of spaces only whose width is a multiple of `tabSize`. */
  predicate IsClean(row: string, tabSize: nat)
    requires tabSize > 0
  {
    row == [] || (!EndsWithSpaceOrTab(row) && !HadTabs(row) && IsTabStop(IndentWidth(row, tabSize), tabSize))
  }

  /** One iteration of the row loop exactly as Program.cs writes it: line 98 puts the rounded
      indentation in front of `Trim()` of the row even when nothing is left after trimming. */
  function FixRowAsWritten(row: string, tabSize: nat): (r: RowFix)
    requires tabSize > 0
  {
    if row == [] then RowFix(row, false)
    else if AllSpaceOrTab(row) then RowFix([], true)
    else
      var trimmed := AfterTrimEnd(row);
      if NeedsReindent(trimmed, tabSize) then
        RowFix(Spaces(NewWidth(trimmed, tabSize)) + Trim(trimmed), true)
      else
        RowFix(trimmed, EndsWithSpaceOrTab(row))
  }

  /** One iteration of the row loop with line 98 corrected: a row with nothing left after
      `Trim()` becomes empty instead of a run of spaces. */
  function FixRow(row: string, tabSize: nat): (r: RowFix)
    requires tabSize > 0
  {
    if row == [] then RowFix(row, false)
    else if AllSpaceOrTab(row) then RowFix([], true)
    else
      var trimmed := AfterTrimEnd(row);
      if NeedsReindent(trimmed, tabSize) then
        var content := Trim(trimmed);
        RowFix(if content == [] then [] else Spaces(NewWidth(trimmed, tabSize)) + content, true)
      else
        RowFix(trimmed, EndsWithSpaceOrTab(row))
  }

  /** The leading run of spaces followed by a text that starts with neither space nor tab is
      just those spaces. */
  lemma {:induction false} LeadingRunOfSpaces(n: nat, t: string)
    requires t == [] || !IsSpaceOrTab(t[0])
    ensures LeadingRun(Spaces(n) + t) == Spaces(n)
  {
    if n > 0 {
      assert (Spaces(n) + t)[1..] == Spaces(n - 1) + t;
      LeadingRunOfSpaces(n - 1, t);
      assert [' '] + Spaces(n - 1) == Spaces(n);
    } else {
      assert Spaces(n) + t == t;
    }
  }

  /** A character that is not white space is neither a space nor a tab. */
  lemma NotSpaceOrTab(c: char)
    requires !IsWhiteSpace(c)
    ensures !IsSpaceOrTab(c)
  {
    if IsSpaceOrTab(c) {
      SpaceOrTabIsWhiteSpace(c);
    }
  }

  /** Spaces to a tab stop followed by trimmed content make a clean row. */
  lemma ReindentedIsClean(n: nat, content: string, tabSize: nat)
    requires tabSize > 0
    requires IsTabStop(n, tabSize)
    requires content != [] && !IsWhiteSpace(content[0]) && !IsWhiteSpace(content[|content| - 1])
    ensures IsClean(Spaces(n) + content, tabSize)
  {
    var text := Spaces(n) + content;
    NotSpaceOrTab(content[0]);
    NotSpaceOrTab(content[|content| - 1]);
    LeadingRunOfSpaces(n, content);
    assert !EndsWithSpaceOrTab(text) by {
      assert text[|text| - 1] == content[|content| - 1];
    }
    assert !HadTabs(text) by {
      assert forall i | 0 <= i < n :: Spaces(n)[i] != '\t';
    }
    assert IndentWidth(text, tabSize) == n;
  }

  /** A row that needs no re-indentation and does not end in a space or tab is clean. */
  lemma KeptIsClean(row: string, tabSize: nat)
    requires tabSize > 0
    requires !NeedsReindent(row, tabSize)
    requires !EndsWithSpaceOrTab(row)
    ensures IsClean(row, tabSize)
  {
  }

  /** Every row the loop writes ends in neither space nor tab and is indented by spaces only, to
      a multiple of `tabSize`. */
  lemma FixRowIsClean(row: string, tabSize: nat)
    requires tabSize > 0
    ensures IsClean(FixRow(row, tabSize).text, tabSize)
  {
    if row != [] && !AllSpaceOrTab(row) {
      var trimmed := AfterTrimEnd(row);
      var content := Trim(trimmed);
      if NeedsReindent(trimmed, tabSize) {
        if content != [] {
          ReindentedIsClean(NewWidth(trimmed, tabSize), content, tabSize);
        }
      } else {
        if EndsWithSpaceOrTab(row) && trimmed != [] {
          NotSpaceOrTab(trimmed[|trimmed| - 1]);
        }
        KeptIsClean(trimmed, tabSize);
      }
    }
  }

  /** The loop sets `modified` for a row exactly when the row is not clean. */
  lemma FixRowModifiedIffUnclean(row: string, tabSize: nat)
    requires tabSize > 0
    ensures FixRow(row, tabSize).modified <==> !IsClean(row, tabSize)
    ensures !FixRow(row, tabSize).modified ==> FixRow(row, tabSize).text == row
  {
    if row != [] && AllSpaceOrTab(row) {
      assert IsSpaceOrTab(row[|row| - 1]);
    }
  }

  /** A row that is already clean is left byte-identical and does not set `modified`. */
  lemma CleanRowUntouched(row: string, tabSize: nat)
    requires tabSize > 0
    requires IsClean(row, tabSize)
    ensures FixRow(row, tabSize) == RowFix(row, false)
  {
    FixRowModifiedIffUnclean(row, tabSize);
  }

  /** `modified` is set for a row exactly when the row's text changes. */
  lemma FixRowModifiedIffChanged(row: string, tabSize: nat)
    requires tabSize > 0
    ensures FixRow(row, tabSize).modified <==> FixRow(row, tabSize).text != row
  {
    FixRowIsClean(row, tabSize);
    FixRowModifiedIffUnclean(row, tabSize);
  }

  /** Normalising a normalised row changes nothing. */
  lemma FixRowIdempotent(row: string, tabSize: nat)
    requires tabSize > 0
    ensures FixRow(FixRow(row, tabSize).text, tabSize) == RowFix(FixRow(row, tabSize).text, false)
  {
    FixRowIsClean(row, tabSize);
    CleanRowUntouched(FixRow(row, tabSize).text, tabSize);
  }

  /** A row of spaces and tabs trims to nothing. */
  lemma BlankTrimsToNothing(row: string)
    requires AllSpaceOrTab(row)
    ensures Trim(row) == []
  {
    forall i | 0 <= i < |row| ensures IsWhiteSpace(row[i]) {
      SpaceOrTabIsWhiteSpace(row[i]);
    }
    TrimEmptyIffAllWhiteSpace(row);
  }

  /** Only leading and trailing white space changes: what `Trim()` leaves of a row is the same
      before and after. */
  lemma FixRowKeepsContent(row: string, tabSize: nat)
    requires tabSize > 0
    ensures Trim(FixRow(row, tabSize).text) == Trim(row)
  {
    if row != [] && AllSpaceOrTab(row) {
      BlankTrimsToNothing(row);
    } else if row != [] {
      var trimmed := AfterTrimEnd(row);
      TrimAfterTrimEnd(row);
      var content := Trim(trimmed);
      if NeedsReindent(trimmed, tabSize) && content != [] {
        var n := NewWidth(trimmed, tabSize);
        assert FixRow(row, tabSize).text == Spaces(n) + content;
        TrimBehindSpaces(n, content);
      }
    }
  }

  /** A row made only of spaces and tabs becomes empty and sets `modified`; an empty row stays
      empty and does not. */
  lemma BlankRows(row: string, tabSize: nat)
    requires tabSize > 0
    requires AllSpaceOrTab(row)
    ensures FixRow(row, tabSize) == RowFix([], row != [])
  {
  }

  /** A re-indented row starts with exactly the rounded number of spaces before its content. */
  lemma ReindentedWidth(row: string, tabSize: nat)
    requires tabSize > 0
    requires Trim(row) != [] && NeedsReindent(AfterTrimEnd(row), tabSize)
    ensures LeadingRun(FixRow(row, tabSize).text) == Spaces(NewWidth(AfterTrimEnd(row), tabSize))
    ensures FixRow(row, tabSize).text == Spaces(NewWidth(AfterTrimEnd(row), tabSize)) + Trim(row)
  {
    var trimmed := AfterTrimEnd(row);
    TrimAfterTrimEnd(row);
    var content := Trim(trimmed);
    assert content == Trim(row);
    if AllSpaceOrTab(row) {
      FixRowKeepsContent(row, tabSize);
    }
    NotSpaceOrTab(content[0]);
    LeadingRunOfSpaces(NewWidth(trimmed, tabSize), content);
  }

  /** The two versions of line 98 agree on every row that has something left after `Trim()`. */
  lemma AsWrittenAgreesOnVisibleRows(row: string, tabSize: nat)
    requires tabSize > 0
    requires Trim(row) != []
    ensures FixRowAsWritten(row, tabSize) == FixRow(row, tabSize)
  {
    if row != [] && AllSpaceOrTab(row) {
      BlankTrimsToNothing(row);
      assert false;
    } else if row != [] {
      var trimmed := AfterTrimEnd(row);
      assert Trim(trimmed) == Trim(row) by {
        TrimAfterTrimEnd(row);
      }
      if NeedsReindent(trimmed, tabSize) {
        assert FixRow(row, tabSize).text == Spaces(NewWidth(trimmed, tabSize)) + Trim(trimmed);
      }
    }
  }

  /** The two versions of line 98 differ exactly on the rows that reach it, have nothing left
      after `Trim()`, and are re-indented to a width above zero. */
  lemma AsWrittenDiffersExactly(row: string, tabSize: nat)
    requires tabSize > 0
    ensures FixRowAsWritten(row, tabSize) != FixRow(row, tabSize)
            <==> row != [] && !AllSpaceOrTab(row) && Trim(row) == []
                 && NeedsReindent(AfterTrimEnd(row), tabSize)
                 && NewWidth(AfterTrimEnd(row), tabSize) > 0
  {
    var trimmed := AfterTrimEnd(row);
    assert Trim(trimmed) == Trim(row) by {
      TrimAfterTrimEnd(row);
    }
    var n, content := NewWidth(trimmed, tabSize), Trim(trimmed);
    if content == [] {
      assert Spaces(n) + content == Spaces(n);
      assert |Spaces(n)| == n;
    }
  }

  /** As written, a tab followed by a form feed (with the default tab size 4) becomes four
      spaces: a row that ends in spaces, which the next run then blanks. */
  lemma AsWrittenLeavesTrailingSpaces()
    ensures FixRowAsWritten("\t\U{C}", 4) == RowFix("    ", true)
    ensures !IsClean("    ", 4)
    ensures FixRowAsWritten("    ", 4) == RowFix([], true)
  {
    var row := "\t\U{C}";
    assert LeadingRunLength(row[1..]) == 0;
    assert LeadingRun(row) == "\t";
    assert ColumnAfter("\t", 4) == 4;
    assert TrimEnd(row[..1]) == [];
    assert TrimEnd(row) == [];
    assert Spaces(4) == "    ";
  }

  /** The rows after the loop exactly as Program.cs writes it. */
  function NormalizedRowsAsWritten(rows: seq<string>, tabSize: nat): seq<string>
    requires tabSize > 0
  {
    Texts(rows, row => FixRowAsWritten(row, tabSize))
  }

  /** As written, one pass over a file holding the row tab, form feed leaves a row of four
      spaces, and a second pass changes the file again. */
  lemma AsWrittenPassNotIdempotent()
    ensures NormalizedRowsAsWritten(["\t\U{C}"], 4) == ["    "]
    ensures NormalizedRowsAsWritten(NormalizedRowsAsWritten(["\t\U{C}"], 4), 4) == [""]
    ensures AnyModified(["    "], row => FixRowAsWritten(row, 4))
  {
    AsWrittenLeavesTrailingSpaces();
    assert ["\t\U{C}"][..0] == [];
    assert ["    "][..0] == [];
  }

  /** The texts `fix` gives each of `rows`, in order. */
  function Texts(rows: seq<string>, fix: string -> RowFix): (r: seq<string>)
    ensures |r| == |rows|
  {
    if rows == [] then [] else Texts(rows[..|rows| - 1], fix) + [fix(rows[|rows| - 1]).text]
  }

  /** Whether `fix` reports a change for some prefix row, checked from the last row back. */
  predicate AnyModified(rows: seq<string>, fix: string -> RowFix) {
    rows != [] && (AnyModified(rows[..|rows| - 1], fix) || fix(rows[|rows| - 1]).modified)
  }

  /** Position `i` of `Texts` is the text `fix` gives row `i`. */
  lemma {:induction false} TextsAt(rows: seq<string>, fix: string -> RowFix, i: nat)
    requires i < |rows|
    ensures Texts(rows, fix)[i] == fix(rows[i]).text
  {
    if i < |rows| - 1 {
      var init := rows[..|rows| - 1];
      TextsAt(init, fix, i);
      assert init[i] == rows[i];
    }
  }

  /** `AnyModified` holds exactly when `fix` reports a change for some row. */
  lemma {:induction false} AnyModifiedAt(rows: seq<string>, fix: string -> RowFix)
    ensures AnyModified(rows, fix) <==> exists i | 0 <= i < |rows| :: fix(rows[i]).modified
  {
    if rows != [] {
      var init := rows[..|rows| - 1];
      AnyModifiedAt(init, fix);
      if AnyModified(init, fix) {
        var i :| 0 <= i < |init| && fix(init[i]).modified;
        assert init[i] == rows[i];
      } else if fix(rows[|rows| - 1]).modified {
        assert exists i | 0 <= i < |rows| :: fix(rows[i]).modified;
      } else {
        forall i | 0 <= i < |rows| ensures !fix(rows[i]).modified {
          if i < |init| {
            assert init[i] == rows[i];
          }
        }
      }
    }
  }

  /** The rows after the loop: each row replaced by its normalised text. */
  function NormalizedRows(rows: seq<string>, tabSize: nat): seq<string>
    requires tabSize > 0
  {
    Texts(rows, row => FixRow(row, tabSize))
  }

  /** The value of `modified` after the loop: some row set it. */
  predicate AnyRowModified(rows: seq<string>, tabSize: nat)
    requires tabSize > 0
  {
    AnyModified(rows, row => FixRow(row, tabSize))
  }

  /** Row `i` after the loop is row `i` before it, normalised. */
  lemma NormalizedRowAt(rows: seq<string>, tabSize: nat, i: nat)
    requires tabSize > 0
    requires i < |rows|
    ensures |NormalizedRows(rows, tabSize)| == |rows|
    ensures NormalizedRows(rows, tabSize)[i] == FixRow(rows[i], tabSize).text
  {
    TextsAt(rows, row => FixRow(row, tabSize), i);
  }

  /** `modified` holds after the loop exactly when some row set it. */
  lemma AnyRowModifiedAt(rows: seq<string>, tabSize: nat)
    requires tabSize > 0
    ensures AnyRowModified(rows, tabSize) <==> exists i | 0 <= i < |rows| :: FixRow(rows[i], tabSize).modified
  {
    var fix := row => FixRow(row, tabSize);
    AnyModifiedAt(rows, fix);
    assert forall i | 0 <= i < |rows| :: fix(rows[i]) == FixRow(rows[i], tabSize);
  }

  /** After the loop the row count is unchanged and every row is clean; `modified` holds exactly
      when some row changed. */
  lemma NormalizedRowsClean(rows: seq<string>, tabSize: nat)
    requires tabSize > 0
    ensures |NormalizedRows(rows, tabSize)| == |rows|
    ensures forall i | 0 <= i < |rows| :: IsClean(NormalizedRows(rows, tabSize)[i], tabSize)
    ensures AnyRowModified(rows, tabSize) <==> NormalizedRows(rows, tabSize) != rows
  {
    var out := NormalizedRows(rows, tabSize);
    AnyRowModifiedAt(rows, tabSize);
    forall i | 0 <= i < |rows|
      ensures IsClean(out[i], tabSize)
      ensures FixRow(rows[i], tabSize).modified <==> out[i] != rows[i]
    {
      NormalizedRowAt(rows, tabSize, i);
      FixRowIsClean(rows[i], tabSize);
      FixRowModifiedIffChanged(rows[i], tabSize);
    }
    if out != rows {
      assert exists i | 0 <= i < |rows| :: out[i] != rows[i];
    }
  }

  /** Running the normalisation a second time changes nothing and does not set `modified`. */
  lemma NormalizeIdempotent(rows: seq<string>, tabSize: nat)
    requires tabSize > 0
    ensures NormalizedRows(NormalizedRows(rows, tabSize), tabSize) == NormalizedRows(rows, tabSize)
    ensures !AnyRowModified(NormalizedRows(rows, tabSize), tabSize)
  {
    var out := NormalizedRows(rows, tabSize);
    AnyRowModifiedAt(out, tabSize);
    forall i | 0 <= i < |out|
      ensures NormalizedRows(out, tabSize)[i] == out[i]
      ensures !FixRow(out[i], tabSize).modified
    {
      NormalizedRowAt(rows, tabSize, i);
      NormalizedRowAt(out, tabSize, i);
      FixRowIdempotent(rows[i], tabSize);
    }
  }

  /** The body of the row loop (Program.cs:62-100), with line 98 corrected, for one row:
      returns the new row and whether it set `modified`. */
  method NormalizeRow(row: string, tabSize: int) returns (text: string, modified: bool)
    requires tabSize > 0
    ensures RowFix(text, modified) == FixRow(row, tabSize)
  {
    text, modified := row, false;
    if text == [] {
      return;
    }
    if AllSpaceOrTab(text) {
      text, modified := [], true;
      return;
    }
    if EndsWithSpaceOrTab(text) {
      text, modified := TrimEnd(text), true;
    }
    assert text == AfterTrimEnd(row);
    var indentation, hadTabs := GetIndentation(text, tabSize);
    RemIsMod(indentation, tabSize);
    if hadTabs || indentation % tabSize != 0 {
      assert NeedsReindent(text, tabSize);
      ghost var measured := indentation;
      var spaces := indentation % tabSize;
      if spaces > tabSize / 2 {
        indentation := indentation + (tabSize - spaces);
      } else {
        indentation := indentation - spaces;
      }
      assert indentation == RoundIndentation(measured, tabSize);
      var content := Trim(text);
      text := if content == [] then [] else Spaces(indentation) + content;
      modified := true;
    }
  }

  /** Program.cs:58-101, with line 98 corrected: normalises every row of `rows` in place and
      returns `modified`. */
  method NormalizeRows(rows: array<string>, tabSize: int) returns (modified: bool)
    requires tabSize > 0
    modifies rows
    ensures rows[..] == NormalizedRows(old(rows[..]), tabSize)
    ensures modified == AnyRowModified(old(rows[..]), tabSize)
    ensures modified <==> rows[..] != old(rows[..])
  {
    ghost var before := rows[..];
    modified := false;
    for row := 0 to rows.Length
      invariant rows[..row] == NormalizedRows(before[..row], tabSize)
      invariant rows[row..] == before[row..]
      invariant modified == AnyRowModified(before[..row], tabSize)
    {
      var text, changed := NormalizeRow(rows[row], tabSize);
      assert before[..row + 1][..row] == before[..row];
      assert rows[row] == before[row];
      rows[row] := text;
      assert rows[..row + 1] == rows[..row] + [text];
      modified := modified || changed;
    }
    assert before[..rows.Length] == before;
    NormalizedRowsClean(before, tabSize);
  }
}
