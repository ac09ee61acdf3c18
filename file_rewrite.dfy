/** The per-file handling in `Main` around the row loop (Program.cs:46-126): the empty-file
    skip, the byte-order-mark and final-terminator tests on the raw bytes, the extra empty row,
    and the choice of what is written. The rows are normalised with line 98 corrected, as in
    `Rows.FixRow`. */
module FileRewrite {
  import opened Rows

  newtype byte = b: int | 0 <= b < 256

  const CR: byte := 13
  const LF: byte := 10

  /** Line 53: the first byte starts a UTF-8 (0xEF) or UTF-16 (0xFE, 0xFF) byte-order mark. */
  predicate HasBom(buf: seq<byte>)
    requires |buf| > 0
  {
    buf[0] == 239 || buf[0] == 254 || buf[0] == 255
  }

  /** Line 54: the last byte is a line terminator. */
  predicate AddRowAtEnd(buf: seq<byte>)
    requires |buf| > 0
  {
    buf[|buf| - 1] == CR || buf[|buf| - 1] == LF
  }

  /** What happens to one file. `Rewrite` carries the rows handed to `File.WriteAllLines`,
      whether the UTF-8 encoding with a byte-order mark is asked for (line 116) and whether the
      file is actually written (not in a dry run). */
  datatype FileOutcome =
    | EmptyFile
    | Unmodified
    | Rewrite(rows: seq<string>, withBom: bool, write: bool)

  /** The outcome Program.cs:48-126, with line 98 corrected, produces for a file with bytes `buf`
      whose lines are `rows`. */
  function FileResult(buf: seq<byte>, rows: seq<string>, tabSize: nat, dryrun: bool): FileOutcome
    requires tabSize > 0
  {
    if buf == [] then EmptyFile
    else if !AnyRowModified(rows, tabSize) then Unmodified
    else
      var extra := if AddRowAtEnd(buf) then [""] else [];
      Rewrite(NormalizedRows(rows, tabSize) + extra, HasBom(buf), !dryrun)
  }

  /** A rewritten file has every row normalised and exactly one more row, an empty one, exactly
      when its last byte is `\r` or `\n`; nothing is written for an empty or a clean file. */
  lemma FileResultShape(buf: seq<byte>, rows: seq<string>, tabSize: nat, dryrun: bool)
    requires tabSize > 0
    ensures buf == [] ==> FileResult(buf, rows, tabSize, dryrun) == EmptyFile
    ensures buf != [] && NormalizedRows(rows, tabSize) == rows
            ==> FileResult(buf, rows, tabSize, dryrun) == Unmodified
    ensures FileResult(buf, rows, tabSize, dryrun).Rewrite? <==>
            buf != [] && NormalizedRows(rows, tabSize) != rows
    ensures FileResult(buf, rows, tabSize, dryrun).Rewrite? ==>
            var out := FileResult(buf, rows, tabSize, dryrun).rows;
            && out[..|rows|] == NormalizedRows(rows, tabSize)
            && |out| == |rows| + (if AddRowAtEnd(buf) then 1 else 0)
            && (AddRowAtEnd(buf) ==> out[|rows|] == "")
            && FileResult(buf, rows, tabSize, dryrun).withBom == HasBom(buf)
            && FileResult(buf, rows, tabSize, dryrun).write == !dryrun
  {
    NormalizedRowsClean(rows, tabSize);
  }

  /** Rows written out by a rewrite are clean: processing them again finds nothing to do. */
  lemma RewriteIsStable(buf: seq<byte>, rows: seq<string>, tabSize: nat, dryrun: bool, buf2: seq<byte>)
    requires tabSize > 0
    requires FileResult(buf, rows, tabSize, dryrun).Rewrite?
    requires buf2 != []
    ensures FileResult(buf2, FileResult(buf, rows, tabSize, dryrun).rows, tabSize, dryrun) == Unmodified
  {
    var out := FileResult(buf, rows, tabSize, dryrun).rows;
    var norm := NormalizedRows(rows, tabSize);
    NormalizeIdempotent(rows, tabSize);
    AnyRowModifiedAt(norm, tabSize);
    AnyRowModifiedAt(out, tabSize);
    forall i | 0 <= i < |out| ensures !FixRow(out[i], tabSize).modified {
      if i < |norm| {
        assert out[i] == norm[i];
      } else {
        assert out[i] == "";
      }
    }
  }

  /** `Array.Resize(ref rows, rows.Length + 1)` followed by storing the empty string in the new
      last slot (lines 107-108). */
  method AppendEmptyRow(rows: array<string>) returns (resized: array<string>)
    ensures fresh(resized)
    ensures resized[..] == rows[..] + [""]
  {
    resized := new string[rows.Length + 1];
    for i := 0 to rows.Length
      invariant resized[..i] == rows[..i]
    {
      resized[i] := rows[i];
      assert resized[..i + 1] == resized[..i] + [rows[i]];
      assert rows[..i + 1] == rows[..i] + [rows[i]];
    }
    resized[rows.Length] := "";
    assert resized[..rows.Length] == rows[..rows.Length];
  }

  /** The body of the file loop of `Main` once the file is read (Program.cs:48-126), with line 98
      corrected: `buf` are
      the bytes `File.ReadAllBytes` returned, `rows` the lines `File.ReadAllLines` returned. */
  method ProcessFile(buf: seq<byte>, rows: array<string>, tabSize: int, dryrun: bool)
    returns (outcome: FileOutcome)
    requires tabSize > 0
    modifies rows
    ensures outcome == FileResult(buf, old(rows[..]), tabSize, dryrun)
    ensures buf == [] ==> rows[..] == old(rows[..])
    ensures buf != [] ==> rows[..] == NormalizedRows(old(rows[..]), tabSize)
  {
    if |buf| == 0 {
      return EmptyFile;
    }
    var hasBom := buf[0] == 239 || buf[0] == 254 || buf[0] == 255;
    var addRowAtEnd := buf[|buf| - 1] == CR || buf[|buf| - 1] == LF;
    var modified := NormalizeRows(rows, tabSize);
    if !modified {
      return Unmodified;
    }
    var written := rows;
    if addRowAtEnd {
      written := AppendEmptyRow(rows);
    }
    outcome := Rewrite(written[..], hasBom, !dryrun);
  }
}
