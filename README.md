# fix-whitespace in Dafny

fix-whitespace is a command-line tool. It rewrites source files so that:
- no row ends in a space or a tab;
- rows made only of spaces and tabs become empty;
- every indentation is made of spaces only, and its width is a multiple of the tab size.

This project models the core of the tool, `Program.cs`, and proves properties of that model:

- **`Text`**: the .NET character and string operations the row rules use. These are `char.IsWhiteSpace`, `TrimEnd()`, `Trim()` (the full .NET white-space set), `new string(' ', n)` and the space/tab tests.
- **`Indentation`**: `GetIndentation`, which measures an indentation under tab-stop semantics, and the rounding of a width to a multiple of the tab size.
  - `%` on the non-negative widths of the program is written as `Rem` and proved equal to Dafny's `%` (`RemIsMod`).
  - The method keeps the C# `%`.
- **`Rows`**: one pass of the row loop of `Main` over a row (`FixRow`, with the `NormalizeRow` method) and over the row array (`NormalizeRows`, in place on an `array<string>`). Proved about them:
  - every written row is clean;
  - a clean row is left alone;
  - `modified` is set exactly when a row changes;
  - the pass is idempotent;
  - `Trim()` of each row is kept.
  - The model uses line 98 corrected, as described under Findings. The line as written is `FixRowAsWritten`.
- **`FileRewrite`**: the per-file bookkeeping around the loop:
  - an empty file is skipped;
  - the byte-order-mark and final-terminator tests;
  - the extra empty row;
  - what is handed to `File.WriteAllLines`.
- **`Arguments`**: the argument list as a mutable object (`ArgList`), the three flag extractors, and the flag handling at the top of `Main`.
- **`Selection`**: the strip of a leading `./` or `.\` from found paths, `Path.GetFileName`, and `ExcludeFiles`.

The tab size is a parameter with `tabSize > 0`. `int.TryParse` is a function parameter `tryParse`. The file system and the console are not modelled: the bytes and rows of a file are inputs, and the outcome of a file says what would be written.

## Model

| member | source | states |
|---|---|---|
| `Text.IsWhiteSpace` | Program.cs:76-98 | the .NET `char.IsWhiteSpace` set, which `TrimEnd()` and `Trim()` strip; `Text.SpaceOrTabIsWhiteSpace` and `Text.TrimEmptyIffAllWhiteSpace` state its properties |
| `Text.AllSpaceOrTab` | Program.cs:67 | the test that a row is only spaces and tabs; `Rows.BlankTrimsToNothing` and `Rows.BlankRows` state its properties |
| `Text.EndsWithSpaceOrTab` | Program.cs:74 | the test that a row ends in a space or a tab; `Rows.KeptIsClean` and `Rows.FixRowIsClean` state that no written row passes it |
| `Text.TrimEnd` | Program.cs:76 | the result is a prefix of the row, everything removed is white space, and the result is empty or ends in a character that is not white space |
| `Text.TrimStart` | Program.cs:98 | the result is a suffix, everything removed is white space, and the result is empty or starts with a character that is not white space |
| `Text.Trim` | Program.cs:98 | the result is empty or has no white space at either end, and is never longer than its input |
| `Text.Spaces` | Program.cs:98 | `new string(' ', n)` has length `n` and holds only spaces |
| `Text.TrimEmptyIffAllWhiteSpace` | Program.cs:98 | `Trim()` leaves nothing exactly when the row is all white space |
| `Text.TrimAfterTrimEnd` | Program.cs:76-98 | trimming the end first does not change what `Trim()` leaves |
| `Text.TrimBehindSpaces` | Program.cs:98 | `Trim()` of spaces followed by already trimmed text gives back that text |
| `Indentation.LeadingRunLength` | Program.cs:203 | the scan stops at the first character that is neither space nor tab; everything before it is space or tab |
| `Indentation.Rem` | Program.cs:213 | the remainder is below the tab size and at most the width |
| `Indentation.RemIsMod` | Program.cs:213 | the remainder used by the model is the `%` of the source for non-negative widths |
| `Indentation.NextTabStop` | Program.cs:211-221 | a tab moves the column strictly forward, by at most the tab size, to a multiple of the tab size |
| `Indentation.ColumnAfter` | Program.cs:203-223 | the width is at least the number of characters, equals it when there is no tab, and is on a tab stop right after a tab |
| `Indentation.IndentWidth` | Program.cs:197-226 | the width `GetIndentation` returns, the tab-stop width of the leading run; `Indentation.ColumnAfter` and `Indentation.GetIndentation` state its properties |
| `Indentation.HadTabs` | Program.cs:197-226 | the `hadTabs` result of `GetIndentation`, a tab in the leading run; `Indentation.GetIndentation` ties the method's flag to it |
| `Indentation.GetIndentation` | Program.cs:197-226 | the returned width is the tab-stop width of the leading run; `hadTabs` holds exactly when that run has a tab; without tabs the width is the length of the run |
| `Indentation.RoundIndentation` | Program.cs:84-94 | the result is a multiple of the tab size; it is above the width exactly when the remainder exceeds half the tab size; it moves the width by at most half the tab size; a width already on a tab stop is kept |
| `Indentation.RoundIsNearest` | Program.cs:84-94 | the rounded width is a nearest multiple of the tab size, and of two equally near ones the lower |
| `Indentation.RemDown` | Program.cs:92 | subtracting the remainder lands on a tab stop, and so does adding a full tab size to that |
| `Rows.AfterTrimEnd` | Program.cs:74-78 | the trailing-whitespace step: `TrimEnd()` applied only when the row ends in a space or a tab; `Text.TrimEnd` and `Rows.KeptIsClean` state what it leaves |
| `Rows.NeedsReindent` | Program.cs:82 | the re-indent condition: the indentation has a tab or its width is not a multiple of the tab size; `Rows.FixRowModifiedIffUnclean` ties it to cleanliness |
| `Rows.NewWidth` | Program.cs:84-94 | the rounding of lines 84-94 applied to a row's indentation; `Indentation.RoundIndentation`, `Indentation.RoundIsNearest` and `Rows.ReindentedWidth` state its properties |
| `Rows.FixRowAsWritten` | Program.cs:62-100 | one iteration of the row loop as written, line 98 included; its properties are `Rows.AsWrittenAgreesOnVisibleRows`, `Rows.AsWrittenDiffersExactly`, `Rows.AsWrittenLeavesTrailingSpaces` |
| `Rows.FixRow` | Program.cs:62-100 | one iteration of the row loop with line 98 corrected; its properties are the `Rows.FixRow…` lemmas below, `Rows.CleanRowUntouched`, `Rows.BlankRows` and `Rows.ReindentedWidth` |
| `Rows.FixRowIsClean` | Program.cs:62-99 | with line 98 corrected, every row the loop leaves behind is clean: it does not end in space or tab, and its indentation is spaces only, to a multiple of the tab size |
| `Rows.ReindentedIsClean` | Program.cs:98 | spaces to a tab stop followed by trimmed content form a clean row |
| `Rows.FixRowModifiedIffUnclean` | Program.cs:62-99 | with line 98 corrected, a row sets `modified` exactly when it is not clean, and a row that does not set it is unchanged |
| `Rows.CleanRowUntouched` | Program.cs:62-99 | a clean row is left as it is and does not set `modified` |
| `Rows.FixRowModifiedIffChanged` | Program.cs:62-99 | a row sets `modified` exactly when its text changes |
| `Rows.FixRowIdempotent` | Program.cs:62-99 | with line 98 corrected, normalising a normalised row changes nothing and does not set `modified` |
| `Rows.BlankTrimsToNothing` | Program.cs:67-98 | a row of spaces and tabs has nothing left after `Trim()` |
| `Rows.FixRowKeepsContent` | Program.cs:62-99 | what `Trim()` leaves of a row is the same before and after the loop |
| `Rows.BlankRows` | Program.cs:62-72 | an empty row stays empty without setting `modified`; a row of only spaces and tabs becomes empty and sets it |
| `Rows.ReindentedWidth` | Program.cs:82-98 | a re-indented row with something left after `Trim()` is exactly the rounded number of spaces followed by the row's trimmed content |
| `Rows.AsWrittenAgreesOnVisibleRows` | Program.cs:98 | the row loop as written and the corrected one agree on every row with something left after `Trim()` |
| `Rows.AsWrittenDiffersExactly` | Program.cs:62-100 | line 98 as written and corrected give different results exactly on a row that is not empty and not all spaces and tabs, has nothing left after `Trim()`, needs re-indenting, and has a rounded width above zero |
| `Rows.AsWrittenLeavesTrailingSpaces` | Program.cs:98 | as written, a tab followed by a form feed becomes four spaces at tab size 4, a row that is not clean and that the next run blanks |
| `Rows.AsWrittenPassNotIdempotent` | Program.cs:58-101 | as written, one pass over a file holding the row tab, form feed leaves a row of four spaces, and a second pass sets `modified` and blanks it |
| `Rows.NormalizedRowsAsWritten` | Program.cs:58-101 | the row loop over the whole array as written: `FixRowAsWritten` on each row; `Rows.AsWrittenPassNotIdempotent` states its failure of idempotence |
| `Rows.NormalizedRows` | Program.cs:58-101 | the row loop over the whole array with line 98 corrected: `FixRow` on each row; `Rows.NormalizedRowAt`, `Rows.NormalizedRowsClean` and `Rows.NormalizeIdempotent` state its properties |
| `Rows.AnyRowModified` | Program.cs:58-101 | the value of `modified` after the loop; `Rows.AnyRowModifiedAt` and `Rows.NormalizedRowsClean` state its properties |
| `Rows.Texts` | Program.cs:60 | the row loop keeps the number of rows |
| `Rows.TextsAt` | Program.cs:60-101 | the row at each index after the loop is what the loop body makes of the row at that index |
| `Rows.AnyModifiedAt` | Program.cs:58-101 | `modified` is set after the loop exactly when some row set it |
| `Rows.NormalizedRowAt` | Program.cs:60-101 | the whole-array pass keeps the row count and normalises row `i` into row `i` |
| `Rows.AnyRowModifiedAt` | Program.cs:58-101 | after the whole-array pass, `modified` holds exactly when some row set it |
| `Rows.NormalizedRowsClean` | Program.cs:58-101 | with line 98 corrected: after the loop the row count is unchanged, every row is clean, and `modified` holds exactly when some row changed |
| `Rows.NormalizeIdempotent` | Program.cs:58-101 | with line 98 corrected, a second pass over the rows changes nothing and leaves `modified` false |
| `Rows.NormalizeRow` | Program.cs:62-100 | the loop body on one row computes exactly the corrected row normalisation and its `modified` contribution |
| `Rows.NormalizeRows` | Program.cs:58-101 | with line 98 corrected: the array afterwards holds the normalised rows; `modified` holds exactly when some row set it, and exactly when the array changed |
| `FileRewrite.HasBom` | Program.cs:53 | the byte-order-mark test: the first byte is 239, 254 or 255; `FileRewrite.FileResultShape` states how it picks the encoding |
| `FileRewrite.AddRowAtEnd` | Program.cs:54 | the final-terminator test: the last byte is CR or LF; `FileRewrite.FileResultShape` states how it adds the empty row |
| `FileRewrite.FileResult` | Program.cs:48-126 | the outcome of one iteration of the file loop, with line 98 corrected; its properties are `FileRewrite.FileResultShape` and `FileRewrite.RewriteIsStable` |
| `FileRewrite.FileResultShape` | Program.cs:48-126 | with line 98 corrected: an empty file is skipped and a clean file is not written. A rewrite happens exactly when some row changes; it writes the normalised rows plus one empty row exactly when the last byte is CR or LF; it asks for UTF-8 with a byte-order mark exactly when the first byte is 239, 254 or 255; it writes only outside a dry run |
| `FileRewrite.RewriteIsStable` | Program.cs:103-109 | with line 98 corrected, the rows a rewrite writes, the extra empty row included, are left alone by a second run |
| `FileRewrite.AppendEmptyRow` | Program.cs:105-109 | the resized array is new and holds the old rows followed by one empty row |
| `FileRewrite.ProcessFile` | Program.cs:46-126 | with line 98 corrected, one iteration of the file loop, on the bytes and rows of the file, produces the outcome `FileResult` describes; an empty file's rows are not touched, and otherwise the array holds the normalised rows |
| `Arguments.ArgList.constructor` | Program.cs:13 | the list holds the command-line arguments in order |
| `Arguments.ArgList.RemoveAt` | Program.cs:138 | `List.RemoveAt(i)` drops the element at `i` and keeps the others in order |
| `Arguments.RemoveFirst` | Program.cs:132-143 | with the flag absent the list is unchanged; otherwise it is one shorter and lost exactly one copy of the flag |
| `Arguments.RemoveFirstAt` | Program.cs:134-140 | only the first occurrence is removed, the other arguments keep their order |
| `Arguments.ExtractBoolFlag` | Program.cs:132-143 | reports whether the flag was present and leaves the list without its first occurrence |
| `Arguments.IntFlag` | Program.cs:145-157 | when nothing is found the list is unchanged, and when a value is found the list is two shorter |
| `Arguments.IntFlagAt` | Program.cs:147-149 | the loop's test: index `i` holds the flag and the next argument parses; `Arguments.IntFlagNoneIff` and `Arguments.IntFlagFirst` state what `IntFlag` does with it |
| `Arguments.IntFlagNoneIff` | Program.cs:147-156 | nothing is found exactly when no occurrence of the flag is followed by a parsable argument |
| `Arguments.IntFlagFirst` | Program.cs:147-154 | the first qualifying occurrence gives the value, and it and its value are removed with the rest kept in order |
| `Arguments.ExtractIntFlag` | Program.cs:145-157 | the method returns and leaves exactly what `IntFlag` describes |
| `Arguments.StringFlags` | Program.cs:159-176 | the list shrinks by two for every value found |
| `Arguments.StringFlagsFirst` | Program.cs:162-174 | the first flag takes the argument after it as the first value; the arguments before the flag stay in front, in order, and extraction carries on after the pair |
| `Arguments.StringFlagsWithoutFlag` | Program.cs:162-174 | without the flag nothing is found and the list is unchanged |
| `Arguments.StringFlagsLeaveNoPair` | Program.cs:162-174 | no flag is left anywhere before the last argument: every flag followed by an argument was taken |
| `Arguments.TrailingFlagStays` | Program.cs:162 | a flag in the last position, with no argument after it, stays in the list unless it was taken as the value of the flag before it |
| `Arguments.ExtractStringFlags` | Program.cs:159-176 | the method returns and leaves exactly what `StringFlags` describes |
| `Arguments.CommandLine` | Program.cs:13-29 | the invocation the three extractors and the argument count give; `Arguments.PatternAloneUsesDefaults` and `Arguments.ParseCommandLine` state its properties |
| `Arguments.CommandLineConsumesArguments` | Program.cs:13-29 | a run uses up every argument but the pattern: one for `-dryrun`, two for each `-x`, and two for `-t` when a value was taken; with no value taken the tab size is 4 |
| `Arguments.PatternAloneUsesDefaults` | Program.cs:13-29 | a lone pattern gives a run with no dry run, tab size 4 and nothing excluded |
| `Arguments.ParseCommandLine` | Program.cs:13-29 | applying the three extractors in order to a fresh list gives the invocation `CommandLine` describes: the usage message unless exactly one argument remains |
| `Selection.IsSeparator` | Program.cs:34 | the two separator characters, `\` and `/`; `Selection.StripDotPrefix` and `Selection.FileName` state how they are used |
| `Selection.HasDotPrefix` | Program.cs:34 | the `StartsWith` test for `.` followed by a separator; `Selection.StripDotPrefix` states that exactly such a path changes |
| `Selection.StripDotPrefix` | Program.cs:34 | a leading `.` and separator is dropped and nothing else changes; a path without one is unchanged |
| `Selection.FileName` | Program.cs:184 | the base name has no separator and is preceded in the path by a separator, unless it is the whole path |
| `Selection.FileNameIsSuffix` | Program.cs:184 | the base name is the tail of the path |
| `Selection.Kept` | Program.cs:178-195 | the kept list is never longer than the list of files |
| `Selection.KeptMembers` | Program.cs:182-192 | a file is kept exactly when it is in the list and its base name is not excluded |
| `Selection.KeptAllWhenNothingExcluded` | Program.cs:178-195 | with no exclusions every file is kept, in order |
| `Selection.KeptDistributes` | Program.cs:182-192 | the files kept from two lists joined are the files kept from each, in the same order |
| `Selection.ExcludeFiles` | Program.cs:178-195 | the method returns exactly the files `Kept` describes |

## Left out

- File and console I/O are not modelled: `File.ReadAllBytes`, `File.ReadAllLines` (how it splits rows and decodes bytes), `File.WriteAllLines` (its encodings and the terminator it adds after every row), and `Log`. The bytes and rows of a file are inputs of `ProcessFile`, and what would be written is its outcome.
- `File.WriteAllLines` ends every row with a line terminator. So the empty row added for a file that ended in CR or LF makes the written file end in one more blank line than it had. The model states which rows are handed over, not the bytes that come out.
- `Directory.GetFiles` with its pattern matching and recursive search, and `Array.Sort` of the found paths, are not modelled. Only the prefix strip applied to each found path (line 34) and `ExcludeFiles` (line 39) are.
- `int.TryParse` is the parameter `tryParse`. Its parsing rules are not modelled.
- `Selection.FileName`, `Selection.StripDotPrefix`: both use Windows separators only (`\` and `/`). `FileName` does not model the volume separator `:`. Neither models the Unix behaviour in which only `/` separates: there `Path.GetFileName` keeps a `\`, and line 34 strips only `./`, not `.\`.
- `Indentation.GetIndentation`: requires `tabSize > 0`. A tab size of 0 given with `-t 0` makes the source divide by zero, and a negative one gives negative widths. `CommandLine` does accept any parsed integer, as the source does.
- `Indentation.GetIndentation`: does not model 32-bit overflow of `indentation`, which would need a row whose indentation is about two billion characters wide.
- C# strings are UTF-16 code units and Dafny's `char` is a Unicode scalar value. The white-space set is the same, but surrogate pairs are not modelled.
- The exit code and usage message of `Main` are modelled as the `Usage` outcome, which carries the arguments that were left. Log lines are not modelled.
- Rows.FixRow, Rows.NormalizeRow: follow line 98 corrected, not as written. They differ from the source exactly on a row that is neither empty nor all spaces and tabs, has nothing left after `Trim()`, needs re-indenting, and has a rounded indentation width above zero (`Rows.AsWrittenDiffersExactly`). An example is a tab then a form feed at tab size 4. On such a row the source writes that many spaces and the model writes an empty row. So the source's single pass is neither clean nor idempotent on such rows. A row of only a form feed, or one whose width rounds to zero, comes out the same either way. Line 98 as written is `Rows.FixRowAsWritten` and `Rows.NormalizedRowsAsWritten`; see Findings.
- Rows.NormalizeRows: applies the same correction to every row, so on those rows it also differs from the source.
- FileRewrite.FileResult, FileRewrite.ProcessFile: apply the same correction. For a file with such a row the source writes a row that ends in spaces, and the model writes an empty row.
- The row loop's body is the method `Rows.NormalizeRow`, which `NormalizeRows` calls on each row. The source has the body inline. In the `continue` cases, `NormalizeRow` returns early.

## Findings

| source | as written | input that shows it | evidently intended | confidence | as-written member | corrected member |
|---|---|---|---|---|---|---|
| Program.cs:98 | a re-indented row becomes the rounded number of spaces followed by `Trim()` of the row, even when `Trim()` leaves nothing | the row "\t\f" (tab, form feed) at tab size 4 becomes "    ". That row ends in spaces, so one run does not leave the file clean and a second run blanks the row | a re-indented row with nothing left after `Trim()` becomes empty, like a row of spaces and tabs (line 69). This changes the result exactly when the rounded width is above zero (`Rows.AsWrittenDiffersExactly`). This is one reasonable fix among others: it turns "\t\f" into "" but leaves "    \f" as it is, though `Trim()` empties both. Another fix that also makes the pass idempotent keeps the white space `Trim()` would strip behind the new indentation, so "\t\f" becomes "    \f" | not executed | `Rows.AsWrittenLeavesTrailingSpaces` | `Rows.FixRowIdempotent` |
