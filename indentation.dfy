/** Indentation width under tab-stop semantics (`GetIndentation`) and the rounding rule the row
    loop applies to it. */
module Indentation {
  import opened Text

  /** Length of the leading run of spaces and tabs of `s`: the range the scan of
      `GetIndentation` walks. */
  function LeadingRunLength(s: string): (n: nat)
    ensures n <= |s|
    ensures AllSpaceOrTab(s[..n])
    ensures n == |s| || !IsSpaceOrTab(s[n])
  {
    if s == [] || !IsSpaceOrTab(s[0]) then 0 else 1 + LeadingRunLength(s[1..])
  }

  /** The leading run of spaces and tabs of `s`. */
  function LeadingRun(s: string): string {
    s[..LeadingRunLength(s)]
  }

  /** C#'s `x % tabSize` for the non-negative operands of this program (see `RemIsMod`),
      written as repeated subtraction. */
  function Rem(x: nat, tabSize: nat): (r: nat)
    requires tabSize > 0
    ensures r < tabSize && r <= x
    decreases x
  {
    if x < tabSize then x else Rem(x - tabSize, tabSize)
  }

  /** A column is a tab stop when it is a multiple of `tabSize`. */
  predicate IsTabStop(col: nat, tabSize: nat)
    requires tabSize > 0
  {
    Rem(col, tabSize) == 0
  }

  /** The column a tab advances `col` to: the next multiple of `tabSize` strictly above `col`
      (a full `tabSize` from a column that is already a multiple). */
  function NextTabStop(col: nat, tabSize: nat): (r: nat)
    requires tabSize > 0
    ensures col < r <= col + tabSize
    ensures IsTabStop(r, tabSize)
  {
    var overflow := Rem(col, tabSize);
    RemDown(col, tabSize);
    if overflow == 0 then col + tabSize else col + (tabSize - overflow)
  }

  /** The column after `run`, read from column 0: a space adds one column, a tab moves to the
      next tab stop. */
  function ColumnAfter(run: string, tabSize: nat): (col: nat)
    requires tabSize > 0
    ensures |run| <= col
    ensures '\t' !in run ==> col == |run|
    ensures run != [] && run[|run| - 1] == '\t' ==> IsTabStop(col, tabSize)
    decreases |run|
  {
    if run == [] then 0
    else
      var before := ColumnAfter(run[..|run| - 1], tabSize);
      assert '\t' !in run ==> '\t' !in run[..|run| - 1];
      if run[|run| - 1] == '\t' then NextTabStop(before, tabSize) else before + 1
  }

  /** The width `GetIndentation` measures. */
  function IndentWidth(row: string, tabSize: nat): nat
    requires tabSize > 0
  {
    ColumnAfter(LeadingRun(row), tabSize)
  }

  /** The `hadTabs` flag `GetIndentation` reports. */
  predicate HadTabs(row: string) {
    '\t' in LeadingRun(row)
  }

  /** Program.cs `GetIndentation`: walks the leading run of spaces and tabs, counting columns. */
  method GetIndentation(row: string, tabSize: int) returns (indentation: nat, hadTabs: bool)
    requires tabSize > 0
    ensures indentation == IndentWidth(row, tabSize)
    ensures hadTabs <==> '\t' in LeadingRun(row)
    ensures !hadTabs ==> indentation == LeadingRunLength(row)
  {
    indentation := 0;
    hadTabs := false;
    var i := 0;
    while i < |row| && IsSpaceOrTab(row[i])
      invariant i <= LeadingRunLength(row)
      invariant indentation == ColumnAfter(row[..i], tabSize)
      invariant hadTabs <==> '\t' in row[..i]
    {
      ScanStep(row, i, tabSize);
      RemIsMod(indentation, tabSize);
      if row[i] == ' ' {
        indentation := indentation + 1;
      } else {
        hadTabs := true;
        var overflow := indentation % tabSize;
        if overflow == 0 {
          indentation := indentation + tabSize;
        } else {
          indentation := indentation + (tabSize - overflow);
        }
      }
      i := i + 1;
    }
    assert row[..i] == LeadingRun(row);
  }

  /** One more character of the scan: its column and whether a tab has been seen. */
  lemma ScanStep(row: string, i: nat, tabSize: nat)
    requires tabSize > 0
    requires i < |row|
    ensures ColumnAfter(row[..i + 1], tabSize)
            == if row[i] == '\t' then NextTabStop(ColumnAfter(row[..i], tabSize), tabSize)
               else ColumnAfter(row[..i], tabSize) + 1
    ensures '\t' in row[..i + 1] <==> '\t' in row[..i] || row[i] == '\t'
  {
    assert row[..i + 1] == row[..i] + [row[i]];
  }

  /** The rounding of lines 84-94 of the row loop: down to the previous multiple of `tabSize`
      unless the remainder exceeds `tabSize / 2`, in which case up to the next one. */
  function RoundIndentation(indentation: nat, tabSize: nat): (r: nat)
    requires tabSize > 0
    ensures IsTabStop(r, tabSize)
    ensures r > indentation <==> Rem(indentation, tabSize) > tabSize / 2
    ensures indentation - tabSize / 2 <= r <= indentation + tabSize / 2
    ensures IsTabStop(indentation, tabSize) ==> r == indentation
  {
    var spaces := Rem(indentation, tabSize);
    RemDown(indentation, tabSize);
    if spaces > tabSize / 2 then indentation + (tabSize - spaces) else indentation - spaces
  }

  /** The rounded width is a nearest multiple of `tabSize`, and of two equally near ones it is
      the lower. */
  lemma RoundIsNearest(indentation: nat, tabSize: nat, m: nat)
    requires tabSize > 0
    requires IsTabStop(m, tabSize)
    ensures Distance(RoundIndentation(indentation, tabSize), indentation) <= Distance(m, indentation)
    ensures Distance(RoundIndentation(indentation, tabSize), indentation) == Distance(m, indentation)
            ==> RoundIndentation(indentation, tabSize) <= m
  {
    RemIsMod(indentation, tabSize);
    RemIsMod(m, tabSize);
    var q, spaces := indentation / tabSize, indentation % tabSize;
    var k := m / tabSize;
    DivMod(m, tabSize);
    DivMod(indentation, tabSize);
    assert (q + 1) * tabSize == q * tabSize + tabSize;
    if k <= q {
      MulMonotone(k, q, tabSize);
    } else {
      MulMonotone(q + 1, k, tabSize);
    }
  }

  function Distance(a: int, b: int): nat {
    if a <= b then b - a else a - b
  }

  /** Subtracting the remainder lands on a tab stop, and so does adding a full `tabSize`. */
  lemma {:induction false} RemDown(x: nat, tabSize: nat)
    requires tabSize > 0
    ensures IsTabStop(x - Rem(x, tabSize), tabSize)
    ensures IsTabStop(x - Rem(x, tabSize) + tabSize, tabSize)
    decreases x
  {
    if x >= tabSize {
      RemDown(x - tabSize, tabSize);
      assert x - Rem(x, tabSize) == (x - tabSize - Rem(x - tabSize, tabSize)) + tabSize;
    }
  }

  /** `Rem` is Dafny's (Euclidean) `%`, which for non-negative operands is C#'s `%`. */
  lemma {:induction false} RemIsMod(x: nat, tabSize: nat)
    requires tabSize > 0
    ensures Rem(x, tabSize) == x % tabSize
    decreases x
  {
    if x >= tabSize {
      RemIsMod(x - tabSize, tabSize);
      ModUnique(x, tabSize, (x - tabSize) / tabSize + 1, (x - tabSize) % tabSize);
    } else {
      ModUnique(x, tabSize, 0, x);
    }
  }

  lemma MulMonotone(a: nat, b: nat, c: nat)
    requires a <= b
    ensures a * c <= b * c
  {
  }

  /** Euclidean division of a natural number. */
  lemma DivMod(x: nat, d: nat)
    requires d > 0
    ensures x == (x / d) * d + x % d
    ensures 0 <= x % d < d
  {
  }

  /** The quotient and remainder of a division are unique. */
  lemma ModUnique(x: nat, d: nat, q: nat, r: nat)
    requires d > 0 && r < d && x == q * d + r
    ensures x % d == r
  {
    DivMod(x, d);
    var e := x / d - q;
    assert e * d == r - x % d;
    if e > 0 {
      MulMonotone(1, e, d);
    } else if e < 0 {
      MulMonotone(1, -e, d);
    }
  }
}
