/**
 Fixed-width import: column boundaries inferred from the positions that are blank in every line,
 and lines sliced along them. Lines are sequences of runes.
 */
module FixedWidth {

  import opened Whitespace

  type Line = seq<char>

  /** A half-open range of positions. */
  datatype Field = Field(start: nat, end: nat)

  predicate IsGapRune(c: char) { c == ' ' || c == '\t' }

  function MaxLength(lines: seq<Line>): (n: nat)
    ensures forall i | 0 <= i < |lines| :: |lines[i]| <= n
    ensures lines != [] ==> exists i :: 0 <= i < |lines| && |lines[i]| == n
  {
    if lines == [] then 0
    else
      var m, last := MaxLength(lines[..|lines| - 1]), |lines| - 1;
      assert forall i | 0 <= i < last :: lines[i] == lines[..last][i];
      if |lines[last]| > m then |lines[last]| else
        assert last > 0 ==> exists i :: 0 <= i < last && |lines[..last][i]| == m;
        m
  }

  /** Some line has a rune other than a blank or tab at this position. */
  predicate Inked(lines: seq<Line>, pos: nat) {
    exists i :: 0 <= i < |lines| && InkedIn(lines[i], pos)
  }

  predicate InkedIn(line: Line, pos: nat) {
    pos < |line| && !IsGapRune(line[pos])
  }

  /** The maximal runs of false in `gap` from `pos` on; `open` is where a run in progress began. */
  function Runs(gap: seq<bool>, pos: nat, open: int): seq<Field>
    requires pos <= |gap| && open < pos
    decreases |gap| - pos
  {
    if pos == |gap| then if open >= 0 then [Field(open, pos)] else []
    else if !gap[pos] then Runs(gap, pos + 1, if open >= 0 then open else pos)
    else (if open >= 0 then [Field(open, pos)] else []) + Runs(gap, pos + 1, -1)
  }

  function Gaps(lines: seq<Line>): seq<bool> {
    seq(MaxLength(lines), pos requires 0 <= pos => !Inked(lines, pos))
  }

  function InferFields(lines: seq<Line>): seq<Field> {
    Runs(Gaps(lines), 0, -1)
  }

  method LongestLine(lines: seq<Line>) returns (maxLen: nat)
    ensures maxLen == MaxLength(lines)
  {
    maxLen := 0;
    for i := 0 to |lines|
      invariant maxLen == MaxLength(lines[..i])
    {
      assert lines[..i + 1][..i] == lines[..i];
      if |lines[i]| > maxLen {
        maxLen := |lines[i]|;
      }
    }
    assert lines[..|lines|] == lines;
  }

  method IsGap(lines: seq<Line>, pos: nat) returns (gap: bool)
    ensures gap == !Inked(lines, pos)
  {
    for i := 0 to |lines|
      invariant forall j | 0 <= j < i :: !InkedIn(lines[j], pos)
    {
      if pos < |lines[i]| && lines[i][pos] != ' ' && lines[i][pos] != '\t' {
        assert InkedIn(lines[i], pos);
        return false;
      }
    }
    return true;
  }

  method FieldsBetween(isGap: array<bool>) returns (fields: seq<Field>)
    ensures fields == Runs(isGap[..], 0, -1)
  {
    fields := [];
    var inField, start := false, 0;
    for pos := 0 to isGap.Length
      invariant inField ==> 0 <= start < pos
      invariant fields + Runs(isGap[..], pos, if inField then start else -1) == Runs(isGap[..], 0, -1)
    {
      if !isGap[pos] && !inField {
        inField, start := true, pos;
      } else if isGap[pos] && inField {
        inField := false;
        fields := fields + [Field(start, pos)];
      }
    }
    if inField {
      fields := fields + [Field(start, isGap.Length)];
    }
  }

  method InferFixedWidthFields(lines: seq<Line>) returns (fields: seq<Field>)
    ensures fields == InferFields(lines)
  {
    var maxLen := LongestLine(lines);
    var isGap := new bool[maxLen];
    for pos := 0 to maxLen
      invariant forall p | 0 <= p < pos :: isGap[p] == !Inked(lines, p)
    {
      var gap := IsGap(lines, pos);
      isGap[pos] := gap;
    }
    assert isGap[..] == Gaps(lines);
    fields := FieldsBetween(isGap);
  }

  function SliceField(line: Line, f: Field): Line
    requires f.start <= f.end
  {
    var end := if f.end > |line| then |line| else f.end;
    var start := if f.start > end then end else f.start;
    TrimSpace(line[start..end])
  }

  method SliceFixedWidthFields(line: Line, fields: seq<Field>) returns (cells: seq<Line>)
    requires forall f | f in fields :: f.start <= f.end
    ensures |cells| == |fields| && forall i | 0 <= i < |fields| :: cells[i] == SliceField(line, fields[i])
  {
    cells := [];
    for i := 0 to |fields|
      invariant |cells| == i && forall j | 0 <= j < i :: cells[j] == SliceField(line, fields[j])
    {
      var start, end := fields[i].start, fields[i].end;
      if start > |line| {
        start := |line|;
      }
      if end > |line| {
        end := |line|;
      }
      if start > end {
        start := end;
      }
      cells := cells + [TrimSpace(line[start..end])];
    }
  }

  // ---- The fields partition the inked positions ----

  predicate Inside(fields: seq<Field>, pos: nat) {
    exists i :: 0 <= i < |fields| && fields[i].start <= pos < fields[i].end
  }

  /** Non-empty, in order, and with at least one position between neighbours. */
  predicate WellSpaced(fields: seq<Field>) {
    && (forall i | 0 <= i < |fields| :: fields[i].start < fields[i].end)
    && (forall i, j | 0 <= i < j < |fields| :: fields[i].end < fields[j].start)
  }

  lemma PrependField(f: Field, rest: seq<Field>)
    requires f.start < f.end && WellSpaced(rest) && (forall i | 0 <= i < |rest| :: f.end < rest[i].start)
    ensures WellSpaced([f] + rest)
    ensures forall p: nat :: Inside([f] + rest, p) <==> f.start <= p < f.end || Inside(rest, p)
  {
    var all := [f] + rest;
    forall p: nat
      ensures Inside(all, p) <==> f.start <= p < f.end || Inside(rest, p)
    {
      assert all[0] == f;
      if i :| 0 <= i < |rest| && rest[i].start <= p < rest[i].end {
        assert all[i + 1] == rest[i];
      }
      if i :| 0 <= i < |all| && all[i].start <= p < all[i].end {
        assert i == 0 || all[i] == rest[i - 1];
      }
    }
  }

  /** What the runs from `pos` on should cover: the rest of the inked positions, and the run in progress. */
  predicate Expected(gap: seq<bool>, pos: nat, open: int, p: nat) {
    (pos <= p < |gap| && !gap[p]) || (0 <= open <= p < pos)
  }

  predicate StartsFrom(fields: seq<Field>, least: nat) {
    forall i | 0 <= i < |fields| :: fields[i].start >= least
  }

  ghost predicate Partition(fields: seq<Field>, gap: seq<bool>, pos: nat, open: int) {
    && WellSpaced(fields)
    && StartsFrom(fields, if open >= 0 then open else pos)
    && forall p: nat :: Inside(fields, p) <==> Expected(gap, pos, open, p)
  }

  /** A gap ends the run in progress. */
  lemma CloseRun(gap: seq<bool>, pos: nat, open: int, rest: seq<Field>)
    requires pos < |gap| && gap[pos] && 0 <= open < pos && Partition(rest, gap, pos + 1, -1)
    ensures Partition([Field(open, pos)] + rest, gap, pos, open)
  {
    PrependField(Field(open, pos), rest);
  }

  lemma LastRun(gap: seq<bool>, open: int)
    requires 0 <= open < |gap|
    ensures Partition([Field(open, |gap|)], gap, |gap|, open)
  {
    assert [Field(open, |gap|)] + [] == [Field(open, |gap|)];
    PrependField(Field(open, |gap|), []);
  }

  lemma {:induction false} RunsPartition(gap: seq<bool>, pos: nat, open: int)
    requires pos <= |gap| && open < pos
    ensures Partition(Runs(gap, pos, open), gap, pos, open)
    decreases |gap| - pos
  {
    if pos == |gap| {
      if open >= 0 {
        LastRun(gap, open);
      }
    } else if !gap[pos] {
      RunsPartition(gap, pos + 1, if open >= 0 then open else pos);
    } else {
      RunsPartition(gap, pos + 1, -1);
      var rest := Runs(gap, pos + 1, -1);
      if open >= 0 {
        CloseRun(gap, pos, open, rest);
      } else {
        assert [] + rest == rest;
      }
    }
  }

  /** Inferred fields are ordered, disjoint, non-empty and cover exactly the inked positions. */
  lemma FieldsPartition(lines: seq<Line>)
    ensures WellSpaced(InferFields(lines))
    ensures forall pos: nat :: Inside(InferFields(lines), pos) <==> Inked(lines, pos)
  {
    RunsPartition(Gaps(lines), 0, -1);
    forall pos: nat
      ensures Inked(lines, pos) ==> pos < MaxLength(lines)
    {
      if i :| 0 <= i < |lines| && InkedIn(lines[i], pos) {
        assert pos < |lines[i]| <= MaxLength(lines);
      }
    }
  }

  /** Well-spaced fields are determined by what they cover. */
  /** A position is inked where some line goes on and has neither a blank nor a tab. */
  lemma InkedMeans(lines: seq<Line>, pos: nat)
    ensures Inside(InferFields(lines), pos)
      <==> exists i :: 0 <= i < |lines| && pos < |lines[i]| && lines[i][pos] != ' ' && lines[i][pos] != '\t'
  {
    FieldsPartition(lines);
    assert forall i | 0 <= i < |lines| && InkedIn(lines[i], pos) :: pos < |lines[i]|;
  }

  /** A cell is what the line has between the field's ends, trimmed; nothing where the line is too short. */
  lemma SliceMeaning(line: Line, f: Field)
    requires f.start <= f.end
    ensures f.end <= |line| ==> SliceField(line, f) == TrimSpace(line[f.start..f.end])
    ensures f.start <= |line| < f.end ==> SliceField(line, f) == TrimSpace(line[f.start..])
    ensures f.start >= |line| ==> SliceField(line, f) == []
  {
    assert f.start <= |line| ==> line[f.start..|line|] == line[f.start..];
  }

  lemma {:induction false} SameCoverage(a: seq<Field>, b: seq<Field>)
    requires WellSpaced(a) && WellSpaced(b)
    requires forall p: nat :: Inside(a, p) <==> Inside(b, p)
    ensures a == b
  {
    if a == [] {
      if b != [] {
        assert Inside(b, b[0].start);
      }
    } else {
      assert Inside(a, a[0].start);
      SameFirst(a, b);
      TailCoverage(a, b);
      SameCoverage(a[1..], b[1..]);
      assert a == [a[0]] + a[1..] && b == [b[0]] + b[1..];
    }
  }

  lemma FirstIsLeast(a: seq<Field>, p: nat)
    requires WellSpaced(a) && Inside(a, p)
    ensures a != [] && a[0].start <= p && (p >= a[0].end ==> p > a[0].end)
  {
    var i :| 0 <= i < |a| && a[i].start <= p < a[i].end;
    if i > 0 {
      assert a[0].end < a[i].start;
    }
  }

  lemma SameFirst(a: seq<Field>, b: seq<Field>)
    requires WellSpaced(a) && WellSpaced(b) && a != [] && b != []
    requires forall p: nat :: Inside(a, p) <==> Inside(b, p)
    ensures a[0] == b[0]
  {
    assert Inside(a, a[0].start) && Inside(b, b[0].start);
    FirstIsLeast(a, b[0].start);
    FirstIsLeast(b, a[0].start);
    if a[0].end < b[0].end {
      assert Inside(b, a[0].end);
      FirstIsLeast(a, a[0].end);
    } else if b[0].end < a[0].end {
      assert Inside(a, b[0].end);
      FirstIsLeast(b, b[0].end);
    }
  }

  lemma TailInside(a: seq<Field>, p: nat)
    requires WellSpaced(a) && a != []
    ensures Inside(a[1..], p) <==> Inside(a, p) && p >= a[0].end
  {
    if i :| 0 <= i < |a[1..]| && a[1..][i].start <= p < a[1..][i].end {
      assert a[i + 1] == a[1..][i] && a[0].end < a[i + 1].start;
    }
    if p >= a[0].end {
      if i :| 0 <= i < |a| && a[i].start <= p < a[i].end {
        assert i > 0 && a[i] == a[1..][i - 1];
      }
    }
  }

  lemma TailCoverage(a: seq<Field>, b: seq<Field>)
    requires WellSpaced(a) && WellSpaced(b) && a != [] && b != [] && a[0] == b[0]
    requires forall p: nat :: Inside(a, p) <==> Inside(b, p)
    ensures WellSpaced(a[1..]) && WellSpaced(b[1..])
    ensures forall p: nat :: Inside(a[1..], p) <==> Inside(b[1..], p)
  {
    forall p: nat
      ensures Inside(a[1..], p) <==> Inside(b[1..], p)
    {
      TailInside(a, p);
      TailInside(b, p);
    }
  }

  // ---- Slicing keeps every rune that is not white space ----

  /** The runes of a line that are not white space, in order. */
  function Ink(s: Line): Line {
    if s == [] then [] else (if IsSpace(s[0]) then [] else [s[0]]) + Ink(s[1..])
  }

  lemma {:induction false} InkAppend(s: Line, t: Line)
    ensures Ink(s + t) == Ink(s) + Ink(t)
  {
    if s == [] {
      assert s + t == t;
    } else {
      assert (s + t)[1..] == s[1..] + t;
      InkAppend(s[1..], t);
    }
  }

  lemma {:induction false} BlanksHaveNoInk(s: Line)
    requires forall i | 0 <= i < |s| :: IsSpace(s[i])
    ensures Ink(s) == []
  {
    if s != [] {
      BlanksHaveNoInk(s[1..]);
    }
  }

  lemma {:induction false} TrimLeftKeepsInk(s: Line)
    ensures Ink(TrimLeft(s)) == Ink(s)
  {
    if s != [] && IsSpace(s[0]) {
      TrimLeftKeepsInk(s[1..]);
    }
  }

  lemma {:induction false} TrimRightKeepsInk(s: Line)
    ensures Ink(TrimRight(s)) == Ink(s)
  {
    if s != [] && IsSpace(s[|s| - 1]) {
      var front := s[..|s| - 1];
      TrimRightKeepsInk(front);
      assert s == front + [s[|s| - 1]];
      InkAppend(front, [s[|s| - 1]]);
    }
  }

  function CellsInk(line: Line, fields: seq<Field>): Line
    requires forall i | 0 <= i < |fields| :: fields[i].start <= fields[i].end
  {
    if fields == [] then [] else Ink(SliceField(line, fields[0])) + CellsInk(line, fields[1..])
  }

  function Clamp(line: Line, pos: nat): nat { if pos < |line| then pos else |line| }

  lemma GapsHaveNoInk(line: Line, from: nat, to: nat)
    requires from <= to <= |line| && forall p | from <= p < to :: !InkedIn(line, p)
    ensures Ink(line[from..to]) == []
  {
    forall i | 0 <= i < to - from
      ensures IsSpace(line[from..to][i])
    {
      assert !InkedIn(line, from + i);
    }
    BlanksHaveNoInk(line[from..to]);
  }

  lemma SliceKeepsInk(line: Line, f: Field)
    requires f.start <= f.end
    ensures Ink(SliceField(line, f)) == Ink(line[Clamp(line, f.start)..Clamp(line, f.end)])
  {
    var cell := line[Clamp(line, f.start)..Clamp(line, f.end)];
    TrimLeftKeepsInk(cell);
    TrimRightKeepsInk(TrimLeft(cell));
  }

  lemma InkOfThree(line: Line, a: nat, b: nat, c: nat)
    requires a <= b <= c <= |line|
    ensures Ink(line[a..]) == Ink(line[a..b]) + Ink(line[b..c]) + Ink(line[c..])
  {
    InkAppend(line[a..b], line[b..c]);
    InkAppend(line[a..b] + line[b..c], line[c..]);
    assert line[a..] == line[a..b] + line[b..c] + line[c..];
  }

  predicate CoversInk(line: Line, fields: seq<Field>, from: nat) {
    forall p | from <= p < |line| && InkedIn(line, p) :: Inside(fields, p)
  }

  lemma BeforeFirstField(line: Line, fields: seq<Field>, from: nat)
    requires WellSpaced(fields) && fields != [] && from <= |line| && from <= fields[0].start
    requires CoversInk(line, fields, from)
    ensures from <= Clamp(line, fields[0].start) <= Clamp(line, fields[0].end)
    ensures Ink(line[from..Clamp(line, fields[0].start)]) == []
  {
    var start := Clamp(line, fields[0].start);
    forall p | from <= p < start
      ensures !InkedIn(line, p)
    {
      if InkedIn(line, p) {
        FirstIsLeast(fields, p);
      }
    }
    GapsHaveNoInk(line, from, start);
  }

  lemma AfterFirstField(line: Line, fields: seq<Field>, from: nat)
    requires WellSpaced(fields) && fields != [] && from <= fields[0].start && CoversInk(line, fields, from)
    ensures WellSpaced(fields[1..]) && CoversInk(line, fields[1..], Clamp(line, fields[0].end))
    ensures fields[1..] != [] ==> Clamp(line, fields[0].end) <= fields[1..][0].start
  {
    forall p | Clamp(line, fields[0].end) <= p < |line| && InkedIn(line, p)
      ensures Inside(fields[1..], p)
    {
      TailInside(fields, p);
    }
  }

  lemma NoFieldsNoInk(line: Line, from: nat)
    requires from <= |line| && CoversInk(line, [], from)
    ensures Ink(line[from..]) == []
  {
    forall p | from <= p < |line|
      ensures !InkedIn(line, p)
    {
      assert !Inside([], p);
    }
    GapsHaveNoInk(line, from, |line|);
    assert line[from..|line|] == line[from..];
  }

  lemma FirstFieldInk(line: Line, fields: seq<Field>, from: nat)
    requires WellSpaced(fields) && fields != [] && from <= |line| && from <= fields[0].start
    requires CoversInk(line, fields, from)
    ensures Ink(line[from..]) == Ink(SliceField(line, fields[0])) + Ink(line[Clamp(line, fields[0].end)..])
  {
    BeforeFirstField(line, fields, from);
    SliceKeepsInk(line, fields[0]);
    InkOfThree(line, from, Clamp(line, fields[0].start), Clamp(line, fields[0].end));
  }

  lemma {:induction false} CellsKeepInk(line: Line, fields: seq<Field>, from: nat)
    requires WellSpaced(fields) && from <= |line| && CoversInk(line, fields, from)
    requires fields != [] ==> from <= fields[0].start
    ensures CellsInk(line, fields) == Ink(line[from..])
    decreases |fields|
  {
    if fields == [] {
      NoFieldsNoInk(line, from);
    } else {
      FirstFieldInk(line, fields, from);
      AfterFirstField(line, fields, from);
      CellsKeepInk(line, fields[1..], Clamp(line, fields[0].end));
    }
  }

  /** Slicing any of the lines along the inferred fields loses no rune but white space. */
  lemma SlicingKeepsInk(lines: seq<Line>, k: nat)
    requires k < |lines|
    ensures WellSpaced(InferFields(lines))
    ensures CellsInk(lines[k], InferFields(lines)) == Ink(lines[k])
  {
    FieldsPartition(lines);
    forall p | 0 <= p < |lines[k]| && InkedIn(lines[k], p)
      ensures Inside(InferFields(lines), p)
    {
      assert Inked(lines, p);
    }
    CellsKeepInk(lines[k], InferFields(lines), 0);
    assert lines[k][0..] == lines[k];
  }

  // ---- Rendering and slicing are inverse ----

  predicate Solid(cell: Line) {
    cell != [] && forall i | 0 <= i < |cell| :: !IsSpace(cell[i])
  }

  function Blanks(n: nat): Line { seq(n, i => ' ') }

  function Pad(cell: Line, width: nat): Line
    requires |cell| <= width
  {
    cell + Blanks(width - |cell|)
  }

  predicate Fits(row: seq<Line>, widths: seq<nat>) {
    |row| == |widths| && forall j | 0 <= j < |row| :: Solid(row[j]) && |row[j]| <= widths[j]
  }

  /** Cells left-aligned with one blank between columns; the last may keep its padding or drop it. */
  function Render(row: seq<Line>, widths: seq<nat>, padLast: bool): Line
    requires Fits(row, widths)
  {
    if row == [] then []
    else if |row| == 1 then if padLast then Pad(row[0], widths[0]) else row[0]
    else Pad(row[0], widths[0]) + " " + Render(row[1..], widths[1..], padLast)
  }

  function Columns(widths: seq<nat>, at: nat): seq<Field> {
    if widths == [] then [] else [Field(at, at + widths[0])] + Columns(widths[1..], at + widths[0] + 1)
  }

  lemma {:induction false} ColumnsWellSpaced(widths: seq<nat>, at: nat)
    requires forall j | 0 <= j < |widths| :: widths[j] > 0
    ensures |Columns(widths, at)| == |widths| && WellSpaced(Columns(widths, at))
    ensures forall i | 0 <= i < |widths| :: Columns(widths, at)[i].start >= at
  {
    if widths != [] {
      ColumnsWellSpaced(widths[1..], at + widths[0] + 1);
      PrependField(Field(at, at + widths[0]), Columns(widths[1..], at + widths[0] + 1));
    }
  }

  /** `part` is what `line` holds from `at` on. */
  predicate EndsWith(line: Line, at: nat, part: Line) {
    at <= |line| && line[at..] == part
  }

  /** The rest of a rendered row stands after the first column and its separator. */
  lemma NextColumn(line: Line, at: nat, row: seq<Line>, widths: seq<nat>, padLast: bool)
    requires Fits(row, widths) && |row| > 1 && EndsWith(line, at, Render(row, widths, padLast))
    ensures EndsWith(line, at + widths[0] + 1, Render(row[1..], widths[1..], padLast))
    ensures line[at..at + widths[0] + 1] == Pad(row[0], widths[0]) + " "
  {
    var first, rest := Pad(row[0], widths[0]) + " ", Render(row[1..], widths[1..], padLast);
    assert line[at..] == first + rest;
    assert line[at + |first|..] == line[at..][|first|..] && line[at..at + |first|] == line[at..][..|first|];
  }

  lemma {:induction false} TrimOfPadded(cell: Line, n: nat)
    requires Solid(cell)
    ensures TrimSpace(cell + Blanks(n)) == cell
  {
    var s := cell + Blanks(n);
    assert TrimLeft(s) == s;
    if n == 0 {
      assert s == cell;
    } else {
      assert s[..|s| - 1] == cell + Blanks(n - 1);
      TrimOfPadded(cell, n - 1);
      assert TrimLeft(cell + Blanks(n - 1)) == cell + Blanks(n - 1);
    }
  }

  lemma FirstCell(line: Line, at: nat, row: seq<Line>, widths: seq<nat>, padLast: bool)
    requires Fits(row, widths) && row != [] && EndsWith(line, at, Render(row, widths, padLast))
    ensures SliceField(line, Field(at, at + widths[0])) == row[0]
  {
    var cell, w := row[0], widths[0];
    TrimOfPadded(cell, w - |cell|);
    TrimOfPadded(cell, 0);
    assert cell + Blanks(0) == cell;
    if |row| > 1 {
      NextColumn(line, at, row, widths, padLast);
      assert line[at..at + w] == line[at..at + w + 1][..w] == Pad(cell, w);
    } else {
      assert line[at..|line|] == line[at..];
    }
  }

  lemma {:induction false} CellsComeBack(line: Line, at: nat, row: seq<Line>, widths: seq<nat>, padLast: bool, j: nat)
    requires Fits(row, widths) && j < |row| && EndsWith(line, at, Render(row, widths, padLast))
    ensures |Columns(widths, at)| == |widths|
    ensures var f := Columns(widths, at)[j]; f.start <= f.end && SliceField(line, f) == row[j]
    decreases |row|
  {
    ColumnsCount(widths, at);
    FirstCell(line, at, row, widths, padLast);
    if j > 0 {
      NextColumn(line, at, row, widths, padLast);
      CellsComeBack(line, at + widths[0] + 1, row[1..], widths[1..], padLast, j - 1);
    }
  }

  lemma {:induction false} ColumnsCount(widths: seq<nat>, at: nat)
    ensures |Columns(widths, at)| == |widths|
  {
    if widths != [] {
      ColumnsCount(widths[1..], at + widths[0] + 1);
    }
  }

  /** Each column is as wide as its widest cell. */
  ghost predicate TightWidths(rows: seq<seq<Line>>, widths: seq<nat>) {
    && (forall k | 0 <= k < |rows| :: Fits(rows[k], widths))
    && (forall j | 0 <= j < |widths| :: exists k :: 0 <= k < |rows| && |rows[k][j]| == widths[j])
  }

  /** A rune of a rendered row that is not blank lies in a column. */
  lemma {:induction false} InkIsInColumns(line: Line, at: nat, row: seq<Line>, widths: seq<nat>, padLast: bool, p: nat)
    requires Fits(row, widths) && EndsWith(line, at, Render(row, widths, padLast))
    requires at <= p && InkedIn(line, p)
    ensures Inside(Columns(widths, at), p)
    decreases |row|
  {
    if row != [] {
      var cols := Columns(widths, at);
      assert cols[0] == Field(at, at + widths[0]);
      if |row| == 1 {
        assert |line| == at + |Render(row, widths, padLast)| <= at + widths[0];
      } else {
        NextColumn(line, at, row, widths, padLast);
        if p > at + widths[0] {
          InkIsInColumns(line, at + widths[0] + 1, row[1..], widths[1..], padLast, p);
          InsideTail(cols, p);
        } else {
          assert line[p] == line[at..at + widths[0] + 1][p - at];
        }
      }
    }
  }

  lemma InsideTail(fields: seq<Field>, p: nat)
    requires fields != [] && Inside(fields[1..], p)
    ensures Inside(fields, p)
  {
    var i :| 0 <= i < |fields[1..]| && fields[1..][i].start <= p < fields[1..][i].end;
    assert fields[i + 1] == fields[1..][i];
  }

  /** The widest cell of a column inks every position of it. */
  lemma {:induction false} WidestCellInks(line: Line, at: nat, row: seq<Line>, widths: seq<nat>, padLast: bool, j: nat, p: nat)
    requires Fits(row, widths) && EndsWith(line, at, Render(row, widths, padLast))
    requires j < |row| && |row[j]| == widths[j] && |Columns(widths, at)| == |widths|
    requires Columns(widths, at)[j].start <= p < Columns(widths, at)[j].end
    ensures InkedIn(line, p)
    decreases |row|
  {
    if j == 0 {
      assert Render(row, widths, padLast)[..widths[0]] == row[0];
      assert line[at..][p - at] == row[0][p - at];
    } else {
      NextColumn(line, at, row, widths, padLast);
      ColumnsCount(widths[1..], at + widths[0] + 1);
      WidestCellInks(line, at + widths[0] + 1, row[1..], widths[1..], padLast, j - 1, p);
    }
  }

  lemma ColumnsAreInked(rows: seq<seq<Line>>, widths: seq<nat>, lines: seq<Line>, padLast: bool, p: nat)
    requires TightWidths(rows, widths) && |lines| == |rows|
    requires forall k | 0 <= k < |rows| :: lines[k] == Render(rows[k], widths, padLast)
    ensures Inside(Columns(widths, 0), p) <==> Inked(lines, p)
  {
    var cols := Columns(widths, 0);
    ColumnsCount(widths, 0);
    if j :| 0 <= j < |cols| && cols[j].start <= p < cols[j].end {
      var k :| 0 <= k < |rows| && |rows[k][j]| == widths[j];
      assert Fits(rows[k], widths) && lines[k][0..] == lines[k];
      WidestCellInks(lines[k], 0, rows[k], widths, padLast, j, p);
    }
    if k :| 0 <= k < |lines| && InkedIn(lines[k], p) {
      assert Fits(rows[k], widths) && lines[k][0..] == lines[k];
      InkIsInColumns(lines[k], 0, rows[k], widths, padLast, p);
    }
  }

  /** Rendering records and importing the text gives the same columns and the same cells. */
  lemma RenderRoundTrip(rows: seq<seq<Line>>, widths: seq<nat>, lines: seq<Line>, padLast: bool)
    requires rows != [] && TightWidths(rows, widths) && |lines| == |rows|
    requires forall k | 0 <= k < |rows| :: lines[k] == Render(rows[k], widths, padLast)
    ensures InferFields(lines) == Columns(widths, 0) && |InferFields(lines)| == |widths|
    ensures forall k, j | 0 <= k < |rows| && 0 <= j < |widths| ::
      var f := InferFields(lines)[j]; f.start <= f.end && SliceField(lines[k], f) == rows[k][j]
  {
    forall p: nat
      ensures Inside(InferFields(lines), p) <==> Inside(Columns(widths, 0), p)
    {
      FieldsPartition(lines);
      ColumnsAreInked(rows, widths, lines, padLast, p);
    }
    assert Fits(rows[0], widths);
    ColumnsWellSpaced(widths, 0);
    FieldsPartition(lines);
    SameCoverage(InferFields(lines), Columns(widths, 0));
    forall k, j | 0 <= k < |rows| && 0 <= j < |widths|
      ensures var f := Columns(widths, 0)[j]; f.start <= f.end && SliceField(lines[k], f) == rows[k][j]
    {
      assert Fits(rows[k], widths) && lines[k][0..] == lines[k];
      CellsComeBack(lines[k], 0, rows[k], widths, padLast, j);
    }
  }
}
