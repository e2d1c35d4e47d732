/** The fixed-width row formatter of the player-info widget: six left-aligned, space-padded
    columns written cell by cell into a 42-character buffer. */
module RowLayout {
  import opened Text
  import opened Wrappers

  const GroupWidth: nat := 4
  const NameWidth: nat := 7
  const HandsWidth: nat := 12
  const SecureWidth: nat := 8
  const ValueWidth: nat := 6
  const DistWidth: nat := 5

  /** Column widths in row order: group, name, hands, secure, value, distance. */
  const Widths: seq<nat> := [GroupWidth, NameWidth, HandsWidth, SecureWidth, ValueWidth, DistWidth]

  /** Length of every row: the sum of the column widths. */
  const RowLength: nat := 42

  /** The column titles passed to `MakeRow` for the header. */
  const HeaderLabels: seq<string> := ["Grp", "Name", "In Hands", "Secure", "Value", "Dist"]

  /** The header line drawn above the player rows: each title padded to its column. */
  const Header: string := "Grp " + "Name   " + "In Hands    " + "Secure  " + "Value " + "Dist "

  /** Sum of the first `n` widths. */
  function Sum(ws: seq<nat>, n: nat): nat
    requires n <= |ws|
  {
    if n == 0 then 0 else Sum(ws, n - 1) + ws[n - 1]
  }

  /** Index of the first character of each column, and of the end of the row. */
  const Offsets: seq<nat> := [0, 4, 11, 23, 31, 37, 42]

  /** Cells of the given widths. */
  ghost predicate Sized(cells: seq<string>, widths: seq<nat>)
  {
    |cells| == |widths| && forall i :: 0 <= i < |cells| ==> |cells[i]| == widths[i]
  }

  /** Each field cut or padded to its column width. */
  function Cells(cols: seq<string>, widths: seq<nat>): (cells: seq<string>)
    requires |cols| == |widths|
    ensures Sized(cells, widths)
  {
    seq(|cols|, i requires 0 <= i < |cols| => Cell(cols[i], widths[i]))
  }

  /** The first `n` cells laid out one after the other. */
  function Join(cells: seq<string>, n: nat): string
    requires n <= |cells|
  {
    if n == 0 then [] else Join(cells, n - 1) + cells[n - 1]
  }

  /** A layout is as long as its widths add up to, whatever the field contents. */
  lemma {:induction false} JoinLength(cells: seq<string>, widths: seq<nat>, n: nat)
    requires Sized(cells, widths) && n <= |cells|
    ensures |Join(cells, n)| == Sum(widths, n)
  {
    if n != 0 {
      JoinLength(cells, widths, n - 1);
    }
  }

  /** Cell `k` of a layout starts where the widths before it add up to. */
  lemma {:induction false} JoinColumn(cells: seq<string>, widths: seq<nat>, n: nat, k: nat)
    requires Sized(cells, widths) && k < n <= |cells|
    ensures Sum(widths, k) + widths[k] <= |Join(cells, n)|
    ensures Join(cells, n)[Sum(widths, k)..Sum(widths, k) + widths[k]] == cells[k]
  {
    var front, last := Join(cells, n - 1), cells[n - 1];
    assert Join(cells, n) == front + last;
    JoinLength(cells, widths, n - 1);
    if k < n - 1 {
      JoinColumn(cells, widths, n - 1, k);
      SliceOfAppendLeft(front, last, Sum(widths, k), Sum(widths, k) + widths[k]);
    } else {
      SliceOfAppendRight(front, last);
    }
  }

  /** A field fits when the slice that pads it in `WriteAligned` stays inside the row: the column's start
      plus the field's full length may not pass the end of the row, even when nothing is padded. */
  predicate FieldFits(k: nat, field: string)
    requires k < |Widths|
  {
    Offsets[k] + |field| <= RowLength
  }

  predicate RowFits(cols: seq<string>)
    requires |cols| == |Widths|
  {
    forall k :: 0 <= k < |Widths| ==> FieldFits(k, cols[k])
  }

  /** What `MakeRow` produces: the laid-out row, or nothing when a field throws. */
  function Row(cols: seq<string>): (r: Option<string>)
    requires |cols| == |Widths|
    ensures r.Some? <==> RowFits(cols)
    ensures r.Some? ==> |r.value| == RowLength
  {
    if RowFits(cols) then
      JoinLength(Cells(cols, Widths), Widths, |Widths|);
      OffsetsAreSums();
      Some(Join(Cells(cols, Widths), |Widths|))
    else None
  }

  /** Each column starts where the widths before it add up to. */
  lemma OffsetsAreSums()
    ensures forall k :: 0 <= k <= |Widths| ==> Offsets[k] == Sum(Widths, k)
  {
    assert Sum(Widths, 1) == 4;
    assert Sum(Widths, 2) == 11;
    assert Sum(Widths, 3) == 23;
    assert Sum(Widths, 4) == 31;
    assert Sum(Widths, 5) == 37;
    assert Sum(Widths, 6) == 42;
  }

  /** A row is its six cells side by side. */
  lemma JoinSix(cells: seq<string>)
    requires |cells| == 6
    ensures Join(cells, 6) == cells[0] + cells[1] + cells[2] + cells[3] + cells[4] + cells[5]
  {
    assert Join(cells, 1) == [] + cells[0] == cells[0];
    assert Join(cells, 2) == Join(cells, 1) + cells[1];
    assert Join(cells, 3) == Join(cells, 2) + cells[2];
    assert Join(cells, 4) == Join(cells, 3) + cells[3];
    assert Join(cells, 5) == Join(cells, 4) + cells[4];
  }

  /** A row that is produced is 42 characters long and column `k` holds field `k`,
      cut or padded to the column width. */
  lemma RowColumns(cols: seq<string>, k: nat)
    requires |cols| == |Widths| && k < |Widths|
    requires Row(cols).Some?
    ensures |Row(cols).value| == RowLength
    ensures Row(cols).value[Offsets[k]..Offsets[k] + Widths[k]] == Cell(cols[k], Widths[k])
  {
    OffsetsAreSums();
    JoinColumn(Cells(cols, Widths), Widths, |Widths|, k);
  }

  /** A single field that does not fit is enough for no row to be produced. */
  lemma NoRow(cols: seq<string>, k: nat)
    requires |cols| == |Widths| && k < |Widths| && !FieldFits(k, cols[k])
    ensures Row(cols) == None
  {
  }

  /** `WriteAligned`: copies the first min(|value|, width) characters of `value` to `pos`, pads the
      rest of the column with spaces and advances the cursor by `width`. The padding slice starts at
      `pos + |value|`, so a value running past the end of the buffer throws after its prefix was
      copied (`ok` is false and the cursor stays). Cells outside the column never change. */
  method WriteAligned(span: array<char>, pos: int, value: string, width: nat) returns (ok: bool, next: int)
    requires 0 <= pos && pos + width <= span.Length
    modifies span
    ensures ok <==> pos + |value| <= span.Length
    ensures next == if ok then pos + width else pos
    ensures span[..pos + width] == old(span[..pos]) + (if ok then Cell(value, width) else value[..width])
    ensures span[pos + width..] == old(span[pos + width..])
  {
    var padding := width - |value|;
    if padding < 0 {
      padding := 0;
    }
    var n := Min(|value|, width);
    forall i | 0 <= i < n {
      span[pos + i] := value[i];
    }
    assert span[..pos] == old(span[..pos]);
    assert span[pos + width..] == old(span[pos + width..]);
    if pos + |value| > span.Length || padding > span.Length - (pos + |value|) {
      assert span[pos..pos + width] == value[..width];
      assert span[..pos + width] == span[..pos] + span[pos..pos + width];
      return false, pos;
    }
    ghost var copied := span[..];
    forall i | pos + |value| <= i < pos + |value| + padding {
      span[i] := ' ';
    }
    ok, next := true, pos + width;
    assert span[..pos] == copied[..pos];
    assert span[pos + width..] == copied[pos + width..];
    assert span[pos..pos + width] == Cell(value, width) by {
      forall i | 0 <= i < width
        ensures span[pos..pos + width][i] == if i < |value| then value[i] else ' '
      {
      }
      CellChars(span[pos..pos + width], value, width);
    }
    assert span[..pos + width] == span[..pos] + span[pos..pos + width];
  }

  /** `MakeRow`: lays out group, name, hands, secure, value and distance in a fresh 42-character
      buffer, one `WriteAligned` per column in column order (written as a loop over `Widths`). The
      row is produced exactly when every field fits (`RowFits`); otherwise the padding slice of the
      first field that does not fit throws and no row is produced. */
  method MakeRow(grp: string, name: string, hands: string, secure: string, value: string, dist: string)
    returns (row: Option<string>)
    ensures row == Row([grp, name, hands, secure, value, dist])
  {
    var cols := [grp, name, hands, secure, value, dist];
    var span := new char[RowLength];
    var pos, k := 0, 0;
    while k < |Widths|
      invariant 0 <= k <= |Widths| && pos == Offsets[k]
      invariant span[..pos] == Join(Cells(cols, Widths), k)
      invariant forall j :: 0 <= j < k ==> FieldFits(j, cols[j])
    {
      var ok;
      ok, pos := WriteAligned(span, pos, cols[k], Widths[k]);
      if !ok {
        NoRow(cols, k);
        return None;
      }
      k := k + 1;
    }
    assert span[..] == span[..pos];
    row := Some(span[..]);
  }

  /** The header passed through `MakeRow` fits and reads "Grp Name   In Hands    Secure  Value Dist ". */
  lemma HeaderRow()
    ensures Row(HeaderLabels) == Some(Header)
    ensures |Header| == RowLength
  {
    assert RowFits(HeaderLabels);
    JoinSix(Cells(HeaderLabels, Widths));
    HeaderCells();
  }

  /** Each title padded to its column. */
  lemma HeaderCells()
    ensures Cell("Grp", GroupWidth) == "Grp " && Cell("Name", NameWidth) == "Name   "
    ensures Cell("In Hands", HandsWidth) == "In Hands    " && Cell("Secure", SecureWidth) == "Secure  "
    ensures Cell("Value", ValueWidth) == "Value " && Cell("Dist", DistWidth) == "Dist "
  {
  }
}
