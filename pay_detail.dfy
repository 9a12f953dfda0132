/**
  The settlement ("pay-detail") side: the spreadsheet as the Excel reader
  hands it over, the extraction of the authorization-code column, and the
  filename convention the upload is checked against.
*/
module PayDetail {
  import opened Wrappers
  import opened Text

  /**
    What reading the uploaded workbook yields: either the reader failed, or
    a table whose header row gives the column labels and whose data rows
    hold one cell per column, `None` where the cell is missing. Cells are
    already rendered as text.
  */
  datatype Sheet =
    | Unreadable
    | Table(columns: seq<string>, rows: seq<seq<Option<string>>>)

  /** A data frame always has one cell per column in every row. */
  predicate Rectangular(sheet: Sheet) {
    sheet.Table? ==> forall i :: 0 <= i < |sheet.rows| ==> |sheet.rows[i]| == |sheet.columns|
  }

  /** The label of the authorization-code column, matched exactly. */
  const AuthCodeColumn: string := "\U{6388}\U{6B0A}\U{78BC}"

  /** The position of the first column labelled exactly `name`, if there is one. */
  function ColumnIndex(columns: seq<string>, name: string): (r: Option<nat>)
    ensures r.Some? ==> r.value < |columns| && columns[r.value] == name
    ensures r.Some? ==> forall j :: 0 <= j < r.value ==> columns[j] != name
    ensures r.None? <==> name !in columns
  {
    if |columns| == 0 then None
    else if columns[0] == name then Some(0)
    else
      match ColumnIndex(columns[1..], name)
      case Some(j) => Some(j + 1)
      case None => None
  }

  /** The cells of column `c`, in row order. */
  function Column(rows: seq<seq<Option<string>>>, c: nat): (cells: seq<Option<string>>)
    requires forall i :: 0 <= i < |rows| ==> c < |rows[i]|
    ensures |cells| == |rows|
    ensures forall i :: 0 <= i < |rows| ==> cells[i] == rows[i][c]
  {
    seq(|rows|, i requires 0 <= i < |rows| => rows[i][c])
  }

  /** `dropna()`: the values of the present cells, in order. */
  function DropMissing(cells: seq<Option<string>>): (vs: seq<string>)
    ensures |vs| <= |cells|
  {
    if |cells| == 0 then []
    else if cells[0].Some? then [cells[0].value] + DropMissing(cells[1..])
    else DropMissing(cells[1..])
  }

  /** How many cells are present. */
  function CountPresent(cells: seq<Option<string>>): nat {
    if |cells| == 0 then 0
    else (if cells[0].Some? then 1 else 0) + CountPresent(cells[1..])
  }

  predicate StrictlyIncreasing(idx: seq<nat>) {
    forall j, k :: 0 <= j < k < |idx| ==> idx[j] < idx[k]
  }

  /**
    `dropna()` keeps exactly the present cells, in order: there is a strictly
    increasing choice of positions, one per result, that picks out every
    present cell and nothing else.
  */
  lemma {:induction false} DropMissingPicksPresent(cells: seq<Option<string>>) returns (idx: seq<nat>)
    ensures |idx| == |DropMissing(cells)| == CountPresent(cells)
    ensures StrictlyIncreasing(idx)
    ensures forall k :: 0 <= k < |idx| ==> idx[k] < |cells| && cells[idx[k]] == Some(DropMissing(cells)[k])
    ensures forall i :: 0 <= i < |cells| && cells[i].Some? ==> i in idx
  {
    if |cells| == 0 {
      idx := [];
    } else {
      var tail := cells[1..];
      var rest := DropMissingPicksPresent(tail);
      var shifted := ShiftPositions(cells, rest);
      if cells[0].Some? {
        assert DropMissing(cells) == [cells[0].value] + DropMissing(tail);
        idx := [0] + shifted;
        PrependIncreasing(shifted);
        PrependPicks(cells, shifted);
        PrependCovers(cells, shifted);
      } else {
        assert DropMissing(cells) == DropMissing(tail);
        idx := shifted;
        forall i | 0 <= i < |cells| && cells[i].Some? ensures i in idx {
          assert i != 0;
        }
      }
    }
  }

  lemma PrependIncreasing(shifted: seq<nat>)
    requires StrictlyIncreasing(shifted)
    requires forall k :: 0 <= k < |shifted| ==> 1 <= shifted[k]
    ensures StrictlyIncreasing([0] + shifted)
  {
    var idx := [0] + shifted;
    forall j, k | 0 <= j < k < |idx| ensures idx[j] < idx[k] {
      assert idx[k] == shifted[k - 1];
      if j > 0 {
        assert idx[j] == shifted[j - 1];
      }
    }
  }

  lemma PrependPicks(cells: seq<Option<string>>, shifted: seq<nat>)
    requires |cells| > 0 && cells[0].Some? && |shifted| == |DropMissing(cells[1..])|
    requires forall k :: 0 <= k < |shifted| ==> shifted[k] < |cells| && cells[shifted[k]] == Some(DropMissing(cells[1..])[k])
    ensures forall k :: 0 <= k < |shifted| + 1 ==>
      ([0] + shifted)[k] < |cells| && cells[([0] + shifted)[k]] == Some(DropMissing(cells)[k])
  {
    var idx := [0] + shifted;
    var vs := DropMissing(cells);
    assert vs == [cells[0].value] + DropMissing(cells[1..]);
    forall k | 0 <= k < |idx| ensures idx[k] < |cells| && cells[idx[k]] == Some(vs[k]) {
      if k > 0 {
        assert idx[k] == shifted[k - 1] && vs[k] == DropMissing(cells[1..])[k - 1];
      }
    }
  }

  lemma PrependCovers(cells: seq<Option<string>>, shifted: seq<nat>)
    requires forall i :: 1 <= i < |cells| && cells[i].Some? ==> i in shifted
    ensures forall i :: 0 <= i < |cells| && cells[i].Some? ==> i in [0] + shifted
  {
    var idx := [0] + shifted;
    forall i | 0 <= i < |cells| && cells[i].Some? ensures i in idx {
      if i > 0 {
        var k :| 0 <= k < |shifted| && shifted[k] == i;
        assert idx[k + 1] == i;
      }
    }
  }

  /** Every position moved one place to the right. */
  function Shift(idx: seq<nat>): (r: seq<nat>)
    ensures |r| == |idx|
    ensures forall k :: 0 <= k < |idx| ==> r[k] == idx[k] + 1
    ensures StrictlyIncreasing(idx) ==> StrictlyIncreasing(r)
  {
    if |idx| == 0 then [] else [idx[0] + 1] + Shift(idx[1..])
  }

  /** Positions picked in `cells[1..]`, moved to the corresponding positions of `cells`. */
  lemma ShiftPositions(cells: seq<Option<string>>, rest: seq<nat>) returns (shifted: seq<nat>)
    requires |cells| > 0 && |rest| == |DropMissing(cells[1..])| && StrictlyIncreasing(rest)
    requires forall k :: 0 <= k < |rest| ==> rest[k] < |cells[1..]| && cells[1..][rest[k]] == Some(DropMissing(cells[1..])[k])
    requires forall i :: 0 <= i < |cells[1..]| && cells[1..][i].Some? ==> i in rest
    ensures |shifted| == |rest| && StrictlyIncreasing(shifted)
    ensures forall k :: 0 <= k < |shifted| ==> 1 <= shifted[k] < |cells| && cells[shifted[k]] == Some(DropMissing(cells[1..])[k])
    ensures forall i :: 1 <= i < |cells| && cells[i].Some? ==> i in shifted
  {
    shifted := Shift(rest);
    ShiftPicks(cells, cells[1..], DropMissing(cells[1..]), rest);
    ShiftCovers(cells, cells[1..], rest);
  }

  lemma ShiftPicks(cells: seq<Option<string>>, tail: seq<Option<string>>, vs: seq<string>, rest: seq<nat>)
    requires |cells| > 0 && tail == cells[1..] && |rest| == |vs|
    requires forall k :: 0 <= k < |rest| ==> rest[k] < |tail| && tail[rest[k]] == Some(vs[k])
    ensures forall k :: 0 <= k < |rest| ==> 1 <= Shift(rest)[k] < |cells| && cells[Shift(rest)[k]] == Some(vs[k])
  {
    var shifted := Shift(rest);
    forall k | 0 <= k < |rest| ensures 1 <= shifted[k] < |cells| && cells[shifted[k]] == Some(vs[k]) {
      assert tail[rest[k]] == cells[rest[k] + 1];
    }
  }

  lemma ShiftCovers(cells: seq<Option<string>>, tail: seq<Option<string>>, rest: seq<nat>)
    requires |cells| > 0 && tail == cells[1..]
    requires forall i :: 0 <= i < |tail| && tail[i].Some? ==> i in rest
    ensures forall i :: 1 <= i < |cells| && cells[i].Some? ==> i in Shift(rest)
  {
    var shifted := Shift(rest);
    forall i | 1 <= i < |cells| && cells[i].Some? ensures i in shifted {
      assert tail[i - 1] == cells[i];
      var k :| 0 <= k < |rest| && rest[k] == i - 1;
      assert shifted[k] == i;
    }
  }

  /** `.str.strip()` applied to every value. */
  function StripAll(vs: seq<string>): (r: seq<string>)
    ensures |r| == |vs|
    ensures forall k :: 0 <= k < |vs| ==> r[k] == Strip(vs[k])
  {
    seq(|vs|, k requires 0 <= k < |vs| => Strip(vs[k]))
  }

  /**
    `extract_auth_codes_from_paydetail`: no codes when the workbook cannot
    be read or has no column labelled exactly `授權碼`; otherwise the
    stripped values of that column's present cells, in row order, duplicates
    kept.
  */
  function ExtractAuthCodes(sheet: Sheet): (codes: seq<string>)
    requires Rectangular(sheet)
    ensures sheet.Unreadable? ==> codes == []
    ensures sheet.Table? && AuthCodeColumn !in sheet.columns ==> codes == []
    ensures forall k :: 0 <= k < |codes| ==> codes[k] == [] || (!IsSpace(codes[k][0]) && !IsSpace(codes[k][|codes[k]| - 1]))
  {
    match sheet
    case Unreadable => []
    case Table(columns, rows) =>
      match ColumnIndex(columns, AuthCodeColumn)
      case None => []
      case Some(c) => StripAll(DropMissing(Column(rows, c)))
  }

  /**
    When the column is there, the codes are the column's present cells,
    stripped, one per present cell and in row order: `rows[idx[k]]` holds
    the cell behind `codes[k]`, and every row whose cell is present is one
    of the `idx`.
  */
  lemma AuthCodesFromColumn(sheet: Sheet) returns (c: nat, idx: seq<nat>)
    requires Rectangular(sheet) && sheet.Table? && AuthCodeColumn in sheet.columns
    ensures c < |sheet.columns| && sheet.columns[c] == AuthCodeColumn
    ensures forall j :: 0 <= j < c ==> sheet.columns[j] != AuthCodeColumn
    ensures |idx| == |ExtractAuthCodes(sheet)| && StrictlyIncreasing(idx)
    ensures forall k :: 0 <= k < |idx| ==>
      idx[k] < |sheet.rows| && sheet.rows[idx[k]][c].Some? &&
      ExtractAuthCodes(sheet)[k] == Strip(sheet.rows[idx[k]][c].value)
    ensures forall i :: 0 <= i < |sheet.rows| && sheet.rows[i][c].Some? ==> i in idx
  {
    c := ColumnIndex(sheet.columns, AuthCodeColumn).value;
    var cells := Column(sheet.rows, c);
    idx := DropMissingPicksPresent(cells);
  }

  /** The label the uploaded settlement file's name is expected to start with. */
  const ExpectedPrefix: string := "PayDetailRpt"

  /** The upload warning fires exactly when the file name lacks the expected prefix. */
  function FilenameWarning(name: string): (warn: bool)
    ensures !warn ==> |name| >= |ExpectedPrefix| && name == ExpectedPrefix + name[|ExpectedPrefix|..]
    ensures warn ==> forall rest: string :: name != ExpectedPrefix + rest
  {
    !StartsWith(name, ExpectedPrefix)
  }

}
