/**
 * The update gate of the monitoring loop and the spreadsheet it writes to.
 * The sheet is held as its rows of displayed cell texts; each call into the
 * spreadsheet client is given a flag saying whether that call raises, so that
 * every exception path of `update_sheet_if_needed` is part of the model.
 */
module Sheets {
  import opened Wrappers

  // ---------------------------------------------------------------------------
  // Text helpers: `str(int)` and `str.strip()`

  /** The characters Python's `str.isspace` accepts; `strip()` removes these. */
  predicate IsSpace(c: char)
  {
    c == ' ' || ('\t' <= c <= '\r') || ('\U{1C}' <= c <= '\U{1F}') || c == '\U{85}' || c == '\U{A0}'
    || c == '\U{1680}' || ('\U{2000}' <= c <= '\U{200A}') || c == '\U{2028}' || c == '\U{2029}'
    || c == '\U{202F}' || c == '\U{205F}' || c == '\U{3000}'
  }

  predicate NoSpace(s: string)
  {
    forall i :: 0 <= i < |s| ==> !IsSpace(s[i])
  }

  function DigitChar(d: nat): (c: char)
    requires d < 10
    ensures '0' <= c <= '9'
    ensures DigitValue(c) == d
  {
    "0123456789"[d]
  }

  /** The value of a decimal digit character. */
  function DigitValue(c: char): nat
  {
    if '0' <= c <= '9' then c as int - '0' as int else 0
  }

  predicate IsDigits(s: string)
  {
    forall i :: 0 <= i < |s| ==> '0' <= s[i] <= '9'
  }

  /** The number a string of decimal digits denotes, most significant digit first. */
  function DecimalValue(s: string): nat
  {
    if s == [] then 0 else DecimalValue(s[..|s| - 1]) * 10 + DigitValue(s[|s| - 1])
  }

  /**
   * `str(n)` for a natural: non-empty, decimal digits only, and without a
   * leading zero unless it is the single digit of zero.
   */
  function NatToString(n: nat): (s: string)
    ensures |s| > 0 && NoSpace(s) && IsDigits(s)
    ensures s[0] == '0' ==> n == 0 && |s| == 1
  {
    if n < 10 then [DigitChar(n)] else NatToString(n / 10) + [DigitChar(n % 10)]
  }

  /** Reading the digits of `str(n)` back gives `n`. */
  lemma {:induction false} NatToStringValue(n: nat)
    ensures DecimalValue(NatToString(n)) == n
  {
    if n >= 10 {
      NatToStringValue(n / 10);
      var s := NatToString(n);
      assert s[..|s| - 1] == NatToString(n / 10);
    }
  }

  /** The decimal rendering of `n`, with a leading `-` when negative. */
  function IntToString(n: int): (s: string)
    ensures |s| > 0 && NoSpace(s)
    ensures s[0] == '-' <==> n < 0
    ensures IsDigits(if n < 0 then s[1..] else s)
    ensures var d := if n < 0 then s[1..] else s; |d| > 0 && (d[0] == '0' ==> n == 0 && |d| == 1)
  {
    if n < 0 then "-" + NatToString(-n) else NatToString(n)
  }

  /** The integer a rendering with an optional leading `-` denotes. */
  function IntValue(s: string): int
  {
    if s != [] && s[0] == '-' then -(DecimalValue(s[1..]) as int) else DecimalValue(s)
  }

  /** Reading `str(n)` back gives `n`, so different ids are rendered differently. */
  lemma IntToStringValue(n: int)
    ensures IntValue(IntToString(n)) == n
  {
    if n < 0 {
      NatToStringValue(-n);
      assert IntToString(n)[1..] == NatToString(-n);
    } else {
      NatToStringValue(n);
    }
  }

  /** Two ids with the same rendering are the same id. */
  lemma IntToStringInjective(a: int, b: int)
    requires IntToString(a) == IntToString(b)
    ensures a == b
  {
    IntToStringValue(a);
    IntToStringValue(b);
  }

  /** Text made of white space only. */
  predicate AllSpace(s: string)
  {
    forall i :: 0 <= i < |s| ==> IsSpace(s[i])
  }

  /** Leading white space removed. */
  function TrimLeft(s: string): (r: string)
    ensures |r| <= |s|
    ensures r == [] || !IsSpace(r[0])
  {
    if s != [] && IsSpace(s[0]) then TrimLeft(s[1..]) else s
  }

  /** Trailing white space removed. */
  function TrimRight(s: string): (r: string)
    ensures |r| <= |s|
    ensures r == [] || !IsSpace(r[|r| - 1])
  {
    if s != [] && IsSpace(s[|s| - 1]) then TrimRight(s[..|s| - 1]) else s
  }

  /** `TrimLeft(s)` is a suffix of `s` and what it drops is white space only. */
  lemma {:induction false} TrimLeftSuffix(s: string)
    ensures var r := TrimLeft(s);
      r == s[|s| - |r|..] && AllSpace(s[..|s| - |r|])
    decreases |s|
  {
    if s != [] && IsSpace(s[0]) {
      TrimLeftSuffix(s[1..]);
      var r := TrimLeft(s);
      assert s[1..][|s| - 1 - |r|..] == s[|s| - |r|..];
      assert s[..|s| - |r|] == [s[0]] + s[1..][..|s| - 1 - |r|];
    } else {
      assert s[..0] == [];
    }
  }

  /** `TrimRight(s)` is a prefix of `s` and what it drops is white space only. */
  lemma {:induction false} TrimRightPrefix(s: string)
    ensures var r := TrimRight(s);
      r == s[..|r|] && AllSpace(s[|r|..])
    decreases |s|
  {
    if s != [] && IsSpace(s[|s| - 1]) {
      var init := s[..|s| - 1];
      TrimRightPrefix(init);
      var r := TrimRight(s);
      assert init[..|r|] == s[..|r|];
      assert s[|r|..] == init[|r|..] + [s[|s| - 1]];
    } else {
      assert s[|s|..] == [];
    }
  }

  /** `str.strip()`: the text without leading and trailing white space. */
  function Trim(s: string): string
  {
    TrimRight(TrimLeft(s))
  }

  /**
   * `strip()` keeps a middle part `s[i..j]` of the text: everything removed on
   * either side is white space, and the part kept neither starts nor ends with it.
   */
  lemma TrimStrips(s: string)
    ensures exists i, j :: 0 <= i <= j <= |s| && Trim(s) == s[i..j] && AllSpace(s[..i]) && AllSpace(s[j..])
    ensures Trim(s) == [] || (!IsSpace(Trim(s)[0]) && !IsSpace(Trim(s)[|Trim(s)| - 1]))
  {
    var l := TrimLeft(s);
    var r := TrimRight(l);
    TrimLeftSuffix(s);
    TrimRightPrefix(l);
    var i := |s| - |l|;
    var j := i + |r|;
    assert r == s[i..j];
    assert AllSpace(s[j..]) by {
      assert s[j..] == l[|r|..];
    }
    if r != [] {
      assert r[0] == l[0];
    }
  }

  /** Text without white space is its own trimmed form. */
  lemma TrimNoSpace(s: string)
    requires NoSpace(s)
    ensures Trim(s) == s
  {
  }

  // ---------------------------------------------------------------------------
  // The sheet

  /** The text of the first cell of a row; a missing cell reads as empty. */
  function FirstCell(row: seq<string>): string
  {
    if row == [] then "" else row[0]
  }

  /** `col_values(1)`: the first cell of every row, top to bottom. */
  function FirstColumn(rows: seq<seq<string>>): (ids: seq<string>)
    ensures |ids| == |rows|
    ensures forall i :: 0 <= i < |rows| ==> ids[i] == FirstCell(rows[i])
  {
    seq(|rows|, i requires 0 <= i < |rows| => FirstCell(rows[i]))
  }

  /** Row `cells` with its 1-based column `col` set to `value`, padding with empty cells. */
  function SetColumn(cells: seq<string>, col: nat, value: string): (r: seq<string>)
    requires col >= 1
    ensures |r| == if col <= |cells| then |cells| else col
    ensures r[col - 1] == value
    ensures forall c :: 0 <= c < |cells| && c != col - 1 ==> r[c] == cells[c]
  {
    if col <= |cells| then cells[col - 1 := value]
    else cells + seq(col - 1 - |cells|, _ => "") + [value]
  }

  /** `update_cell(row, col, value)` on the rows, both indices 1-based. */
  function SetCell(rows: seq<seq<string>>, row: nat, col: nat, value: string): (r: seq<seq<string>>)
    requires 1 <= row <= |rows| && col >= 1
    ensures |r| == |rows|
  {
    rows[row - 1 := SetColumn(rows[row - 1], col, value)]
  }

  /** The text of 1-based cell `(row, col)`; a missing cell reads as empty. */
  function Cell(rows: seq<seq<string>>, row: nat, col: nat): string
  {
    if 1 <= row <= |rows| && 1 <= col <= |rows[row - 1]| then rows[row - 1][col - 1] else ""
  }

  /**
   * `rows'` differs from `rows` at most in 1-based row `r`, and there at most
   * in columns 4, 5 and 8 (the row may grow to reach column 8).
   */
  predicate OnlyRowColumnsChanged(rows: seq<seq<string>>, rows': seq<seq<string>>, r: nat)
  {
    && |rows'| == |rows|
    && 1 <= r <= |rows|
    && (forall i :: 0 <= i < |rows| && i != r - 1 ==> rows'[i] == rows[i])
    && |rows[r - 1]| <= |rows'[r - 1]|
    && (forall c :: 1 <= c <= |rows'[r - 1]| && c != 4 && c != 5 && c != 8 ==> Cell(rows', r, c) == Cell(rows, r, c))
  }

  lemma SetCellFrame(rows: seq<seq<string>>, r: nat, col: nat, value: string)
    requires 1 <= r <= |rows| && col in {4, 5, 8}
    ensures OnlyRowColumnsChanged(rows, SetCell(rows, r, col, value), r)
    ensures Cell(SetCell(rows, r, col, value), r, col) == value
    ensures forall c :: 1 <= c && c != col ==> Cell(SetCell(rows, r, col, value), r, c) == Cell(rows, r, c)
  {
  }

  lemma OnlyRowColumnsChangedTrans(a: seq<seq<string>>, b: seq<seq<string>>, c: seq<seq<string>>, r: nat)
    requires OnlyRowColumnsChanged(a, b, r) && OnlyRowColumnsChanged(b, c, r)
    ensures OnlyRowColumnsChanged(a, c, r)
  {
  }

  /** A spreadsheet worksheet as the gate sees it: rows of cell texts. */
  class Sheet {
    var rows: seq<seq<string>>

    constructor (initial: seq<seq<string>>)
      ensures rows == initial
    {
      rows := initial;
    }

    /** `col_values(1)`; `fail` says whether the call raises. */
    method ColValues(fail: bool) returns (ids: Option<seq<string>>)
      ensures ids == if fail then None else Some(FirstColumn(rows))
    {
      if fail {
        ids := None;
      } else {
        ids := Some(FirstColumn(rows));
      }
    }

    /** `append_row(cells)`; a call that raises leaves the sheet as it was. */
    method AppendRow(cells: seq<string>, fail: bool) returns (ok: bool)
      modifies this
      ensures ok == !fail
      ensures rows == if fail then old(rows) else old(rows) + [cells]
    {
      ok := !fail;
      if ok {
        rows := rows + [cells];
      }
    }

    /** `update_cell(row, col, value)`; a call that raises leaves the sheet as it was. */
    method UpdateCell(row: nat, col: nat, value: string, fail: bool) returns (ok: bool)
      requires 1 <= row <= |rows| && col >= 1
      modifies this
      ensures ok == !fail
      ensures rows == if fail then old(rows) else SetCell(old(rows), row, col, value)
    {
      ok := !fail;
      if ok {
        rows := SetCell(rows, row, col, value);
      }
    }
  }

  // ---------------------------------------------------------------------------
  // Row search

  /** A cell of the id column names the row for `key`: `str(val).strip() == str(ROW_ID)`. */
  predicate Matches(cell: string, key: string)
  {
    Trim(cell) == key
  }

  /** The first 1-based row at or after 0-based position `i` whose id matches `key`. */
  function FirstMatchFrom(ids: seq<string>, key: string, i: nat): (r: Option<nat>)
    requires i <= |ids|
    ensures r.Some? ==> i + 1 <= r.value <= |ids| && Matches(ids[r.value - 1], key)
    ensures r.Some? ==> forall j :: i <= j < r.value - 1 ==> !Matches(ids[j], key)
    ensures r.None? ==> forall j :: i <= j < |ids| ==> !Matches(ids[j], key)
    decreases |ids| - i
  {
    if i == |ids| then None
    else if Matches(ids[i], key) then Some(i + 1)
    else FirstMatchFrom(ids, key, i + 1)
  }

  /**
   * The first 1-based row whose trimmed id equals `key`, or `None` when no
   * row matches.
   */
  function FirstMatch(ids: seq<string>, key: string): (r: Option<nat>)
    ensures r.Some? ==> 1 <= r.value <= |ids| && Matches(ids[r.value - 1], key)
    ensures r.Some? ==> forall j :: 0 <= j < r.value - 1 ==> !Matches(ids[j], key)
    ensures r.None? ==> forall j :: 0 <= j < |ids| ==> !Matches(ids[j], key)
  {
    FirstMatchFrom(ids, key, 0)
  }

  /** The search loop of `update_sheet_if_needed`: `enumerate(ids, start=1)` with `break`. */
  method FindRow(ids: seq<string>, rowId: int) returns (rowIndex: Option<nat>)
    ensures rowIndex == FirstMatch(ids, IntToString(rowId))
  {
    var key := IntToString(rowId);
    rowIndex := FindKey(ids, key);
  }

  method FindKey(ids: seq<string>, key: string) returns (rowIndex: Option<nat>)
    ensures rowIndex == FirstMatch(ids, key)
  {
    var i := 1;
    while i <= |ids|
      invariant 1 <= i <= |ids| + 1
      invariant FirstMatch(ids, key) == FirstMatchFrom(ids, key, i - 1)
    {
      FirstMatchFromStep(ids, key, i - 1);
      if Matches(ids[i - 1], key) {
        return Some(i);
      }
      i := i + 1;
    }
    return None;
  }

  lemma FirstMatchFromStep(ids: seq<string>, key: string, i: nat)
    requires i < |ids|
    ensures FirstMatchFrom(ids, key, i)
         == if Matches(ids[i], key) then Some(i + 1) else FirstMatchFrom(ids, key, i + 1)
  {
  }

  /** The properties stated by `FirstMatch`'s contract determine it. */
  lemma FirstMatchUnique(ids: seq<string>, key: string, r: Option<nat>)
    requires r.Some? ==> 1 <= r.value <= |ids| && Matches(ids[r.value - 1], key)
    requires r.Some? ==> forall j :: 0 <= j < r.value - 1 ==> !Matches(ids[j], key)
    requires r.None? ==> forall j :: 0 <= j < |ids| ==> !Matches(ids[j], key)
    ensures r == FirstMatch(ids, key)
  {
  }

  // ---------------------------------------------------------------------------
  // The update gate

  /** Which of the spreadsheet calls of one gate cycle raise. */
  datatype Faults = Faults(
    readFails: bool,       // col_values(1)
    appendFails: bool,     // append_row
    availableFails: bool,  // update_cell(row, 4, libres)
    totalFails: bool,      // update_cell(row, 5, TOTAL)
    stampFails: bool)      // update_cell(row, 8, timestamp), caught on its own

  /** The gate's memory across cycles: `(last_posted, last_time)`. */
  datatype Reported = Reported(lastPosted: Option<int>, lastTime: real)

  /** The state before the first cycle: `last_posted, last_time = None, 0.0`. */
  const Initial := Reported(None, 0.0)

  datatype GateResult = GateResult(rows: seq<seq<string>>, state: Reported)

  /** A write is attempted when nothing was posted yet or the free count changed. */
  predicate ShouldWrite(libres: int, lastPosted: Option<int>)
  {
    lastPosted.None? || libres != lastPosted.value
  }

  /** The row appended when no row carries the id. */
  function NewRow(rowId: int, libres: int, total: int): seq<string>
  {
    [IntToString(rowId), "", "", IntToString(libres), IntToString(total), "TEST D\U{FC}sseldorf", ""]
  }

  /** Whether the `try` block of the gate completes without an exception reaching its handler. */
  predicate WriteSucceeds(rows: seq<seq<string>>, rowId: int, faults: Faults)
  {
    && !faults.readFails
    && match FirstMatch(FirstColumn(rows), IntToString(rowId))
       case None => !faults.appendFails
       case Some(_) => !faults.availableFails && !faults.totalFails
  }

  /** The rows after the `try` block of the gate, including the writes done before a failure. */
  function RowsAfterWrite(rows: seq<seq<string>>, libres: int, rowId: int, total: int, stamp: string, faults: Faults)
    : seq<seq<string>>
  {
    if faults.readFails then rows
    else match FirstMatch(FirstColumn(rows), IntToString(rowId))
      case None =>
        if faults.appendFails then rows else rows + [NewRow(rowId, libres, total)]
      case Some(r) => UpdateFoundRow(rows, r, IntToString(libres), IntToString(total), stamp, faults)
  }

  /** The three cell updates of a found row, stopping at the first one that raises. */
  function UpdateFoundRow(rows: seq<seq<string>>, r: nat, available: string, totalText: string,
                          stamp: string, faults: Faults): seq<seq<string>>
    requires 1 <= r <= |rows|
  {
    if faults.availableFails then rows
    else
      var rows4 := SetCell(rows, r, 4, available);
      if faults.totalFails then rows4
      else
        var rows5 := SetCell(rows4, r, 5, totalText);
        if faults.stampFails then rows5 else SetCell(rows5, r, 8, stamp)
  }

  /** One call of `update_sheet_if_needed`: the sheet afterwards and the state it returns. */
  function Gate(rows: seq<seq<string>>, st: Reported, libres: int, now: real,
                rowId: int, total: int, stamp: string, faults: Faults): (g: GateResult)
    ensures g.state == st || g.state == Reported(Some(libres), now)
    ensures g.state != st ==> ShouldWrite(libres, st.lastPosted)
    ensures |g.rows| == |rows| || g.rows == rows + [NewRow(rowId, libres, total)]
  {
    if !ShouldWrite(libres, st.lastPosted) then GateResult(rows, st)
    else
      GateResult(RowsAfterWrite(rows, libres, rowId, total, stamp, faults),
                 if WriteSucceeds(rows, rowId, faults) then Reported(Some(libres), now) else st)
  }

  /**
   * `update_sheet_if_needed(libres, last_posted, last_time)`. `now` is the
   * time read at entry and `stamp` the formatted date written to column 8.
   */
  method UpdateSheetIfNeeded(sheet: Sheet, libres: int, st: Reported, now: real,
                             rowId: int, total: int, stamp: string, faults: Faults)
    returns (st': Reported)
    modifies sheet
    ensures GateResult(sheet.rows, st') == Gate(old(sheet.rows), st, libres, now, rowId, total, stamp, faults)
  {
    if !(st.lastPosted.None? || libres != st.lastPosted.value) {
      return st;
    }
    var ids := sheet.ColValues(faults.readFails);
    if ids.None? {
      return st;
    }
    var rowIndex := FindRow(ids.value, rowId);
    if rowIndex.None? {
      var ok := sheet.AppendRow(NewRow(rowId, libres, total), faults.appendFails);
      if !ok {
        return st;
      }
    } else {
      var row := rowIndex.value;
      var ok := sheet.UpdateCell(row, 4, IntToString(libres), faults.availableFails);
      if !ok {
        return st;
      }
      ok := sheet.UpdateCell(row, 5, IntToString(total), faults.totalFails);
      if !ok {
        return st;
      }
      ok := sheet.UpdateCell(row, 8, stamp, faults.stampFails);
    }
    return Reported(Some(libres), now);
  }

  // ---------------------------------------------------------------------------
  // Properties of the gate

  /** With nothing to report, neither the sheet nor the state changes. */
  lemma GateSkipsWhenUnchanged(rows: seq<seq<string>>, st: Reported, libres: int, now: real,
                               rowId: int, total: int, stamp: string, faults: Faults)
    requires st.lastPosted == Some(libres)
    ensures Gate(rows, st, libres, now, rowId, total, stamp, faults) == GateResult(rows, st)
  {
  }

  /**
   * When a write is attempted, a completed write returns `(libres, now)` and a
   * failed one returns the previous state; a failure writing column 8 is
   * swallowed and still counts as a completed write.
   */
  lemma GateStateAfterAttempt(rows: seq<seq<string>>, st: Reported, libres: int, now: real,
                              rowId: int, total: int, stamp: string, faults: Faults)
    requires ShouldWrite(libres, st.lastPosted)
    ensures var key := IntToString(rowId);
      var ok := !faults.readFails &&
                (if FirstMatch(FirstColumn(rows), key).None? then !faults.appendFails
                 else !faults.availableFails && !faults.totalFails);
      Gate(rows, st, libres, now, rowId, total, stamp, faults).state
        == if ok then Reported(Some(libres), now) else st
    ensures Gate(rows, st, libres, now, rowId, total, stamp, faults).state
         == Gate(rows, st, libres, now, rowId, total, stamp, faults.(stampFails := !faults.stampFails)).state
  {
  }

  /** Without a row for the id, a completed write appends exactly one new row. */
  lemma GateAppendsMissingRow(rows: seq<seq<string>>, st: Reported, libres: int, now: real,
                              rowId: int, total: int, stamp: string, faults: Faults)
    requires ShouldWrite(libres, st.lastPosted)
    requires forall i :: 0 <= i < |rows| ==> Trim(FirstCell(rows[i])) != IntToString(rowId)
    requires !faults.readFails && !faults.appendFails
    ensures Gate(rows, st, libres, now, rowId, total, stamp, faults).rows
         == rows + [[IntToString(rowId), "", "", IntToString(libres), IntToString(total), "TEST D\U{FC}sseldorf", ""]]
  {
    var ids := FirstColumn(rows);
    var key := IntToString(rowId);
    FirstMatchUnique(ids, key, None);
  }

  /**
   * With a row for the id, a write changes nothing but that row, and in it
   * nothing but columns 4 (free), 5 (total) and 8 (time stamp); each of those
   * holds its new value when its call and every call before it completed.
   */
  lemma GateUpdatesFoundRow(rows: seq<seq<string>>, st: Reported, libres: int, now: real,
                            rowId: int, total: int, stamp: string, faults: Faults, r: nat)
    requires ShouldWrite(libres, st.lastPosted)
    requires !faults.readFails
    requires FirstMatch(FirstColumn(rows), IntToString(rowId)) == Some(r)
    ensures OnlyRowColumnsChanged(rows, Gate(rows, st, libres, now, rowId, total, stamp, faults).rows, r)
    ensures !faults.availableFails ==>
      Cell(Gate(rows, st, libres, now, rowId, total, stamp, faults).rows, r, 4) == IntToString(libres)
    ensures !faults.availableFails && !faults.totalFails ==>
      Cell(Gate(rows, st, libres, now, rowId, total, stamp, faults).rows, r, 5) == IntToString(total)
    ensures !faults.availableFails && !faults.totalFails && !faults.stampFails ==>
      Cell(Gate(rows, st, libres, now, rowId, total, stamp, faults).rows, r, 8) == stamp
    ensures faults.availableFails ==> Gate(rows, st, libres, now, rowId, total, stamp, faults).rows == rows
  {
    assert Gate(rows, st, libres, now, rowId, total, stamp, faults).rows
        == UpdateFoundRow(rows, r, IntToString(libres), IntToString(total), stamp, faults);
    UpdateFoundRowCells(rows, r, IntToString(libres), IntToString(total), stamp, faults);
  }

  lemma UpdateFoundRowCells(rows: seq<seq<string>>, r: nat, available: string, totalText: string,
                            stamp: string, faults: Faults)
    requires 1 <= r <= |rows|
    ensures var out := UpdateFoundRow(rows, r, available, totalText, stamp, faults);
      && OnlyRowColumnsChanged(rows, out, r)
      && (!faults.availableFails ==> Cell(out, r, 4) == available)
      && (!faults.availableFails && !faults.totalFails ==> Cell(out, r, 5) == totalText)
      && (!faults.availableFails && !faults.totalFails && !faults.stampFails ==> Cell(out, r, 8) == stamp)
      && (faults.availableFails ==> out == rows)
  {
    if !faults.availableFails {
      var rows4 := SetCell(rows, r, 4, available);
      SetCellFrame(rows, r, 4, available);
      if !faults.totalFails {
        var rows5 := SetCell(rows4, r, 5, totalText);
        SetCellFrame(rows4, r, 5, totalText);
        OnlyRowColumnsChangedTrans(rows, rows4, rows5, r);
        if !faults.stampFails {
          SetCellFrame(rows5, r, 8, stamp);
          OnlyRowColumnsChangedTrans(rows, rows5, SetCell(rows5, r, 8, stamp), r);
        }
      }
    }
  }

  /** A row appended for the id is the one the next cycle's search finds. */
  lemma AppendedRowIsFoundNext(rows: seq<seq<string>>, rowId: int, libres: int, total: int)
    requires FirstMatch(FirstColumn(rows), IntToString(rowId)).None?
    ensures FirstMatch(FirstColumn(rows + [NewRow(rowId, libres, total)]), IntToString(rowId)) == Some(|rows| + 1)
  {
    var key := IntToString(rowId);
    var rows' := rows + [NewRow(rowId, libres, total)];
    var ids := FirstColumn(rows');
    TrimNoSpace(key);
    assert ids[|rows|] == key;
    assert forall j :: 0 <= j < |rows| ==> ids[j] == FirstColumn(rows)[j];
    FirstMatchUnique(ids, key, Some(|rows| + 1));
  }

  // ---------------------------------------------------------------------------
  // The gate over several cycles

  /** Every call that decides whether the write completes goes through (column 8 may still fail). */
  predicate Completes(faults: Faults)
  {
    !faults.readFails && !faults.appendFails && !faults.availableFails && !faults.totalFails
  }

  /**
   * For a run of free counts fed to the gate cycle after cycle, with the
   * given faults per cycle, whether each cycle attempted a write.
   */
  function Attempts(rows: seq<seq<string>>, st: Reported, values: seq<int>, faults: seq<Faults>,
                    rowId: int, total: int): (r: seq<bool>)
    requires |faults| == |values|
    ensures |r| == |values|
    decreases |values|
  {
    if values == [] then []
    else
      var next := Gate(rows, st, values[0], 0.0, rowId, total, "", faults[0]);
      [ShouldWrite(values[0], st.lastPosted)] + Attempts(next.rows, next.state, values[1..], faults[1..], rowId, total)
  }

  lemma GateCompletes(rows: seq<seq<string>>, st: Reported, libres: int, now: real,
                      rowId: int, total: int, stamp: string, faults: Faults)
    requires ShouldWrite(libres, st.lastPosted) && Completes(faults)
    ensures Gate(rows, st, libres, now, rowId, total, stamp, faults).state == Reported(Some(libres), now)
  {
  }

  /** The same free count on two consecutive cycles is written once: the second cycle is skipped. */
  lemma RepeatedValueWrittenOnce(rows: seq<seq<string>>, st: Reported, v: int, faults: seq<Faults>,
                                 rowId: int, total: int)
    requires ShouldWrite(v, st.lastPosted)
    requires |faults| == 2 && Completes(faults[0])
    ensures Attempts(rows, st, [v, v], faults, rowId, total) == [true, false]
  {
    GateCompletes(rows, st, v, 0.0, rowId, total, "", faults[0]);
    assert [v, v][1..] == [v];
  }

  /** Right after `a` was posted, a repeated `a` is skipped and a different `b` is attempted. */
  lemma SkipThenChange(rows: seq<seq<string>>, st: Reported, a: int, b: int, faults: seq<Faults>,
                       rowId: int, total: int)
    requires a != b && st.lastPosted == Some(a)
    requires |faults| == 2
    ensures Attempts(rows, st, [a, b], faults, rowId, total) == [false, true]
  {
    GateSkipsWhenUnchanged(rows, st, a, 0.0, rowId, total, "", faults[0]);
    assert [a, b][1..] == [b];
    assert Attempts(rows, st, [b], faults[1..], rowId, total) == [true];
  }

  /**
   * A repeated free count followed by a different one (say 5, 5, 3 from the
   * initial state) is written on the first and third cycles only.
   */
  lemma ChangesAreWritten(rows: seq<seq<string>>, st: Reported, a: int, b: int, faults: seq<Faults>,
                          rowId: int, total: int)
    requires a != b && ShouldWrite(a, st.lastPosted)
    requires |faults| == 3 && Completes(faults[0])
    ensures Attempts(rows, st, [a, a, b], faults, rowId, total) == [true, false, true]
  {
    var g1 := Gate(rows, st, a, 0.0, rowId, total, "", faults[0]);
    GateCompletes(rows, st, a, 0.0, rowId, total, "", faults[0]);
    assert [a, a, b][1..] == [a, b];
    SkipThenChange(g1.rows, g1.state, a, b, faults[1..], rowId, total);
  }

  /**
   * A failed write leaves the previous state in place, so the next cycle with
   * the same free count attempts it again.
   */
  lemma FailedWriteIsRetried(rows: seq<seq<string>>, st: Reported, libres: int, now: real,
                             rowId: int, total: int, stamp: string, faults: Faults)
    requires ShouldWrite(libres, st.lastPosted)
    requires faults.readFails
    ensures var g := Gate(rows, st, libres, now, rowId, total, stamp, faults);
      g == GateResult(rows, st) && ShouldWrite(libres, g.state.lastPosted)
  {
  }
}
