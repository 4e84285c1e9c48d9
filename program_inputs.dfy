/** The input check run before flashing: every row of the file table after
    the heading row needs a numeric flash offset that no earlier row uses and
    an attached file; the first row that breaks a rule is reported. */
module ProgramInputs {
  import Wrappers

  /** One row of the file table: the offset field as `parseInt` read it (None
      when it is not a number) and whether a file's data is attached. */
  datatype FileRow = FileRow(offset: Wrappers.Option<int>, hasFile: bool)

  /** The outcome of the check; an error names the row it was found in. */
  datatype Verdict =
    | Success
    | InvalidAddress(row: nat)   // "Offset field in row <row> is not a valid address!"
    | OffsetInUse(row: nat)      // "Offset field in row <row> is already in use!"
    | NoFileSelected(row: nat)   // "No file selected for row <row>!"

  /** The loop of validate_program_inputs from row `index` on, with the
      offsets of the rows already accepted in offsetArr. */
  function CheckRows(rows: seq<FileRow>, index: nat, offsetArr: seq<int>): (v: Verdict)
    ensures v != Success ==> index <= v.row < |rows|
    ensures v.InvalidAddress? ==> rows[v.row].offset.None?
    ensures v.OffsetInUse? ==> rows[v.row].offset.Some?
    ensures v.NoFileSelected? ==> rows[v.row].offset.Some? && !rows[v.row].hasFile
    decreases |rows| - index
  {
    if index >= |rows| then Success
    else if rows[index].offset.None? then InvalidAddress(index)
    else if rows[index].offset.value in offsetArr then OffsetInUse(index)
    else if !rows[index].hasFile then NoFileSelected(index)
    else CheckRows(rows, index + 1, offsetArr + [rows[index].offset.value])
  }

  /** What validate_program_inputs returns: row 0 is the heading and is skipped. */
  function Validation(rows: seq<FileRow>): (v: Verdict)
    ensures v != Success ==> 1 <= v.row < |rows|
    ensures v.InvalidAddress? ==> rows[v.row].offset.None?
    ensures v.NoFileSelected? ==> !rows[v.row].hasFile
    ensures |rows| <= 1 ==> v == Success
  {
    CheckRows(rows, 1, [])
  }

  /** The verdict for row k on its own, given the rows before it: its offset is
      checked first, then for reuse by an earlier row, then for a file. */
  ghost function RowVerdict(rows: seq<FileRow>, k: nat): Verdict
    requires 1 <= k < |rows|
  {
    if rows[k].offset.None? then InvalidAddress(k)
    else if exists j :: 1 <= j < k && rows[j].offset == rows[k].offset then OffsetInUse(k)
    else if !rows[k].hasFile then NoFileSelected(k)
    else Success
  }

  /** Rows 1 to k - 1 all pass. */
  ghost predicate RowsAccepted(rows: seq<FileRow>, k: nat)
    requires k <= |rows|
  {
    forall i :: 1 <= i < k ==> RowVerdict(rows, i) == Success
  }

  /** offsetArr after rows 1 to k - 1 have been accepted: their offsets, in order. */
  ghost function CheckedOffsets(rows: seq<FileRow>, k: nat): seq<int>
    requires 1 <= k <= |rows| && RowsAccepted(rows, k)
  {
    if k == 1 then []
    else
      assert RowVerdict(rows, k - 1) == Success;
      CheckedOffsets(rows, k - 1) + [rows[k - 1].offset.value]
  }

  /** offsetArr grows by one accepted offset per row, so it holds exactly the
      offsets of the accepted rows, each once. */
  lemma {:induction false} CheckedOffsetsDistinct(rows: seq<FileRow>, k: nat)
    requires 1 <= k <= |rows| && RowsAccepted(rows, k)
    ensures |CheckedOffsets(rows, k)| == k - 1
    ensures forall i :: 1 <= i < k ==> rows[i].offset == Wrappers.Some(CheckedOffsets(rows, k)[i - 1])
    ensures forall a, b :: 0 <= a < b < k - 1 ==> CheckedOffsets(rows, k)[a] != CheckedOffsets(rows, k)[b]
    ensures forall x :: x in CheckedOffsets(rows, k) <==> exists j :: 1 <= j < k && rows[j].offset == Wrappers.Some(x)
  {
    if k > 1 {
      CheckedOffsetsDistinct(rows, k - 1);
      var prev, offs := CheckedOffsets(rows, k - 1), CheckedOffsets(rows, k);
      assert RowVerdict(rows, k - 1) == Success;
      forall i | 1 <= i < k ensures rows[i].offset == Wrappers.Some(offs[i - 1]) {
        if i < k - 1 {
          assert offs[i - 1] == prev[i - 1];
        }
      }
      forall x ensures x in offs <==> exists j :: 1 <= j < k && rows[j].offset == Wrappers.Some(x) {
        if x in offs {
          var a :| 0 <= a < |offs| && offs[a] == x;
          assert rows[a + 1].offset == Wrappers.Some(x);
        }
      }
    }
  }

  lemma {:induction false} CheckRowsSpec(rows: seq<FileRow>, k: nat, offsetArr: seq<int>)
    requires 1 <= k <= |rows| && RowsAccepted(rows, k) && offsetArr == CheckedOffsets(rows, k)
    ensures CheckRows(rows, k, offsetArr) == Success <==> RowsAccepted(rows, |rows|)
    ensures CheckRows(rows, k, offsetArr) != Success ==>
      && k <= CheckRows(rows, k, offsetArr).row < |rows|
      && RowsAccepted(rows, CheckRows(rows, k, offsetArr).row)
      && CheckRows(rows, k, offsetArr) == RowVerdict(rows, CheckRows(rows, k, offsetArr).row)
    decreases |rows| - k
  {
    if k < |rows| {
      CheckedOffsetsDistinct(rows, k);
      if RowVerdict(rows, k) == Success {
        assert RowsAccepted(rows, k + 1);
        assert offsetArr + [rows[k].offset.value] == CheckedOffsets(rows, k + 1);
        CheckRowsSpec(rows, k + 1, offsetArr + [rows[k].offset.value]);
      }
    }
  }

  /** The check succeeds exactly when every row after the heading passes, and
      otherwise reports a row whose earlier rows all pass and which fails the
      way the verdict says: the first failing row, with its first failing rule. */
  lemma ValidationSpec(rows: seq<FileRow>)
    ensures Validation(rows) == Success <==> RowsAccepted(rows, |rows|)
    ensures Validation(rows) != Success ==>
      && 1 <= Validation(rows).row < |rows|
      && RowsAccepted(rows, Validation(rows).row)
      && Validation(rows) == RowVerdict(rows, Validation(rows).row)
  {
    if |rows| >= 1 {
      CheckRowsSpec(rows, 1, []);
    }
  }

  /** First error wins: if rows 1 to k - 1 pass and row k fails, row k's
      failure is what is reported. In particular a repeated offset is reported
      at the later of the two rows. */
  lemma FirstFailingRowReported(rows: seq<FileRow>, k: nat)
    requires 1 <= k < |rows| && RowsAccepted(rows, k) && RowVerdict(rows, k) != Success
    ensures Validation(rows) == RowVerdict(rows, k)
  {
    ValidationSpec(rows);
  }

  lemma {:induction false} CheckRowsSkipsRowZero(rows: seq<FileRow>, row0: FileRow, k: nat, offsetArr: seq<int>)
    requires |rows| > 0 && k >= 1
    ensures CheckRows(rows[0 := row0], k, offsetArr) == CheckRows(rows, k, offsetArr)
    decreases |rows| - k
  {
    if k < |rows| {
      assert rows[0 := row0][k] == rows[k];
      if rows[k].offset.Some? {
        CheckRowsSkipsRowZero(rows, row0, k + 1, offsetArr + [rows[k].offset.value]);
      }
    }
  }

  /** Row 0 (the table heading) is never examined. */
  lemma RowZeroIgnored(rows: seq<FileRow>, row0: FileRow)
    requires |rows| > 0
    ensures Validation(rows[0 := row0]) == Validation(rows)
  {
    CheckRowsSkipsRowZero(rows, row0, 1, []);
  }

  /** validate_program_inputs: walks rows 1 onward, returning at the first
      failing check and pushing each numeric, unused offset onto offsetArr. */
  method ValidateProgramInputs(rows: seq<FileRow>) returns (r: Verdict)
    ensures r == Validation(rows)
  {
    var offsetArr: seq<int> := [];
    var rowCount := |rows|;
    var index := 1;
    while index < rowCount
      invariant 1 <= index
      invariant CheckRows(rows, index, offsetArr) == Validation(rows)
      invariant index <= rowCount ==> RowsAccepted(rows, index) && offsetArr == CheckedOffsets(rows, index)
    {
      CheckedOffsetsDistinct(rows, index);
      var offset := rows[index].offset;
      if offset.None? {
        return InvalidAddress(index);
      } else if offset.value in offsetArr {
        return OffsetInUse(index);
      } else {
        offsetArr := offsetArr + [offset.value];
      }
      if !rows[index].hasFile {
        return NoFileSelected(index);
      }
      assert RowVerdict(rows, index) == Success;
      index := index + 1;
    }
    return Success;
  }

  /** The text validate_program_inputs returns for a verdict. */
  function Message(v: Verdict): (text: string)
    ensures text == "success" <==> v == Success
  {
    match v
    case Success => "success"
    case InvalidAddress(row) => "Offset field in row " + Decimal(row) + " is not a valid address!"
    case OffsetInUse(row) => "Offset field in row " + Decimal(row) + " is already in use!"
    case NoFileSelected(row) => "No file selected for row " + Decimal(row) + "!"
  }

  /** The number a string of decimal digits spells, most significant digit first. */
  function DigitsValue(s: string): int
  {
    if s == [] then 0
    else 10 * DigitsValue(s[..|s| - 1]) + (s[|s| - 1] as int - '0' as int)
  }

  /** The decimal digits of n, as JavaScript's string concatenation writes a
      row number: no leading zero, and they spell n. */
  function Decimal(n: nat): (digits: string)
    ensures |digits| >= 1
    ensures forall i :: 0 <= i < |digits| ==> '0' <= digits[i] <= '9'
    ensures digits[0] == '0' ==> n == 0
    ensures DigitsValue(digits) == n
  {
    var last := [(('0' as int) + n % 10) as char];
    if n < 10 then last
    else
      var front := Decimal(n / 10);
      assert (front + last)[..|front + last| - 1] == front;
      front + last
  }
}
