/** The placeholder rows of an insert statement, written in place into a buffer that is
filled with question marks. */
module Placeholders {

  /** The first `n` fields of a row: "(?,?" for two. */
  function Fields(n: nat): string {
    if n == 0 then "" else Fields(n - 1) + [if n == 1 then '(' else ',', '?']
  }

  function RowText(fields: nat): string {
    Fields(fields) + ")"
  }

  /** `n` rows, each followed by a comma. */
  function RowsAndCommas(fields: nat, n: nat): string {
    if n == 0 then "" else RowsAndCommas(fields, n - 1) + RowText(fields) + ","
  }

  /** The rows joined by commas. */
  function Joined(fields: nat, rows: nat): string {
    if rows == 0 then "" else RowsAndCommas(fields, rows - 1) + RowText(fields)
  }

  lemma {:induction false} FieldsLength(n: nat)
    ensures |Fields(n)| == 2 * n
  {
    if n > 0 {
      FieldsLength(n - 1);
    }
  }

  /** n times f, by repeated addition. */
  function Times(n: nat, f: nat): nat {
    if n == 0 then 0 else Times(n - 1, f) + f
  }

  lemma {:induction false} TimesIsProduct(n: nat, f: nat)
    ensures Times(n, f) == n * f == f * n
  {
    if n > 0 {
      TimesIsProduct(n - 1, f);
      assert n * f == (n - 1) * f + f;
    }
  }

  lemma {:induction false} RowsLength(fields: nat, n: nat)
    ensures |RowsAndCommas(fields, n)| == Times(n, 2 * fields + 2)
  {
    FieldsLength(fields);
    if n > 0 {
      RowsLength(fields, n - 1);
    }
  }

  /** Row number `row` starts at `start`; its end is the end of the buffer only for the last. */
  ghost predicate RowAt(fields: nat, row: nat, rows: nat, start: int, size: nat) {
    && start == |RowsAndCommas(fields, row)| && start + 2 * fields + 1 <= size
    && (start + 2 * fields + 1 == size <==> row == rows - 1)
  }

  /** The buffer holds `row` rows and `n` fields of the next; from `at` on it is untouched. */
  ghost predicate Written(s: string, at: nat, fields: nat, row: nat, rows: nat, n: nat) {
    && row < rows && n <= fields && |s| + 1 == |RowsAndCommas(fields, rows)|
    && RowAt(fields, row, rows, at - 2 * n, |s|)
    && s[..at] == RowsAndCommas(fields, row) + Fields(n)
    && forall i :: at <= i < |s| ==> s[i] == '?'
  }

  method Put(data: array<char>, at: nat, c: char)
    requires at < data.Length
    modifies data
    ensures data[..at + 1] == old(data[..at]) + [c]
    ensures forall i :: at < i < data.Length ==> data[i] == old(data[i])
  {
    data[at] := c;
  }

  /** Writes the mark in front of a field and leaves the question mark behind it. */
  method PutField(data: array<char>, at: nat, currRow: nat, ghost fields: nat, ghost row: nat, ghost rows: nat)
    requires currRow < fields && Written(data[..], at, fields, row, rows, currRow)
    modifies data
    ensures Written(data[..], at + 2, fields, row, rows, currRow + 1)
  {
    ghost var before := data[..];
    Put(data, at, if currRow == 0 then '(' else ',');
    assert data[..at + 2] == data[..at + 1] + ['?'];
    assert before[..at] == RowsAndCommas(fields, row) + Fields(currRow);
    FieldStep(RowsAndCommas(fields, row), currRow);
  }

  /** Closes a row, and opens the way for the next one unless the buffer is full. */
  method EndRow(data: array<char>, at: nat, ghost fields: nat, ghost row: nat, ghost rows: nat)
    returns (at': nat, full: bool)
    requires Written(data[..], at, fields, row, rows, fields)
    modifies data
    ensures full <==> at' == data.Length
    ensures full ==> data[..] == Joined(fields, rows)
    ensures !full ==> Written(data[..], at', fields, row + 1, rows, 0)
  {
    ghost var before := data[..];
    assert before[..at] == RowsAndCommas(fields, row) + Fields(fields);
    RowsStep(fields, row);
    Put(data, at, ')');
    at' := at + 1;
    full := at' == data.Length;
    if full {
      assert data[..] == data[..at'];
      return;
    }
    RowStart(fields, row + 1, rows);
    Put(data, at', ',');
    at' := at' + 1;
    assert data[..at'] == RowsAndCommas(fields, row) + Fields(fields) + "),";
  }

  /** What the loop writes if there are no fields: it closes a row and opens the next in
      every turn. */
  const NO_FIELDS := "),(?"

  /** The only demand is that the size of the buffer does not overflow. */
  method GetQArray(fieldsCount: int, rowCount: int) returns (q: string)
    requires -0x8000_0000 <= fieldsCount * 2 && fieldsCount * 2 + 2 <= 0x7FFF_FFFF
    requires -0x8000_0000 < (fieldsCount * 2 + 2) * rowCount <= 0x7FFF_FFFF
    ensures fieldsCount > 0 && rowCount >= 0 ==> q == Joined(fieldsCount, rowCount)
    ensures fieldsCount > 0 && rowCount < 0 ==> q == ""
    ensures fieldsCount <= 0 ==>
              var size := (fieldsCount * 2 + 2) * rowCount - 1;
              |q| == (if size < 0 then 0 else size) && forall i :: 0 <= i < |q| ==> q[i] == NO_FIELDS[i % 4]
  {
    var size := (fieldsCount * 2 + 2) * rowCount - 1;
    if fieldsCount > 0 && rowCount >= 0 {
      RowsLength(fieldsCount, rowCount);
      TimesIsProduct(rowCount, 2 * fieldsCount + 2);
    } else if fieldsCount > 0 {
      NegativeRows(fieldsCount * 2 + 2, rowCount);
    }
    if size < 0 {
      if fieldsCount > 0 && rowCount >= 0 {
        NoRows(fieldsCount, rowCount);
      }
      return "";
    }
    if fieldsCount > 0 {
      q := FillRows(fieldsCount, rowCount, size);
    } else {
      EvenSize(fieldsCount, rowCount);
      q := FillWithoutFields(size);
    }
  }

  lemma NegativeRows(perRow: nat, rows: int)
    requires rows < 0
    ensures perRow * rows <= 0
  {
  }

  lemma EvenSize(fields: int, rows: int)
    ensures (fields * 2 + 2) * rows % 2 == 0
  {
    assert (fields * 2 + 2) * rows == 2 * ((fields + 1) * rows);
  }

  /** The loop when every field count is reached at once. */
  method FillWithoutFields(size: nat) returns (q: string)
    requires size % 2 == 1
    ensures |q| == size && forall i :: 0 <= i < size ==> q[i] == NO_FIELDS[i % 4]
  {
    var data := new char[size](_ => '?');
    var at := 0;
    while at < size
      invariant 0 <= at <= size + 1 && at % 4 == 0
      invariant forall i :: 0 <= i < at && i < size ==> data[i] == NO_FIELDS[i % 4]
      invariant forall i :: at <= i < size ==> data[i] == '?'
      decreases size + 1 - at
    {
      data[at] := ')';
      at := at + 1;
      if at == size {
        break;
      }
      data[at] := ',';
      at := at + 1;
      data[at] := '(';
      at := at + 2;
    }
    q := data[..];
  }

  lemma NoRows(fields: nat, rows: nat)
    requires |RowsAndCommas(fields, rows)| == 0
    ensures rows == 0
  {
  }

  method FillRows(fieldsCount: nat, rowCount: nat, size: nat) returns (q: string)
    requires fieldsCount > 0 && size + 1 == |RowsAndCommas(fieldsCount, rowCount)|
    ensures q == Joined(fieldsCount, rowCount)
  {
    var data := new char[size](_ => '?');
    var currRow, at := 0, 0;
    ghost var row := 0;
    RowStart(fieldsCount, 0, rowCount);
    while at < size
      invariant 0 <= currRow <= fieldsCount && 0 <= at < size && 0 <= row
      invariant Written(data[..], at, fieldsCount, row, rowCount, currRow)
      decreases size - at
    {
      if currRow >= fieldsCount {
        var full;
        at, full := EndRow(data, at, fieldsCount, row, rowCount);
        currRow := 0;
        if full {
          break;
        }
        row := row + 1;
      }
      PutField(data, at, currRow, fieldsCount, row, rowCount);
      at := at + 2;
      currRow := currRow + 1;
    }
    q := data[..];
  }

  lemma RowsStep(fields: nat, row: nat)
    ensures |RowsAndCommas(fields, row + 1)| == |RowsAndCommas(fields, row)| + 2 * fields + 2
    ensures RowsAndCommas(fields, row) + Fields(fields) + ")," == RowsAndCommas(fields, row + 1) + Fields(0)
    ensures RowsAndCommas(fields, row) + Fields(fields) + ")" == Joined(fields, row + 1)
  {
    FieldsLength(fields);
    assert "),"== ")" + ",";
  }

  lemma FieldStep(rows: string, n: nat)
    ensures rows + Fields(n) + [if n == 0 then '(' else ',', '?'] == rows + Fields(n + 1)
  {
  }

  /** A row ends at the end of the buffer exactly if it is the last. */
  lemma {:induction false} RowStart(fields: nat, row: nat, rows: nat)
    requires row < rows
    ensures |RowsAndCommas(fields, rows)| >= 1
    ensures RowAt(fields, row, rows, |RowsAndCommas(fields, row)|, |RowsAndCommas(fields, rows)| - 1)
    decreases rows
  {
    RowsStep(fields, rows - 1);
    if row < rows - 1 {
      RowStart(fields, row, rows - 1);
    }
  }

  /** The number of question marks. */
  function Marks(s: string): nat {
    if s == "" then 0 else Marks(s[..|s| - 1]) + if s[|s| - 1] == '?' then 1 else 0
  }

  lemma {:induction false} FieldsMarks(n: nat)
    ensures Marks(Fields(n)) == n
  {
    if n > 0 {
      FieldsMarks(n - 1);
      var last := [if n == 1 then '(' else ',', '?'];
      assert last == [last[0]] + "?" && Marks([last[0]]) == 0;
      MarksConcat([last[0]], "?");
      MarksConcat(Fields(n - 1), last);
    }
  }

  lemma {:induction false} MarksConcat(a: string, b: string)
    ensures Marks(a + b) == Marks(a) + Marks(b)
  {
    if b == "" {
      assert a + b == a;
    } else {
      MarksConcat(a, b[..|b| - 1]);
      assert (a + b)[..|a + b| - 1] == a + b[..|b| - 1];
    }
  }

  lemma RowMarks(before: string, fields: nat)
    ensures Marks(before + RowText(fields)) == Marks(before) + fields
    ensures Marks(before + RowText(fields) + ",") == Marks(before) + fields
  {
    FieldsMarks(fields);
    MarksConcat(Fields(fields), ")");
    MarksConcat(before, RowText(fields));
    MarksConcat(before + RowText(fields), ",");
  }

  lemma {:induction false} RowsMarks(fields: nat, n: nat)
    ensures Marks(RowsAndCommas(fields, n)) == Times(n, fields)
  {
    if n > 0 {
      RowsMarks(fields, n - 1);
      RowMarks(RowsAndCommas(fields, n - 1), fields);
    }
  }

  lemma JoinedMarksTimes(fields: nat, rows: nat)
    ensures Marks(Joined(fields, rows)) == Times(rows, fields)
  {
    if rows > 0 {
      RowsMarks(fields, rows - 1);
      RowMarks(RowsAndCommas(fields, rows - 1), fields);
    }
  }

  /** There is one question mark per field and row. */
  lemma JoinedMarks(fields: nat, rows: nat)
    ensures Marks(Joined(fields, rows)) == fields * rows
  {
    JoinedMarksTimes(fields, rows);
    TimesIsProduct(rows, fields);
  }
}
