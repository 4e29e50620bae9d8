/**
 * Statements: classifying an input line as an insert or a select, routing a
 * prepared statement to the table, and a reference semantics of a session
 * (a fresh table followed by a sequence of statements) stated on the row
 * sequence alone.
 */
module Statements {
  import opened Layout
  import opened Pager

  /** A prepared statement: append one row, or list every row. */
  datatype Statement = Insert(row: Row) | Select

  /** What preparing a line yields. */
  datatype PrepareResult =
    | PrepareSuccess(statement: Statement)
    | PrepareSyntaxError
    | PrepareUnrecognizedStatement

  /**
   * What scanning an insert line for `<id> <username> <email>` produced:
   * all three fields (the text fields as the whitespace-free words read),
   * or fewer than three.
   */
  datatype InsertScan = Scanned(id: uint32, username: seq<byte>, email: seq<byte>) | TooFewFields

  function Min(a: int, b: int): (m: int)
    ensures m <= a && m <= b && (m == a || m == b)
  {
    if a <= b then a else b
  }

  /**
   * The text held in a fixed-width column: everything before its first zero
   * byte. A column without a zero byte reads here as the whole column, where
   * a C `%s` would read on past the column's end (into the next column of
   * the row, or past the row); every column PrepareStatement builds has a
   * terminator, so that case never arises for stored rows.
   */
  function CString(f: seq<byte>): (s: seq<byte>)
    ensures |s| <= |f| && s == f[..|s|]
    ensures forall k :: 0 <= k < |s| ==> s[k] != 0
    ensures |s| < |f| ==> f[|s|] == 0
  {
    if f == [] || f[0] == 0 then [] else [f[0]] + CString(f[1..])
  }

  /**
   * A column of `width` bytes filled from a scanned word read with field
   * width `width - 1`: the first `k = min(|word|, width - 1)` bytes of the
   * word, then the terminator at index `k`. The bytes after the terminator
   * are zero here; C leaves them as they were, so that the last byte of the
   * column is zero holds only for this zero fill.
   */
  function FixedField(word: seq<byte>, width: nat): (f: seq<byte>)
    requires width > 0
    ensures |f| == width
    ensures var k := Min(|word|, width - 1); f[..k] == word[..k] && f[k] == 0
    ensures f[width - 1] == 0
  {
    var k := Min(|word|, width - 1);
    word[..k] + seq(width - k, _ => 0)
  }

  /** A column whose first zero byte is at `k` reads as its first `k` bytes. */
  lemma CStringUpTo(f: seq<byte>, k: nat)
    requires k < |f| && f[k] == 0
    requires forall j :: 0 <= j < k ==> f[j] != 0
    ensures CString(f) == f[..k]
  {
  }

  /**
   * A word without zero bytes reads back from its column as the word cut
   * to `width - 1` bytes.
   */
  lemma {:induction false} FixedFieldReadsBack(word: seq<byte>, width: nat)
    requires width > 0
    requires forall k :: 0 <= k < |word| ==> word[k] != 0
    ensures CString(FixedField(word, width)) == word[..Min(|word|, width - 1)]
  {
    var f, k := FixedField(word, width), Min(|word|, width - 1);
    assert f[..k] == word[..k];
    CStringUpTo(f, k);
  }

  /** The ASCII bytes of the two statement keywords. */
  const InsertKeyword: seq<byte> := [0x69, 0x6E, 0x73, 0x65, 0x72, 0x74]
  const SelectKeyword: seq<byte> := [0x73, 0x65, 0x6C, 0x65, 0x63, 0x74]

  /**
   * Classifies a line, given as the bytes of the input buffer, by its first
   * six bytes. An `insert` line is a
   * syntax error unless all three fields were scanned; the username and
   * email are kept to 31 and 254 bytes. A `select` line needs nothing more.
   * Anything else is unrecognized.
   */
  function PrepareStatement(line: seq<byte>, scan: InsertScan): (r: PrepareResult)
    ensures r.PrepareUnrecognizedStatement? <==> !(InsertKeyword <= line) && !(SelectKeyword <= line)
    ensures r == PrepareSuccess(Select) <==> !(InsertKeyword <= line) && SelectKeyword <= line
    ensures r.PrepareSyntaxError? <==> InsertKeyword <= line && scan.TooFewFields?
    ensures r.PrepareSuccess? && r.statement.Insert? <==> InsertKeyword <= line && scan.Scanned?
    ensures r.PrepareSuccess? && r.statement.Insert? ==>
              var row, u, e := r.statement.row, Min(|scan.username|, UsernameSize - 1), Min(|scan.email|, EmailSize - 1);
              row.id == scan.id &&
              row.username[..u] == scan.username[..u] && row.username[u] == 0 &&
              row.email[..e] == scan.email[..e] && row.email[e] == 0
  {
    if InsertKeyword <= line then
      match scan
      case Scanned(id, username, email) =>
        var u, e := FixedField(username, UsernameSize), FixedField(email, EmailSize);
        assert |u| == 32 && |e| == 255;
        PrepareSuccess(Insert(Row(id, u, e)))
      case TooFewFields => PrepareSyntaxError
    else if SelectKeyword <= line then
      PrepareSuccess(Select)
    else
      PrepareUnrecognizedStatement
  }

  /**
   * The row an insert line prepares reads back, column by column, as the
   * scanned words cut to 31 and 254 bytes.
   */
  lemma PreparedInsertReadsBack(line: seq<byte>, id: uint32, username: seq<byte>, email: seq<byte>)
    requires InsertKeyword <= line
    requires forall k :: 0 <= k < |username| ==> username[k] != 0
    requires forall k :: 0 <= k < |email| ==> email[k] != 0
    ensures PrepareStatement(line, Scanned(id, username, email)).PrepareSuccess?
    ensures var row := PrepareStatement(line, Scanned(id, username, email)).statement.row;
            row.id == id &&
            CString(row.username) == username[..Min(|username|, UsernameSize - 1)] &&
            CString(row.email) == email[..Min(|email|, EmailSize - 1)]
  {
    FixedFieldReadsBack(username, UsernameSize);
    FixedFieldReadsBack(email, EmailSize);
  }

  /** The effect of one statement on the stored rows, its status and the rows it outputs. */
  datatype Outcome = Outcome(contents: seq<Row>, status: ExecutionStatus, output: seq<Row>)

  /**
   * Reference semantics of one statement on the row sequence: an insert
   * appends unless MaxTableRows rows are stored, and a select outputs every
   * row in order.
   */
  function Step(contents: seq<Row>, statement: Statement): (o: Outcome)
    ensures contents <= o.contents && |o.contents| <= |contents| + 1
    ensures |contents| <= MaxTableRows ==> |o.contents| <= MaxTableRows
    ensures o.status != Failure
  {
    match statement
    case Insert(row) =>
      if |contents| >= MaxTableRows then Outcome(contents, TableFull, [])
      else Outcome(contents + [row], Success, [])
    case Select => Outcome(contents, Success, contents)
  }

  /**
   * Executes a prepared statement against the table: inserts go to
   * ExecuteInsert, selects to ExecuteSelect, and the table changes as Step
   * says.
   */
  method ExecuteRecognizedStatement(statement: Statement, table: Table) returns (status: ExecutionStatus, output: seq<Row>)
    requires table.Valid()
    modifies table.Repr
    ensures table.Valid() && fresh(table.Repr - old(table.Repr))
    ensures Step(old(table.Contents), statement) == Outcome(table.Contents, status, output)
  {
    match statement
    case Insert(row) =>
      status := table.ExecuteInsert(row);
      output := [];
    case Select =>
      status, output := table.ExecuteSelect();
  }

  /** The statuses and outputs of a session, and the rows stored at its end. */
  datatype Trace = Trace(contents: seq<Row>, statuses: seq<ExecutionStatus>, outputs: seq<seq<Row>>)

  /** Reference semantics of a session: the statements applied in order to an empty table. */
  function Run(statements: seq<Statement>): (t: Trace)
    ensures |t.statuses| == |statements| && |t.outputs| == |statements|
    ensures |t.contents| <= MaxTableRows && |t.contents| <= |statements|
  {
    if statements == [] then Trace([], [], [])
    else
      var t := Run(statements[..|statements| - 1]);
      var o := Step(t.contents, statements[|statements| - 1]);
      Trace(o.contents, t.statuses + [o.status], t.outputs + [o.output])
  }

  /** The store is append-only: the rows stored after a prefix of a session stay stored, in place. */
  lemma {:induction false} RunAppendOnly(statements: seq<Statement>, k: nat)
    requires k <= |statements|
    ensures Run(statements[..k]).contents <= Run(statements).contents
    decreases |statements| - k
  {
    if k < |statements| {
      var init := statements[..|statements| - 1];
      assert init[..k] == statements[..k];
      RunAppendOnly(init, k);
    } else {
      assert statements[..k] == statements;
    }
  }

  /** One insert statement per row, in order. */
  function Inserts(rows: seq<Row>): (s: seq<Statement>)
    ensures |s| == |rows|
  {
    seq(|rows|, i requires 0 <= i < |rows| => Insert(rows[i]))
  }

  /**
   * Inserting rows into a fresh table stores the first MaxTableRows of them
   * in order; each of those inserts succeeds and every later one reports
   * TableFull.
   */
  lemma {:induction false} RunInserts(rows: seq<Row>)
    ensures Run(Inserts(rows)).contents == rows[..Min(|rows|, MaxTableRows)]
    ensures forall i :: 0 <= i < |rows| ==>
              Run(Inserts(rows)).statuses[i] == if i < MaxTableRows then Success else TableFull
  {
    if rows != [] {
      var init := rows[..|rows| - 1];
      assert Inserts(rows)[..|rows| - 1] == Inserts(init);
      RunInserts(init);
      if |rows| <= MaxTableRows {
        assert rows[..|rows|] == init + [rows[|rows| - 1]];
      } else {
        assert init[..MaxTableRows] == rows[..MaxTableRows];
      }
    }
  }

  /**
   * Inserting rows into a fresh table and then selecting outputs exactly
   * the rows that fit, in insertion order, and the select succeeds, also
   * when no row was inserted.
   */
  lemma InsertsThenSelect(rows: seq<Row>)
    ensures var t := Run(Inserts(rows) + [Select]);
            t.outputs[|rows|] == rows[..Min(|rows|, MaxTableRows)] && t.statuses[|rows|] == Success
  {
    assert (Inserts(rows) + [Select])[..|rows|] == Inserts(rows);
    RunInserts(rows);
  }

  /**
   * A session: a new table, then each statement executed in turn. Its
   * statuses and outputs are those of the reference semantics Run.
   */
  method RunSession(statements: seq<Statement>) returns (statuses: seq<ExecutionStatus>, outputs: seq<seq<Row>>)
    ensures statuses == Run(statements).statuses && outputs == Run(statements).outputs
  {
    var table := new Table();
    statuses, outputs := [], [];
    for i := 0 to |statements|
      invariant table.Valid() && fresh(table.Repr)
      invariant Run(statements[..i]) == Trace(table.Contents, statuses, outputs)
    {
      assert statements[..i + 1][..i] == statements[..i];
      var status, output := ExecuteRecognizedStatement(statements[i], table);
      statuses := statuses + [status];
      outputs := outputs + [output];
    }
    assert statements[..|statements|] == statements;
    table.Free();
  }
}
