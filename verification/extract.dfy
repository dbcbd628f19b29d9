/**
 * The row filter and limiter `extract_ips`: walk the CSV rows in order, keep
 * a row's first field when it holds exactly three '.', and stop once the
 * collected list has reached the limit. Rows arrive already split into
 * fields, as `csv.reader` yields them.
 */
module Extract {
  import opened Text

  /** One CSV record: its fields in column order (an empty line is the empty row). */
  type Row = seq<string>

  /** Largest number of addresses taken from one CSV source (`limit_count`). */
  const LimitCount: nat := 10

  /** A row contributes its first field when it has one holding exactly three '.'. */
  predicate Qualifies(row: Row)
  {
    |row| > 0 && CountChar(row[0], '.') == 3
  }

  /** The first fields of all qualifying rows, in row order: what the walk collects with no limit. */
  function QualifyingFields(rows: seq<Row>): (fields: seq<string>)
    ensures |fields| <= |rows|
    ensures forall x :: x in fields ==> CountChar(x, '.') == 3
    ensures forall x :: x in fields ==> exists j :: 0 <= j < |rows| && |rows[j]| > 0 && rows[j][0] == x
  {
    if rows == [] then []
    else
      var last := rows[|rows| - 1];
      QualifyingFields(rows[..|rows| - 1]) + (if Qualifies(last) then [last[0]] else [])
  }

  /** No qualifying row is missed: the first field of every qualifying row is collected. */
  lemma {:induction false} QualifyingFieldsComplete(rows: seq<Row>)
    ensures forall j :: 0 <= j < |rows| && Qualifies(rows[j]) ==> rows[j][0] in QualifyingFields(rows)
  {
    if rows != [] {
      var n := |rows| - 1;
      QualifyingFieldsComplete(rows[..n]);
      assert forall j :: 0 <= j < n ==> rows[..n][j] == rows[j];
    }
  }

  /** The qualifying fields of two consecutive stretches of rows are those of each, one after the other. */
  lemma {:induction false} QualifyingAppend(a: seq<Row>, b: seq<Row>)
    ensures QualifyingFields(a + b) == QualifyingFields(a) + QualifyingFields(b)
  {
    if b == [] {
      assert a + b == a;
    } else {
      var b' := b[..|b| - 1];
      assert (a + b)[..|a + b| - 1] == a + b';
      assert (a + b)[|a + b| - 1] == b[|b| - 1];
      QualifyingAppend(a, b');
    }
  }

  /** What the first `k` rows contribute is a prefix of what all rows contribute. */
  lemma QualifyingPrefix(rows: seq<Row>, k: nat)
    requires k <= |rows|
    ensures QualifyingFields(rows[..k]) <= QualifyingFields(rows)
  {
    assert rows == rows[..k] + rows[k..];
    QualifyingAppend(rows[..k], rows[k..]);
  }

  /**
   * What `extract_ips` returns: the first `limit` qualifying fields. With a
   * zero limit the test after the first row already succeeds, so only that
   * row can contribute.
   */
  function Extracted(rows: seq<Row>, limit: nat): (ips: seq<string>)
    ensures ips <= QualifyingFields(rows)
    ensures |ips| <= if limit == 0 then 1 else limit
    ensures limit >= 1 && |QualifyingFields(rows)| <= limit ==> ips == QualifyingFields(rows)
    ensures limit >= 1 && |QualifyingFields(rows)| >= limit ==> |ips| == limit
    ensures limit == 0 ==> ips == (if |rows| > 0 && Qualifies(rows[0]) then [rows[0][0]] else [])
  {
    if limit == 0 then
      var first := if |rows| == 0 then 0 else 1;
      QualifyingPrefix(rows, first);
      QualifyingFields(rows[..first])
    else
      var fields := QualifyingFields(rows);
      fields[..if |fields| < limit then |fields| else limit]
  }

  /** Every extracted address is the verbatim first field of some non-empty row and holds three '.'. */
  lemma ExtractedFields(rows: seq<Row>, limit: nat)
    ensures forall x :: x in Extracted(rows, limit) ==> CountChar(x, '.') == 3
    ensures forall x :: x in Extracted(rows, limit) ==>
              exists j :: 0 <= j < |rows| && |rows[j]| > 0 && rows[j][0] == x
  {
    var ips, fields := Extracted(rows, limit), QualifyingFields(rows);
    forall x | x in ips ensures x in fields {
      var i :| 0 <= i < |ips| && ips[i] == x;
      assert fields[i] == x;
    }
  }

  /** Once the first rows supply `limit` qualifying fields, later rows change nothing. */
  lemma ExtractIgnoresLaterRows(rows: seq<Row>, more: seq<Row>, limit: nat)
    requires limit >= 1 && |QualifyingFields(rows)| >= limit
    ensures Extracted(rows + more, limit) == Extracted(rows, limit)
  {
    QualifyingAppend(rows, more);
  }

  /** The walk stops after row `n - 1` exactly when it has collected what `Extracted` describes. */
  lemma LimitReached(rows: seq<Row>, n: nat, limit: nat)
    requires 1 <= n <= |rows|
    requires |QualifyingFields(rows[..n])| >= limit
    requires n == 1 || |QualifyingFields(rows[..n - 1])| < limit
    ensures QualifyingFields(rows[..n]) == Extracted(rows, limit)
  {
    assert rows[..n][..n - 1] == rows[..n - 1];
    QualifyingPrefix(rows, n);
  }

  /** `extract_ips`: the loop over the rows with its append and its early exit. */
  method ExtractIps(rows: seq<Row>, limit: nat) returns (ips: seq<string>)
    ensures ips == Extracted(rows, limit)
  {
    ips := [];
    var i := 0;
    while i < |rows|
      invariant 0 <= i <= |rows|
      invariant ips == QualifyingFields(rows[..i])
      invariant i == 0 || |ips| < limit
    {
      var row := rows[i];
      if |row| > 0 && CountChar(row[0], '.') == 3 {
        ips := ips + [row[0]];
      }
      assert rows[..i + 1][..i] == rows[..i];
      if |ips| >= limit {
        LimitReached(rows, i + 1, limit);
        return;
      }
      i := i + 1;
    }
    assert rows[..i] == rows;
  }
}
