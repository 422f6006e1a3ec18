/** Rows laid end to end, with pointers to where each starts. */
module Rows {

  function Flatten<T>(rows: seq<seq<T>>): seq<T> {
    if rows == [] then [] else Flatten(rows[..|rows| - 1]) + rows[|rows| - 1]
  }

  /** Where row `i` starts in the flattened sequence. */
  function Start<T>(rows: seq<seq<T>>, i: nat): nat
    requires i <= |rows|
  {
    if i == 0 then 0 else Start(rows, i - 1) + |rows[i - 1]|
  }

  lemma {:induction false} StartPrefix<T>(rows: seq<seq<T>>, m: nat, i: nat)
    requires i <= m <= |rows|
    ensures Start(rows[..m], i) == Start(rows, i)
  {
    if i > 0 { StartPrefix(rows, m, i - 1); }
  }

  lemma {:induction false} FlattenLength<T>(rows: seq<seq<T>>)
    ensures |Flatten(rows)| == Start(rows, |rows|)
  {
    if rows != [] {
      FlattenLength(rows[..|rows| - 1]);
      StartPrefix(rows, |rows| - 1, |rows| - 1);
    }
  }

  /** The slice between two starts is the row. */
  lemma {:induction false} FlattenRow<T>(rows: seq<seq<T>>, i: nat)
    requires i < |rows|
    ensures Start(rows, i) <= Start(rows, i + 1) <= |Flatten(rows)|
    ensures Flatten(rows)[Start(rows, i)..Start(rows, i + 1)] == rows[i]
  {
    var n := |rows| - 1;
    var init, last := Flatten(rows[..n]), rows[n];
    FlattenLength(rows[..n]);
    StartPrefix(rows, n, n);
    if i < n {
      FlattenRow(rows[..n], i);
      StartPrefix(rows, n, i);
      StartPrefix(rows, n, i + 1);
      SliceOfFirst(init, last, Start(rows, i), Start(rows, i + 1));
    }
  }

  lemma SliceOfFirst<T>(s: seq<T>, t: seq<T>, a: nat, b: nat)
    requires a <= b <= |s|
    ensures (s + t)[a..b] == s[a..b]
  {
  }

  /** Row pointers and columns that hold `rows`. */
  ghost predicate Represents<T>(rpa: seq<int>, cia: seq<T>, rows: seq<seq<T>>) {
    PointsTo(rpa, rows, |rows|) && cia == Flatten(rows)
  }

  /** The pointers of the first `m` rows. */
  ghost predicate PointsTo<T>(rpa: seq<int>, rows: seq<seq<T>>, m: nat)
    requires m <= |rows|
  {
    |rpa| == m + 1 && forall i :: 0 <= i <= m ==> rpa[i] == Start(rows, i)
  }

  lemma PointsToNext<T>(rpa: seq<int>, rows: seq<seq<T>>, m: nat, len: int)
    requires m < |rows| && PointsTo(rpa, rows, m) && len == |rows[m]|
    ensures PointsTo(rpa + [rpa[m] + len], rows, m + 1)
  {
  }

  /** Reading a row through its pointers. */
  lemma RowOf<T>(rpa: seq<int>, cia: seq<T>, rows: seq<seq<T>>, i: nat)
    requires Represents(rpa, cia, rows) && i < |rows|
    ensures 0 <= rpa[i] <= rpa[i + 1] <= |cia| && cia[rpa[i]..rpa[i + 1]] == rows[i]
    ensures rpa[|rows|] == |cia|
  {
    FlattenRow(rows, i);
    FlattenLength(rows);
  }

  lemma FlattenAppend<T>(rows: seq<seq<T>>, row: seq<T>)
    ensures Flatten(rows + [row]) == Flatten(rows) + row
    ensures Start(rows + [row], |rows| + 1) == Start(rows, |rows|) + |row|
    ensures forall i :: 0 <= i <= |rows| ==> Start(rows + [row], i) == Start(rows, i)
  {
    assert (rows + [row])[..|rows|] == rows;
    forall i | 0 <= i <= |rows| ensures Start(rows + [row], i) == Start(rows, i) {
      StartPrefix(rows + [row], |rows|, i);
    }
  }

  lemma FlattenNext<T>(rows: seq<seq<T>>, i: nat)
    requires i < |rows|
    ensures Flatten(rows[..i + 1]) == Flatten(rows[..i]) + rows[i]
  {
    assert rows[..i + 1] == rows[..i] + [rows[i]];
    FlattenAppend(rows[..i], rows[i]);
  }

  lemma AppendRow<T>(rpa: seq<int>, cia: seq<T>, rows: seq<seq<T>>, row: seq<T>)
    requires Represents(rpa, cia, rows)
    ensures rpa[|rpa| - 1] == |cia|
    ensures Represents(rpa + [|cia| + |row|], cia + row, rows + [row])
  {
    FlattenLength(rows);
    FlattenAppend(rows, row);
  }

  /** The next row behind the first `i`. */
  lemma RepresentsNext<T>(rpa: seq<int>, cia: seq<T>, rows: seq<seq<T>>, i: nat)
    requires i < |rows| && Represents(rpa, cia, rows[..i])
    ensures |rpa| == i + 1 && Represents(rpa + [rpa[i] + |rows[i]|], cia + rows[i], rows[..i + 1])
  {
    AppendRow(rpa, cia, rows[..i], rows[i]);
    assert rows[..i] + [rows[i]] == rows[..i + 1];
  }
}
