/**
 * Facts about a moveset table that the graph builder relies on: the longest
 * chain (the tree depth), the order in which rows are inserted (one depth
 * level at a time, rows in table order within a level) and which rows can
 * be reached from a shorter row.
 */
module MovesetTable {
  import opened AttackActions

  /** Length of a row's required chain. */
  function ChainLength(row: Row): nat
  {
    |row.requiredSequenceToActivateAttack|
  }

  /**
   * The longest required chain in the table, or -1 for an empty table,
   * computed as the builder's first loop does (keep the larger of the
   * running maximum and the next row's length).
   */
  function MaxTreeDepth(table: seq<Row>): (d: int)
    ensures d >= -1
    ensures d == -1 <==> |table| == 0
    ensures forall r :: 0 <= r < |table| ==> ChainLength(table[r]) <= d
    ensures |table| > 0 ==> exists r :: 0 <= r < |table| && ChainLength(table[r]) == d
  {
    if |table| == 0 then -1
    else
      var before := MaxTreeDepth(table[..|table| - 1]);
      var last := ChainLength(table[|table| - 1]);
      assert forall r :: 0 <= r < |table| - 1 ==> table[..|table| - 1][r] == table[r];
      if last > before then last else before
  }

  /** The indices below n of the rows whose chain has length `level`, in table order. */
  function RowsAtLevel(table: seq<Row>, level: int, n: nat): (rows: seq<nat>)
    requires n <= |table|
    ensures forall x: nat {:trigger x in rows} :: x in rows <==> (x < n && ChainLength(table[x]) == level)
  {
    if n == 0 then []
    else
      var before := RowsAtLevel(table, level, n - 1);
      if ChainLength(table[n - 1]) == level then before + [n - 1] else before
  }

  /** A list of indices in strictly increasing order (hence without repeats). */
  ghost predicate StrictlyIncreasing(s: seq<nat>)
  {
    forall i, j :: 0 <= i < j < |s| ==> s[i] < s[j]
  }

  /** Rows of one level are listed in strictly increasing table order. */
  lemma {:induction false} RowsAtLevelIncreasing(table: seq<Row>, level: int, n: nat)
    requires n <= |table|
    ensures StrictlyIncreasing(RowsAtLevel(table, level, n))
  {
    if n > 0 {
      RowsAtLevelIncreasing(table, level, n - 1);
      var before := RowsAtLevel(table, level, n - 1);
      if ChainLength(table[n - 1]) == level {
        var rows := before + [n - 1];
        forall i, j | 0 <= i < j < |rows| ensures rows[i] < rows[j] {
          if j == |before| {
            assert rows[i] == before[i] && before[i] in before;
          } else {
            assert rows[i] == before[i] && rows[j] == before[j];
          }
        }
      }
    }
  }

  /** Each row of the level occurs once, every other row not at all. */
  lemma {:induction false} RowsAtLevelCount(table: seq<Row>, level: int, n: nat, x: nat)
    requires n <= |table|
    ensures multiset(RowsAtLevel(table, level, n))[x] == if x < n && ChainLength(table[x]) == level then 1 else 0
  {
    if n > 0 {
      RowsAtLevelCount(table, level, n - 1, x);
    }
  }

  /** All rows whose chain length is between 1 and `level - 1`, level by level. */
  function RowsBelow(table: seq<Row>, level: int): (rows: seq<nat>)
    decreases level
    ensures forall x: nat {:trigger x in rows} :: x in rows <==> (x < |table| && 1 <= ChainLength(table[x]) < level)
  {
    if level <= 1 then []
    else RowsBelow(table, level - 1) + RowsAtLevel(table, level - 1, |table|)
  }

  /** Each row of length between 1 and `level - 1` occurs once, every other row not at all. */
  lemma {:induction false} RowsBelowCount(table: seq<Row>, level: int, x: nat)
    decreases level
    ensures multiset(RowsBelow(table, level))[x] == if x < |table| && 1 <= ChainLength(table[x]) < level then 1 else 0
  {
    if level > 1 {
      RowsBelowCount(table, level - 1, x);
      RowsAtLevelCount(table, level - 1, |table|, x);
    }
  }

  /** Scanning fewer rows lists a prefix of the same level. */
  lemma {:induction false} RowsAtLevelPrefix(table: seq<Row>, level: int, m: nat, n: nat)
    requires m <= n <= |table|
    decreases n - m
    ensures RowsAtLevel(table, level, m) <= RowsAtLevel(table, level, n)
  {
    if m < n {
      RowsAtLevelPrefix(table, level, m, n - 1);
    }
  }

  /** The rows below a lower level are a prefix of the rows below a higher one. */
  lemma {:induction false} RowsBelowPrefix(table: seq<Row>, low: int, high: int)
    requires low <= high
    decreases high - low
    ensures RowsBelow(table, low) <= RowsBelow(table, high)
  {
    if low < high {
      RowsBelowPrefix(table, low, high - 1);
    }
  }

  /** Prefixes stay prefixes behind a common head. */
  lemma PrefixUnderConcat(a: seq<nat>, b: seq<nat>, c: seq<nat>)
    requires b <= c
    ensures a + b <= a + c
  {
    assert a + b == (a + c)[..|a + b|];
  }

  /** A prefix of a prefix is a prefix. */
  lemma PrefixTransitive(a: seq<nat>, b: seq<nat>, c: seq<nat>)
    requires a <= b && b <= c
    ensures a <= c
  {
    assert a == c[..|a|];
  }

  /** The rows listed up to row n of a level are a prefix of the rows below the next level. */
  lemma RowsSoFarBelowNext(table: seq<Row>, level: int, n: nat)
    requires 1 <= level && n <= |table|
    ensures RowsBelow(table, level) + RowsAtLevel(table, level, n) <= RowsBelow(table, level + 1)
  {
    RowsAtLevelPrefix(table, level, n, |table|);
    PrefixUnderConcat(RowsBelow(table, level), RowsAtLevel(table, level, n), RowsAtLevel(table, level, |table|));
  }

  /** The level at which the builder's level loop stops: one past the tree depth, at least 1. */
  function LastLevel(table: seq<Row>): int
  {
    var depth := MaxTreeDepth(table);
    if depth < 1 then 1 else depth + 1
  }

  /** The order in which the builder inserts rows into the graph. */
  function InsertionOrder(table: seq<Row>): seq<nat>
  {
    RowsBelow(table, LastLevel(table))
  }

  /** The rows listed up to row n of a level below the last are a prefix of the insertion order. */
  lemma RowsSoFarPrefix(table: seq<Row>, level: int, n: nat)
    requires 1 <= level < LastLevel(table) && n <= |table|
    ensures RowsBelow(table, level) + RowsAtLevel(table, level, n) <= InsertionOrder(table)
  {
    RowsSoFarBelowNext(table, level, n);
    RowsBelowPrefix(table, level + 1, LastLevel(table));
    PrefixTransitive(RowsBelow(table, level) + RowsAtLevel(table, level, n), RowsBelow(table, level + 1), InsertionOrder(table));
  }

  /**
   * Every row with a non-empty chain is inserted exactly once, and a row
   * with an empty chain is never inserted.
   */
  lemma InsertionOrderCounts(table: seq<Row>, x: nat)
    ensures multiset(InsertionOrder(table))[x] == if x < |table| && ChainLength(table[x]) >= 1 then 1 else 0
  {
    var depth := MaxTreeDepth(table);
    RowsBelowCount(table, LastLevel(table), x);
    if x < |table| {
      assert ChainLength(table[x]) <= depth;
    }
  }

  /** When no row has a non-empty chain, nothing is inserted. */
  lemma NothingInsertedWithoutChains(table: seq<Row>)
    requires MaxTreeDepth(table) <= 0
    ensures InsertionOrder(table) == []
  {
  }

  /** Some row of the table has exactly the chain that leads to row r. */
  ghost predicate HasParentRow(table: seq<Row>, r: nat)
    requires r < |table| && ChainLength(table[r]) >= 1
  {
    exists p :: 0 <= p < |table| &&
      table[p].requiredSequenceToActivateAttack == ParentChain(table[r].requiredSequenceToActivateAttack)
  }

  /** A row of two or more inputs whose parent chain is no row of the table. */
  ghost predicate Unreachable(table: seq<Row>, r: nat)
  {
    r < |table| && ChainLength(table[r]) >= 2 && !HasParentRow(table, r)
  }

  /** Every row of two or more inputs extends the chain of some other row. */
  ghost predicate AllReachable(table: seq<Row>)
  {
    forall r: nat :: r < |table| ==> !Unreachable(table, r)
  }
}
