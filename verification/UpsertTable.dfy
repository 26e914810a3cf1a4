/** A SQLite table of counts by key, filled by upserts: what they compute, in batches of any
    size. The table is a map. */
module UpsertTable {
  import JS = JsonStream

  /** A stored count: an integer, or the REAL that SQLite makes of an overflowing sum. */
  datatype Cell = Int(n: int) | Real

  type Table<K> = map<K, Cell>

  datatype Row<K> = Row(key: K, count: int)

  function AddCount(c: Cell, count: int): Cell {
    if c.Int? && c.n + count <= JS.MAX_SQLITE_COUNT then Int(c.n + count) else Real
  }

  /** INSERT ... ON CONFLICT(key) DO UPDATE SET occurrence_count = ... + ... */
  function Upsert<K(==)>(t: Table<K>, r: Row<K>): Table<K> {
    t[r.key := if r.key in t then AddCount(t[r.key], r.count) else Int(r.count)]
  }

  function Upserts<K(==)>(t: Table<K>, rows: seq<Row<K>>): Table<K> {
    if rows == [] then t else Upsert(Upserts(t, rows[..|rows| - 1]), rows[|rows| - 1])
  }

  lemma {:induction false} UpsertsAppend<K>(t: Table<K>, a: seq<Row<K>>, b: seq<Row<K>>)
    ensures Upserts(Upserts(t, a), b) == Upserts(t, a + b)
  {
    if b == [] {
      assert a + b == a;
    } else {
      assert (a + b)[..|a + b| - 1] == a + b[..|b| - 1];
      UpsertsAppend(t, a, b[..|b| - 1]);
    }
  }

  lemma UpsertsOne<K>(t: Table<K>, r: Row<K>)
    ensures Upserts(t, [r]) == Upsert(t, r)
  {
    assert [r][..0] == [];
  }

  lemma UpsertsNone<K>(t: Table<K>)
    ensures Upserts(t, []) == t
  {
  }

  /** executemany with a batch of rows. */
  method InsertRows<K(==)>(t: Table<K>, rows: seq<Row<K>>) returns (r: Table<K>)
    ensures r == Upserts(t, rows)
  {
    r := t;
    for i := 0 to |rows|
      invariant r == Upserts(t, rows[..i])
    {
      r := Upsert(r, rows[i]);
      assert rows[..i + 1][..i] == rows[..i];
    }
    assert rows[..|rows|] == rows;
  }

  /** The plain sum of the counts stored under a key. */
  function KeySum<K(==)>(rows: seq<Row<K>>, key: K): int {
    if rows == [] then 0
    else
      var r := rows[|rows| - 1];
      KeySum(rows[..|rows| - 1], key) + (if r.key == key then r.count else 0)
  }

  lemma {:induction false} KeySumAppend<K>(a: seq<Row<K>>, b: seq<Row<K>>, key: K)
    ensures KeySum(a + b, key) == KeySum(a, key) + KeySum(b, key)
  {
    if b == [] {
      assert a + b == a;
    } else {
      assert (a + b)[..|a + b| - 1] == a + b[..|b| - 1];
      KeySumAppend(a, b[..|b| - 1], key);
    }
  }

  lemma OneRow<K>(r: Row<K>, key: K)
    ensures KeySum([r], key) == (if r.key == key then r.count else 0) && KeySum([], key) == 0
  {
    assert [r][..0] == [];
  }

  predicate Positive<K>(rows: seq<Row<K>>) {
    forall i :: 0 <= i < |rows| ==> 1 <= rows[i].count <= JS.MAX_SQLITE_COUNT
  }

  /** MAIN: the upserts compute plain sums; a key whose sum leaves the SQLite integers, and
      only such a key, turns REAL. */
  lemma {:induction false} UpsertsAreSums<K>(rows: seq<Row<K>>, key: K)
    requires Positive(rows)
    ensures var t, s := Upserts(map[], rows), KeySum(rows, key);
            && 0 <= s && (key in t <==> s > 0)
            && (key in t ==> t[key] == if s <= JS.MAX_SQLITE_COUNT then Int(s) else Real)
  {
    if rows != [] {
      UpsertsAreSums(rows[..|rows| - 1], key);
    }
  }

  // ----- conservation

  /** The integers stored in a table. */
  ghost function TableSum<K>(t: Table<K>): int {
    if t == map[] then 0
    else
      var k :| k in t;
      CellValue(t[k]) + TableSum(t - {k})
  }

  function CellValue(c: Cell): int {
    match c
    case Int(n) => n
    case Real => 0
  }

  lemma {:induction false} TableSumRemove<K>(t: Table<K>, k: K)
    requires k in t
    ensures TableSum(t) == CellValue(t[k]) + TableSum(t - {k})
    decreases |t|
  {
    var j :| j in t && TableSum(t) == CellValue(t[j]) + TableSum(t - {j});
    if j != k {
      TableSumRemove(t - {j}, k);
      TableSumRemove(t - {k}, j);
      assert t - {j} - {k} == t - {k} - {j};
    }
  }

  lemma TableSumUpdate<K>(t: Table<K>, k: K, c: Cell)
    ensures TableSum(t[k := c]) == TableSum(t) - (if k in t then CellValue(t[k]) else 0) + CellValue(c)
  {
    TableSumRemove(t[k := c], k);
    assert t[k := c] - {k} == t - {k};
    if k in t {
      TableSumRemove(t, k);
    } else {
      assert t - {k} == t;
    }
  }

  predicate AllIntegers<K>(t: Table<K>) {
    forall k :: k in t ==> t[k].Int? && 1 <= t[k].n <= JS.MAX_SQLITE_COUNT
  }

  function RowSum<K>(rows: seq<Row<K>>): int {
    if rows == [] then 0 else RowSum(rows[..|rows| - 1]) + rows[|rows| - 1].count
  }

  /** While the total fits, no count overflows and the table holds exactly the total. */
  lemma {:induction false} UpsertsConserve<K>(rows: seq<Row<K>>)
    requires Positive(rows) && RowSum(rows) <= JS.MAX_SQLITE_COUNT
    ensures AllIntegers(Upserts(map[], rows)) && TableSum(Upserts(map[], rows)) == RowSum(rows)
  {
    if rows != [] {
      var before, r := rows[..|rows| - 1], rows[|rows| - 1];
      UpsertsConserve(before);
      var t := Upserts(map[], before);
      if r.key in t {
        UpsertsAreSums(before, r.key);
        KeySumAtMostRowSum(before, r.key);
        TableSumUpdate(t, r.key, AddCount(t[r.key], r.count));
      } else {
        TableSumUpdate(t, r.key, Int(r.count));
      }
    }
  }

  lemma {:induction false} KeySumAtMostRowSum<K>(rows: seq<Row<K>>, key: K)
    requires Positive(rows)
    ensures 0 <= KeySum(rows, key) <= RowSum(rows)
  {
    if rows != [] {
      KeySumAtMostRowSum(rows[..|rows| - 1], key);
    }
  }

  /** With every count an integer the table holds the total, whatever its size. */
  lemma {:induction false} IntegersConserve<K>(rows: seq<Row<K>>)
    requires Positive(rows) && AllIntegers(Upserts(map[], rows))
    ensures TableSum(Upserts(map[], rows)) == RowSum(rows)
  {
    if rows != [] {
      var before, r := rows[..|rows| - 1], rows[|rows| - 1];
      var t := Upserts(map[], before);
      forall k | k in t ensures t[k].Int? && 1 <= t[k].n <= JS.MAX_SQLITE_COUNT {
        UpsertsAreSums(before, k);
        assert k in Upserts(map[], rows);
      }
      IntegersConserve(before);
      assert r.key in Upserts(map[], rows) && Upserts(map[], rows)[r.key].Int?;
      TableSumUpdate(t, r.key, if r.key in t then AddCount(t[r.key], r.count) else Int(r.count));
    }
  }
}
