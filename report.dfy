/**
 * `_order_unicity_dict`: the counting dictionary flattened into rows (the
 * tuple's values followed by the count), sorted by count from highest to
 * lowest with Python's stable `sorted`, under a header row.
 */
module Report {
  import opened Wrappers
  import opened OrderedDict
  import opened Aggregation

  /** A report cell: a field name or value, a missing value, or a hit count. */
  datatype Cell = Text(text: string) | Null | Hit(count: int)

  type Row = seq<Cell>

  function ValueCell(v: Option<string>): Cell {
    match v
    case None => Null
    case Some(s) => Text(s)
  }

  /** `list(unicity_in_keys) + ["hit"]` */
  function Header(keys: seq<string>): Row {
    seq(|keys|, i requires 0 <= i < |keys| => Text(keys[i])) + [Text("hit")]
  }

  /** `list(tuple)` with the count appended. */
  function DataRow(t: Tuple, count: int): Row {
    seq(|t|, i requires 0 <= i < |t| => ValueCell(t[i])) + [Hit(count)]
  }

  /** The sort key `operator.itemgetter(-1)`: the count in the last cell. */
  function HitOf(row: Row): int {
    if row != [] && row[|row| - 1].Hit? then row[|row| - 1].count else 0
  }

  /** The rows appended while iterating over `keys`, in that order. */
  function RowsOf(keys: seq<Tuple>, m: map<Tuple, int>): (rows: seq<Row>)
    requires forall k :: k in keys ==> k in m
    ensures |rows| == |keys|
    ensures forall i :: 0 <= i < |keys| ==> rows[i] == DataRow(keys[i], m[keys[i]])
    ensures forall i :: 0 <= i < |keys| ==> HitOf(rows[i]) == m[keys[i]]
  {
    if keys == [] then []
    else RowsOf(keys[..|keys| - 1], m) + [DataRow(keys[|keys| - 1], m[keys[|keys| - 1]])]
  }

  /** The sum of the counts of `rows`. */
  function HitTotal(rows: seq<Row>): int {
    if rows == [] then 0 else HitOf(rows[0]) + HitTotal(rows[1..])
  }

  /** The rows of `rows` whose count is `c`, in order. */
  function WithHit(rows: seq<Row>, c: int): seq<Row> {
    if rows == [] then []
    else (if HitOf(rows[0]) == c then [rows[0]] else []) + WithHit(rows[1..], c)
  }

  predicate NonIncreasing(rows: seq<Row>) {
    forall i, j :: 0 <= i < j < |rows| ==> HitOf(rows[i]) >= HitOf(rows[j])
  }

  /** Places `x` after every row of `sorted` whose count is at least its own. */
  function InsertByHit(x: Row, sorted: seq<Row>): seq<Row> {
    if sorted == [] then [x]
    else if HitOf(sorted[0]) >= HitOf(x) then [sorted[0]] + InsertByHit(x, sorted[1..])
    else [x] + sorted
  }

  /** `sorted(rows, key=operator.itemgetter(-1), reverse=True)` */
  function SortByHitDesc(rows: seq<Row>): seq<Row> {
    if rows == [] then []
    else InsertByHit(rows[|rows| - 1], SortByHitDesc(rows[..|rows| - 1]))
  }

  /** The report: the header row, then the data rows from highest to lowest count. */
  function BuildReport(d: Dict<Tuple, int>, keys: seq<string>): seq<Row>
    requires Valid(d)
  {
    [Header(keys)] + SortByHitDesc(RowsOf(d.keys, d.items))
  }

  lemma {:induction false} WithHitConcat(a: seq<Row>, b: seq<Row>, c: int)
    ensures WithHit(a + b, c) == WithHit(a, c) + WithHit(b, c)
  {
    if a != [] {
      assert (a + b)[1..] == a[1..] + b;
      WithHitConcat(a[1..], b, c);
    } else {
      assert a + b == b;
    }
  }

  lemma {:induction false} HitTotalConcat(a: seq<Row>, b: seq<Row>)
    ensures HitTotal(a + b) == HitTotal(a) + HitTotal(b)
  {
    if a != [] {
      assert (a + b)[1..] == a[1..] + b;
      HitTotalConcat(a[1..], b);
    } else {
      assert a + b == b;
    }
  }

  /** Inserting one row adds exactly that row. */
  lemma {:induction false} InsertByHitPermutes(x: Row, s: seq<Row>)
    ensures multiset(InsertByHit(x, s)) == multiset(s) + multiset{x}
    ensures HitTotal(InsertByHit(x, s)) == HitTotal(s) + HitOf(x)
  {
    if s != [] && HitOf(s[0]) >= HitOf(x) {
      var rest := InsertByHit(x, s[1..]);
      InsertByHitPermutes(x, s[1..]);
      assert s == [s[0]] + s[1..];
      assert ([s[0]] + rest)[1..] == rest;
    } else if s != [] {
      assert ([x] + s)[1..] == s;
    }
  }

  /** Inserting one row into a sorted sequence keeps it sorted. */
  lemma {:induction false} InsertByHitSorted(x: Row, s: seq<Row>)
    requires NonIncreasing(s)
    ensures NonIncreasing(InsertByHit(x, s))
  {
    if s == [] {
    } else if HitOf(s[0]) >= HitOf(x) {
      assert NonIncreasing(s[1..]);
      InsertByHitSorted(x, s[1..]);
      InsertByHitBounded(x, s[1..], HitOf(s[0]));
      ConsSorted(s[0], InsertByHit(x, s[1..]));
    } else {
      ConsSorted(x, s);
    }
  }

  /** Inserting a row no greater than a bound into rows no greater than it gives rows no greater than it. */
  lemma {:induction false} InsertByHitBounded(x: Row, s: seq<Row>, bound: int)
    requires HitOf(x) <= bound
    requires forall j :: 0 <= j < |s| ==> HitOf(s[j]) <= bound
    ensures forall j :: 0 <= j < |InsertByHit(x, s)| ==> HitOf(InsertByHit(x, s)[j]) <= bound
  {
    if s != [] && HitOf(s[0]) >= HitOf(x) {
      var rest := InsertByHit(x, s[1..]);
      InsertByHitBounded(x, s[1..], bound);
      forall j | 0 < j < |rest| + 1 ensures HitOf(([s[0]] + rest)[j]) <= bound {
        assert ([s[0]] + rest)[j] == rest[j - 1];
      }
    }
  }

  /** A row at least as large as every row of a sorted sequence can lead it. */
  lemma ConsSorted(a: Row, rest: seq<Row>)
    requires NonIncreasing(rest)
    requires forall j :: 0 <= j < |rest| ==> HitOf(rest[j]) <= HitOf(a)
    ensures NonIncreasing([a] + rest)
  {
    var r := [a] + rest;
    forall i, j | 0 <= i < j < |r| ensures HitOf(r[i]) >= HitOf(r[j]) {
      assert r[j] == rest[j - 1];
      if i > 0 {
        assert r[i] == rest[i - 1];
      }
    }
  }

  /** Inserting a row never moves it ahead of an earlier row with the same count. */
  lemma {:induction false} InsertByHitStable(x: Row, s: seq<Row>, c: int)
    requires NonIncreasing(s)
    ensures WithHit(InsertByHit(x, s), c) == WithHit(s, c) + (if HitOf(x) == c then [x] else [])
  {
    if s == [] {
    } else if HitOf(s[0]) >= HitOf(x) {
      InsertByHitStable(x, s[1..], c);
      assert ([s[0]] + InsertByHit(x, s[1..]))[1..] == InsertByHit(x, s[1..]);
    } else {
      assert ([x] + s)[1..] == s;
      if HitOf(x) == c {
        NoneWithHit(s, c);
      }
    }
  }

  /** A sorted sequence led by a row counted below `c` has no row counted `c`. */
  lemma {:induction false} NoneWithHit(s: seq<Row>, c: int)
    requires NonIncreasing(s) && s != [] && HitOf(s[0]) < c
    ensures WithHit(s, c) == []
  {
    if |s| > 1 {
      assert HitOf(s[1]) <= HitOf(s[0]);
      NoneWithHit(s[1..], c);
    }
  }

  /** Python's `sorted` returns a permutation of its input, so the total of the counts is unchanged. */
  lemma {:induction false} SortByHitDescPermutes(rows: seq<Row>)
    ensures multiset(SortByHitDesc(rows)) == multiset(rows)
    ensures HitTotal(SortByHitDesc(rows)) == HitTotal(rows)
  {
    if rows != [] {
      var pre, x := rows[..|rows| - 1], rows[|rows| - 1];
      SortByHitDescPermutes(pre);
      InsertByHitPermutes(x, SortByHitDesc(pre));
      assert rows == pre + [x];
      HitTotalConcat(pre, [x]);
    }
  }

  /** With `reverse=True` the counts never increase from one row to the next. */
  lemma {:induction false} SortByHitDescSorted(rows: seq<Row>)
    ensures NonIncreasing(SortByHitDesc(rows))
  {
    if rows != [] {
      var pre, x := rows[..|rows| - 1], rows[|rows| - 1];
      SortByHitDescSorted(pre);
      InsertByHitSorted(x, SortByHitDesc(pre));
    }
  }

  /** Python's sort is stable, also with `reverse=True`: rows with equal counts keep their input order. */
  lemma {:induction false} SortByHitDescStable(rows: seq<Row>, c: int)
    ensures WithHit(SortByHitDesc(rows), c) == WithHit(rows, c)
  {
    if rows != [] {
      var pre, x := rows[..|rows| - 1], rows[|rows| - 1];
      var sortedPre := SortByHitDesc(pre);
      assert rows == pre + [x];
      SortByHitDescSorted(pre);
      calc {
        WithHit(SortByHitDesc(rows), c);
        WithHit(InsertByHit(x, sortedPre), c);
        { InsertByHitStable(x, sortedPre, c); }
        WithHit(sortedPre, c) + (if HitOf(x) == c then [x] else []);
        { SortByHitDescStable(pre, c); WithHitSingle(x, c); }
        WithHit(pre, c) + WithHit([x], c);
        { WithHitConcat(pre, [x], c); }
        WithHit(rows, c);
      }
    }
  }

  lemma WithHitSingle(x: Row, c: int)
    ensures WithHit([x], c) == if HitOf(x) == c then [x] else []
  {
    assert [x][1..] == [];
  }

  /** The counts of the rows built from a dictionary add up to the sum of its values. */
  lemma {:induction false} RowsOfHitTotal(keys: seq<Tuple>, m: map<Tuple, int>)
    requires forall k :: k in keys ==> k in m
    ensures HitTotal(RowsOf(keys, m)) == SumOver(keys, m)
  {
    if keys != [] {
      var pre, last := keys[..|keys| - 1], keys[|keys| - 1];
      RowsOfHitTotal(pre, m);
      HitTotalConcat(RowsOf(pre, m), [DataRow(last, m[last])]);
    }
  }

  /**
   * The shape of the report: row 0 is the header; then one row per
   * dictionary entry (its tuple's values and its count), no other, counts
   * never increasing, entries with equal counts in dictionary order, and the
   * counts adding up to the dictionary's total.
   */
  lemma ReportFacts(d: Dict<Tuple, int>, keys: seq<string>)
    requires Valid(d)
    ensures BuildReport(d, keys)[0] == Header(keys)
    ensures |BuildReport(d, keys)| == |d.keys| + 1
    ensures multiset(BuildReport(d, keys)[1..]) == multiset(RowsOf(d.keys, d.items))
    ensures NonIncreasing(BuildReport(d, keys)[1..])
    ensures forall c :: WithHit(BuildReport(d, keys)[1..], c) == WithHit(RowsOf(d.keys, d.items), c)
    ensures HitTotal(BuildReport(d, keys)[1..]) == SumOver(d.keys, d.items)
  {
    var rows := RowsOf(d.keys, d.items);
    SortByHitDescPermutes(rows);
    SortByHitDescSorted(rows);
    forall c ensures WithHit(SortByHitDesc(rows), c) == WithHit(rows, c) {
      SortByHitDescStable(rows, c);
    }
    RowsOfHitTotal(d.keys, d.items);
    assert BuildReport(d, keys)[1..] == SortByHitDesc(rows);
    assert |multiset(SortByHitDesc(rows))| == |multiset(rows)|;
  }

  /** The rows built from `keys` are exactly the rows of the listed keys. */
  lemma {:induction false} RowsOfMembers(keys: seq<Tuple>, m: map<Tuple, int>, row: Row)
    requires forall k :: k in keys ==> k in m
    ensures row in RowsOf(keys, m) <==> exists k :: k in keys && row == DataRow(k, m[k])
  {
    var rows := RowsOf(keys, m);
    if row in rows {
      var i :| 0 <= i < |rows| && rows[i] == row;
      assert keys[i] in keys && row == DataRow(keys[i], m[keys[i]]);
    }
    if exists k :: k in keys && row == DataRow(k, m[k]) {
      var k :| k in keys && row == DataRow(k, m[k]);
      var i :| 0 <= i < |keys| && keys[i] == k;
      assert rows[i] == row;
    }
  }

  /** The data rows of the report are exactly the dictionary's entries, tuple values then count. */
  lemma ReportRowsAreEntries(d: Dict<Tuple, int>, keys: seq<string>, row: Row)
    requires Valid(d)
    ensures row in BuildReport(d, keys)[1..] <==> exists k :: k in d.items && row == DataRow(k, d.items[k])
  {
    var rows := RowsOf(d.keys, d.items);
    var data := BuildReport(d, keys)[1..];
    ReportFacts(d, keys);
    assert row in data <==> row in multiset(data);
    assert row in rows <==> row in multiset(rows);
    RowsOfMembers(d.keys, d.items, row);
  }
}
