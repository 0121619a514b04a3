/** The index table and the HBase scan filters the index builds, evaluated
    over an in-memory table. Filters decide per cell, as HBase's
    `filterKeyValue` does: a row filter includes every cell of a row whose
    key it accepts, a value filter includes the cells whose value it
    accepts, `FilterList` with `MUST_PASS_ALL` includes a cell every member
    includes and with `MUST_PASS_ONE` a cell some member includes. A scan
    returns the rows with at least one included cell, each restricted to
    its included cells. */
module Filters {
  import opened Wrappers
  import opened Bytes
  import opened Text
  import opened ScanOrder
  import Utf8

  type Row = seq<byte>
  type Cells = map<Qualifier, seq<byte>>

  /** The single column family of the index table: row key to its cells. */
  type Table = map<Row, Cells>

  datatype Filter =
    | RowEquals(key: Row)          // RowFilter(EQUAL, BinaryComparator)
    | RowPrefix(prefix: Row)       // RowFilter(EQUAL, BinaryPrefixComparator)
    | RowRegex(pattern: string)    // RowFilter(EQUAL, RegexStringComparator)
    | RowAtLeast(low: Row)         // RowFilter(GREATER_OR_EQUAL, BinaryComparator)
    | RowAtMost(high: Row)         // RowFilter(LESS_OR_EQUAL, BinaryComparator)
    | ValueContains(sub: string)   // ValueFilter(EQUAL, SubstringComparator)
    | PassAll(filters: seq<Filter>)
    | PassOne(filters: seq<Filter>)

  /** `Matcher.find` of `java.util.regex`, which is not part of this model:
      `find(pattern, text)` holds when `pattern` matches somewhere in `text`. */
  type Finder = (string, string) -> bool

  predicate Includes(f: Filter, find: Finder, row: Row, value: seq<byte>)
    decreases f
  {
    match f
    case RowEquals(key) => row == key
    case RowPrefix(prefix) => prefix <= row
    case RowRegex(pattern) => find(pattern, Utf8.Decode(row))
    case RowAtLeast(low) => LexLeq(low, row)
    case RowAtMost(high) => LexLeq(row, high)
    case ValueContains(sub) => Contains(Lower(Utf8.Decode(value)), Lower(sub))
    case PassAll(fs) => forall i :: 0 <= i < |fs| ==> Includes(fs[i], find, row, value)
    case PassOne(fs) => exists i :: 0 <= i < |fs| && Includes(fs[i], find, row, value)
  }

  /** The cells of `row` that `f` includes. */
  function Project(f: Filter, find: Finder, row: Row, cells: Cells): Cells
  {
    map q | q in cells && Includes(f, find, row, cells[q]) :: cells[q]
  }

  /** `table.getScanner(scan)` for a scan of the whole family with filter `f`. */
  function Scan(t: Table, f: Filter, find: Finder): Table
  {
    map row | row in t && Project(f, find, row, t[row]) != map[] :: Project(f, find, row, t[row])
  }

  /** A scan restricted by `addColumn` to qualifier `q`, then filtered by `f`. */
  function ScanColumn(t: Table, q: Qualifier, f: Filter, find: Finder): Table
  {
    map row | row in t && q in t[row] && Includes(f, find, row, t[row][q]) :: map[q := t[row][q]]
  }

  /** The message uids of the qualifiers of the given rows. */
  ghost function UidsOfRows(t: Table, rows: set<Row>): set<long>
  {
    set row, q | row in rows && row in t && q in t[row] :: BytesToLong(q)
  }

  ghost function UidsOf(t: Table): set<long>
  {
    UidsOfRows(t, t.Keys)
  }

  ghost function QualifierUids(cells: Cells): set<long>
  {
    set q | q in cells :: BytesToLong(q)
  }

  lemma UidsOfRowsAdd(t: Table, rows: set<Row>, row: Row)
    requires row in t
    ensures UidsOfRows(t, rows + {row}) == UidsOfRows(t, rows) + QualifierUids(t[row])
  {
    forall u | u in UidsOfRows(t, rows + {row})
      ensures u in UidsOfRows(t, rows) + QualifierUids(t[row])
    {
      var r, q :| r in rows + {row} && r in t && q in t[r] && u == BytesToLong(q);
      if r != row {
        assert u in UidsOfRows(t, rows);
      }
    }
  }

  /** The uids of a row's qualifiers, in the ascending qualifier order of
      `getFamilyMap`. */
  function RowUids(cells: Cells): (r: seq<long>)
    ensures |r| == |cells|
  {
    var quals := SortedKeys(cells.Keys);
    seq(|quals|, i requires 0 <= i < |quals| => assert quals[i] in cells; BytesToLong(quals[i]))
  }

  /** A row hands over the uid of each of its qualifiers and nothing else. */
  lemma RowUidsElements(cells: Cells)
    ensures forall u :: u in RowUids(cells) <==> u in QualifierUids(cells)
  {
    var quals := SortedKeys(cells.Keys);
    var r := RowUids(cells);
    forall u | u in r
      ensures u in QualifierUids(cells)
    {
      var i :| 0 <= i < |r| && r[i] == u;
      assert quals[i] in cells;
    }
    forall u | u in QualifierUids(cells)
      ensures u in r
    {
      var q :| q in cells && u == BytesToLong(q);
      assert q in quals;
      var i :| 0 <= i < |quals| && quals[i] == q;
      assert r[i] == u;
    }
  }

  /** The uids the scanner hands over, row after row in the order of
      `rows`; a row missing from the table hands over nothing. */
  ghost function UidStream(t: Table, rows: seq<Row>): seq<long>
  {
    if rows == [] then []
    else
      var last := rows[|rows| - 1];
      UidStream(t, rows[..|rows| - 1]) + if last in t then RowUids(t[last]) else []
  }

  /** The rows handed over first come first in the stream. */
  lemma {:induction false} UidStreamPrefix(t: Table, rows: seq<Row>, n: nat)
    requires n <= |rows|
    ensures UidStream(t, rows[..n]) <= UidStream(t, rows)
    decreases |rows|
  {
    if n < |rows| {
      var init := rows[..|rows| - 1];
      assert init[..n] == rows[..n];
      UidStreamPrefix(t, init, n);
    } else {
      assert rows[..n] == rows;
    }
  }

  /** The number of rows a scanner that fails after `failAfter` rows
      delivers. */
  function DeliveredCount(t: Table, failAfter: Option<nat>): (n: nat)
    ensures n <= |t|
    ensures failAfter.None? ==> n == |t|
    ensures failAfter.Some? ==> n == failAfter.value || (n == |t| && |t| < failAfter.value)
  {
    if failAfter.Some? && failAfter.value < |t| then failAfter.value else |t|
  }

  /** The uids of the first `n` rows in key order, in the order an
      insertion-ordered set keeps them. */
  ghost function ScanUids(t: Table, n: nat): seq<long>
    requires n <= |t|
  {
    Collected(t, SortedKeys(t.Keys), n)
  }

  lemma AddAllStep(acc: seq<long>, s: seq<long>, i: nat)
    requires i < |s|
    ensures AddAll(acc, s[..i + 1]) == Add(AddAll(acc, s[..i]), s[i])
  {
    assert s[..i + 1][..i] == s[..i];
  }

  lemma ScanUidsStep(t: Table, rows: seq<Row>, i: nat)
    requires i < |rows| && rows[i] in t
    ensures AddAll([], UidStream(t, rows[..i + 1])) == AddAll(AddAll([], UidStream(t, rows[..i])), RowUids(t[rows[i]]))
  {
    assert rows[..i + 1][..i] == rows[..i];
    AddAllAppend([], UidStream(t, rows[..i]), RowUids(t[rows[i]]));
  }

  /** The inner loop over one row's qualifiers: adds each decoded uid that
      is not yet present, in qualifier order. */
  method AddQualifierUids(uids: seq<long>, cells: Cells) returns (r: seq<long>)
    requires Distinct(uids)
    ensures r == AddAll(uids, RowUids(cells))
    ensures Distinct(r)
    ensures forall u :: u in r <==> u in uids || u in QualifierUids(cells)
  {
    var quals := SortedKeys(cells.Keys);
    ghost var all := RowUids(cells);
    r := uids;
    var i := 0;
    while i < |quals|
      invariant 0 <= i <= |quals|
      invariant r == AddAll(uids, all[..i])
    {
      AddAllStep(uids, all, i);
      assert quals[i] in cells;
      var u := BytesToLong(quals[i]);
      assert u == all[i];
      if u !in r {
        r := r + [u];
      }
      i := i + 1;
    }
    assert all[..i] == all;
    AddAllElements(uids, all);
    RowUidsElements(cells);
  }

  /** The rows of a sequence of rows, as a set. */
  ghost function RowsOf(rows: seq<Row>): set<Row>
  {
    set r | r in rows
  }

  lemma RowsOfSnoc(rows: seq<Row>, row: Row)
    ensures RowsOf(rows + [row]) == RowsOf(rows) + {row}
  {
  }

  /** The uids handed over by some rows are the uids of those rows. */
  lemma {:induction false} UidStreamElements(t: Table, rows: seq<Row>)
    requires forall i :: 0 <= i < |rows| ==> rows[i] in t
    ensures forall u :: u in UidStream(t, rows) <==> u in UidsOfRows(t, RowsOf(rows))
  {
    if rows != [] {
      var init, last := rows[..|rows| - 1], rows[|rows| - 1];
      UidStreamElements(t, init);
      assert rows == init + [last];
      RowsOfSnoc(init, last);
      UidsOfRowsAdd(t, RowsOf(init), last);
      RowUidsElements(t[last]);
    }
  }

  /** The set after the first `i` of `rows`. */
  ghost function Collected(t: Table, rows: seq<Row>, i: nat): seq<long>
    requires i <= |rows|
  {
    AddAll([], UidStream(t, rows[..i]))
  }

  /** One row of the walk: its uids join the set. */
  lemma CollectStep(t: Table, rows: seq<Row>, i: nat, next: seq<long>)
    requires i < |rows| && rows[i] in t
    requires next == AddAll(Collected(t, rows, i), RowUids(t[rows[i]]))
    ensures next == Collected(t, rows, i + 1)
  {
    ScanUidsStep(t, rows, i);
  }

  lemma CollectedDistinct(t: Table, rows: seq<Row>, i: nat)
    requires i <= |rows|
    ensures Distinct(Collected(t, rows, i))
  {
    AddAllElements([], UidStream(t, rows[..i]));
  }

  /** The first `n` rows of an ascending sequence are `n` different rows. */
  lemma {:induction false} RowsOfAscending(rows: seq<Row>, n: nat)
    requires Ascending(rows) && n <= |rows|
    ensures |RowsOf(rows[..n])| == n
  {
    if n > 0 {
      var p, x := rows[..n - 1], rows[n - 1];
      RowsOfAscending(rows, n - 1);
      PrefixSnoc(rows, n - 1);
      AscendingFresh(rows, n - 1);
      assert x !in RowsOf(p);
      RowsOfSnoc(p, x);
    }
  }

  /** The rows a scanner delivers before failing after `n` rows: `n`
      different rows of the table, each before every row not delivered, and
      the whole table when `n` reaches its size. */
  lemma DeliveredRows(t: Table, n: nat)
    requires n <= |t|
    ensures RowsOf(SortedKeys(t.Keys)[..n]) <= t.Keys
    ensures |RowsOf(SortedKeys(t.Keys)[..n])| == n
    ensures n == |t| ==> RowsOf(SortedKeys(t.Keys)[..n]) == t.Keys
    ensures forall a, b :: a in RowsOf(SortedKeys(t.Keys)[..n]) && b in t && b !in RowsOf(SortedKeys(t.Keys)[..n]) ==>
      LexLeq(a, b)
  {
    var rows := SortedKeys(t.Keys);
    var visited := RowsOf(rows[..n]);
    RowsOfAscending(rows, n);
    forall a | a in visited
      ensures a in t
    {
      var p :| 0 <= p < n && rows[p] == a;
    }
    if n == |t| {
      assert rows[..n] == rows;
    }
    forall a, b | a in visited && b in t && b !in visited
      ensures LexLeq(a, b)
    {
      var p :| 0 <= p < n && rows[p] == a;
      assert b in rows;
      var q :| 0 <= q < |rows| && rows[q] == b;
      assert q >= n;
      assert Precedes(rows, p, q);
    }
  }

  /** The uids of the first `n` rows in key order: each uid of those rows
      once. */
  lemma ScanUidsElements(t: Table, n: nat)
    requires n <= |t|
    ensures Distinct(ScanUids(t, n))
    ensures forall u :: u in ScanUids(t, n) <==> u in UidsOfRows(t, RowsOf(SortedKeys(t.Keys)[..n]))
  {
    var rows := SortedKeys(t.Keys);
    AddAllElements([], UidStream(t, rows[..n]));
    UidStreamElements(t, rows[..n]);
  }

  lemma CollectedPrefix(t: Table, rows: seq<Row>, n: nat, m: nat)
    requires n <= m <= |rows|
    ensures Collected(t, rows, n) <= Collected(t, rows, m)
  {
    var a := UidStream(t, rows[..n]);
    var full := UidStream(t, rows[..m]);
    assert rows[..m][..n] == rows[..n];
    UidStreamPrefix(t, rows[..m], n);
    assert full == a + full[|a|..];
    AddAllAppend([], a, full[|a|..]);
    AddAllExtends(AddAll([], a), full[|a|..]);
  }

  /** A scanner that fails hands over a prefix of what a complete scan
      hands over, and the insertion-ordered set it fills is a prefix of the
      complete scan's set. */
  lemma ScanUidsPrefix(t: Table, n: nat, m: nat)
    requires n <= m <= |t|
    ensures ScanUids(t, n) <= ScanUids(t, m)
  {
    CollectedPrefix(t, SortedKeys(t.Keys), n, m);
  }

  /** Walks a scanner's rows in key order and their qualifiers, adding each
      decoded uid to an insertion-ordered set. When `failAfter` is `Some(n)`
      the scanner fails (an `IOException`) once `n` rows were delivered, so
      the walk stops after `DeliveredCount` rows and the uids collected so
      far are returned; `visited` is the set of delivered rows.
      `DeliveredRows` and `ScanUidsElements` state what these are. */
  method CollectUids(scanned: Table, failAfter: Option<nat>) returns (uids: seq<long>, ghost visited: set<Row>)
    ensures uids == ScanUids(scanned, DeliveredCount(scanned, failAfter))
    ensures visited == RowsOf(SortedKeys(scanned.Keys)[..DeliveredCount(scanned, failAfter)])
  {
    var rows := SortedKeys(scanned.Keys);
    uids := [];
    var i := 0;
    var limit := DeliveredCount(scanned, failAfter);
    while i < limit
      invariant 0 <= i <= limit
      invariant uids == Collected(scanned, rows, i)
    {
      CollectedDistinct(scanned, rows, i);
      var next := AddQualifierUids(uids, scanned[rows[i]]);
      CollectStep(scanned, rows, i, next);
      uids := next;
      i := i + 1;
    }
    visited := RowsOf(rows[..i]);
  }
}
