/** `HBaseIndexStore` of the mailbox index: the mutations of the index table
    and the compilation of a field-to-term query multimap into a scan
    filter. A multimap is given as the sequence of its entries. */
module IndexStore {
  import opened Wrappers
  import opened Bytes
  import opened Text
  import Utf8
  import opened Fields
  import opened Filters

  /** `DateTools.Resolution`. */
  datatype Resolution = Year | Month | Day | Hour | Minute | Second | Millisecond

  function ResolutionName(r: Resolution): string
  {
    match r
    case Year => "YEAR"
    case Month => "MONTH"
    case Day => "DAY"
    case Hour => "HOUR"
    case Minute => "MINUTE"
    case Second => "SECOND"
    case Millisecond => "MILLISECOND"
  }

  /** The runtime exceptions the query compiler can raise. */
  datatype QueryError =
    | NumberFormat       // Long.parseLong
    | IndexOutOfBounds   // String.substring
    | IllegalArgument    // Enum.valueOf

  /** `DateTools.Resolution.valueOf(name)`. */
  function ResolutionValueOf(name: string): (r: Result<Resolution, QueryError>)
    ensures r.Success? ==> ResolutionName(r.value) == name
    ensures r.Failure? ==> forall res :: ResolutionName(res) != name
  {
    if name == "YEAR" then Success(Year)
    else if name == "MONTH" then Success(Month)
    else if name == "DAY" then Success(Day)
    else if name == "HOUR" then Success(Hour)
    else if name == "MINUTE" then Success(Minute)
    else if name == "SECOND" then Success(Second)
    else if name == "MILLISECOND" then Success(Millisecond)
    else Failure(IllegalArgument)
  }

  /** The calendar the code reaches through `Calendar.getInstance()`:
      the `MIN_DATE`/`MAX_DATE` instants (0000-01-01 and 9999-12-31 at the
      current time of day) and the YEAR and MONTH field increments, all of
      which depend on the default time zone. */
  datatype Calendar = Calendar(minDate: long, maxDate: long, plusYear: long -> long, plusMonth: long -> long)

  const DayMillis: int := 86_400_000
  const HourMillis: int := 3_600_000
  const MinuteMillis: int := 60_000
  const SecondMillis: int := 1_000

  /** The switch of `getMaxResolution`: the end of the bucket that starts at
      `time`. */
  function MaxResolution(cal: Calendar, res: Resolution, time: long): (r: long)
    ensures res == Year ==> r == cal.plusYear(time)
    ensures res == Month ==> r == cal.plusMonth(time)
    ensures res == Day ==> (r - time) % TwoTo64 == DayMillis
    ensures res == Hour ==> (r - time) % TwoTo64 == HourMillis
    ensures res == Minute ==> (r - time) % TwoTo64 == MinuteMillis
    ensures res == Second ==> (r - time) % TwoTo64 == SecondMillis
    ensures res == Millisecond ==> r == time
  {
    match res
    case Year => cal.plusYear(time)
    case Month => cal.plusMonth(time)
    case Day => Wrap64(time + DayMillis)
    case Hour => Wrap64(time + HourMillis)
    case Minute => Wrap64(time + MinuteMillis)
    case Second => Wrap64(time + SecondMillis)
    case Millisecond => time
  }

  /** `getMaxResolution(name, time)`. */
  function GetMaxResolution(cal: Calendar, name: string, time: long): (r: Result<long, QueryError>)
    ensures r.Failure? <==> forall res :: ResolutionName(res) != name
  {
    match ResolutionValueOf(name)
    case Success(res) => Success(MaxResolution(cal, res, time))
    case Failure(e) => Failure(e)
  }

  /** Without overflow, the fixed-length buckets end exactly one unit after
      they start. */
  lemma MaxResolutionExact(cal: Calendar, res: Resolution, time: long)
    requires -TwoTo63 <= time + DayMillis < TwoTo63
    ensures res == Day ==> MaxResolution(cal, res, time) == time + DayMillis
    ensures res == Hour ==> MaxResolution(cal, res, time) == time + HourMillis
    ensures res == Minute ==> MaxResolution(cal, res, time) == time + MinuteMillis
    ensures res == Second ==> MaxResolution(cal, res, time) == time + SecondMillis
  {
  }

  /** The SENT_DATE branch of `retrieveMails`: a term `"<op><RES>|<millis>"`
      gives the inclusive bounds of the date range; `op` '0' is ON, '1'
      BEFORE, '2' AFTER, and any other character leaves both bounds 0. */
  function ParseDateTerm(cal: Calendar, term: string): (r: Result<(long, long), QueryError>)
    // the millisecond text after the first '|' (the whole term without one) is parsed first
    ensures ParseLong(term[IndexOf(term, '|') + 1..]).Failure? ==> r == Failure(NumberFormat)
    // then the resolution name needs a '|' past the operator character
    ensures ParseLong(term[IndexOf(term, '|') + 1..]).Success? && IndexOf(term, '|') < 1 ==>
      r == Failure(IndexOutOfBounds)
    // and last it must name a resolution
    ensures 1 <= IndexOf(term, '|') && ParseLong(term[IndexOf(term, '|') + 1..]).Success? ==>
      (r.Failure? <==> forall res :: ResolutionName(res) != term[1..IndexOf(term, '|')])
    ensures r.Success? ==>
      var sep := IndexOf(term, '|');
      var time := ParseLong(term[sep + 1..]).value;
      1 <= sep && (exists res :: ResolutionName(res) == term[1..sep]) &&
      (term[0] == '0' ==> r.value.0 == time) &&
      (term[0] == '1' ==> r.value == (cal.minDate, time)) &&
      (term[0] == '2' ==> r.value.1 == cal.maxDate) &&
      (term[0] !in "012" ==> r.value == (0, 0))
  {
    var sep := IndexOf(term, '|');
    match ParseLong(term[sep + 1..])
    case Failure(_) => Failure(NumberFormat)
    case Success(time) =>
      if sep < 1 then Failure(IndexOutOfBounds)
      else
        match GetMaxResolution(cal, term[1..sep], time)
        case Failure(e) => Failure(e)
        case Success(max) =>
          if term[0] == '0' then Success((time, max))
          else if term[0] == '1' then Success((cal.minDate, time))
          else if term[0] == '2' then Success((max, cal.maxDate))
          else Success((0, 0))
  }

  /** The key of the first row of a mailbox field, `m ‖ [id]`. */
  function FieldPrefix(names: Names, m: Row, f: Field): Row
  {
    m + [names.id(f)]
  }

  /** The filters one query entry contributes to the `MUST_PASS_ONE` list. */
  function EntryFilters(names: Names, cal: Calendar, m: Row, field: Field, value: string): (r: Result<seq<Filter>, QueryError>)
    ensures r.Success? ==> |r.value| > 0
    ensures field != SentDate ==> r.Success?
  {
    var term := Upper(value);
    var prefix := FieldPrefix(names, m, field);
    match field
    case Flags => Success([FlagFilter(prefix, term)])
    case SentDate =>
      (match ParseDateTerm(cal, term)
       case Failure(e) => Failure(e)
       case Success((low, high)) =>
         Success([PassAll([RowAtLeast(prefix + Utf8.Encode(LongToString(low))),
                           RowAtMost(prefix + Utf8.Encode(LongToString(high)))])]))
    case _ => Success(TermFilters(prefix, term))
  }

  /** A FLAGS entry: the mailbox's FLAGS row, and a cell value containing the
      term, ignoring case. */
  function FlagFilter(prefix: Row, term: string): Filter
  {
    PassAll([RowEquals(prefix), ValueContains(term)])
  }

  /** Any other entry: a row key starting with the field prefix and the term,
      or a row whose text matches `prefix.*?term.*+`. */
  function TermFilters(prefix: Row, term: string): seq<Filter>
  {
    [RowPrefix(prefix + Utf8.Encode(term)), RowRegex(Utf8.Decode(prefix) + ".*?" + term + ".*+")]
  }

  /** The filter list of a non-empty query, entry by entry; the first entry
      whose compilation throws aborts the whole query. */
  function Compile(names: Names, cal: Calendar, m: Row, queries: seq<(Field, string)>): (r: Result<seq<Filter>, QueryError>)
    ensures r.Success? ==> |r.value| >= |queries|
  {
    CompileWith(EntryOf(names, cal, m), queries)
  }

  function EntryOf(names: Names, cal: Calendar, m: Row): (e: ((Field, string)) -> Result<seq<Filter>, QueryError>)
    ensures forall q :: e(q) == EntryFilters(names, cal, m, q.0, q.1)
  {
    (q: (Field, string)) => EntryFilters(names, cal, m, q.0, q.1)
  }

  type Compiler = ((Field, string)) -> Result<seq<Filter>, QueryError>

  function CompileWith(entry: Compiler, queries: seq<(Field, string)>): (r: Result<seq<Filter>, QueryError>)
    ensures r.Success? && (forall q :: entry(q).Success? ==> |entry(q).value| > 0) ==> |r.value| >= |queries|
  {
    if queries == [] then Success([])
    else AddEntry(CompileWith(entry, queries[..|queries| - 1]), entry(queries[|queries| - 1]))
  }

  function AddEntry(list: Result<seq<Filter>, QueryError>, entry: Result<seq<Filter>, QueryError>): (r: Result<seq<Filter>, QueryError>)
    ensures r.Success? <==> list.Success? && entry.Success?
    ensures r.Success? ==> r.value == list.value + entry.value
    ensures list.Failure? ==> r == list
    ensures list.Success? && entry.Failure? ==> r == entry
  {
    if list.Failure? then list
    else if entry.Failure? then Failure(entry.error)
    else Success(list.value + entry.value)
  }

  /** One cell write (`table.put` of a single-cell `Put`). */
  datatype Put = Put(row: Row, qualifier: Qualifier, value: seq<byte>)

  function PutCell(t: Table, row: Row, q: Qualifier, v: seq<byte>): (r: Table)
    ensures r.Keys == t.Keys + {row}
    ensures q in r[row] && r[row][q] == v
    ensures forall q' :: q' != q ==> (q' in r[row] <==> row in t && q' in t[row])
    ensures forall q' :: q' != q && q' in r[row] ==> r[row][q'] == t[row][q']
    ensures forall row' :: row' != row && row' in t ==> r[row'] == t[row']
  {
    var cells: Cells := if row in t then t[row] else map[];
    t[row := cells[q := v]]
  }

  function DeleteCell(t: Table, row: Row, q: Qualifier): (r: Table)
    ensures r.Keys == t.Keys
    ensures row in t ==> r[row].Keys == t[row].Keys - {q}
    ensures forall q' :: q' != q && row in t && q' in t[row] ==> r[row][q'] == t[row][q']
    ensures forall row' :: row' != row && row' in t ==> r[row'] == t[row']
  {
    if row in t then t[row := t[row] - {q}] else t
  }

  function ApplyPuts(t: Table, puts: seq<Put>): Table
  {
    if puts == [] then t
    else
      var last := puts[|puts| - 1];
      PutCell(ApplyPuts(t, puts[..|puts| - 1]), last.row, last.qualifier, last.value)
  }

  /** After a batch of puts, a cell holds the value of the last put to it, or
      its old value when no put wrote it. */
  lemma {:induction false} ApplyPutsCell(t: Table, puts: seq<Put>, row: Row, q: Qualifier)
    ensures row in ApplyPuts(t, puts) <==> row in t || exists i :: 0 <= i < |puts| && puts[i].row == row
    ensures (exists i :: 0 <= i < |puts| && puts[i].row == row && puts[i].qualifier == q) ==>
      var i := LastWrite(puts, row, q);
      row in ApplyPuts(t, puts) && q in ApplyPuts(t, puts)[row] && ApplyPuts(t, puts)[row][q] == puts[i].value
    ensures (forall i :: 0 <= i < |puts| ==> puts[i].row != row || puts[i].qualifier != q) ==>
      (row in ApplyPuts(t, puts) && q in ApplyPuts(t, puts)[row] <==> row in t && q in t[row]) &&
      (row in t && q in t[row] ==> ApplyPuts(t, puts)[row][q] == t[row][q])
  {
    ApplyPutsRows(t, puts, row);
    if exists i :: 0 <= i < |puts| && puts[i].row == row && puts[i].qualifier == q {
      ApplyPutsWritten(t, puts, row, q);
    } else {
      ApplyPutsUntouched(t, puts, row, q);
    }
  }

  /** A batch adds exactly the rows it writes. */
  lemma {:induction false} ApplyPutsRows(t: Table, puts: seq<Put>, row: Row)
    ensures row in ApplyPuts(t, puts) <==> row in t || exists i :: 0 <= i < |puts| && puts[i].row == row
  {
    if puts != [] {
      var init := puts[..|puts| - 1];
      ApplyPutsRows(t, init, row);
      if exists i :: 0 <= i < |init| && init[i].row == row {
        var i :| 0 <= i < |init| && init[i].row == row;
        assert puts[i].row == row;
      }
      if exists i :: 0 <= i < |puts| - 1 && puts[i].row == row {
        var i :| 0 <= i < |puts| - 1 && puts[i].row == row;
        assert init[i].row == row;
      }
    }
  }

  lemma {:induction false} ApplyPutsWritten(t: Table, puts: seq<Put>, row: Row, q: Qualifier)
    requires exists i :: 0 <= i < |puts| && puts[i].row == row && puts[i].qualifier == q
    ensures row in ApplyPuts(t, puts) && q in ApplyPuts(t, puts)[row]
    ensures ApplyPuts(t, puts)[row][q] == puts[LastWrite(puts, row, q)].value
  {
    var init := puts[..|puts| - 1];
    var last := puts[|puts| - 1];
    if last.row != row || last.qualifier != q {
      var k :| 0 <= k < |puts| && puts[k].row == row && puts[k].qualifier == q;
      assert k < |init| && init[k] == puts[k];
      ApplyPutsWritten(t, init, row, q);
    }
  }

  lemma {:induction false} ApplyPutsUntouched(t: Table, puts: seq<Put>, row: Row, q: Qualifier)
    requires forall i :: 0 <= i < |puts| ==> puts[i].row != row || puts[i].qualifier != q
    ensures row in ApplyPuts(t, puts) && q in ApplyPuts(t, puts)[row] <==> row in t && q in t[row]
    ensures row in t && q in t[row] ==> ApplyPuts(t, puts)[row][q] == t[row][q]
  {
    if puts != [] {
      var init := puts[..|puts| - 1];
      assert forall i :: 0 <= i < |init| ==> init[i] == puts[i];
      ApplyPutsUntouched(t, init, row, q);
    }
  }

  /** The index of the last put to cell (`row`, `q`). */
  function LastWrite(puts: seq<Put>, row: Row, q: Qualifier): (i: nat)
    requires exists i :: 0 <= i < |puts| && puts[i].row == row && puts[i].qualifier == q
    ensures i < |puts| && puts[i].row == row && puts[i].qualifier == q
    ensures forall j :: i < j < |puts| ==> puts[j].row != row || puts[j].qualifier != q
  {
    var last := puts[|puts| - 1];
    if last.row == row && last.qualifier == q then |puts| - 1
    else
      var k :| 0 <= k < |puts| && puts[k].row == row && puts[k].qualifier == q;
      assert k < |puts| - 1;
      LastWrite(puts[..|puts| - 1], row, q)
  }

  /** Storing the same batch twice leaves the same table as storing it once. */
  lemma StorePutsIdempotent(t: Table, puts: seq<Put>)
    ensures ApplyPuts(ApplyPuts(t, puts), puts) == ApplyPuts(t, puts)
  {
    var once := ApplyPuts(t, puts);
    var twice := ApplyPuts(once, puts);
    forall row | row in twice || row in once
      ensures row in once && row in twice && twice[row] == once[row]
    {
      ApplyPutsCell(t, puts, row, [0, 0, 0, 0, 0, 0, 0, 0]);
      ApplyPutsCell(once, puts, row, [0, 0, 0, 0, 0, 0, 0, 0]);
      assert row in once && row in twice;
      forall q | true
        ensures (q in twice[row] <==> q in once[row]) && (q in once[row] ==> twice[row][q] == once[row][q])
      {
        ApplyPutsCell(t, puts, row, q);
        ApplyPutsCell(once, puts, row, q);
      }
    }
  }

  /** The rows of a mailbox: what `retrieveMails(m)` scans for. */
  lemma PrefixScanRows(t: Table, m: Row, find: Finder, row: Row)
    ensures row in Scan(t, RowPrefix(m), find) <==> row in t && m <= row && t[row] != map[]
    ensures row in Scan(t, RowPrefix(m), find) ==> Scan(t, RowPrefix(m), find)[row] == t[row]
  {
    if row in t && m <= row {
      assert Project(RowPrefix(m), find, row, t[row]) == t[row];
    }
  }

  /** What `retrieveMails(mailboxId, queries)` returns: the whole mailbox for
      an empty query, otherwise a scan with the compiled `MUST_PASS_ONE` list,
      or the error compiling it raised. */
  function QueryScan(names: Names, cal: Calendar, find: Finder, t: Table, m: Row,
                     queries: seq<(Field, string)>): Result<Table, QueryError>
  {
    if queries == [] then Success(Scan(t, RowPrefix(m), find))
    else match Compile(names, cal, m, queries)
      case Success(fs) => Success(Scan(t, PassOne(fs), find))
      case Failure(e) => Failure(e)
  }

  /** The uids a whole-mailbox scan reports: those of every cell of every
      row of the mailbox. */
  lemma PrefixScanUids(t: Table, m: Row, find: Finder, u: long)
    ensures u in UidsOf(Scan(t, RowPrefix(m), find)) <==>
      exists row, q :: row in t && m <= row && q in t[row] && u == BytesToLong(q)
  {
    if exists row, q :: row in t && m <= row && q in t[row] && u == BytesToLong(q) {
      var row, q :| row in t && m <= row && q in t[row] && u == BytesToLong(q);
      PrefixScanRows(t, m, find, row);
    }
    if u in UidsOf(Scan(t, RowPrefix(m), find)) {
      var row, q :| row in Scan(t, RowPrefix(m), find) && q in Scan(t, RowPrefix(m), find)[row] && u == BytesToLong(q);
      PrefixScanRows(t, m, find, row);
    }
  }

  class HBaseIndexStore {
    var table: Table
    const names: Names
    const cal: Calendar
    const find: Finder

    /** `getInstance`: creates the index table, empty. */
    constructor (names: Names, cal: Calendar, find: Finder)
      ensures table == map[]
      ensures this.names == names && this.cal == cal && this.find == find
    {
      table := map[];
      this.names := names;
      this.cal := cal;
      this.find := find;
    }

    /** `storeMail`: every put in order. */
    method StoreMail(puts: seq<Put>)
      modifies this
      ensures table == ApplyPuts(old(table), puts)
    {
      var i := 0;
      while i < |puts|
        invariant 0 <= i <= |puts|
        invariant table == ApplyPuts(old(table), puts[..i])
      {
        assert puts[..i + 1][..i] == puts[..i];
        table := PutCell(table, puts[i].row, puts[i].qualifier, puts[i].value);
        i := i + 1;
      }
      assert puts[..i] == puts;
    }

    /** `retrieveMails(mailboxId)`: the rows whose key starts with the mailbox. */
    method RetrieveMails(m: Row) returns (r: Table)
      ensures r == Scan(table, RowPrefix(m), find)
      ensures forall row :: row in r <==> row in table && m <= row && table[row] != map[]
    {
      r := Scan(table, RowPrefix(m), find);
      forall row ensures row in r <==> row in table && m <= row && table[row] != map[] {
        PrefixScanRows(table, m, find, row);
      }
    }

    /** `retrieveMails(mailboxId, messageId)`: with uid 0 the whole mailbox,
        otherwise the mailbox's rows holding the uid's column, restricted to
        that column. */
    method RetrieveMailsForUid(m: Row, uid: long) returns (r: Table)
      ensures uid == 0 ==> r == Scan(table, RowPrefix(m), find)
      ensures uid != 0 ==> r == ScanColumn(table, LongToBytes(uid), RowPrefix(m), find)
      ensures uid != 0 ==> forall row :: row in r <==>
        row in table && m <= row && LongToBytes(uid) in table[row]
      ensures uid != 0 ==> forall row :: row in r ==>
        r[row] == map[LongToBytes(uid) := table[row][LongToBytes(uid)]]
    {
      if uid == 0 {
        r := RetrieveMails(m);
      } else {
        r := ScanColumn(table, LongToBytes(uid), RowPrefix(m), find);
      }
    }

    /** The filter-building loop of `retrieveMails(mailboxId, queries)`. */
    method CompileQueries(m: Row, queries: seq<(Field, string)>) returns (r: Result<seq<Filter>, QueryError>)
      ensures r == Compile(names, cal, m, queries)
    {
      var list: seq<Filter> := [];
      var i := 0;
      while i < |queries|
        invariant 0 <= i <= |queries|
        invariant Compile(names, cal, m, queries[..i]) == Success(list)
      {
        assert queries[..i + 1][..i] == queries[..i];
        var (field, value) := queries[i];
        var entry := EntryFilters(names, cal, m, field, value);
        if entry.Failure? {
          CompileAbortsAfter(EntryOf(names, cal, m), queries, i + 1);
          return Failure(entry.error);
        }
        list := list + entry.value;
        i := i + 1;
      }
      assert queries[..i] == queries;
      r := Success(list);
    }

    /** `retrieveMails(mailboxId, queries)`: the whole mailbox for an empty
        query, otherwise a scan with the `MUST_PASS_ONE` list. */
    method RetrieveMailsForQueries(m: Row, queries: seq<(Field, string)>) returns (r: Result<Table, QueryError>)
      ensures r == QueryScan(names, cal, find, table, m, queries)
    {
      if |queries| == 0 {
        var all := RetrieveMails(m);
        return Success(all);
      }
      var list := CompileQueries(m, queries);
      if list.Failure? {
        return Failure(list.error);
      }
      r := Success(Scan(table, PassOne(list.value), find));
    }

    /** `deleteMail`: removes the one cell (`row`, uid). */
    method DeleteMail(row: Row, uid: long)
      modifies this
      ensures table == DeleteCell(old(table), row, LongToBytes(uid))
    {
      table := DeleteCell(table, row, LongToBytes(uid));
    }

    /** `retrieveFlags`: a get of the mailbox's FLAGS row restricted to the
        uid's column; `None` is the empty `Result` (whose row is null). */
    method RetrieveFlags(m: Row, uid: long) returns (r: Option<(Row, seq<byte>)>)
      ensures var row := FieldPrefix(names, m, Flags);
        if row in table && LongToBytes(uid) in table[row]
        then r == Some((row, table[row][LongToBytes(uid)]))
        else r == None
    {
      var row := FieldPrefix(names, m, Flags);
      var q := LongToBytes(uid);
      if row in table && q in table[row] {
        r := Some((row, table[row][q]));
      } else {
        r := None;
      }
    }

    /** `updateFlags`: overwrites the one cell (`row`, uid) with the flags text. */
    method UpdateFlags(row: Row, uid: long, flags: string)
      modifies this
      ensures table == PutCell(old(table), row, LongToBytes(uid), Utf8.Encode(flags))
    {
      table := PutCell(table, row, LongToBytes(uid), Utf8.Encode(flags));
    }
  }

  lemma {:induction false} CompileAbortsAfter(entry: Compiler, queries: seq<(Field, string)>, n: nat)
    requires 0 < n <= |queries|
    requires CompileWith(entry, queries[..n]).Failure?
    ensures CompileWith(entry, queries) == CompileWith(entry, queries[..n])
    decreases |queries| - n
  {
    if n < |queries| {
      assert queries[..n + 1][..n] == queries[..n];
      CompileAbortsAfter(entry, queries, n + 1);
    } else {
      assert queries[..n] == queries;
    }
  }

  lemma PassOneConcat(fs: seq<Filter>, gs: seq<Filter>, find: Finder, row: Row, v: seq<byte>)
    ensures Includes(PassOne(fs + gs), find, row, v) <==>
      Includes(PassOne(fs), find, row, v) || Includes(PassOne(gs), find, row, v)
  {
    var all := fs + gs;
    if Includes(PassOne(all), find, row, v) {
      var i :| 0 <= i < |all| && Includes(all[i], find, row, v);
      if i >= |fs| {
        assert gs[i - |fs|] == all[i];
      }
    }
    if Includes(PassOne(fs), find, row, v) {
      var i :| 0 <= i < |fs| && Includes(fs[i], find, row, v);
      assert all[i] == fs[i];
    }
    if Includes(PassOne(gs), find, row, v) {
      var i :| 0 <= i < |gs| && Includes(gs[i], find, row, v);
      assert all[|fs| + i] == gs[i];
    }
  }

  /** Every entry of a query that compiles compiles on its own. */
  lemma {:induction false} CompileEntry(entry: Compiler, queries: seq<(Field, string)>, k: nat)
    requires CompileWith(entry, queries).Success? && k < |queries|
    ensures entry(queries[k]).Success?
  {
    var init := queries[..|queries| - 1];
    if k < |init| {
      assert init[k] == queries[k];
      CompileEntry(entry, init, k);
    }
  }

  lemma {:induction false} CompileWithIsDisjunction(entry: Compiler, queries: seq<(Field, string)>,
                                                    find: Finder, row: Row, v: seq<byte>)
    requires CompileWith(entry, queries).Success?
    ensures forall k :: 0 <= k < |queries| ==> entry(queries[k]).Success?
    ensures Includes(PassOne(CompileWith(entry, queries).value), find, row, v) <==>
      exists k :: 0 <= k < |queries| && Includes(PassOne(entry(queries[k]).value), find, row, v)
  {
    forall k | 0 <= k < |queries| ensures entry(queries[k]).Success? {
      CompileEntry(entry, queries, k);
    }
    if queries != [] {
      var init := queries[..|queries| - 1];
      var last := queries[|queries| - 1];
      CompileWithIsDisjunction(entry, init, find, row, v);
      var fs := CompileWith(entry, init).value;
      var gs := entry(last).value;
      assert CompileWith(entry, queries).value == fs + gs;
      PassOneConcat(fs, gs, find, row, v);
      assert forall k :: 0 <= k < |init| ==> init[k] == queries[k];
    }
  }

  /** The compiled list is the disjunction of the entries: a cell passes
      the `MUST_PASS_ONE` list exactly when it passes the filters of some
      entry. */
  lemma CompileIsDisjunction(names: Names, cal: Calendar, m: Row, queries: seq<(Field, string)>,
                             find: Finder, row: Row, v: seq<byte>)
    requires Compile(names, cal, m, queries).Success?
    ensures forall k :: 0 <= k < |queries| ==> EntryFilters(names, cal, m, queries[k].0, queries[k].1).Success?
    ensures Includes(PassOne(Compile(names, cal, m, queries).value), find, row, v) <==>
      exists k :: 0 <= k < |queries| &&
        Includes(PassOne(EntryFilters(names, cal, m, queries[k].0, queries[k].1).value), find, row, v)
  {
    CompileWithIsDisjunction(EntryOf(names, cal, m), queries, find, row, v);
  }

  /** A query whose every entry compiles compiles. */
  lemma {:induction false} CompileWithSucceeds(entry: Compiler, queries: seq<(Field, string)>)
    requires forall k :: 0 <= k < |queries| ==> entry(queries[k]).Success?
    ensures CompileWith(entry, queries).Success?
  {
    if queries != [] {
      var init := queries[..|queries| - 1];
      assert forall k :: 0 <= k < |init| ==> init[k] == queries[k];
      CompileWithSucceeds(entry, init);
    }
  }

  /** Only a SENT_DATE entry can make a query fail to compile. */
  lemma CompileSucceeds(names: Names, cal: Calendar, m: Row, queries: seq<(Field, string)>)
    requires forall k :: 0 <= k < |queries| ==> queries[k].0 != SentDate
    ensures Compile(names, cal, m, queries).Success?
  {
    CompileWithSucceeds(EntryOf(names, cal, m), queries);
  }

  /** A row between two keys that share a prefix has that prefix. */
  lemma {:induction false} RangeConfined(p: Row, a: Row, b: Row, row: Row)
    requires LexLeq(p + a, row) && LexLeq(row, p + b)
    ensures p <= row
  {
    if p != [] {
      assert (p + a)[1..] == p[1..] + a;
      assert (p + b)[1..] == p[1..] + b;
      assert row != [];
      assert row[0] == p[0];
      RangeConfined(p[1..], a, b, row[1..]);
    }
  }

  /** A SENT_DATE range below prefix `p` selects only rows below `p`. */
  lemma DateRangeConfined(p: Row, low: Row, high: Row, find: Finder, row: Row, v: seq<byte>)
    requires Includes(PassAll([RowAtLeast(p + low), RowAtMost(p + high)]), find, row, v)
    ensures p <= row
  {
    var fs := [RowAtLeast(p + low), RowAtMost(p + high)];
    assert Includes(fs[0], find, row, v) && Includes(fs[1], find, row, v);
    RangeConfined(p, low, high, row);
  }

  /** Every alternative a query entry contributes, except the regular
      expression, selects only rows of the entry's field in mailbox `m`. */
  lemma EntryFiltersConfined(names: Names, cal: Calendar, m: Row, field: Field, value: string,
                             find: Finder, row: Row, v: seq<byte>, i: nat)
    requires EntryFilters(names, cal, m, field, value).Success?
    requires i < |EntryFilters(names, cal, m, field, value).value|
    requires !EntryFilters(names, cal, m, field, value).value[i].RowRegex?
    requires Includes(EntryFilters(names, cal, m, field, value).value[i], find, row, v)
    ensures FieldPrefix(names, m, field) <= row
  {
    var prefix := FieldPrefix(names, m, field);
    var f := EntryFilters(names, cal, m, field, value).value[i];
    match field
    case Flags =>
      assert Includes(f.filters[0], find, row, v);
    case SentDate =>
      var dates := ParseDateTerm(cal, Upper(value)).value;
      DateRangeConfined(prefix, Utf8.Encode(LongToString(dates.0)), Utf8.Encode(LongToString(dates.1)), find, row, v);
    case _ =>
      assert prefix <= prefix + Utf8.Encode(Upper(value));
  }

  lemma UpperIdempotent(s: string)
    ensures Upper(Upper(s)) == Upper(s)
  {
    UpperIsUpperCased(s);
    UpperIsUpperCased(Upper(s));
  }

  function UpperValues(queries: seq<(Field, string)>): (r: seq<(Field, string)>)
    ensures |r| == |queries|
    ensures forall k :: 0 <= k < |queries| ==> r[k] == (queries[k].0, Upper(queries[k].1))
  {
    if queries == [] then [] else [(queries[0].0, Upper(queries[0].1))] + UpperValues(queries[1..])
  }

  /** Terms are compared case-insensitively: the compiler upper-cases every
      term, so upper-casing a query first changes nothing. */
  lemma {:induction false} CompileIgnoresCase(names: Names, cal: Calendar, m: Row, queries: seq<(Field, string)>)
    ensures Compile(names, cal, m, UpperValues(queries)) == Compile(names, cal, m, queries)
  {
    var entry := EntryOf(names, cal, m);
    forall q: (Field, string) ensures entry((q.0, Upper(q.1))) == entry(q) {
      UpperIdempotent(q.1);
    }
    CompileWithUpper(entry, queries);
  }

  lemma {:induction false} CompileWithUpper(entry: Compiler, queries: seq<(Field, string)>)
    requires forall q: (Field, string) :: entry((q.0, Upper(q.1))) == entry(q)
    ensures CompileWith(entry, UpperValues(queries)) == CompileWith(entry, queries)
  {
    if queries != [] {
      var init := queries[..|queries| - 1];
      assert UpperValues(queries)[..|queries| - 1] == UpperValues(init);
      CompileWithUpper(entry, init);
    }
  }

  /** The term format the SENT_DATE branch parses: an operation digit, a
      resolution name, `|`, and the time in milliseconds. */
  function DateTerm(op: char, res: Resolution, time: long): string
  {
    [op] + ResolutionName(res) + "|" + LongToString(time)
  }

  lemma ResolutionRoundTrip(res: Resolution)
    ensures ResolutionValueOf(ResolutionName(res)) == Success(res)
  {
  }

  lemma DateTermUpperCased(op: char, res: Resolution, time: long)
    requires op == '0' || op == '1' || op == '2'
    ensures IsUpperCased(DateTerm(op, res, time))
  {
    var head := [op] + ResolutionName(res) + "|";
    var digits := LongToString(time);
    assert IsUpperCased(head);
    assert IsUpperCased(digits) by {
      if time < 0 {
        assert forall i :: 1 <= i < |digits| ==> digits[i] == digits[1..][i - 1];
      }
    }
    assert DateTerm(op, res, time) == head + digits;
  }

  lemma DateTermSeparator(op: char, res: Resolution, time: long)
    requires op == '0' || op == '1' || op == '2'
    ensures var term := DateTerm(op, res, time);
      var sep := 1 + |ResolutionName(res)|;
      IndexOf(term, '|') == sep && term[sep + 1..] == LongToString(time) && term[1..sep] == ResolutionName(res)
  {
    var name := ResolutionName(res);
    var term := DateTerm(op, res, time);
    var sep := 1 + |name|;
    assert term[sep] == '|';
    assert term[..sep] == [op] + name;
    assert '|' !in name;
    assert '|' !in term[..sep];
    var k := IndexOf(term, '|');
    assert k == sep;
    assert term[sep + 1..] == LongToString(time);
    assert term[1..sep] == name;
  }

  /** A well-formed date term yields the range the store's comments give:
      ON [time, bucket end], BEFORE [MIN_DATE, time], AFTER [bucket end,
      MAX_DATE]. */
  lemma ParseDateTermWellFormed(cal: Calendar, op: char, res: Resolution, time: long)
    requires op == '0' || op == '1' || op == '2'
    ensures Upper(DateTerm(op, res, time)) == DateTerm(op, res, time)
    ensures var max := MaxResolution(cal, res, time);
      ParseDateTerm(cal, DateTerm(op, res, time)) ==
        Success(if op == '0' then (time, max) else if op == '1' then (cal.minDate, time) else (max, cal.maxDate))
  {
    var term := DateTerm(op, res, time);
    DateTermUpperCased(op, res, time);
    UpperIsUpperCased(term);
    DateTermSeparator(op, res, time);
    ParseLongToString(time);
    ResolutionRoundTrip(res);
    assert term[0] == op;
  }
}
