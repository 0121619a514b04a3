/** `MessageSearchIndexListener` (the HBase revision): turns mailbox events
    into index puts and deletes, and IMAP SEARCH criteria into the
    field-to-term query the store compiles. MIME parsing and tokenising are
    not part of this model: a message arrives with its (field, term)
    entries already extracted, and a tokenizer is a function from text to
    its tokens. */
module Listener {
  import opened Wrappers
  import opened Bytes
  import opened Text
  import Utf8
  import opened Fields
  import opened RowCodec
  import MF = MailFlags
  import opened Filters
  import opened ScanOrder
  import IS = IndexStore

  /** The field-to-term multimap, as its list of entries. */
  type Query = seq<(Field, string)>

  /** `UAX29URLEmailTokenizer` over a text: its tokens in order. */
  type Tokenizer = string -> seq<string>

  /** `DateTools.stringToTime(DateTools.dateToString(date, resolution))`:
      a date in milliseconds rounded down to the resolution. */
  type DateRounding = (long, IS.Resolution) -> long

  /** A message as the index sees it: its mailbox, its uid, its flags and
      the entries `parseFullContent` extracts from its content. */
  datatype Message = Message(mailbox: Uuid, uid: long, flags: MF.Flags, content: Query)

  // ---------------------------------------------------------------- criteria

  /** `SearchQuery.DateResolution`. */
  datatype DateResolution = Year | Month | Day | Hour | Minute | Second

  /** `SearchQuery.DateComparator`. */
  datatype DateType = On | Before | After

  datatype DateOperator = DateOperator(kind: DateType, date: long, res: DateResolution)

  /** `SearchQuery.Scope` of a text criterion. */
  datatype TextType = BodyText | FullText

  datatype HeaderOperator =
    | ContainsOperator(value: string)
    | ExistsOperator
    | AddressOperator(address: string)
    | DateHeaderOperator(date: DateOperator)

  /** The `SearchQuery.Criterion` kinds the listener dispatches on; every
      other kind (uid, size, modification sequence, conjunctions) is
      `OtherCriterion`. */
  datatype Criterion =
    | InternalDateCriterion(dateOp: DateOperator)
    | TextCriterion(scope: TextType, text: string)
    | FlagCriterion(flag: MF.SystemFlag, isSet: bool)
    | CustomFlagCriterion(userFlag: string, isSet: bool)
    | HeaderCriterion(header: string, headerOp: HeaderOperator)
    | AllCriterion
    | OtherCriterion

  datatype SearchError =
    | UnsupportedSearch              // UnsupportedSearchException
    | StoreError(e: IS.QueryError)   // thrown while the store compiles the query

  /** `toResolution`: each search resolution names the `DateTools` one. */
  function ToResolution(res: DateResolution): (r: IS.Resolution)
    ensures r != IS.Millisecond
  {
    match res
    case Year => IS.Year
    case Month => IS.Month
    case Day => IS.Day
    case Hour => IS.Hour
    case Minute => IS.Minute
    case Second => IS.Second
  }

  /** The name of a search resolution, as written in `SearchQuery`. */
  function ResolutionText(res: DateResolution): string
  {
    match res
    case Year => "Year"
    case Month => "Month"
    case Day => "Day"
    case Hour => "Hour"
    case Minute => "Minute"
    case Second => "Second"
  }

  /** Each search resolution maps to the `DateTools` resolution whose name
      is its own, upper-cased. */
  lemma ToResolutionNamed(res: DateResolution)
    ensures IS.ResolutionName(ToResolution(res)) == Upper(ResolutionText(res))
  {
  }

  lemma ToResolutionInjective(a: DateResolution, b: DateResolution)
    requires ToResolution(a) == ToResolution(b)
    ensures a == b
  {
  }

  /** `createInternalDateQuery` as written: ON gives one SENT_DATE entry
      `"0" + time`; BEFORE falls through to AFTER and AFTER to the default,
      so both throw. */
  function CreateInternalDateQuery(round: DateRounding, op: DateOperator): (r: Result<Query, SearchError>)
    ensures r.Success? <==> op.kind == On
    ensures r.Failure? ==> r.error == UnsupportedSearch
    ensures r.Success? ==>
      |r.value| == 1 && r.value[0].0 == SentDate &&
      r.value[0].1 == "0" + LongToString(round(op.date, ToResolution(op.res)))
  {
    var time := round(op.date, ToResolution(op.res));
    match op.kind
    case On => Success([(SentDate, "0" + LongToString(time))])
    case Before => Failure(UnsupportedSearch)
    case After => Failure(UnsupportedSearch)
  }

  /** `createFlagQuery`: the flag text under FLAGS when the flag must be
      set, the empty-column text otherwise. */
  function CreateFlagQuery(names: Names, flag: string, isSet: bool): (r: Query)
    ensures |r| == 1 && r[0].0 == Flags
    ensures isSet ==> r[0].1 == flag
    ensures !isSet ==> r[0].1 == names.emptyText
  {
    [(Flags, if isSet then flag else names.emptyText)]
  }

  /** `tokenize(field, value, map)`: one entry per token, upper-cased. */
  function Tokenize(tokens: Tokenizer, field: Field, value: string): (r: Query)
    ensures |r| == |tokens(value)|
    ensures forall i :: 0 <= i < |r| ==> r[i] == (field, Upper(tokens(value)[i]))
  {
    seq(|tokens(value)|, i requires 0 <= i < |tokens(value)| => (field, Upper(tokens(value)[i])))
  }

  /** `createTextQuery`: the upper-cased text tokenised under BODY, and for
      the FULL scope again under HEADERS. */
  function CreateTextQuery(tokens: Tokenizer, scope: TextType, text: string): (r: Query)
    ensures var toks := tokens(Upper(text));
      |r| == (if scope == FullText then 2 * |toks| else |toks|) &&
      (forall i :: 0 <= i < |toks| ==> r[i] == (Body, Upper(toks[i]))) &&
      (scope == FullText ==> forall i :: 0 <= i < |toks| ==> r[|toks| + i] == (Headers, Upper(toks[i])))
  {
    var value := Upper(text);
    match scope
    case BodyText => Tokenize(tokens, Body, value)
    case FullText => Tokenize(tokens, Body, value) + Tokenize(tokens, Headers, value)
  }

  /** `getHeaderField`: To, From, Cc, Bcc and Subject ignoring case, every
      other header under PREFIX_HEADER. */
  function GetHeaderField(name: string): (r: Field)
    ensures r == To <==> EqualsIgnoreCase(name, "To")
    ensures r == From <==> EqualsIgnoreCase(name, "From")
    ensures r == Cc <==> EqualsIgnoreCase(name, "Cc")
    ensures r == Bcc <==> EqualsIgnoreCase(name, "Bcc")
    ensures r == BaseSubject <==> EqualsIgnoreCase(name, "Subject")
    ensures r in {To, From, Cc, Bcc, BaseSubject, PrefixHeader}
  {
    if EqualsIgnoreCase("To", name) then To
    else if EqualsIgnoreCase("From", name) then From
    else if EqualsIgnoreCase("Cc", name) then Cc
    else if EqualsIgnoreCase("Bcc", name) then Bcc
    else if EqualsIgnoreCase("Subject", name) then BaseSubject
    else PrefixHeader
  }

  /** `createHeaderQuery`: contains gives the upper-cased value, exists the
      empty term, an address its tokens; a date operator is unsupported. */
  function CreateHeaderQuery(tokens: Tokenizer, header: string, op: HeaderOperator): (r: Result<Query, SearchError>)
    ensures r.Failure? <==> op.DateHeaderOperator?
    ensures r.Success? ==> forall e :: e in r.value ==> e.0 == GetHeaderField(header)
    ensures op.ContainsOperator? ==> r == Success([(GetHeaderField(header), Upper(op.value))])
    ensures op.ExistsOperator? ==> r == Success([(GetHeaderField(header), "")])
    ensures op.AddressOperator? ==> r == Success(Tokenize(tokens, GetHeaderField(header), Upper(op.address)))
  {
    var field := GetHeaderField(header);
    match op
    case ContainsOperator(value) => Success([(field, Upper(value))])
    case ExistsOperator => Success([(field, "")])
    case AddressOperator(address) => Success(Tokenize(tokens, field, Upper(address)))
    case DateHeaderOperator(_) => Failure(UnsupportedSearch)
  }

  /** `createQuery`: the query of one criterion; the all-messages criterion
      gives the empty query, an unknown criterion is unsupported. */
  function CreateQuery(names: Names, tokens: Tokenizer, round: DateRounding, c: Criterion): (r: Result<Query, SearchError>)
    ensures c.AllCriterion? ==> r == Success([])
    ensures c.OtherCriterion? ==> r == Failure(UnsupportedSearch)
    ensures r.Failure? ==> r.error == UnsupportedSearch
  {
    match c
    case InternalDateCriterion(op) => CreateInternalDateQuery(round, op)
    case TextCriterion(scope, text) => Success(CreateTextQuery(tokens, scope, text))
    case FlagCriterion(flag, isSet) => Success(CreateFlagQuery(names, MF.FlagToken(flag), isSet))
    case CustomFlagCriterion(flag, isSet) => Success(CreateFlagQuery(names, flag, isSet))
    case HeaderCriterion(header, op) => CreateHeaderQuery(tokens, header, op)
    case AllCriterion => Success([])
    case OtherCriterion => Failure(UnsupportedSearch)
  }

  /** The query `search` accumulates with `putAll`, criterion by criterion,
      or the first criterion's error. */
  function CriteriaQuery(names: Names, tokens: Tokenizer, round: DateRounding, criteria: seq<Criterion>): (r: Result<Query, SearchError>)
    ensures r.Failure? ==> r.error == UnsupportedSearch
  {
    GatherWith(CreatorOf(names, tokens, round), criteria)
  }

  type Creator = Criterion -> Result<Query, SearchError>

  function CreatorOf(names: Names, tokens: Tokenizer, round: DateRounding): (c: Creator)
    ensures forall x :: c(x) == CreateQuery(names, tokens, round, x)
  {
    (x: Criterion) => CreateQuery(names, tokens, round, x)
  }

  /** The queries of `criteria` under `create`, concatenated in order, or
      the first error. */
  function GatherWith(create: Creator, criteria: seq<Criterion>): (r: Result<Query, SearchError>)
    ensures r.Failure? ==> exists k :: 0 <= k < |criteria| && create(criteria[k]).Failure? && r.error == create(criteria[k]).error
  {
    if criteria == [] then Success([])
    else
      var last := criteria[|criteria| - 1];
      match GatherWith(create, criteria[..|criteria| - 1])
      case Failure(e) => Failure(e)
      case Success(qs) =>
        match create(last)
        case Failure(e) => Failure(e)
        case Success(q) => Success(qs + q)
  }

  // ---------------------------------------------------------------- indexing

  /** The put of a message's FLAGS cell. */
  function FlagsPut(names: Names, msg: Message): IS.Put
  {
    IS.Put(FlagsRow(names, msg.mailbox), LongToBytes(msg.uid),
           Utf8.Encode(MF.FlagsContent(names.emptyText, msg.flags)))
  }

  /** The put of one (field, term) entry of a message. */
  function EntryPut(names: Names, msg: Message, e: (Field, string)): IS.Put
  {
    IS.Put(RowKey(names, msg.mailbox, e.0, e.1), LongToBytes(msg.uid), names.emptyValue)
  }

  /** `indexMessage`: the FLAGS put first, then one put per content entry. */
  method IndexMessage(names: Names, msg: Message) returns (puts: seq<IS.Put>)
    ensures |puts| == |msg.content| + 1
    ensures puts[0] == FlagsPut(names, msg)
    ensures forall i :: 0 <= i < |msg.content| ==> puts[i + 1] == EntryPut(names, msg, msg.content[i])
  {
    var flags := MF.ParseFlagsContent(names.emptyText, msg.flags);
    puts := [IS.Put(FlagsRow(names, msg.mailbox), LongToBytes(msg.uid), Utf8.Encode(flags))];
    var i := 0;
    while i < |msg.content|
      invariant 0 <= i <= |msg.content|
      invariant |puts| == i + 1 && puts[0] == FlagsPut(names, msg)
      invariant forall k :: 0 <= k < i ==> puts[k + 1] == EntryPut(names, msg, msg.content[k])
    {
      var (field, term) := msg.content[i];
      puts := puts + [IS.Put(RowKey(names, msg.mailbox, field, term), LongToBytes(msg.uid), names.emptyValue)];
      i := i + 1;
    }
  }

  /** `delete` for one uid: the uid's cell leaves every row of the mailbox. */
  function DeleteUid(t: Table, m: Row, q: Qualifier): (r: Table)
    ensures r.Keys == t.Keys
    ensures forall row :: row in t && !(m <= row) ==> r[row] == t[row]
    ensures forall row :: row in t && m <= row ==> r[row] == t[row] - {q}
  {
    map row | row in t :: if m <= row then t[row] - {q} else t[row]
  }

  /** `delete` for a range of uids, in order. */
  function DeleteUids(t: Table, m: Row, range: seq<long>): Table
  {
    if range == [] then t
    else DeleteUid(DeleteUids(t, m, range[..|range| - 1]), m, LongToBytes(range[|range| - 1]))
  }

  /** `update`: for each uid in order, the mailbox's FLAGS cell of that uid
      is overwritten; at the first uid without such a cell `retrieveFlags`
      yields no row and `new Put(null)` throws, leaving the earlier updates
      in place. The flag is whether every uid was updated. */
  function UpdateFlagCells(t: Table, row: Row, range: seq<long>, value: seq<byte>): (r: (Table, bool))
    ensures r.0.Keys == t.Keys
    ensures forall row' :: row' in t && row' != row ==> r.0[row'] == t[row']
    ensures !r.1 ==> exists i :: 0 <= i < |range| && !(row in t && LongToBytes(range[i]) in t[row])
  {
    if range == [] then (t, true)
    else
      var q := LongToBytes(range[0]);
      if row in t && q in t[row] then
        var t1 := IS.PutCell(t, row, q, value);
        var (t2, done) := UpdateFlagCells(t1, row, range[1..], value);
        assert !done ==> exists i :: 1 <= i < |range| && !(row in t && LongToBytes(range[i]) in t[row]) by {
          if !done {
            var i :| 0 <= i < |range[1..]| && !(row in t1 && LongToBytes(range[1..][i]) in t1[row]);
            assert range[1..][i] == range[i + 1];
          }
        }
        (t2, done)
      else (t, false)
  }

  /** The loop of `delete`, shared by both listener revisions: for each uid
      of the range, every row of `retrieveMails(mailbox, uid)` loses that
      uid's cell. */
  method DeleteFromIndex(store: IS.HBaseIndexStore, mailbox: Row, range: seq<long>)
    modifies store
    ensures store.table == DeleteUids(old(store.table), mailbox, range)
  {
    var i := 0;
    while i < |range|
      invariant 0 <= i <= |range|
      invariant store.table == DeleteUids(old(store.table), mailbox, range[..i])
    {
      assert range[..i + 1][..i] == range[..i];
      var uid := range[i];
      ghost var before := store.table;
      var scanned := store.RetrieveMailsForUid(mailbox, uid);
      var rows := scanned.Keys;
      ghost var done: set<Row> := {};
      while rows != {}
        invariant rows !! done && rows + done == scanned.Keys
        invariant store.table == DeleteFrom(before, done, LongToBytes(uid))
        decreases rows
      {
        var row :| row in rows;
        store.DeleteMail(row, uid);
        DeleteFromAdd(before, done, row, LongToBytes(uid));
        rows := rows - {row};
        done := done + {row};
      }
      DeleteScanned(before, mailbox, uid, scanned, store.find);
      i := i + 1;
    }
    assert range[..i] == range;
  }

  /** `IllegalArgumentException` from `new Put(null)` for this uid. */
  datatype UpdateError = NoFlagsRow(uid: long)

  class MessageSearchIndexListener {
    const store: IS.HBaseIndexStore
    const tokens: Tokenizer
    const round: DateRounding

    constructor (store: IS.HBaseIndexStore, tokens: Tokenizer, round: DateRounding)
      ensures this.store == store && this.tokens == tokens && this.round == round
    {
      this.store := store;
      this.tokens := tokens;
      this.round := round;
    }

    /** `add`: stores the message's puts. */
    method Add(msg: Message)
      modifies store
      ensures store.table == IS.ApplyPuts(old(store.table), MessagePuts(store.names, msg))
    {
      var puts := IndexMessage(store.names, msg);
      assert puts == MessagePuts(store.names, msg);
      store.StoreMail(puts);
    }

    /** `delete`: for each uid of the range, the rows `retrieveMails(mailbox,
        uid)` returns lose that uid's cell. */
    method Delete(m: Uuid, range: seq<long>)
      modifies store
      ensures store.table == DeleteUids(old(store.table), UuidToBytes(m), range)
    {
      DeleteFromIndex(store, UuidToBytes(m), range);
    }

    /** `update`: every uid's FLAGS cell gets the new flags text. */
    method Update(m: Uuid, range: seq<long>, flags: MF.Flags) returns (r: Outcome<UpdateError>)
      modifies store
      ensures var (t, done) := UpdateFlagCells(old(store.table), FlagsRow(store.names, m), range,
                                               Utf8.Encode(MF.FlagsContent(store.names.emptyText, flags)));
        store.table == t && (r.Pass? <==> done)
    {
      var mailbox := UuidToBytes(m);
      ghost var value := Utf8.Encode(MF.FlagsContent(store.names.emptyText, flags));
      var i := 0;
      while i < |range|
        invariant 0 <= i <= |range|
        invariant UpdateFlagCells(store.table, FlagsRow(store.names, m), range[i..], value) ==
                  UpdateFlagCells(old(store.table), FlagsRow(store.names, m), range, value)
      {
        assert range[i..][1..] == range[i + 1..];
        var uid := range[i];
        var result := store.RetrieveFlags(mailbox, uid);
        if result.None? {
          return Fail(NoFlagsRow(uid));
        }
        var content := MF.ParseFlagsContent(store.names.emptyText, flags);
        store.UpdateFlags(result.value.0, uid, content);
        i := i + 1;
      }
      r := Pass;
    }

    /** `search`: the query of all criteria, scanned; every uid of a matched
        row's qualifiers once. */
    method Search(m: Uuid, criteria: seq<Criterion>) returns (r: Result<seq<long>, SearchError>)
      ensures match CriteriaQuery(store.names, tokens, round, criteria)
        case Failure(e) => r == Failure(e)
        case Success(qs) =>
          match IS.QueryScan(store.names, store.cal, store.find, store.table, UuidToBytes(m), qs)
          case Failure(e) => r == Failure(StoreError(e))
          case Success(scanned) =>
            r.Success? && r.value == ScanUids(scanned, |scanned|) &&
            Distinct(r.value) && forall u :: u in r.value <==> u in UidsOf(scanned)
    {
      var queries: Query := [];
      var i := 0;
      while i < |criteria|
        invariant 0 <= i <= |criteria|
        invariant CriteriaQuery(store.names, tokens, round, criteria[..i]) == Success(queries)
      {
        assert criteria[..i + 1][..i] == criteria[..i];
        var q := CreateQuery(store.names, tokens, round, criteria[i]);
        if q.Failure? {
          CriteriaAbortsAfter(CreatorOf(store.names, tokens, round), criteria, i + 1);
          return Failure(q.error);
        }
        queries := queries + q.value;
        i := i + 1;
      }
      assert criteria[..i] == criteria;
      var scanned := store.RetrieveMailsForQueries(UuidToBytes(m), queries);
      if scanned.Failure? {
        return Failure(StoreError(scanned.error));
      }
      var uids;
      ghost var visited;
      uids, visited := CollectUids(scanned.value, None);
      ScanUidsElements(scanned.value, |scanned.value|);
      DeliveredRows(scanned.value, |scanned.value|);
      r := Success(uids);
    }
  }

  /** The puts of `indexMessage`. */
  function MessagePuts(names: Names, msg: Message): (r: seq<IS.Put>)
  {
    [FlagsPut(names, msg)] + seq(|msg.content|, i requires 0 <= i < |msg.content| => EntryPut(names, msg, msg.content[i]))
  }

  /** The table with `q` removed from the rows of `done`. */
  function DeleteFrom(t: Table, done: set<Row>, q: Qualifier): Table
  {
    map row | row in t :: if row in done then t[row] - {q} else t[row]
  }

  lemma DeleteFromAdd(t: Table, done: set<Row>, row: Row, q: Qualifier)
    ensures IS.DeleteCell(DeleteFrom(t, done, q), row, q) == DeleteFrom(t, done + {row}, q)
  {
    var before := DeleteFrom(t, done, q);
    var left := IS.DeleteCell(before, row, q);
    var right := DeleteFrom(t, done + {row}, q);
    assert left.Keys == right.Keys;
    forall r | r in left
      ensures left[r] == right[r]
    {
      if r == row {
        assert left[r] == before[r] - {q};
        assert before[r] - {q} == t[r] - {q};
      }
    }
  }

  /** Deleting the uid's cell from the rows the scan returned is deleting it
      from the whole mailbox: the rows it skipped have no such cell. */
  lemma DeleteScanned(t: Table, m: Row, uid: long, scanned: Table, find: Finder)
    requires uid == 0 ==> scanned == Scan(t, RowPrefix(m), find)
    requires uid != 0 ==> scanned == ScanColumn(t, LongToBytes(uid), RowPrefix(m), find)
    ensures DeleteFrom(t, scanned.Keys, LongToBytes(uid)) == DeleteUid(t, m, LongToBytes(uid))
  {
    var q := LongToBytes(uid);
    forall row | row in t
      ensures DeleteFrom(t, scanned.Keys, q)[row] == DeleteUid(t, m, q)[row]
    {
      if uid == 0 {
        IS.PrefixScanRows(t, m, find, row);
        if m <= row && row !in scanned {
          assert t[row] - {q} == t[row];
        }
      } else if m <= row && row !in scanned {
        assert q !in t[row];
        assert t[row] - {q} == t[row];
      }
    }
  }

  lemma {:induction false} CriteriaAbortsAfter(create: Creator, criteria: seq<Criterion>, n: nat)
    requires 0 < n <= |criteria|
    requires GatherWith(create, criteria[..n]).Failure?
    ensures GatherWith(create, criteria) == GatherWith(create, criteria[..n])
  {
    if n < |criteria| {
      var init := criteria[..|criteria| - 1];
      assert init[..n] == criteria[..n];
      CriteriaAbortsAfter(create, init, n);
    } else {
      assert criteria[..n] == criteria;
    }
  }

  // ---------------------------------------------------------------- properties

  /** Every criterion of a query that builds contributes its own entries. */
  lemma {:induction false} GatherContains(create: Creator, criteria: seq<Criterion>, k: nat)
    requires GatherWith(create, criteria).Success? && k < |criteria|
    ensures create(criteria[k]).Success?
    ensures forall e :: e in create(criteria[k]).value ==> e in GatherWith(create, criteria).value
  {
    var init := criteria[..|criteria| - 1];
    if k < |init| {
      assert init[k] == criteria[k];
      GatherContains(create, init, k);
    }
  }

  lemma CriteriaQueryContains(names: Names, tokens: Tokenizer, round: DateRounding, criteria: seq<Criterion>, k: nat)
    requires CriteriaQuery(names, tokens, round, criteria).Success? && k < |criteria|
    ensures CreateQuery(names, tokens, round, criteria[k]).Success?
    ensures forall e :: e in CreateQuery(names, tokens, round, criteria[k]).value ==>
      e in CriteriaQuery(names, tokens, round, criteria).value
  {
    GatherContains(CreatorOf(names, tokens, round), criteria, k);
  }

  /** Every entry of a built query comes from one of its criteria. */
  lemma {:induction false} GatherFrom(create: Creator, criteria: seq<Criterion>, e: (Field, string))
    requires GatherWith(create, criteria).Success? && e in GatherWith(create, criteria).value
    ensures exists k :: 0 <= k < |criteria| && create(criteria[k]).Success? && e in create(criteria[k]).value
  {
    var init := criteria[..|criteria| - 1];
    var last := criteria[|criteria| - 1];
    if e in GatherWith(create, init).value {
      GatherFrom(create, init, e);
      var k :| 0 <= k < |init| && create(init[k]).Success? && e in create(init[k]).value;
      assert init[k] == criteria[k];
    } else {
      assert e in create(last).value;
    }
  }

  lemma {:induction false} GatherEmpty(create: Creator, criteria: seq<Criterion>)
    requires forall k :: 0 <= k < |criteria| ==> create(criteria[k]) == Success([])
    ensures GatherWith(create, criteria) == Success([])
  {
    if criteria != [] {
      var init := criteria[..|criteria| - 1];
      assert forall k :: 0 <= k < |init| ==> init[k] == criteria[k];
      GatherEmpty(create, init);
      assert create(criteria[|criteria| - 1]) == Success([]);
      var empty: Query := [];
      assert empty + empty == empty;
    }
  }

  /** A query of all-messages criteria is empty: the store then scans the
      whole mailbox. */
  lemma AllCriteriaMatchMailbox(names: Names, tokens: Tokenizer, round: DateRounding, criteria: seq<Criterion>)
    requires forall k :: 0 <= k < |criteria| ==> criteria[k].AllCriterion?
    ensures CriteriaQuery(names, tokens, round, criteria) == Success([])
  {
    GatherEmpty(CreatorOf(names, tokens, round), criteria);
  }

  /** The term `"0" + time` of an ON query has no `|`, so the store's
      SENT_DATE branch rejects it: `substring(1, -1)` fails for a
      non-negative time, and `parseLong` of `"0-…"` for a negative one. */
  lemma OnDateTermRejected(cal: IS.Calendar, time: long)
    ensures Upper("0" + LongToString(time)) == "0" + LongToString(time)
    ensures IS.ParseDateTerm(cal, "0" + LongToString(time)) ==
      Failure(if time >= 0 then IS.IndexOutOfBounds else IS.NumberFormat)
  {
    var digits := LongToString(time);
    var term := "0" + digits;
    assert forall i :: 0 <= i < |term| ==> IsDigit(term[i]) || term[i] == '-' by {
      forall i | 0 <= i < |term| ensures IsDigit(term[i]) || term[i] == '-' {
        if i > 0 {
          assert term[i] == digits[i - 1];
          if time < 0 && i > 1 {
            assert digits[i - 1] == digits[1..][i - 2];
          }
        }
      }
    }
    UpperIsUpperCased(term);
    assert '|' !in term;
    assert term[0..] == term;
    if time >= 0 {
      DigitsValueLeadingZero(digits);
      ParseLongToString(time);
      assert ParseLong(term) == Success(time);
    } else {
      ParseLongRejects(term, 1);
    }
  }

  /** Every search with an internal-date criterion fails: BEFORE and AFTER
      are unsupported, and the ON term never parses in the store. */
  lemma InternalDateSearchFails(names: Names, tokens: Tokenizer, round: DateRounding, cal: IS.Calendar,
                                find: Finder, t: Table, m: Row, criteria: seq<Criterion>, k: nat)
    requires k < |criteria| && criteria[k].InternalDateCriterion?
    ensures CriteriaQuery(names, tokens, round, criteria).Success? ==>
      IS.QueryScan(names, cal, find, t, m, CriteriaQuery(names, tokens, round, criteria).value).Failure?
  {
    var cq := CriteriaQuery(names, tokens, round, criteria);
    if cq.Success? {
      CriteriaQueryContains(names, tokens, round, criteria, k);
      var op := criteria[k].dateOp;
      var entry := CreateQuery(names, tokens, round, criteria[k]).value[0];
      assert entry in cq.value;
      var j :| 0 <= j < |cq.value| && cq.value[j] == entry;
      OnDateTermRejected(cal, round(op.date, ToResolution(op.res)));
      assert IS.EntryFilters(names, cal, m, SentDate, entry.1).Failure?;
      if IS.Compile(names, cal, m, cq.value).Success? {
        IS.CompileEntry(IS.EntryOf(names, cal, m), cq.value, j);
      }
    }
  }

  /** The date query in the format the store parses: the operation digit,
      the resolution name, `|` and the rounded time; ON, BEFORE and AFTER
      each give their own entry. */
  function CreateInternalDateQueryCorrected(round: DateRounding, op: DateOperator): (r: Query)
    ensures |r| == 1 && r[0].0 == SentDate
  {
    var res := ToResolution(op.res);
    var digit := match op.kind case On => '0' case Before => '1' case After => '2';
    [(SentDate, IS.DateTerm(digit, res, round(op.date, res)))]
  }

  /** The corrected date query compiles to the inclusive row range of its
      operation: ON [time, end of its bucket], BEFORE [MIN_DATE, time],
      AFTER [end of the bucket, MAX_DATE]. */
  lemma CorrectedDateQueryRange(names: Names, cal: IS.Calendar, m: Row, round: DateRounding, op: DateOperator)
    ensures var res := ToResolution(op.res);
      var time := round(op.date, res);
      var max := IS.MaxResolution(cal, res, time);
      var (low, high) := match op.kind case On => (time, max) case Before => (cal.minDate, time) case After => (max, cal.maxDate);
      var prefix := IS.FieldPrefix(names, m, SentDate);
      IS.EntryFilters(names, cal, m, SentDate, CreateInternalDateQueryCorrected(round, op)[0].1) ==
        Success([PassAll([RowAtLeast(prefix + Utf8.Encode(LongToString(low))),
                          RowAtMost(prefix + Utf8.Encode(LongToString(high)))])])
  {
    var res := ToResolution(op.res);
    var digit := match op.kind case On => '0' case Before => '1' case After => '2';
    IS.ParseDateTermWellFormed(cal, digit, res, round(op.date, res));
  }

  /** After `delete` the mailbox keeps its rows, the other mailboxes are
      untouched, and a mailbox row keeps exactly its cells whose uid is not
      in the range, with their values. */
  lemma {:induction false} DeleteUidsEffect(t: Table, m: Row, range: seq<long>)
    ensures DeleteUids(t, m, range).Keys == t.Keys
    ensures forall row :: row in t && !(m <= row) ==> DeleteUids(t, m, range)[row] == t[row]
    ensures forall row, q :: row in t && m <= row ==>
      (q in DeleteUids(t, m, range)[row] <==> q in t[row] && BytesToLong(q) !in range)
    ensures forall row, q :: row in t && q in DeleteUids(t, m, range)[row] ==>
      q in t[row] && DeleteUids(t, m, range)[row][q] == t[row][q]
  {
    if range != [] {
      var init := range[..|range| - 1];
      var last := range[|range| - 1];
      DeleteUidsEffect(t, m, init);
      LongRoundTrip(last);
      forall q: Qualifier ensures q == LongToBytes(last) <==> BytesToLong(q) == last {
        QualifierRoundTrip(q);
      }
      assert forall u :: u in range <==> u in init || u == last;
    }
  }

  /** After `delete` a scan of the mailbox reports every uid it reported
      before except those of the range. */
  lemma DeleteRemovesFromMailbox(t: Table, m: Row, range: seq<long>, find: Finder)
    ensures UidsOf(Scan(DeleteUids(t, m, range), RowPrefix(m), find)) ==
      UidsOf(Scan(t, RowPrefix(m), find)) - set u | u in range
  {
    var after := DeleteUids(t, m, range);
    DeleteUidsEffect(t, m, range);
    forall u ensures u in UidsOf(Scan(after, RowPrefix(m), find)) <==>
      u in UidsOf(Scan(t, RowPrefix(m), find)) && u !in range
    {
      IS.PrefixScanUids(after, m, find, u);
      IS.PrefixScanUids(t, m, find, u);
    }
  }

  /** `update` overwrites only FLAGS cells that exist, of uids in the range:
      no row appears or disappears, no cell appears, other rows and other
      uids keep their values. It completes exactly when every uid has a
      FLAGS cell, and then each of them holds the new value. */
  lemma {:induction false} UpdateFlagCellsEffect(t: Table, row: Row, range: seq<long>, value: seq<byte>)
    ensures var (after, done) := UpdateFlagCells(t, row, range, value);
      after.Keys == t.Keys &&
      (forall r :: r in t && r != row ==> after[r] == t[r]) &&
      (row in t ==> after[row].Keys == t[row].Keys) &&
      (row in t ==> forall q :: q in t[row] && BytesToLong(q) !in range ==> after[row][q] == t[row][q]) &&
      (done <==> forall u :: u in range ==> row in t && LongToBytes(u) in t[row]) &&
      (done ==> forall u :: u in range ==> after[row][LongToBytes(u)] == value)
  {
    if range != [] {
      var u0 := range[0];
      var q0 := LongToBytes(u0);
      LongRoundTrip(u0);
      if row in t && q0 in t[row] {
        var t1 := IS.PutCell(t, row, q0, value);
        UpdateFlagCellsEffect(t1, row, range[1..], value);
        assert forall u :: u in range <==> u == u0 || u in range[1..];
      }
    }
  }

  /** Storing a message's puts indexes it: its FLAGS cell holds the flag
      text, and every content entry's row holds its uid with the empty
      value. */
  lemma AddedMessageIndexed(names: Names, t: Table, msg: Message)
    requires names.Valid()
    requires forall i :: 0 <= i < |msg.content| ==> msg.content[i].0 != Flags
    ensures var after := IS.ApplyPuts(t, MessagePuts(names, msg));
      var q := LongToBytes(msg.uid);
      FlagsRow(names, msg.mailbox) in after && q in after[FlagsRow(names, msg.mailbox)] &&
      after[FlagsRow(names, msg.mailbox)][q] == Utf8.Encode(MF.FlagsContent(names.emptyText, msg.flags)) &&
      forall i :: 0 <= i < |msg.content| ==>
        var row := RowKey(names, msg.mailbox, msg.content[i].0, msg.content[i].1);
        row in after && q in after[row] && after[row][q] == names.emptyValue
  {
    FlagsCellStored(names, t, msg);
    forall i | 0 <= i < |msg.content|
      ensures var row := RowKey(names, msg.mailbox, msg.content[i].0, msg.content[i].1);
        var after := IS.ApplyPuts(t, MessagePuts(names, msg));
        row in after && LongToBytes(msg.uid) in after[row] && after[row][LongToBytes(msg.uid)] == names.emptyValue
    {
      EntryCellStored(names, t, msg, i);
    }
  }

  /** No content row is the FLAGS row: their field bytes differ. */
  lemma EntryRowNotFlagsRow(names: Names, m: Uuid, e: (Field, string))
    requires names.Valid() && e.0 != Flags
    ensures RowKey(names, m, e.0, e.1) != FlagsRow(names, m)
  {
    assert RowKey(names, m, e.0, e.1)[16] == names.id(e.0);
    assert FlagsRow(names, m)[16] == names.id(Flags);
  }

  lemma FlagsCellStored(names: Names, t: Table, msg: Message)
    requires names.Valid()
    requires forall i :: 0 <= i < |msg.content| ==> msg.content[i].0 != Flags
    ensures var after := IS.ApplyPuts(t, MessagePuts(names, msg));
      var q := LongToBytes(msg.uid);
      FlagsRow(names, msg.mailbox) in after && q in after[FlagsRow(names, msg.mailbox)] &&
      after[FlagsRow(names, msg.mailbox)][q] == Utf8.Encode(MF.FlagsContent(names.emptyText, msg.flags))
  {
    var puts := MessagePuts(names, msg);
    var q := LongToBytes(msg.uid);
    var flagsRow := FlagsRow(names, msg.mailbox);
    IS.ApplyPutsCell(t, puts, flagsRow, q);
    assert puts[0].row == flagsRow && puts[0].qualifier == q;
    forall j | 1 <= j < |puts| ensures puts[j].row != flagsRow {
      assert puts[j] == EntryPut(names, msg, msg.content[j - 1]);
      EntryRowNotFlagsRow(names, msg.mailbox, msg.content[j - 1]);
    }
    assert IS.LastWrite(puts, flagsRow, q) == 0;
  }

  lemma EntryCellStored(names: Names, t: Table, msg: Message, i: nat)
    requires names.Valid() && i < |msg.content| && msg.content[i].0 != Flags
    ensures var after := IS.ApplyPuts(t, MessagePuts(names, msg));
      var row := RowKey(names, msg.mailbox, msg.content[i].0, msg.content[i].1);
      row in after && LongToBytes(msg.uid) in after[row] && after[row][LongToBytes(msg.uid)] == names.emptyValue
  {
    var puts := MessagePuts(names, msg);
    var q := LongToBytes(msg.uid);
    var row := RowKey(names, msg.mailbox, msg.content[i].0, msg.content[i].1);
    EntryRowNotFlagsRow(names, msg.mailbox, msg.content[i]);
    EntryPutsEmpty(names, msg, row);
    assert puts[i + 1].row == row && puts[i + 1].qualifier == q;
    IS.ApplyPutsWritten(t, puts, row, q);
  }

  /** Every put to a row other than the FLAGS row writes the empty value. */
  lemma EntryPutsEmpty(names: Names, msg: Message, row: Row)
    requires row != FlagsRow(names, msg.mailbox)
    ensures forall j :: 0 <= j < |MessagePuts(names, msg)| && MessagePuts(names, msg)[j].row == row ==>
      MessagePuts(names, msg)[j].value == names.emptyValue
  {
    var puts := MessagePuts(names, msg);
    forall j | 0 <= j < |puts| && puts[j].row == row
      ensures puts[j].value == names.emptyValue
    {
      if j != 0 {
        assert puts[j] == EntryPut(names, msg, msg.content[j - 1]);
      }
    }
  }

  /** A search whose query holds a term entry finds every message indexed
      under a term that the query term starts with: the prefix alternative
      of that entry matches the message's row. */
  lemma SearchFindsIndexedTerm(names: Names, cal: IS.Calendar, find: Finder, t: Table, m: Uuid,
                               uid: long, term: string, queries: Query, k: nat)
    requires forall j :: 0 <= j < |queries| ==> queries[j].0 != SentDate
    requires k < |queries| && queries[k].0 != Flags && Upper(queries[k].1) <= term
    requires RowKey(names, m, queries[k].0, term) in t
    requires LongToBytes(uid) in t[RowKey(names, m, queries[k].0, term)]
    ensures IS.QueryScan(names, cal, find, t, UuidToBytes(m), queries).Success?
    ensures uid in UidsOf(IS.QueryScan(names, cal, find, t, UuidToBytes(m), queries).value)
  {
    var mb := UuidToBytes(m);
    var (field, value) := queries[k];
    var row := RowKey(names, m, field, term);
    var q := LongToBytes(uid);
    var v := t[row][q];
    IS.CompileSucceeds(names, cal, mb, queries);
    var fs := IS.Compile(names, cal, mb, queries).value;
    var prefix := IS.FieldPrefix(names, mb, field);
    var upper := Upper(value);
    var rest := term[|upper|..];
    assert term == upper + rest;
    Utf8.EncodeAppend(upper, rest);
    assert prefix + Utf8.Encode(upper) <= row;
    var entry := IS.EntryFilters(names, cal, mb, field, value).value;
    assert Includes(entry[0], find, row, v);
    assert Includes(PassOne(entry), find, row, v);
    IS.CompileIsDisjunction(names, cal, mb, queries, find, row, v);
    var scanned := Scan(t, PassOne(fs), find);
    assert q in Project(PassOne(fs), find, row, t[row]);
    assert row in scanned && q in scanned[row];
    LongRoundTrip(uid);
  }
}
