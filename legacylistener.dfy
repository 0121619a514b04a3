/** The older `MessageSearchIndexListener` (package `org.apache.lucene.index`):
    the same row codec without a FLAGS row, text criteria only, and
    `IOException`s logged instead of thrown. Its store class has only a
    constructor, so its store calls are modelled by the same index store as
    the newer revision; its `updateFlags(row, uid, Flags)` writes a flags
    text the store would derive from the flag set, a function here. */
module LegacyListener {
  import opened Wrappers
  import opened Bytes
  import opened Text
  import opened Fields
  import opened RowCodec
  import MF = MailFlags
  import opened Filters
  import opened ScanOrder
  import IS = IndexStore
  import opened Listener
  import Utf8

  /** `createTextQuery`: the upper-cased text, not tokenised, under BODY,
      and for the FULL scope also under HEADERS. */
  function LegacyTextQuery(scope: TextType, text: string): (r: Query)
    ensures scope == BodyText ==> r == [(Body, Upper(text))]
    ensures scope == FullText ==> r == [(Body, Upper(text)), (Headers, Upper(text))]
  {
    var value := Upper(text);
    match scope
    case BodyText => [(Body, value)]
    case FullText => [(Body, value), (Headers, value)]
  }

  /** `createQuery`: only text criteria are supported. */
  function LegacyCreateQuery(c: Criterion): (r: Result<Query, SearchError>)
    ensures r.Success? <==> c.TextCriterion?
    ensures r.Success? ==> forall e :: e in r.value ==> e.0 in {Body, Headers} && e.1 == Upper(c.text)
    ensures r.Failure? ==> r.error == UnsupportedSearch
  {
    match c
    case TextCriterion(scope, text) => Success(LegacyTextQuery(scope, text))
    case _ => Failure(UnsupportedSearch)
  }

  function LegacyCriteriaQuery(criteria: seq<Criterion>): (r: Result<Query, SearchError>)
  {
    GatherWith((c: Criterion) => LegacyCreateQuery(c), criteria)
  }

  /** A legacy query builds exactly when every criterion is a text
      criterion, and then holds only BODY and HEADERS entries: the store
      always compiles it. */
  lemma LegacyQueryCompiles(names: Names, cal: IS.Calendar, m: Row, criteria: seq<Criterion>)
    ensures LegacyCriteriaQuery(criteria).Success? <==> forall k :: 0 <= k < |criteria| ==> criteria[k].TextCriterion?
    ensures LegacyCriteriaQuery(criteria).Success? ==>
      (forall e :: e in LegacyCriteriaQuery(criteria).value ==> e.0 in {Body, Headers}) &&
      IS.Compile(names, cal, m, LegacyCriteriaQuery(criteria).value).Success?
  {
    var create := (c: Criterion) => LegacyCreateQuery(c);
    var r := LegacyCriteriaQuery(criteria);
    if r.Success? {
      forall k | 0 <= k < |criteria| ensures criteria[k].TextCriterion? {
        GatherContains(create, criteria, k);
      }
      forall e | e in r.value ensures e.0 in {Body, Headers} {
        GatherFrom(create, criteria, e);
      }
      IS.CompileSucceeds(names, cal, m, r.value);
    } else {
      var k :| 0 <= k < |criteria| && create(criteria[k]).Failure? && r.error == create(criteria[k]).error;
    }
  }

  /** The trailing entries of the header handler of `parseFullContent`:
      the SENT_DATE entry is added only for a sent date that is already set,
      and the five first-address entries always are. `sentDate` starts null
      and no header sets it, so the null branch runs, which takes the
      internal date without adding the entry. */
  function HeaderSummary(sentDate: Option<long>, firstFromMailbox: string, firstToMailbox: string,
                         firstCcMailbox: string, firstFromDisplay: string, firstToDisplay: string): (r: Query)
    ensures |r| == if sentDate.Some? then 6 else 5
    ensures forall x :: x in r && x.0 == SentDate ==> sentDate.Some? && x.1 == LongToString(sentDate.value)
    ensures sentDate.Some? ==> (SentDate, LongToString(sentDate.value)) in r
    ensures (FirstFromMailboxName, firstFromMailbox) in r && (FirstToMailboxName, firstToMailbox) in r
    ensures (FirstCcMailboxName, firstCcMailbox) in r
    ensures (FirstFromMailboxDisplay, firstFromDisplay) in r && (FirstToMailboxDisplay, firstToDisplay) in r
  {
    (if sentDate.None? then [] else [(SentDate, LongToString(sentDate.value))]) +
    [(FirstFromMailboxName, firstFromMailbox), (FirstToMailboxName, firstToMailbox),
     (FirstCcMailboxName, firstCcMailbox), (FirstFromMailboxDisplay, firstFromDisplay),
     (FirstToMailboxDisplay, firstToDisplay)]
  }

  lemma SentDateNeverIndexed(a: string, b: string, c: string, d: string, e: string)
    ensures forall x :: x in HeaderSummary(None, a, b, c, d, e) ==> x.0 != SentDate
    ensures |HeaderSummary(None, a, b, c, d, e)| == 5
  {
  }

  /** `indexMessage`: one put per content entry, and no FLAGS put. */
  method LegacyIndexMessage(names: Names, msg: Message) returns (puts: seq<IS.Put>)
    ensures |puts| == |msg.content|
    ensures forall i :: 0 <= i < |puts| ==> puts[i] == EntryPut(names, msg, msg.content[i])
  {
    puts := [];
    var i := 0;
    while i < |msg.content|
      invariant 0 <= i <= |msg.content| && |puts| == i
      invariant forall k :: 0 <= k < i ==> puts[k] == EntryPut(names, msg, msg.content[k])
    {
      var (field, term) := msg.content[i];
      puts := puts + [IS.Put(RowKey(names, msg.mailbox, field, term), LongToBytes(msg.uid), names.emptyValue)];
      i := i + 1;
    }
  }

  /** The rows `retrieveMails(mailbox, uid)` returns: with uid 0 every
      non-empty row of the mailbox, otherwise the rows holding the uid. */
  ghost function RowsFor(t: Table, m: Row, uid: long): set<Row>
  {
    if uid == 0 then set row | row in t && m <= row && t[row] != map[]
    else set row | row in t && m <= row && LongToBytes(uid) in t[row]
  }

  /** `update` for one uid: the uid's cell of each returned row takes the
      flags text. */
  ghost function UpdateUid(t: Table, m: Row, uid: long, v: seq<byte>): Table
  {
    WriteRows(t, RowsFor(t, m, uid), LongToBytes(uid), v)
  }

  /** The table with cell `q` of each row of `rows` set to `v`. */
  function WriteRows(t: Table, rows: set<Row>, q: Qualifier, v: seq<byte>): Table
  {
    map row | row in t :: if row in rows then t[row][q := v] else t[row]
  }

  ghost function UpdateUids(t: Table, m: Row, range: seq<long>, v: seq<byte>): Table
  {
    if range == [] then t
    else UpdateUid(UpdateUids(t, m, range[..|range| - 1], v), m, range[|range| - 1], v)
  }

  lemma UpdateUidsStep(t: Table, m: Row, range: seq<long>, i: nat, v: seq<byte>)
    requires i < |range|
    ensures UpdateUids(t, m, range[..i + 1], v) == UpdateUid(UpdateUids(t, m, range[..i], v), m, range[i], v)
  {
    assert range[..i + 1][..i] == range[..i];
  }

  /** For a non-zero uid `update` only overwrites cells that exist: no row
      or cell appears, rows outside the mailbox are untouched, and every
      cell of the uid in the mailbox holds the new text. */
  lemma UpdateUidEffect(t: Table, m: Row, uid: long, v: seq<byte>)
    requires uid != 0
    ensures UpdateUid(t, m, uid, v).Keys == t.Keys
    ensures forall row :: row in t ==> UpdateUid(t, m, uid, v)[row].Keys == t[row].Keys
    ensures forall row :: row in t && !(m <= row) ==> UpdateUid(t, m, uid, v)[row] == t[row]
    ensures forall row :: row in t && m <= row && LongToBytes(uid) in t[row] ==>
      UpdateUid(t, m, uid, v)[row][LongToBytes(uid)] == v
    ensures forall row, q :: row in t && q in t[row] && q != LongToBytes(uid) ==>
      UpdateUid(t, m, uid, v)[row][q] == t[row][q]
  {
  }

  /** With uid 0, `retrieveMails(mailbox, 0)` returns the whole mailbox and
      every non-empty row of it gains a cell for uid 0. */
  lemma UpdateZeroWritesMailbox(t: Table, m: Row, v: seq<byte>, row: Row)
    requires row in t && m <= row && t[row] != map[]
    ensures LongToBytes(0) in UpdateUid(t, m, 0, v)[row]
  {
  }

  lemma WriteRowsNone(t: Table, q: Qualifier, v: seq<byte>)
    ensures WriteRows(t, {}, q, v) == t
  {
    assert WriteRows(t, {}, q, v).Keys == t.Keys;
  }

  lemma WriteRowsAdd(t: Table, done: set<Row>, row: Row, q: Qualifier, v: seq<byte>)
    requires row in t
    ensures IS.PutCell(WriteRows(t, done, q, v), row, q, v) == WriteRows(t, done + {row}, q, v)
  {
    var a := IS.PutCell(WriteRows(t, done, q, v), row, q, v);
    var b := WriteRows(t, done + {row}, q, v);
    assert a.Keys == b.Keys;
    forall r | r in a ensures a[r] == b[r] {
      if r == row {
        assert a[r].Keys == b[r].Keys;
      }
    }
  }

  lemma RetrievedRows(t: Table, m: Row, uid: long, scanned: Table, find: Finder)
    requires uid == 0 ==> scanned == Scan(t, RowPrefix(m), find)
    requires uid != 0 ==> scanned == ScanColumn(t, LongToBytes(uid), RowPrefix(m), find)
    ensures scanned.Keys == RowsFor(t, m, uid)
  {
    forall row ensures row in scanned <==> row in RowsFor(t, m, uid) {
      IS.PrefixScanRows(t, m, find, row);
    }
  }

  class LegacyMessageSearchIndexListener {
    const store: IS.HBaseIndexStore
    /** The text `updateFlags` stores for a flag set. */
    const flagsText: MF.Flags -> string

    constructor (store: IS.HBaseIndexStore, flagsText: MF.Flags -> string)
      ensures this.store == store && this.flagsText == flagsText
    {
      this.store := store;
      this.flagsText := flagsText;
    }

    /** `add`: stores the message's puts. */
    method Add(msg: Message)
      modifies store
      ensures store.table == IS.ApplyPuts(old(store.table),
        seq(|msg.content|, i requires 0 <= i < |msg.content| => EntryPut(store.names, msg, msg.content[i])))
    {
      var puts := LegacyIndexMessage(store.names, msg);
      assert puts == seq(|msg.content|, i requires 0 <= i < |msg.content| => EntryPut(store.names, msg, msg.content[i]));
      store.StoreMail(puts);
    }

    method Delete(m: Uuid, range: seq<long>)
      modifies store
      ensures store.table == DeleteUids(old(store.table), UuidToBytes(m), range)
    {
      DeleteFromIndex(store, UuidToBytes(m), range);
    }

    /** `update`: for each uid, every row `retrieveMails(mailbox, uid)`
        returns gets the flags text in that uid's cell. */
    method Update(m: Uuid, range: seq<long>, flags: MF.Flags)
      modifies store
      ensures store.table == UpdateUids(old(store.table), UuidToBytes(m), range, Utf8.Encode(flagsText(flags)))
    {
      var mailbox := UuidToBytes(m);
      var i := 0;
      while i < |range|
        invariant 0 <= i <= |range|
        invariant store.table == UpdateUids(old(store.table), mailbox, range[..i], Utf8.Encode(flagsText(flags)))
      {
        UpdateUidsStep(old(store.table), mailbox, range, i, Utf8.Encode(flagsText(flags)));
        UpdateUidRows(mailbox, range[i], flagsText(flags));
        i := i + 1;
      }
      assert range[..i] == range;
    }

    /** One uid of `update`: each row `retrieveMails(mailbox, uid)` returns
        gets the text in that uid's cell. */
    method UpdateUidRows(mailbox: Row, uid: long, text: string)
      modifies store
      ensures store.table == UpdateUid(old(store.table), mailbox, uid, Utf8.Encode(text))
    {
      ghost var before := store.table;
      ghost var q, v := LongToBytes(uid), Utf8.Encode(text);
      var scanned := store.RetrieveMailsForUid(mailbox, uid);
      RetrievedRows(before, mailbox, uid, scanned, store.find);
      var rows := scanned.Keys;
      ghost var done: set<Row> := {};
      WriteRowsNone(before, q, v);
      while rows != {}
        invariant rows !! done && rows + done == scanned.Keys
        invariant store.table == WriteRows(before, done, q, v)
        decreases rows
      {
        var row :| row in rows;
        store.UpdateFlags(row, uid, text);
        WriteRowsAdd(before, done, row, q, v);
        rows := rows - {row};
        done := done + {row};
      }
    }

    /** `search`: the query of all criteria, scanned. The scanner fails
        (an `IOException`, logged) once `failAfter` rows were delivered, and
        the uids collected until then are returned. */
    method Search(m: Uuid, criteria: seq<Criterion>, failAfter: Option<nat>)
      returns (r: Result<seq<long>, SearchError>, ghost delivered: set<Row>)
      ensures LegacyCriteriaQuery(criteria).Failure? ==> r == Failure(LegacyCriteriaQuery(criteria).error)
      ensures LegacyCriteriaQuery(criteria).Success? ==>
        var scanned := IS.QueryScan(store.names, store.cal, store.find, store.table, UuidToBytes(m),
                                    LegacyCriteriaQuery(criteria).value);
        scanned.Success? && r.Success? &&
        var n := DeliveredCount(scanned.value, failAfter);
        r.value == ScanUids(scanned.value, n) &&
        delivered == RowsOf(SortedKeys(scanned.value.Keys)[..n]) &&
        Distinct(r.value) &&
        delivered <= scanned.value.Keys &&
        |delivered| == n &&
        (failAfter.None? ==> delivered == scanned.value.Keys) &&
        (forall a, b :: a in delivered && b in scanned.value && b !in delivered ==> LexLeq(a, b)) &&
        (forall u :: u in r.value <==> u in UidsOfRows(scanned.value, delivered))
    {
      var create := (c: Criterion) => LegacyCreateQuery(c);
      var queries: Query := [];
      var i := 0;
      while i < |criteria|
        invariant 0 <= i <= |criteria|
        invariant GatherWith(create, criteria[..i]) == Success(queries)
      {
        assert criteria[..i + 1][..i] == criteria[..i];
        var q := LegacyCreateQuery(criteria[i]);
        if q.Failure? {
          CriteriaAbortsAfter(create, criteria, i + 1);
          r, delivered := Failure(q.error), {};
          return;
        }
        queries := queries + q.value;
        i := i + 1;
      }
      assert criteria[..i] == criteria;
      LegacyQueryCompiles(store.names, store.cal, UuidToBytes(m), criteria);
      var scanned := store.RetrieveMailsForQueries(UuidToBytes(m), queries);
      var uids;
      uids, delivered := CollectUids(scanned.value, failAfter);
      ScanUidsElements(scanned.value, DeliveredCount(scanned.value, failAfter));
      DeliveredRows(scanned.value, DeliveredCount(scanned.value, failAfter));
      r := Success(uids);
    }
  }

}
