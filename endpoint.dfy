/** `RowFilteringEndpoint`, the server-side coprocessor that runs a query
    scan next to the data and returns the matching uids. Its table is the
    region's index table, passed in as `t`. */
module Endpoint {
  import opened Wrappers
  import opened Bytes
  import opened Text
  import opened Fields
  import opened Filters
  import opened ScanOrder
  import opened IndexStore

  /** The filters `filterByQueries` adds for one entry: FLAGS as the store
      does, every other field, SENT_DATE included, as a prefix-or-regex pair. */
  function EndpointEntryFilters(names: Names, m: Row, field: Field, value: string): (r: seq<Filter>)
  {
    var term := Upper(value);
    var prefix := FieldPrefix(names, m, field);
    if field == Flags then [FlagFilter(prefix, term)] else TermFilters(prefix, term)
  }

  function EndpointCompile(names: Names, m: Row, queries: seq<(Field, string)>): (r: seq<Filter>)
  {
    if queries == [] then []
    else
      var last := queries[|queries| - 1];
      EndpointCompile(names, m, queries[..|queries| - 1]) + EndpointEntryFilters(names, m, last.0, last.1)
  }

  /** `extractIds`: every qualifier of every scanned row, decoded, once
      each, in the order of first appearance as the rows come in key order
      and each row's qualifiers in qualifier order. */
  method ExtractIds(scanned: Table) returns (uids: seq<long>)
    ensures uids == ScanUids(scanned, |scanned|)
    ensures Distinct(uids)
    ensures forall u :: u in uids <==> u in UidsOf(scanned)
  {
    ghost var visited;
    uids, visited := CollectUids(scanned, None);
    ScanUidsElements(scanned, |scanned|);
    DeliveredRows(scanned, |scanned|);
  }

  /** `filterByQueries`: the `MUST_PASS_ONE` list built entry by entry, then
      the uids of the scan. An empty query matches nothing. */
  method FilterByQueries(names: Names, find: Finder, t: Table, m: Row, queries: seq<(Field, string)>)
    returns (uids: seq<long>)
    ensures uids == ScanUids(Scan(t, PassOne(EndpointCompile(names, m, queries)), find), |Scan(t, PassOne(EndpointCompile(names, m, queries)), find)|)
    ensures Distinct(uids)
    ensures forall u :: u in uids <==> u in UidsOf(Scan(t, PassOne(EndpointCompile(names, m, queries)), find))
  {
    var list: seq<Filter> := [];
    var i := 0;
    while i < |queries|
      invariant 0 <= i <= |queries|
      invariant list == EndpointCompile(names, m, queries[..i])
    {
      assert queries[..i + 1][..i] == queries[..i];
      var (field, value) := queries[i];
      list := list + EndpointEntryFilters(names, m, field, value);
      i := i + 1;
    }
    assert queries[..i] == queries;
    uids := ExtractIds(Scan(t, PassOne(list), find));
  }

  /** `filterByMailbox`: the uids of every row of the mailbox. */
  method FilterByMailbox(find: Finder, t: Table, m: Row) returns (uids: seq<long>)
    ensures uids == ScanUids(Scan(t, RowPrefix(m), find), |Scan(t, RowPrefix(m), find)|)
    ensures Distinct(uids)
    ensures forall u :: u in uids <==> exists row, q :: row in t && m <= row && q in t[row] && u == BytesToLong(q)
  {
    uids := ExtractIds(Scan(t, RowPrefix(m), find));
    MailboxUids(find, t, m);
  }

  /** The uids of a prefix scan of mailbox `m` are those of its rows. */
  lemma MailboxUids(find: Finder, t: Table, m: Row)
    ensures forall u :: u in UidsOf(Scan(t, RowPrefix(m), find)) <==>
      exists row, q :: row in t && m <= row && q in t[row] && u == BytesToLong(q)
  {
    forall u ensures u in UidsOf(Scan(t, RowPrefix(m), find)) <==>
      exists row, q :: row in t && m <= row && q in t[row] && u == BytesToLong(q)
    {
      PrefixScanUids(t, m, find, u);
    }
  }

  /** Without SENT_DATE entries the coprocessor builds exactly the filter
      list of `HBaseIndexStore.retrieveMails`. */
  lemma {:induction false} EndpointAgreesWithStore(names: Names, cal: Calendar, m: Row, queries: seq<(Field, string)>)
    requires forall k :: 0 <= k < |queries| ==> queries[k].0 != SentDate
    ensures Compile(names, cal, m, queries) == Success(EndpointCompile(names, m, queries))
  {
    if queries != [] {
      var init := queries[..|queries| - 1];
      EndpointAgreesWithStore(names, cal, m, init);
    }
  }

  /** On SENT_DATE the two differ: the store builds a date range, the
      coprocessor a prefix-or-regex pair on the raw term. */
  lemma EndpointDiffersOnSentDate(names: Names, cal: Calendar, m: Row, value: string)
    ensures EntryFilters(names, cal, m, SentDate, value) != Success(EndpointEntryFilters(names, m, SentDate, value))
  {
  }

  /** The FLAGS and prefix alternatives select only rows of the entry's field
      in mailbox `m`; the regular expression alone is unconfined. */
  lemma EndpointEntryConfined(names: Names, m: Row, field: Field, value: string,
                              find: Finder, row: Row, v: seq<byte>, i: nat)
    requires i < |EndpointEntryFilters(names, m, field, value)|
    requires !EndpointEntryFilters(names, m, field, value)[i].RowRegex?
    requires Includes(EndpointEntryFilters(names, m, field, value)[i], find, row, v)
    ensures FieldPrefix(names, m, field) <= row
    ensures m <= row
  {
    var prefix := FieldPrefix(names, m, field);
    var f := EndpointEntryFilters(names, m, field, value)[i];
    if field == Flags {
      assert Includes(f.filters[0], find, row, v);
    } else {
      assert prefix <= prefix + Utf8.Encode(Upper(value));
    }
    assert m <= prefix;
  }
}
