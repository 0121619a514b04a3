# Hbaluin search index, modelled in Dafny

Hbaluin indexes IMAP mailboxes for search in an HBase table. Every indexed
term of a message becomes a row whose key is the 16-byte mailbox UUID, one
field-id byte and the term bytes. The column qualifier is the message uid as
8 big-endian bytes. The cell value is an empty sentinel, except in the FLAGS
row, where it holds the message's flag text. IMAP SEARCH criteria are turned
into a field-to-term multimap. That multimap is compiled into an HBase filter
tree, and a search returns the uids found in the qualifiers of the rows that
pass. Beside the index, the repository keeps byte-buffer "directories" for
Lucene segment files, a term-to-postings map, an Avro schema registry and the
in-memory message the store tests use.

The model covers that core:

- `Bytes`, `Utf8` and `Text`: the library behaviour the core relies on.
  - `Bytes.toBytes(long)` and `Bytes.toLong`, and byte-wise row order.
  - `Bytes.toBytes(String)` and `Bytes.toString` as UTF-8.
  - `toUpperCase(Locale.ENGLISH)`, `Long.toString` and `Long.parseLong`.
  - Java `int` and `long` wrap-around is written out as `Wrap32` and `Wrap64`.
- `Fields`: `MessageFields`, with the field ids and the sentinel values as
  parameters. The codec relies on distinct fields having distinct ids.
- `RowCodec`: the row-key codec.
- `MailFlags`: the flag text written into the FLAGS row.
- `ScanOrder`: the order a scan delivers rows and qualifiers in (ascending
  unsigned byte order) and the insertion-ordered set (`LinkedHashSet`) the
  uids are gathered into.
- `Filters`: the HBase filters used, evaluated per cell over an in-memory
  table `map<row, map<qualifier, value>>`, and scans over that table.
- `IndexStore`: `HBaseIndexStore`, its filter compiler and the single-cell
  mutations.
- `Endpoint`: `RowFilteringEndpoint`.
- `Listener` and `LegacyListener`: the two revisions of
  `MessageSearchIndexListener`.
- `SegmentDirectory`: the main `HBaseDirectory`, with `HIndexOutput` and
  `HIndexInput`.
- `MemoryDirectory`: the in-memory `HBaseDirectory` and `HBaseFile` of the
  LuceneTest module.
- `TermIndex`: `TermDocument` and `TermDocuments`.
- `AvroSchemas`: `AvroUtils`.
- `Membership`: `SimpleMailboxMembership`.

Objects whose fields the source updates are classes with `modifies` frames.
Loops of the source are loops proved against specification functions. A
HashMap's unspecified iteration order is a ghost out-parameter, and the
contracts hold for every order; a scan's rows and a row's qualifiers come in
their sorted order, which the search results keep. Where the code and its documentation
disagree, the model follows the code. A few examples:

- The legacy listener never emits SENT_DATE.
- `HBaseFile.getLength` counts buffers, not bytes.
- `deleteFile` in the in-memory directory adds the removed file's size to
  the counter instead of subtracting it.
- `SimpleMailboxMembership`'s constructor ignores its `modSeq` argument.
- `getFullContentOctets` returns the size given to the constructor.
- `equals` compares the mailbox `UUID` objects by reference.

## Model

| member | source | states |
|---|---|---|
| Bytes.LongRoundTrip | src/main/java/org/apache/james/mailbox/hbase/index/MessageSearchIndexListener.java:107 | decoding the 8-byte big-endian qualifier of a uid gives the uid back |
| Bytes.LongToBytes | src/main/java/org/apache/james/mailbox/hbase/index/MessageSearchIndexListener.java:107 | `Bytes.toBytes(long)`: the first byte has its high bit set exactly for a negative value |
| Bytes.BytesToLong | src/main/java/org/apache/james/mailbox/hbase/index/MessageSearchIndexListener.java:209 | `Bytes.toLong`: negative exactly when the high bit of the first byte is set |
| Bytes.SignByte | src/main/java/org/apache/james/mailbox/hbase/index/MessageSearchIndexListener.java:209 | a qualifier's unsigned value reaches 2^63 exactly when its first byte's high bit is set |
| Bytes.BigEndianValueFirst | src/main/java/org/apache/james/mailbox/hbase/index/MessageSearchIndexListener.java:209 | a big-endian value is its first byte times 256^(n-1) plus the value of the rest |
| Bytes.Wrap64 | LuceneTest/src/main/java/org/apache/james/mailbox/lucene/hbase/HBaseFile.java:54 | a Java long result: congruent to the exact value modulo 2^64, and equal to it when it fits |
| Bytes.Wrap32 | src/test/java/org/apache/james/mailbox/hbase/store/SimpleMailboxMembership.java:274 | a Java int cast: congruent to the exact value modulo 2^32, and equal to it when it fits |
| Bytes.QualifierRoundTrip | src/main/java/org/apache/james/mailbox/hbase/index/MessageSearchIndexListener.java:208-209 | every 8-byte qualifier is the encoding of the long it decodes to |
| Bytes.LongToBytesInjective | src/main/java/org/apache/james/mailbox/hbase/index/MessageSearchIndexListener.java:107 | distinct uids have distinct qualifiers, in both directions |
| Bytes.BigEndianRoundTrip | src/main/java/org/apache/james/mailbox/hbase/index/MessageSearchIndexListener.java:118-121 | reading a fixed-width big-endian encoding back gives the number encoded |
| Bytes.BigEndianInverse | src/main/java/org/apache/james/mailbox/hbase/index/MessageSearchIndexListener.java:208-209 | every byte sequence is the fixed-width big-endian encoding of the number it denotes |
| Bytes.PrefixOrderDominates | src/main/java/org/apache/james/mailbox/hbase/store/HBaseIndexStore.java:74-80 | rows whose equal-length prefixes differ are ordered by those prefixes, whatever follows |
| Utf8.DecodeEncode | src/main/java/org/apache/james/mailbox/hbase/index/MessageSearchIndexListener.java:136-139 | `Bytes.toString` inverts `Bytes.toBytes` on every string |
| Utf8.EncodeInjective | src/main/java/org/apache/james/mailbox/hbase/index/MessageSearchIndexListener.java:111 | distinct terms are written as distinct row suffixes |
| Utf8.EncodeAppend | src/main/java/org/apache/james/mailbox/hbase/store/HBaseIndexStore.java:144 | the encoding of a concatenation is the concatenation of the encodings |
| Utf8.EncodeAscii | src/main/java/org/apache/james/mailbox/hbase/store/HBaseIndexStore.java:134-137 | an ASCII text such as a decimal date is encoded one byte per character, each byte its code |
| Utf8.Encode | src/main/java/org/apache/james/mailbox/hbase/index/MessageSearchIndexListener.java:111 | `Bytes.toBytes(String)` writes one to four bytes per character |
| Utf8.EncodeChar | src/main/java/org/apache/james/mailbox/hbase/index/MessageSearchIndexListener.java:111 | one character takes one to four bytes, one exactly when it is ASCII, and then that byte is its code |
| Utf8.EncodeOneBytePerChar | src/main/java/org/apache/james/mailbox/hbase/store/HBaseIndexStore.java:134-137 | only ASCII text encodes in one byte per character, the converse of EncodeAscii |
| Utf8.Decode | src/main/java/org/apache/james/mailbox/hbase/index/MessageSearchIndexListener.java:138 | `Bytes.toString` yields at most one character per byte, and at least one for a non-empty array |
| Utf8.DecodeAscii | src/main/java/org/apache/james/mailbox/hbase/index/MessageSearchIndexListener.java:138 | ASCII bytes decode byte for byte |
| Text.Upper | src/main/java/org/apache/james/mailbox/hbase/store/HBaseIndexStore.java:100 | upper-casing keeps the length and maps each ASCII lower-case letter to its capital, other characters unchanged |
| Text.UpperIsUpperCased | src/main/java/org/apache/james/mailbox/hbase/store/HBaseIndexStore.java:100 | an upper-cased term contains no lower-case letter, and upper-casing such a term changes nothing |
| Text.ContainsLower | src/main/java/org/apache/james/mailbox/hbase/store/HBaseIndexStore.java:108-109 | the substring comparator, which lower-cases both sides, still finds a contained term |
| Text.IndexOf | src/main/java/org/apache/james/mailbox/hbase/store/HBaseIndexStore.java:116 | `indexOf` gives the first position of the character, or -1 exactly when it is absent |
| Text.LongToString | src/main/java/org/apache/james/mailbox/hbase/index/MessageSearchIndexListener.java:254 | `Long.toString` gives digits, led by a minus sign for a negative number |
| Text.ParseLongToString | src/main/java/org/apache/james/mailbox/hbase/store/HBaseIndexStore.java:117 | `Long.parseLong` inverts `Long.toString` on every long |
| Text.ParseLongRejects | src/main/java/org/apache/james/mailbox/hbase/store/HBaseIndexStore.java:117 | `Long.parseLong` rejects a text with a non-digit past the sign position |
| Text.ParseLong | src/main/java/org/apache/james/mailbox/hbase/store/HBaseIndexStore.java:117 | `Long.parseLong` accepts only an optional sign followed by digits, is negative only after a minus sign, and gives a digit string its decimal value when that fits a long |
| Fields.KnownComplete | src/main/java/org/apache/james/mailbox/hbase/index/MessageSearchIndexListener.java:128-134 | the fields `rowToField` searches are exactly the fields other than NOT_FOUND |
| RowCodec.UuidToBytes | src/main/java/org/apache/james/mailbox/hbase/index/MessageSearchIndexListener.java:118-121 | a mailbox id is written as 16 bytes |
| RowCodec.RowToUuid | src/main/java/org/apache/james/mailbox/hbase/index/MessageSearchIndexListener.java:123-126 | the UUID is read exactly when the row has at least 16 bytes, and it re-encodes to the first 16 |
| RowCodec.FirstWithId | src/main/java/org/apache/james/mailbox/hbase/index/MessageSearchIndexListener.java:130-133 | the search returns a field with the byte as its id, or NOT_FOUND when no field has it |
| RowCodec.RowToField | src/main/java/org/apache/james/mailbox/hbase/index/MessageSearchIndexListener.java:128-134 | a field is read exactly when the row has at least 17 bytes; it is the field whose id is byte 16, or NOT_FOUND when no field has that id |
| RowCodec.RowToTerm | src/main/java/org/apache/james/mailbox/hbase/index/MessageSearchIndexListener.java:136-139 | the term is read exactly when the row has at least 17 bytes |
| RowCodec.UuidRoundTrip | src/main/java/org/apache/james/mailbox/hbase/index/MessageSearchIndexListener.java:118-126 | `rowToUUID` inverts `uuidToBytes` |
| RowCodec.RowKeyRoundTrip | src/main/java/org/apache/james/mailbox/hbase/index/MessageSearchIndexListener.java:111 | the three decoders recover the mailbox, field and term of every row key |
| RowCodec.RowKeyInjective | src/main/java/org/apache/james/mailbox/hbase/index/MessageSearchIndexListener.java:111 | two row keys are equal exactly when mailbox, field and term are |
| RowCodec.RowKeyInMailbox | src/main/java/org/apache/james/mailbox/hbase/store/HBaseIndexStore.java:74-80 | every row of a mailbox starts with the mailbox bytes and with the mailbox-and-field prefix |
| RowCodec.MailboxRowsContiguous | src/main/java/org/apache/james/mailbox/hbase/store/HBaseIndexStore.java:74-80 | all rows of one mailbox sort before all rows of a later mailbox |
| RowCodec.FieldRowsOrdered | src/main/java/org/apache/james/mailbox/hbase/store/HBaseIndexStore.java:134-137 | within a mailbox, the rows of a field with a smaller id sort first |
| MailFlags.SystemOrderComplete | src/main/java/org/apache/james/mailbox/hbase/index/MessageSearchIndexListener.java:503-518 | the system-flag order covers every system flag |
| MailFlags.SystemFlagsIn | src/main/java/org/apache/james/mailbox/hbase/index/MessageSearchIndexListener.java:511-512 | a flag is listed exactly when it is set and appears in the given order, and the list is no longer than that order |
| MailFlags.SystemFlags | src/main/java/org/apache/james/mailbox/hbase/index/MessageSearchIndexListener.java:509 | `getSystemFlags` lists exactly the set system flags |
| MailFlags.Tokens | src/main/java/org/apache/james/mailbox/hbase/index/MessageSearchIndexListener.java:511-512 | one token per listed flag, in order |
| MailFlags.ParseFlagsContent | src/main/java/org/apache/james/mailbox/hbase/index/MessageSearchIndexListener.java:503-518 | the builder loop produces the flag text: the sentinel text with no flags, else the system tokens and then the user flags |
| MailFlags.ConcatSnoc | src/main/java/org/apache/james/mailbox/hbase/index/MessageSearchIndexListener.java:509-516 | appending one token to the builder extends the text by that token |
| MailFlags.FlagsContentNoFlags | src/main/java/org/apache/james/mailbox/hbase/index/MessageSearchIndexListener.java:508-509 | a message without system or user flags gets the sentinel text |
| MailFlags.FlagsContentHasTokens | src/main/java/org/apache/james/mailbox/hbase/index/MessageSearchIndexListener.java:511-512 | the flag text contains the token of every set system flag |
| MailFlags.SeenTokenInFlaggedOnly | src/main/java/org/apache/james/mailbox/hbase/index/MessageSearchIndexListener.java:526-542 | a message flagged only \Flagged has a flag text that contains the SEEN token, ignoring case |
| MailFlags.FlagToken | src/main/java/org/apache/james/mailbox/hbase/index/MessageSearchIndexListener.java:526-542 | every token is a backslash keyword of at least five characters |
| MailFlags.FlagTokenAgrees | src/main/java/org/apache/james/mailbox/hbase/index/MessageSearchIndexListener.java:526-542 | every token but SEEN's is the RFC 3501 token; SEEN's differs and is a proper prefix of FLAGGED's |
| MailFlags.ConcatOfTokens | src/main/java/org/apache/james/mailbox/hbase/index/MessageSearchIndexListener.java:511-512 | in text built from a prefix-free token alphabet, a token occurs exactly when it is one of the parts |
| MailFlags.LoweredTokensAlphabet | src/main/java/org/apache/james/mailbox/hbase/index/MessageSearchIndexListener.java:526-542 | the intended flag tokens, lower-cased, are distinct and prefix-free |
| MailFlags.CorrectedTokensFoundExactly | src/main/java/org/apache/james/mailbox/hbase/index/MessageSearchIndexListener.java:526-542 | with a distinct token per flag, a flag's token occurs in the flag text exactly when the flag is set |
| Filters.UidsOfRowsAdd | src/main/java/org/apache/james/mailbox/hbase/index/MessageSearchIndexListener.java:206-208 | the uids of one more scanned row are added to those already collected |
| Filters.AddQualifierUids | src/main/java/org/apache/james/mailbox/hbase/index/MessageSearchIndexListener.java:208-209 | a row's qualifiers are added in ascending qualifier order, each uid not yet present joining at the end: the result is the insertion-ordered set's `AddAll`, duplicate-free, holding exactly the old uids and the row's |
| Filters.RowUidsElements | src/main/java/org/apache/james/mailbox/hbase/index/MessageSearchIndexListener.java:208-209 | a row hands over the uid of each of its qualifiers and no other |
| Filters.UidStreamElements | src/main/java/org/apache/james/mailbox/hbase/index/MessageSearchIndexListener.java:207-209 | the uids handed over by a run of rows are exactly those rows' uids |
| Filters.UidStreamPrefix | src/main/java/org/apache/james/mailbox/hbase/index/MessageSearchIndexListener.java:207-209 | the uids of the rows handed over first come first |
| Filters.DeliveredCount | src/main/java/org/apache/lucene/index/MessageSearchIndexListener.java:197-204 | a scanner failing after n rows delivers n rows, or every row when the table has no more than n; without a failure it delivers every row |
| Filters.CollectUids | src/main/java/org/apache/james/mailbox/hbase/index/MessageSearchIndexListener.java:198-209 | the uids returned are the insertion-ordered set filled from the rows in ascending key order, each row's qualifiers in ascending order, over the first `DeliveredCount` rows; the delivered rows are exactly those first rows |
| Filters.RowsOfAscending | src/main/java/org/apache/james/mailbox/hbase/index/MessageSearchIndexListener.java:207 | the first n rows of the scan are n different rows |
| Filters.DeliveredRows | src/main/java/org/apache/lucene/index/MessageSearchIndexListener.java:197-204 | the rows delivered before a failure are n different rows of the table, each before every row not delivered in byte order, and all rows when n reaches the table size |
| Filters.ScanUidsElements | src/main/java/org/apache/james/mailbox/hbase/index/MessageSearchIndexListener.java:198-209 | the collected set is duplicate-free and holds exactly the uids of the delivered rows |
| Filters.CollectedPrefix | src/main/java/org/apache/james/mailbox/hbase/index/MessageSearchIndexListener.java:207-209 | the set after the first n rows is a prefix of the set after the first m >= n rows |
| Filters.ScanUidsPrefix | src/main/java/org/apache/lucene/index/MessageSearchIndexListener.java:197-204 | a search whose scanner fails returns a prefix, in order, of what the complete search returns |
| ScanOrder.LexLeqTotal | src/main/java/org/apache/james/mailbox/hbase/store/HBaseIndexStore.java:137-139 | any two keys are comparable in unsigned byte order |
| ScanOrder.LexLeqAntisymmetric | src/main/java/org/apache/james/mailbox/hbase/store/HBaseIndexStore.java:137-139 | keys that compare both ways are equal |
| ScanOrder.LexLeqTransitive | src/main/java/org/apache/james/mailbox/hbase/store/HBaseIndexStore.java:137-139 | unsigned byte order is transitive |
| ScanOrder.LeastExists | src/main/java/org/apache/james/mailbox/hbase/index/MessageSearchIndexListener.java:207 | every non-empty set of row keys has a first key in scan order |
| ScanOrder.SortedKeys | src/main/java/org/apache/james/mailbox/hbase/index/MessageSearchIndexListener.java:207-208 | the scan order of a key set: strictly ascending in byte order, holding exactly the set's keys |
| ScanOrder.AscendingUnique | src/main/java/org/apache/james/mailbox/hbase/index/MessageSearchIndexListener.java:207 | two ascending sequences of the same keys are equal |
| ScanOrder.SortedKeysUnique | src/main/java/org/apache/james/mailbox/hbase/index/MessageSearchIndexListener.java:207 | any ascending enumeration of the keys is the scan order |
| ScanOrder.AddAllAppend | src/main/java/org/apache/james/mailbox/hbase/index/MessageSearchIndexListener.java:209 | adding two runs one after the other is adding their concatenation |
| ScanOrder.AddAllElements | src/main/java/org/apache/james/mailbox/hbase/index/MessageSearchIndexListener.java:198-209 | the insertion-ordered set stays duplicate-free and holds what it held plus every element added |
| ScanOrder.AddAllExtends | src/main/java/org/apache/james/mailbox/hbase/index/MessageSearchIndexListener.java:209 | adding never removes or reorders what the set held |
| ScanOrder.FirstIndex | src/main/java/org/apache/james/mailbox/hbase/index/MessageSearchIndexListener.java:198 | the first occurrence of an element: it is there and nowhere before |
| ScanOrder.FirstIndexUnique | src/main/java/org/apache/james/mailbox/hbase/index/MessageSearchIndexListener.java:198 | the occurrence with none before it is the first occurrence |
| ScanOrder.AddAllFirstSeen | src/main/java/org/apache/james/mailbox/hbase/index/MessageSearchIndexListener.java:198-209 | starting empty, the set iterates its elements in the order of their first occurrence among the added elements |
| IndexStore.ResolutionValueOf | src/main/java/org/apache/james/mailbox/hbase/store/HBaseIndexStore.java:160 | `Resolution.valueOf` returns the resolution with that name, and fails exactly when none has it |
| IndexStore.HBaseIndexStore.constructor | src/main/java/org/apache/james/mailbox/hbase/store/HBaseIndexStore.java:44-52 | the store starts with an empty index table |
| IndexStore.MaxResolution | src/main/java/org/apache/james/mailbox/hbase/store/HBaseIndexStore.java:156-178 | YEAR and MONTH step the calendar field; DAY to SECOND add one unit in milliseconds, modulo 2^64; MILLISECOND keeps the time |
| IndexStore.GetMaxResolution | src/main/java/org/apache/james/mailbox/hbase/store/HBaseIndexStore.java:156-160 | it fails exactly when the name is not a resolution name |
| IndexStore.ParseDateTerm | src/main/java/org/apache/james/mailbox/hbase/store/HBaseIndexStore.java:115-133 | the millisecond text after the first separator is parsed first (number-format error); then a separator at index 0, or none, is index-out-of-bounds; then the resolution name must exist (illegal-argument); on success operator '0' starts at the time, '1' is from the calendar minimum to the time, '2' ends at the calendar maximum, and any other operator gives bounds 0 and 0 |
| IndexStore.MaxResolutionExact | src/main/java/org/apache/james/mailbox/hbase/store/HBaseIndexStore.java:167-174 | without overflow, DAY to SECOND give exactly time plus one unit |
| IndexStore.EntryFilters | src/main/java/org/apache/james/mailbox/hbase/store/HBaseIndexStore.java:99-150 | each entry compiles to at least one filter, and only a SENT_DATE entry can fail |
| IndexStore.Compile | src/main/java/org/apache/james/mailbox/hbase/store/HBaseIndexStore.java:99-150 | a successful compilation has at least one filter per entry |
| IndexStore.CompileWith | src/main/java/org/apache/james/mailbox/hbase/store/HBaseIndexStore.java:99-150 | the compiler loop gives at least one filter per entry whenever every entry's own compilation does |
| IndexStore.AddEntry | src/main/java/org/apache/james/mailbox/hbase/store/HBaseIndexStore.java:99-150 | the filter list grows by an entry's filters, and the first failure stops the compilation |
| IndexStore.PutCell | src/main/java/org/apache/james/mailbox/hbase/store/HBaseIndexStore.java:197-201 | a put writes one cell and leaves every other cell of every row unchanged |
| IndexStore.DeleteCell | src/main/java/org/apache/james/mailbox/hbase/store/HBaseIndexStore.java:181-185 | a delete removes one qualifier of one row and leaves every other cell unchanged |
| IndexStore.ApplyPutsCell | src/main/java/org/apache/james/mailbox/hbase/store/HBaseIndexStore.java:68-72 | after a batch of puts each cell holds the value of its last put, and cells no put touches are unchanged |
| IndexStore.LastWrite | src/main/java/org/apache/james/mailbox/hbase/store/HBaseIndexStore.java:68-72 | the last put of a cell in the batch exists and no later put writes it |
| IndexStore.StorePutsIdempotent | src/main/java/org/apache/james/mailbox/hbase/store/HBaseIndexStore.java:68-72 | storing the same puts twice leaves the table as storing them once |
| IndexStore.PrefixScanRows | src/main/java/org/apache/james/mailbox/hbase/store/HBaseIndexStore.java:74-80 | a mailbox scan returns exactly the non-empty rows that start with the mailbox bytes, with all their cells |
| IndexStore.PrefixScanUids | src/main/java/org/apache/james/mailbox/hbase/store/HBaseIndexStore.java:74-80 | the uids of a mailbox scan are exactly the qualifiers of the mailbox's rows |
| IndexStore.HBaseIndexStore.StoreMail | src/main/java/org/apache/james/mailbox/hbase/store/HBaseIndexStore.java:68-72 | the puts are applied to the table in order |
| IndexStore.HBaseIndexStore.RetrieveMails | src/main/java/org/apache/james/mailbox/hbase/store/HBaseIndexStore.java:74-81 | the scan returns exactly the non-empty rows under the mailbox prefix |
| IndexStore.HBaseIndexStore.RetrieveMailsForUid | src/main/java/org/apache/james/mailbox/hbase/store/HBaseIndexStore.java:83-92 | uid 0 scans the whole mailbox; any other uid returns the mailbox rows holding that qualifier, projected to that one column |
| IndexStore.HBaseIndexStore.CompileQueries | src/main/java/org/apache/james/mailbox/hbase/store/HBaseIndexStore.java:97-150 | the filter-building loop gives the compiled OR list |
| IndexStore.HBaseIndexStore.RetrieveMailsForQueries | src/main/java/org/apache/james/mailbox/hbase/store/HBaseIndexStore.java:94-153 | no queries scan the whole mailbox; otherwise the scan uses the compiled OR list |
| IndexStore.HBaseIndexStore.DeleteMail | src/main/java/org/apache/james/mailbox/hbase/store/HBaseIndexStore.java:181-185 | only the (row, uid) cell is removed |
| IndexStore.HBaseIndexStore.RetrieveFlags | src/main/java/org/apache/james/mailbox/hbase/store/HBaseIndexStore.java:191-195 | the FLAGS row of the mailbox is read, restricted to the uid's qualifier; nothing comes back when that cell is absent |
| IndexStore.HBaseIndexStore.UpdateFlags | src/main/java/org/apache/james/mailbox/hbase/store/HBaseIndexStore.java:197-201 | only the (row, uid) cell is overwritten, with the flag text's bytes |
| IndexStore.CompileAbortsAfter | src/main/java/org/apache/james/mailbox/hbase/store/HBaseIndexStore.java:99-117 | a failing entry aborts the whole compilation with its error |
| IndexStore.CompileIsDisjunction | src/main/java/org/apache/james/mailbox/hbase/store/HBaseIndexStore.java:98-152 | a cell passes the compiled list exactly when it passes some entry's filters |
| IndexStore.PassOneConcat | src/main/java/org/apache/james/mailbox/hbase/store/HBaseIndexStore.java:98 | a MUST_PASS_ONE list over two lists passes exactly when one of them does |
| IndexStore.CompileSucceeds | src/main/java/org/apache/james/mailbox/hbase/store/HBaseIndexStore.java:142-149 | queries without SENT_DATE always compile |
| IndexStore.EntryFiltersConfined | src/main/java/org/apache/james/mailbox/hbase/store/HBaseIndexStore.java:102-146 | every non-regex alternative selects only rows under the mailbox-and-field prefix |
| IndexStore.DateRangeConfined | src/main/java/org/apache/james/mailbox/hbase/store/HBaseIndexStore.java:138-141 | a row between two keys below prefix p is itself below p |
| IndexStore.RangeConfined | src/main/java/org/apache/james/mailbox/hbase/store/HBaseIndexStore.java:134-137 | a row between two bounds with a common prefix has that prefix |
| IndexStore.CompileIgnoresCase | src/main/java/org/apache/james/mailbox/hbase/store/HBaseIndexStore.java:100 | upper-casing the terms first does not change the compiled filters |
| IndexStore.UpperValues | src/main/java/org/apache/james/mailbox/hbase/store/HBaseIndexStore.java:100 | every term upper-cased, fields and order kept |
| IndexStore.ResolutionRoundTrip | src/main/java/org/apache/james/mailbox/hbase/store/HBaseIndexStore.java:160 | `valueOf` inverts the resolution names |
| IndexStore.DateTermSeparator | src/main/java/org/apache/james/mailbox/hbase/store/HBaseIndexStore.java:115-118 | in an operator-resolution-separator-millis term, the first separator follows the resolution name and the millis follow it |
| IndexStore.ParseDateTermWellFormed | src/main/java/org/apache/james/mailbox/hbase/store/HBaseIndexStore.java:115-133 | a well-formed date term survives upper-casing and parses to [time, max] for ON, [MIN_DATE, time] for BEFORE and [max, MAX_DATE] for AFTER |
| Endpoint.ExtractIds | src/main/java/org/apache/james/mailbox/hbase/store/endpoint/RowFilteringEndpoint.java:66-73 | every qualifier of every scanned row, decoded, each once, in the order of first appearance with the rows in key order and each row's qualifiers in qualifier order |
| Endpoint.FilterByQueries | src/main/java/org/apache/james/mailbox/hbase/store/endpoint/RowFilteringEndpoint.java:25-54 | the uids of the rows that pass the endpoint's OR list, each once, in the first-seen order of the scan |
| Endpoint.FilterByMailbox | src/main/java/org/apache/james/mailbox/hbase/store/endpoint/RowFilteringEndpoint.java:57-64 | exactly the uids of the qualifiers of the rows under the mailbox prefix, each once, in the first-seen order of the scan |
| Endpoint.MailboxUids | src/main/java/org/apache/james/mailbox/hbase/store/endpoint/RowFilteringEndpoint.java:57-64 | the uids of a prefix scan of the mailbox are exactly those of its rows' qualifiers |
| Endpoint.EndpointAgreesWithStore | src/main/java/org/apache/james/mailbox/hbase/store/endpoint/RowFilteringEndpoint.java:28-50 | without SENT_DATE, the endpoint compiles the same filters as the store |
| Endpoint.EndpointDiffersOnSentDate | src/main/java/org/apache/james/mailbox/hbase/store/endpoint/RowFilteringEndpoint.java:42-49 | for SENT_DATE the endpoint compiles filters other than the store's date range |
| Endpoint.EndpointEntryConfined | src/main/java/org/apache/james/mailbox/hbase/store/endpoint/RowFilteringEndpoint.java:31-46 | every non-regex alternative selects only rows of the mailbox, under its field prefix |
| Listener.ToResolution | src/main/java/org/apache/james/mailbox/hbase/index/MessageSearchIndexListener.java:266-283 | no IMAP date resolution maps to MILLISECOND |
| Listener.ToResolutionNamed | src/main/java/org/apache/james/mailbox/hbase/index/MessageSearchIndexListener.java:266-283 | each IMAP date resolution maps to the Lucene resolution whose name is its own, upper-cased |
| Listener.MessageSearchIndexListener.constructor | src/main/java/org/apache/james/mailbox/hbase/index/MessageSearchIndexListener.java:80-83 | the listener keeps the store it is given |
| Listener.ToResolutionInjective | src/main/java/org/apache/james/mailbox/hbase/index/MessageSearchIndexListener.java:266-283 | distinct IMAP resolutions map to distinct Lucene resolutions |
| Listener.CreateInternalDateQuery | src/main/java/org/apache/james/mailbox/hbase/index/MessageSearchIndexListener.java:238-264 | ON gives one SENT_DATE entry, "0" followed by the rounded time; BEFORE and AFTER fall through to the unsupported-search error |
| Listener.CreateFlagQuery | src/main/java/org/apache/james/mailbox/hbase/index/MessageSearchIndexListener.java:285-289 | one FLAGS entry: the flag when set, the sentinel text otherwise |
| Listener.Tokenize | src/main/java/org/apache/james/mailbox/hbase/index/MessageSearchIndexListener.java:327-342 | one entry per token, under the field, upper-cased |
| Listener.CreateTextQuery | src/main/java/org/apache/james/mailbox/hbase/index/MessageSearchIndexListener.java:291-304 | BODY gives the upper-cased tokens under BODY; FULL gives them under BODY and then under HEADERS |
| Listener.GetHeaderField | src/main/java/org/apache/james/mailbox/hbase/index/MessageSearchIndexListener.java:344-356 | To, From, Cc, Bcc and Subject map to their fields ignoring case, each in both directions; any other header maps to PREFIX_HEADER |
| Listener.CreateHeaderQuery | src/main/java/org/apache/james/mailbox/hbase/index/MessageSearchIndexListener.java:306-325 | date operators are unsupported; contains gives the upper-cased value, exists gives the empty term, and an address gives its upper-cased tokens, all under the header's field |
| Listener.CreateQuery | src/main/java/org/apache/james/mailbox/hbase/index/MessageSearchIndexListener.java:219-236 | ALL gives the empty query; any unsupported criterion fails with the unsupported-search error |
| Listener.CriteriaQuery | src/main/java/org/apache/james/mailbox/hbase/index/MessageSearchIndexListener.java:199-201 | gathering the criteria can only fail with the unsupported-search error |
| Listener.GatherWith | src/main/java/org/apache/james/mailbox/hbase/index/MessageSearchIndexListener.java:199-201 | a failure of the gathering loop is the failure of one of the criteria |
| Listener.IndexMessage | src/main/java/org/apache/james/mailbox/hbase/index/MessageSearchIndexListener.java:101-116 | the FLAGS put comes first, then exactly one put per (field, term) entry, in order |
| Listener.DeleteUid | src/main/java/org/apache/james/mailbox/hbase/index/MessageSearchIndexListener.java:145-149 | the uid's qualifier leaves every row of the mailbox; rows outside it are unchanged |
| Listener.DeleteFromIndex | src/main/java/org/apache/james/mailbox/hbase/index/MessageSearchIndexListener.java:144-161 | the nested scan-and-delete loops remove each uid of the range from every mailbox row |
| Listener.MessageSearchIndexListener.Add | src/main/java/org/apache/james/mailbox/hbase/index/MessageSearchIndexListener.java:86-99 | the message's puts are stored |
| Listener.MessageSearchIndexListener.Delete | src/main/java/org/apache/james/mailbox/hbase/index/MessageSearchIndexListener.java:141-162 | every uid of the range is removed from every row of the mailbox |
| Listener.MessageSearchIndexListener.Update | src/main/java/org/apache/james/mailbox/hbase/index/MessageSearchIndexListener.java:174-193 | the FLAGS cells of the range are rewritten with the new flag text; an error is reported exactly when some uid of the range has no FLAGS cell |
| Listener.MessageSearchIndexListener.Search | src/main/java/org/apache/james/mailbox/hbase/index/MessageSearchIndexListener.java:195-214 | a criterion error or a store error is returned; otherwise exactly the uids of the scanned rows, each once, in first-seen order over the rows in key order |
| Listener.DeleteFromAdd | src/main/java/org/apache/james/mailbox/hbase/index/MessageSearchIndexListener.java:146-148 | deleting from one more scanned row extends the deletion to it |
| Listener.DeleteScanned | src/main/java/org/apache/james/mailbox/hbase/index/MessageSearchIndexListener.java:145-148 | deleting the uid from each row the uid scan returns equals deleting it from the whole mailbox |
| Listener.CriteriaAbortsAfter | src/main/java/org/apache/james/mailbox/hbase/index/MessageSearchIndexListener.java:199-201 | the first failing criterion decides the search's error |
| Listener.CriteriaQueryContains | src/main/java/org/apache/james/mailbox/hbase/index/MessageSearchIndexListener.java:199-201 | every entry of every criterion is in the gathered query |
| Listener.GatherFrom | src/main/java/org/apache/james/mailbox/hbase/index/MessageSearchIndexListener.java:199-201 | every entry of the gathered query comes from one of the criteria |
| Listener.GatherEmpty | src/main/java/org/apache/james/mailbox/hbase/index/MessageSearchIndexListener.java:199-201 | criteria that each give the empty query gather to the empty query |
| Listener.AllCriteriaMatchMailbox | src/main/java/org/apache/james/mailbox/hbase/index/MessageSearchIndexListener.java:221-222 | a search of ALL criteria gathers the empty query, which scans the whole mailbox |
| Listener.OnDateTermRejected | src/main/java/org/apache/james/mailbox/hbase/index/MessageSearchIndexListener.java:252-255 | the ON term the listener builds has no separator, so the store's date parser fails on it |
| Listener.InternalDateSearchFails | src/main/java/org/apache/james/mailbox/hbase/index/MessageSearchIndexListener.java:238-264 | any search holding an internal-date criterion fails, either in the listener or in the store |
| Listener.CreateInternalDateQueryCorrected | src/main/java/org/apache/james/mailbox/hbase/store/HBaseIndexStore.java:115-133 | one SENT_DATE entry for each of ON, BEFORE and AFTER |
| Listener.CorrectedDateQueryRange | src/main/java/org/apache/james/mailbox/hbase/store/HBaseIndexStore.java:115-141 | the corrected term compiles to the inclusive row range the store means for its operator |
| Listener.DeleteUidsEffect | src/main/java/org/apache/james/mailbox/hbase/index/MessageSearchIndexListener.java:141-162 | after delete, a mailbox row keeps exactly the qualifiers whose uid is not in the range, with their values; other rows are unchanged |
| Listener.DeleteRemovesFromMailbox | src/main/java/org/apache/james/mailbox/hbase/index/MessageSearchIndexListener.java:141-162 | the mailbox's uids after delete are those before, minus the range |
| Listener.UpdateFlagCellsEffect | src/main/java/org/apache/james/mailbox/hbase/index/MessageSearchIndexListener.java:174-193 | update rewrites only FLAGS cells of uids in the range; it completes exactly when every such uid has a FLAGS cell |
| Listener.UpdateFlagCells | src/main/java/org/apache/james/mailbox/hbase/index/MessageSearchIndexListener.java:174-193 | the table keeps its rows and every other row is untouched; an incomplete update names a uid of the range without a FLAGS cell |
| Listener.AddedMessageIndexed | src/main/java/org/apache/james/mailbox/hbase/index/MessageSearchIndexListener.java:101-116 | after add, the FLAGS cell holds the flag text and every entry's row holds the sentinel under the uid |
| Listener.EntryRowNotFlagsRow | src/main/java/org/apache/james/mailbox/hbase/index/MessageSearchIndexListener.java:106-113 | a term row is never the FLAGS row |
| Listener.FlagsCellStored | src/main/java/org/apache/james/mailbox/hbase/index/MessageSearchIndexListener.java:106-108 | after add, the FLAGS cell of the uid holds the flag text |
| Listener.EntryCellStored | src/main/java/org/apache/james/mailbox/hbase/index/MessageSearchIndexListener.java:110-114 | after add, each entry's row holds the sentinel under the uid |
| Listener.SearchFindsIndexedTerm | src/main/java/org/apache/james/mailbox/hbase/index/MessageSearchIndexListener.java:195-214 | a message indexed under a term that starts with the query's upper-cased value is found by the search |
| LegacyListener.LegacyTextQuery | src/main/java/org/apache/lucene/index/MessageSearchIndexListener.java:221-234 | BODY gives the whole upper-cased value under BODY; FULL gives it under BODY and under HEADERS, untokenised |
| LegacyListener.LegacyMessageSearchIndexListener.constructor | src/main/java/org/apache/lucene/index/MessageSearchIndexListener.java:74-77 | the listener keeps the store it is given |
| LegacyListener.LegacyCreateQuery | src/main/java/org/apache/lucene/index/MessageSearchIndexListener.java:215-219 | only text criteria are accepted; everything else is the unsupported-search error |
| LegacyListener.LegacyQueryCompiles | src/main/java/org/apache/lucene/index/MessageSearchIndexListener.java:187-205 | a search succeeds exactly when every criterion is textual, and its query always compiles in the store |
| LegacyListener.SentDateNeverIndexed | src/main/java/org/apache/lucene/index/MessageSearchIndexListener.java:330-340 | with the sent date never assigned, the header summary holds five entries and none for SENT_DATE |
| LegacyListener.HeaderSummary | src/main/java/org/apache/lucene/index/MessageSearchIndexListener.java:330-340 | five first-address entries with their values, plus a SENT_DATE entry holding the decimal time exactly when a sent date is set |
| LegacyListener.LegacyIndexMessage | src/main/java/org/apache/lucene/index/MessageSearchIndexListener.java:94-104 | exactly one put per (field, term) entry, in order, and no FLAGS put |
| LegacyListener.UpdateUidEffect | src/main/java/org/apache/lucene/index/MessageSearchIndexListener.java:168-172 | updating a uid rewrites its cell in every mailbox row that holds it and changes nothing else |
| LegacyListener.UpdateZeroWritesMailbox | src/main/java/org/apache/lucene/index/MessageSearchIndexListener.java:169 | uid 0 scans the whole mailbox, so every non-empty mailbox row gains a uid-0 cell |
| LegacyListener.WriteRowsAdd | src/main/java/org/apache/lucene/index/MessageSearchIndexListener.java:170-172 | writing one more scanned row extends the update to it |
| LegacyListener.RetrievedRows | src/main/java/org/apache/lucene/index/MessageSearchIndexListener.java:169 | the rows the uid scan returns are exactly the rows the update writes |
| LegacyListener.LegacyMessageSearchIndexListener.Add | src/main/java/org/apache/lucene/index/MessageSearchIndexListener.java:79-92 | the message's term puts are stored |
| LegacyListener.LegacyMessageSearchIndexListener.Delete | src/main/java/org/apache/lucene/index/MessageSearchIndexListener.java:129-150 | every uid of the range is removed from every row of the mailbox |
| LegacyListener.LegacyMessageSearchIndexListener.Update | src/main/java/org/apache/lucene/index/MessageSearchIndexListener.java:162-184 | each uid's cell is rewritten with the flag text in every mailbox row holding it |
| LegacyListener.LegacyMessageSearchIndexListener.UpdateUidRows | src/main/java/org/apache/lucene/index/MessageSearchIndexListener.java:167-173 | one uid: every row `retrieveMails` returns gets the flags text in that uid's cell, and nothing else changes |
| LegacyListener.LegacyMessageSearchIndexListener.Search | src/main/java/org/apache/lucene/index/MessageSearchIndexListener.java:186-205 | a criterion error is returned; otherwise the rows delivered before an I/O failure are the first min(n, rows) rows in key order, all rows when none fails, and the uids are theirs, each once, in first-seen order |
| SegmentDirectory.HBaseDirectory.ListAll | src/main/java/org/apache/james/mailbox/lucene/hbase/HBaseDirectory.java:88-111 | an open directory lists the stored names in the scan's order: their UTF-8 encodings are exactly the sorted row keys, in ascending unsigned byte order, so each name comes once; a closed one fails |
| SegmentDirectory.ListedNames | src/main/java/org/apache/james/mailbox/lucene/hbase/HBaseDirectory.java:96-102 | names whose encodings are the sorted row keys are exactly the stored names, each once |
| SegmentDirectory.DecodedRow | src/main/java/org/apache/james/mailbox/lucene/hbase/HBaseDirectory.java:101 | every row key decodes to a stored name whose encoding is that key |
| SegmentDirectory.HBaseDirectory.constructor | src/main/java/org/apache/james/mailbox/lucene/hbase/HBaseDirectory.java:54-85 | a new directory is open and holds no segments |
| SegmentDirectory.HBaseDirectory.FileExists | src/main/java/org/apache/james/mailbox/lucene/hbase/HBaseDirectory.java:114-131 | true exactly when the name is stored; a closed directory fails |
| SegmentDirectory.HBaseDirectory.DeleteFile | src/main/java/org/apache/james/mailbox/lucene/hbase/HBaseDirectory.java:134-148 | the name is removed from the table and nothing else changes |
| SegmentDirectory.HBaseDirectory.FileLength | src/main/java/org/apache/james/mailbox/lucene/hbase/HBaseDirectory.java:151-158 | the stored length, read through a new input; an unknown name fails with the closed-stream error |
| SegmentDirectory.HBaseDirectory.CreateOutput | src/main/java/org/apache/james/mailbox/lucene/hbase/HBaseDirectory.java:161-164 | a fresh open, empty output on the name |
| SegmentDirectory.HBaseDirectory.OpenInput | src/main/java/org/apache/james/mailbox/lucene/hbase/HBaseDirectory.java:172-175 | a fresh input over the stored bytes of the name |
| SegmentDirectory.HBaseDirectory.Close | src/main/java/org/apache/james/mailbox/lucene/hbase/HBaseDirectory.java:178-181 | close checks the state and then leaves the directory open |
| SegmentDirectory.HBaseDirectory.CloseIntended | src/main/java/org/apache/james/mailbox/lucene/hbase/HBaseDirectory.java:178-181 | the intended close leaves the directory closed |
| SegmentDirectory.CopyOfRange | src/main/java/org/apache/james/mailbox/lucene/hbase/HBaseDirectory.java:216 | `Arrays.copyOfRange(b, from, to)`: a negative `to - from` (in `int` arithmetic) is an illegal argument, checked first; then a start outside b is out of bounds; otherwise `to - from` elements from `from` on, zero past the end of b |
| SegmentDirectory.CopyOfRangeChecksLengthFirst | src/main/java/org/apache/james/mailbox/lucene/hbase/HBaseDirectory.java:216 | a negative start with an end before it is an illegal argument; a start outside the array with a good length is out of bounds |
| SegmentDirectory.CopyOfRangeLengthWraps | src/main/java/org/apache/james/mailbox/lucene/hbase/HBaseDirectory.java:216 | a `to - from` that overflows `int` wraps to a non-negative length and passes the length check |
| SegmentDirectory.IntendedRange | src/main/java/org/apache/james/mailbox/lucene/hbase/HBaseDirectory.java:213-219 | the length bytes from the offset, exactly when they lie in b |
| SegmentDirectory.WriteBytesEndIndex | src/main/java/org/apache/james/mailbox/lucene/hbase/HBaseDirectory.java:216 | writing 2 bytes from offset 1 of [1, 2, 3] appends [2], not [2, 3] |
| SegmentDirectory.WriteBytesAtZero | src/main/java/org/apache/james/mailbox/lucene/hbase/HBaseDirectory.java:216 | at offset 0 the written and the intended ranges agree |
| SegmentDirectory.HIndexOutput.constructor | src/main/java/org/apache/james/mailbox/lucene/hbase/HBaseDirectory.java:196-197 | a new output is open and empty, at position 0 |
| SegmentDirectory.HIndexOutput.WriteByte | src/main/java/org/apache/james/mailbox/lucene/hbase/HBaseDirectory.java:199-206 | at the end the byte is appended, inside the file it overwrites; the position advances by one; a closed output fails |
| SegmentDirectory.HIndexOutput.WriteBytes | src/main/java/org/apache/james/mailbox/lucene/hbase/HBaseDirectory.java:213-219 | a closed output fails; then `checkPositionIndex(offset, b.length)` rejects an offset outside 0 to the array length with index-out-of-bounds, changing nothing; otherwise it appends `copyOfRange(b, offset, length)` and moves to the end, or fails with that copy's error |
| SegmentDirectory.WriteBytesChecksOffsetFirst | src/main/java/org/apache/james/mailbox/lucene/hbase/HBaseDirectory.java:215 | offset 4 into a 3-byte array, and offset -1 with length -5, both fail with index-out-of-bounds before the copy is attempted, and the output is unchanged |
| SegmentDirectory.HIndexOutput.GetFilePointer | src/main/java/org/apache/james/mailbox/lucene/hbase/HBaseDirectory.java:229-232 | the position of an open output |
| SegmentDirectory.HIndexOutput.Seek | src/main/java/org/apache/james/mailbox/lucene/hbase/HBaseDirectory.java:235-239 | moves to the position narrowed to int when it is within the file, else fails and stays |
| SegmentDirectory.HIndexOutput.Length | src/main/java/org/apache/james/mailbox/lucene/hbase/HBaseDirectory.java:242-245 | the number of bytes written |
| SegmentDirectory.HIndexOutput.Flush | src/main/java/org/apache/james/mailbox/lucene/hbase/HBaseDirectory.java:251-269 | stores the whole contents under the name and rewinds to 0 without truncating |
| SegmentDirectory.HIndexOutput.Close | src/main/java/org/apache/james/mailbox/lucene/hbase/HBaseDirectory.java:222-226 | flushes, then the output is closed |
| SegmentDirectory.HIndexInput.constructor | src/main/java/org/apache/james/mailbox/lucene/hbase/HBaseDirectory.java:278-302 | an input on a stored name is open over its bytes; on a missing name it is not open and empty |
| SegmentDirectory.HIndexInput.Close | src/main/java/org/apache/james/mailbox/lucene/hbase/HBaseDirectory.java:305-309 | the input is closed and nothing else changes |
| SegmentDirectory.HIndexInput.GetFilePointer | src/main/java/org/apache/james/mailbox/lucene/hbase/HBaseDirectory.java:312-315 | the pointer of an open input |
| SegmentDirectory.HIndexInput.Seek | src/main/java/org/apache/james/mailbox/lucene/hbase/HBaseDirectory.java:318-321 | the pointer becomes the position narrowed to int, unchecked |
| SegmentDirectory.HIndexInput.Length | src/main/java/org/apache/james/mailbox/lucene/hbase/HBaseDirectory.java:324-327 | the length of the stored bytes |
| SegmentDirectory.HIndexInput.ReadByte | src/main/java/org/apache/james/mailbox/lucene/hbase/HBaseDirectory.java:330-336 | the byte at the pointer and the pointer advanced; past the end it fails, and at the end the pointer still advances; a closed input returns 'b' |
| SegmentDirectory.HIndexInput.ReadBytes | src/main/java/org/apache/james/mailbox/lucene/hbase/HBaseDirectory.java:339-344 | copies len bytes from the pointer into b at the offset, leaving the rest of b, and advances the pointer; a range outside the file or b fails |
| SegmentDirectory.WriteThenRead | src/main/java/org/apache/james/mailbox/lucene/hbase/HBaseDirectory.java:199-336 | bytes written, closed and read back from a new input are the bytes written |
| MemoryDirectory.HBaseFile.constructor | LuceneTest/src/main/java/org/apache/james/mailbox/lucene/hbase/HBaseFile.java:29-34 | a new file has no buffers and size 0 |
| MemoryDirectory.HBaseFile.GetLength | LuceneTest/src/main/java/org/apache/james/mailbox/lucene/hbase/HBaseFile.java:37-39 | the number of buffers, not of bytes |
| MemoryDirectory.HBaseFile.NumBuffers | LuceneTest/src/main/java/org/apache/james/mailbox/lucene/hbase/HBaseFile.java:67-69 | the number of buffers, the same as the length |
| MemoryDirectory.HBaseFile.GetLastModified | LuceneTest/src/main/java/org/apache/james/mailbox/lucene/hbase/HBaseFile.java:42-44 | the last-modified time |
| MemoryDirectory.HBaseFile.SetLastModified | LuceneTest/src/main/java/org/apache/james/mailbox/lucene/hbase/HBaseFile.java:46-48 | sets the time and nothing else |
| MemoryDirectory.HBaseFile.GetSizeInBytes | LuceneTest/src/main/java/org/apache/james/mailbox/lucene/hbase/HBaseFile.java:82-84 | the byte counter |
| MemoryDirectory.HBaseFile.NewBuffer | LuceneTest/src/main/java/org/apache/james/mailbox/lucene/hbase/HBaseFile.java:78-80 | a fresh zero-filled array of the size; a negative size fails |
| MemoryDirectory.HBaseFile.AddBuffer | LuceneTest/src/main/java/org/apache/james/mailbox/lucene/hbase/HBaseFile.java:50-61 | appends a fresh buffer of the size and adds the size to the counter, with long wrap-around |
| MemoryDirectory.HBaseFile.GetBuffer | LuceneTest/src/main/java/org/apache/james/mailbox/lucene/hbase/HBaseFile.java:63-65 | the buffer at the index, or an index error |
| MemoryDirectory.HBaseDirectory.ListAll | LuceneTest/src/main/java/org/apache/james/mailbox/lucene/hbase/HBaseDirectory.java:89-92 | each file name exactly once; a closed directory fails |
| MemoryDirectory.HBaseDirectory.constructor | LuceneTest/src/main/java/org/apache/james/mailbox/lucene/hbase/HBaseDirectory.java:55-61 | a new directory is open, empty and has size 0 |
| MemoryDirectory.HBaseDirectory.FileExists | LuceneTest/src/main/java/org/apache/james/mailbox/lucene/hbase/HBaseDirectory.java:102-105 | true exactly when a file has the name; a closed directory fails |
| MemoryDirectory.HBaseDirectory.FileModified | LuceneTest/src/main/java/org/apache/james/mailbox/lucene/hbase/HBaseDirectory.java:114-121 | the file's last-modified time, or file-not-found |
| MemoryDirectory.HBaseDirectory.TouchFile | LuceneTest/src/main/java/org/apache/james/mailbox/lucene/hbase/HBaseDirectory.java:132-150 | the file's last-modified time becomes the later time, and its buffers, size and directory are unchanged; an unknown name is file-not-found; a closed directory fails, leaving the time unchanged |
| MemoryDirectory.HBaseDirectory.DeleteFile | LuceneTest/src/main/java/org/apache/james/mailbox/lucene/hbase/HBaseDirectory.java:158-167 | the file is removed and detached, and its size is added to the directory counter with long wrap-around; an unknown name is file-not-found |
| MemoryDirectory.HBaseDirectory.FileLength | LuceneTest/src/main/java/org/apache/james/mailbox/lucene/hbase/HBaseDirectory.java:175-182 | the file's buffer count, or file-not-found |
| MemoryDirectory.HBaseDirectory.CreateOutput | LuceneTest/src/main/java/org/apache/james/mailbox/lucene/hbase/HBaseDirectory.java:188-194 | a fresh empty file replaces any file of that name, with an output on it |
| MemoryDirectory.HBaseDirectory.Close | LuceneTest/src/main/java/org/apache/james/mailbox/lucene/hbase/HBaseDirectory.java:254-257 | the directory is closed and holds no files |
| MemoryDirectory.HBaseIndexOutput.constructor | LuceneTest/src/main/java/org/apache/james/mailbox/lucene/hbase/HBaseDirectory.java:201-204 | the output writes to the file stored under the name |
| MemoryDirectory.HBaseIndexOutput.FlushBuffer | LuceneTest/src/main/java/org/apache/james/mailbox/lucene/hbase/HBaseDirectory.java:215-230 | appends a fresh `Arrays.copyOfRange(b, offset, offset + len)` (end index in `int` arithmetic, length checked before start) as a new buffer and stores those bytes as the segment; a failed copy fails with its exception and changes nothing |
| MemoryDirectory.HBaseIndexOutput.Length | LuceneTest/src/main/java/org/apache/james/mailbox/lucene/hbase/HBaseDirectory.java:236-238 | the file's buffer count |
| MemoryDirectory.WriteChunks | LuceneTest/src/main/java/org/apache/james/mailbox/lucene/hbase/HBaseDirectory.java:188-238 | chunks flushed one by one become the file's buffers, in order, and its length is their number |
| TermIndex.TermDocument.constructor | src/main/java/org/apache/james/mailbox/lucene/hbase/index/TermDocument.java:31-34 | the frequency and the very positions array given |
| TermIndex.TermDocument.GetDocFrequency | src/main/java/org/apache/james/mailbox/lucene/hbase/index/TermDocument.java:36-38 | the frequency given to the constructor |
| TermIndex.TermDocument.GetDocPositions | src/main/java/org/apache/james/mailbox/lucene/hbase/index/TermDocument.java:40-42 | the very array given to the constructor, not a copy |
| TermIndex.TermDocument.ToString | src/main/java/org/apache/james/mailbox/lucene/hbase/index/TermDocument.java:44-50 | the `TermDocument{docFrequency=N, docPositions=[...]}` text |
| TermIndex.PositionsText | src/main/java/org/apache/james/mailbox/lucene/hbase/index/TermDocument.java:47 | "null" for no array; otherwise a bracketed list, "[]" exactly for an empty array |
| TermIndex.JoinNumbers | src/main/java/org/apache/james/mailbox/lucene/hbase/index/TermDocument.java:47 | empty exactly for no numbers, and led by the first number's digits |
| TermIndex.DocumentTextFrequency | src/main/java/org/apache/james/mailbox/lucene/hbase/index/TermDocument.java:44-50 | the text starts with the frequency's digits, which parse back to the frequency |
| TermIndex.Added | src/main/java/org/apache/james/mailbox/lucene/hbase/index/TermDocuments.java:59-67 | the document is appended to the term's list, or starts one; other terms are unchanged |
| TermIndex.Without | src/main/java/org/apache/james/mailbox/lucene/hbase/index/TermDocuments.java:80-84 | the list without the document, keeping every other element |
| TermIndex.Wrap32Add | src/main/java/org/apache/james/mailbox/lucene/hbase/index/TermDocuments.java:47 | summing with int wrap-around at every step equals wrapping the exact sum |
| TermIndex.TermDocuments.constructor | src/main/java/org/apache/james/mailbox/lucene/hbase/index/TermDocuments.java:32-34 | the map given |
| TermIndex.TermDocuments.GetTermFrequency | src/main/java/org/apache/james/mailbox/lucene/hbase/index/TermDocuments.java:42-51 | the sum of the documents' frequencies, as an int; 0 for an unknown term |
| TermIndex.TermDocuments.AddDocument | src/main/java/org/apache/james/mailbox/lucene/hbase/index/TermDocuments.java:59-67 | the map becomes the one with the document added under the term |
| TermIndex.TermDocuments.RemoveDocument | src/main/java/org/apache/james/mailbox/lucene/hbase/index/TermDocuments.java:85-91 | the map is unchanged, since the document is never a key |
| TermIndex.TermDocuments.RemoveDocuments | src/main/java/org/apache/james/mailbox/lucene/hbase/index/TermDocuments.java:74-78 | the map is unchanged |
| TermIndex.TermDocuments.RemoveDocumentIntended | src/main/java/org/apache/james/mailbox/lucene/hbase/index/TermDocuments.java:80-91 | the document leaves every term's list; the terms and the other documents stay |
| TermIndex.TermDocuments.RemoveDocumentsIntended | src/main/java/org/apache/james/mailbox/lucene/hbase/index/TermDocuments.java:70-78 | none of the documents is left in any list, and the terms stay |
| TermIndex.TermDocuments.GetDocument | src/main/java/org/apache/james/mailbox/lucene/hbase/index/TermDocuments.java:93-95 | always null |
| TermIndex.TermDocuments.GetDocuments | src/main/java/org/apache/james/mailbox/lucene/hbase/index/TermDocuments.java:101-103 | the term's list in insertion order, or null |
| TermIndex.TermDocuments.GetDocumentIterator | src/main/java/org/apache/james/mailbox/lucene/hbase/index/TermDocuments.java:97-99 | the term's list in insertion order; an unknown term fails |
| TermIndex.AddedFrequency | src/main/java/org/apache/james/mailbox/lucene/hbase/index/TermDocuments.java:42-67 | adding a document raises its term's frequency by the document's and leaves other terms' frequencies |
| TermIndex.DocumentSurvivesRemoval | src/main/java/org/apache/james/mailbox/lucene/hbase/index/TermDocuments.java:85-91 | a document added and then removed is still listed |
| TermIndex.DocumentLeavesOnIntendedRemoval | src/main/java/org/apache/james/mailbox/lucene/hbase/index/TermDocuments.java:80-91 | with the intended removal it is no longer listed |
| AvroSchemas.IndexOfFrom | src/test/java/org/apache/james/mailbox/lucene/avro/AvroUtils.java:79 | `indexOf(pattern, from)`: the first occurrence at or after from, or -1 exactly when there is none |
| AvroSchemas.Replace | src/test/java/org/apache/james/mailbox/lucene/avro/AvroUtils.java:74-87 | the loop replaces every occurrence found left to right without overlaps |
| AvroSchemas.ReplaceAbsent | src/test/java/org/apache/james/mailbox/lucene/avro/AvroUtils.java:79-84 | a text without the pattern comes back unchanged |
| AvroSchemas.ReplaceIdentity | src/test/java/org/apache/james/mailbox/lucene/avro/AvroUtils.java:74-87 | replacing the pattern by itself changes nothing |
| AvroSchemas.ReplaceLeading | src/test/java/org/apache/james/mailbox/lucene/avro/AvroUtils.java:80-82 | an occurrence at the scan position is replaced and scanning resumes after it |
| AvroSchemas.ReplaceOnce | src/test/java/org/apache/james/mailbox/lucene/avro/AvroUtils.java:80-82 | text brought in by the replacement is not scanned again |
| AvroSchemas.SchemaRegistry.constructor | src/test/java/org/apache/james/mailbox/lucene/avro/AvroUtils.java:40 | the registry starts empty |
| AvroSchemas.SchemaRegistry.AddSchema | src/test/java/org/apache/james/mailbox/lucene/avro/AvroUtils.java:42-44 | the schema is registered under the name, replacing any other |
| AvroSchemas.SchemaRegistry.GetSchema | src/test/java/org/apache/james/mailbox/lucene/avro/AvroUtils.java:46-48 | the registered schema, or null |
| AvroSchemas.SchemaRegistry.ResolveSchema | src/test/java/org/apache/james/mailbox/lucene/avro/AvroUtils.java:57-64 | each registered name, once, in some order, is replaced by its schema's text |
| AvroSchemas.SchemaRegistry.ParseSchema | src/test/java/org/apache/james/mailbox/lucene/avro/AvroUtils.java:96-104 | the resolved text is parsed; a success is registered under its full name, a failure registers nothing |
| AvroSchemas.ResolveSmall | src/test/java/org/apache/james/mailbox/lucene/avro/AvroUtils.java:57-64 | an empty registry leaves the text as it is, and one schema is one replacement |
| AvroSchemas.AddThenGet | src/test/java/org/apache/james/mailbox/lucene/avro/AvroUtils.java:42-48 | a schema added is the one read back, and a second add under the name overwrites it |
| Membership.AsciiByte | src/test/java/org/apache/james/mailbox/hbase/store/SimpleMailboxMembership.java:230 | the US-ASCII writer keeps a character below 128 and writes '?' otherwise |
| Membership.AsciiBytes | src/test/java/org/apache/james/mailbox/hbase/store/SimpleMailboxMembership.java:230 | one byte per character, each its US-ASCII byte |
| Membership.HeaderBlockShape | src/test/java/org/apache/james/mailbox/hbase/store/SimpleMailboxMembership.java:228-244 | the header block is pure ASCII, four bytes per header beyond name and value plus two, ends with CRLF, and is just CRLF without headers |
| Membership.AsciiHeaderLine | src/test/java/org/apache/james/mailbox/hbase/store/SimpleMailboxMembership.java:232-238 | an ASCII header is written as its name, ": ", its value and CRLF, byte for byte |
| Membership.CompareUidsIntended | src/test/java/org/apache/james/mailbox/hbase/store/SimpleMailboxMembership.java:273-275 | the sign of the comparison of the uids, in all three cases |
| Membership.CompareUids | src/test/java/org/apache/james/mailbox/hbase/store/SimpleMailboxMembership.java:273-275 | `compareTo` as written is congruent to the uid difference modulo 2^32, and equals it while the uids are less than 2^31 apart |
| Membership.CompareUidsNear | src/test/java/org/apache/james/mailbox/hbase/store/SimpleMailboxMembership.java:273-275 | uids less than 2^31 apart compare with the right sign |
| Membership.CompareUidsFar | src/test/java/org/apache/james/mailbox/hbase/store/SimpleMailboxMembership.java:273-275 | uids 2^31 apart compare the wrong way round, and uids 2^32 apart compare equal |
| Membership.MailboxId.constructor | src/test/java/org/apache/james/mailbox/hbase/store/SimpleMailboxMembership.java:34 | a UUID object with its value |
| Membership.SimpleMailboxMembership.FlagSet | src/test/java/org/apache/james/mailbox/hbase/store/SimpleMailboxMembership.java:37-42 | a system flag is in the set exactly when its boolean is true |
| Membership.SimpleMailboxMembership.constructor | src/test/java/org/apache/james/mailbox/hbase/store/SimpleMailboxMembership.java:44-55 | the arguments are kept, the flags set, and modSeq stays 0 |
| Membership.SimpleMailboxMembership.SetFlags | src/test/java/org/apache/james/mailbox/hbase/store/SimpleMailboxMembership.java:130-137 | the booleans become the system flags of the argument; nothing else changes |
| Membership.SimpleMailboxMembership.CreateFlags | src/test/java/org/apache/james/mailbox/hbase/store/SimpleMailboxMembership.java:142-164 | exactly the system flags whose booleans are true, and no user flags |
| Membership.SimpleMailboxMembership.UnsetRecent | src/test/java/org/apache/james/mailbox/hbase/store/SimpleMailboxMembership.java:123-125 | RECENT is cleared and nothing else changes |
| Membership.SimpleMailboxMembership.SetUid | src/test/java/org/apache/james/mailbox/hbase/store/SimpleMailboxMembership.java:285-287 | the uid changes and nothing else |
| Membership.SimpleMailboxMembership.SetModSeq | src/test/java/org/apache/james/mailbox/hbase/store/SimpleMailboxMembership.java:281-283 | the mod-sequence changes and nothing else |
| Membership.SimpleMailboxMembership.GetHeaderContent | src/test/java/org/apache/james/mailbox/hbase/store/SimpleMailboxMembership.java:228-244 | the header loop writes each header as a line and then an empty line |
| Membership.SimpleMailboxMembership.GetFullContent | src/test/java/org/apache/james/mailbox/hbase/store/SimpleMailboxMembership.java:290-292 | the header block followed by the body, which split back apart |
| Membership.SimpleMailboxMembership.GetBodyOctets | src/test/java/org/apache/james/mailbox/hbase/store/SimpleMailboxMembership.java:246-248 | the length of the body |
| Membership.SimpleMailboxMembership.GetFullContentOctets | src/test/java/org/apache/james/mailbox/hbase/store/SimpleMailboxMembership.java:266-268 | the size given to the constructor |
| Membership.SimpleMailboxMembership.Equals | src/test/java/org/apache/james/mailbox/hbase/store/SimpleMailboxMembership.java:175-184 | true exactly for the same object, or another membership with the same mailbox id object and the same uid |
| Membership.SimpleMailboxMembership.HashCode | src/test/java/org/apache/james/mailbox/hbase/store/SimpleMailboxMembership.java:167-171 | 31 times the UUID hash plus the folded uid, in int arithmetic |
| Membership.UuidHash | src/test/java/org/apache/james/mailbox/hbase/store/SimpleMailboxMembership.java:169 | `UUID.hashCode` of a UUID whose two halves are equal is 0 |
| Membership.LongHash | src/test/java/org/apache/james/mailbox/hbase/store/SimpleMailboxMembership.java:170 | the fold of uid 0 is 0 |
| Membership.MembershipHash | src/test/java/org/apache/james/mailbox/hbase/store/SimpleMailboxMembership.java:167-171 | with uid 0 the hash is 31 times the mailbox id's hash in `int` arithmetic, and 0 for a null id |
| Membership.SimpleMailboxMembership.CompareTo | src/test/java/org/apache/james/mailbox/hbase/store/SimpleMailboxMembership.java:273-275 | the uid difference in long arithmetic, narrowed to int |
| Membership.EqualsAgreesWithHash | src/test/java/org/apache/james/mailbox/hbase/store/SimpleMailboxMembership.java:167-184 | memberships `equals` calls equal have equal hash codes |
| Membership.EqualValueIdsDiffer | src/test/java/org/apache/james/mailbox/hbase/store/SimpleMailboxMembership.java:183 | two memberships whose ids are distinct UUID objects of equal value are not equal |
| Membership.SetThenCreate | src/test/java/org/apache/james/mailbox/hbase/store/SimpleMailboxMembership.java:130-164 | `createFlags` after `setFlags(f)` gives the system flags of f and no user flags |

## Left out

- MIME parsing and tokenising (`parseFullContent`, the Lucene analyser behind `tokenize`): a message's (field, term) entries and the tokenizer are parameters.
- The `MessageFields` ids and the `HBaseNames` constants are not part of this model: they are parameters, with distinct ids for distinct fields.
- HBase itself is an in-memory table. Only the newest cell version is modelled, puts are visible at once (no `flushCommits` batching), and the column family is implicit.
- The regex comparator over `Bytes.toString` of binary rows is an abstract predicate. The substring comparator is modelled with ASCII lower-casing.
- Time-zone-dependent calendar arithmetic: the YEAR and MONTH steps and `MIN_DATE`/`MAX_DATE` are parameters. The SENT_DATE rounding of the listener is a parameter too.
- Non-ASCII case mapping in `toUpperCase`, and non-ASCII digits in `parseLong`.
- Exceptions and logging: exceptions become `Result`/`Outcome` errors. The logged-and-ignored I/O failures of the legacy listener's `add` are not modelled, and its search takes the failure point as a parameter.
- The static singletons and shared static maps (`HBaseIndexStore.store`, `AvroUtils.schemas`, the segment table) are fields of one object each. `synchronized`, `ConcurrentHashMap` and `AtomicLong` are modelled sequentially.
- The HBase admin and table set-up in the main `HBaseDirectory` constructor, and its `sync`, which does nothing.
- `LuceneTest`'s `openInput`, which returns an unimplemented input stub; the stub classes themselves.
- `touchFile`'s sleep-until-the-clock-ticks loop: the later time is a parameter.
- HashMap and key-set iteration order: a ghost order that every contract quantifies over.
- A scanner's row order is ascending unsigned byte order of the row keys, and a row's qualifiers come in the same order; the scanner's batching, caching and region boundaries are not modelled.
- The Avro `Schema.Parser` is a parameter, and the `InputStream` overload of `parseSchema` is not modelled.
- `SimpleMailboxMembership`: `toString`, the trivial getters of date, media type and properties, and `getBodyContent` as a stream (the body bytes are the content).
- Membership.SimpleMailboxMembership.Equals: compares with another `SimpleMailboxMembership` only, because an object of another class is unequal by the class check and is not modelled.
- Membership.SimpleMailboxMembership.constructor: takes the header table as its entries in iteration order, with a null table given as no entries.
- SegmentDirectory.HIndexInput.ReadBytes: does not model int overflow of pointer + len in `checkPositionIndex`.
- IndexStore.HBaseIndexStore.DeleteMail: removes the whole cell, because the model keeps one version per cell.
- LegacyListener.LegacyMessageSearchIndexListener.Search: takes the number of rows delivered before an I/O failure as a parameter, since the failure itself is outside the model.
- The LuceneTest `HBaseDirectory`'s segment table of flushed bytes stands in for the HBase put its `flushBuffer` performs.
- TermIndex.TermDocuments.constructor: copies the caller's map by value, so it does not capture that the index shares the caller's `Map` and its lists (a later change through either is seen by the other), that `addDocument` grows a term's list in place (changing any list `getDocuments` returned before), or that the map may hold a null list for a term.
- `Flags.Flag.USER`, the pseudo-flag saying a mailbox accepts user flags: it never appears among a message's system flags, and the listener writes user flags only through `getUserFlags`, so the model has no constructor for it.
- Utf8.Decode: does not follow the JDK decoder's replacement rule for malformed input. The model writes one U+FFFD per byte it cannot decode and resumes at the next byte, so `E2 82 41` decodes to two U+FFFD and 'A' where the JDK gives one U+FFFD and 'A', and a sequence cut off at the end gives several U+FFFD where the JDK gives one. Strings are Dafny scalar-value strings, so a lone surrogate of a Java `String`, which `Bytes.toBytes` writes as '?', cannot be expressed. Every decoded array in the model is one the model encoded, so neither gap reaches a search or index result.
- SegmentDirectory.CopyOfRange: does not model the `OutOfMemoryError` of a copy whose length, after `to - from` overflows `int`, is too large to allocate; both `writeBytes` and the in-memory `flushBuffer` inherit this.

## Findings

| source | as written | input that shows it | evidently intended | confidence | as-written member | corrected member |
|---|---|---|---|---|---|---|
| src/main/java/org/apache/james/mailbox/hbase/index/MessageSearchIndexListener.java:526-542 | SEEN is written as the token `\FLAG` | a message flagged only \Flagged: its flag text contains the SEEN search term, ignoring case | SEEN written as `\SEEN`, so a token occurs exactly when its flag is set | not executed | MailFlags.SeenTokenInFlaggedOnly | MailFlags.CorrectedTokensFoundExactly |
| src/main/java/org/apache/james/mailbox/hbase/index/MessageSearchIndexListener.java:238-264 | ON builds "0" and the millis, with no resolution and no separator; BEFORE and AFTER fall through to the error | any internal-date criterion: the listener rejects BEFORE and AFTER, and the store's parser fails on the ON term | an operator digit, the resolution name, a separator and the millis, for all three operators | not executed | Listener.InternalDateSearchFails | Listener.CorrectedDateQueryRange |
| src/main/java/org/apache/james/mailbox/lucene/hbase/HBaseDirectory.java:216 | `copyOfRange(b, offset, length)` takes the length as the end index | writeBytes([1, 2, 3], 1, 2) appends [2] | append the length bytes from the offset, [2, 3] | not executed | SegmentDirectory.WriteBytesEndIndex | SegmentDirectory.IntendedRange |
| src/main/java/org/apache/james/mailbox/lucene/hbase/HBaseDirectory.java:178-181 | close sets the open flag to true | close() then listAll() still succeeds | close leaves the directory closed | not executed | SegmentDirectory.HBaseDirectory.Close | SegmentDirectory.HBaseDirectory.CloseIntended |
| src/main/java/org/apache/james/mailbox/lucene/hbase/index/TermDocuments.java:85-91 | removes the document as a key of the term-keyed map, which changes nothing | add a document under a term, remove it: it is still listed | remove the document from every term's list | not executed | TermIndex.DocumentSurvivesRemoval | TermIndex.DocumentLeavesOnIntendedRemoval |
| src/test/java/org/apache/james/mailbox/hbase/store/SimpleMailboxMembership.java:273-275 | `(int) (uid - other.uid)` | uid 2^31 against uid 0 compares negative; 2^32 against 0 compares equal | the sign of `Long.compare` | not executed | Membership.CompareUidsFar | Membership.CompareUidsIntended |
