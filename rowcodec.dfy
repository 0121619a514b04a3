/** The posting-row key codec shared by both listener revisions:
    a row key is the 16-byte mailbox UUID, one field-id byte, then the
    UTF-8 bytes of the term; a column qualifier is the 8-byte message uid. */
module RowCodec {
  import opened Wrappers
  import opened Bytes
  import Utf8
  import opened Fields

  /** `java.util.UUID` as its two 64-bit halves. */
  datatype Uuid = Uuid(msb: long, lsb: long)

  /** A `Bytes.head`/`Bytes.tail` on a row too short for it (a null array
      dereference or a negative array size in the source). */
  datatype CodecError = RowTooShort

  /** `uuidToBytes`: the most significant half, then the least significant
      half, each big-endian. */
  function UuidToBytes(u: Uuid): (r: seq<byte>)
    ensures |r| == 16
  {
    LongToBytes(u.msb) + LongToBytes(u.lsb)
  }

  /** The key written at `indexMessage` for one (field, term) entry. */
  function RowKey(names: Names, m: Uuid, f: Field, term: string): (r: seq<byte>)
  {
    UuidToBytes(m) + [names.id(f)] + Utf8.Encode(term)
  }

  /** The key of a message's FLAGS row (no term bytes). */
  function FlagsRow(names: Names, m: Uuid): (r: seq<byte>)
  {
    UuidToBytes(m) + [names.id(Flags)]
  }

  function RowToUuid(row: seq<byte>): (r: Result<Uuid, CodecError>)
    ensures r.Success? <==> |row| >= 16
    ensures r.Success? ==> UuidToBytes(r.value) == row[..16]
  {
    if |row| < 16 then Failure(RowTooShort)
    else
      QualifierRoundTrip(row[..8]);
      QualifierRoundTrip(row[8..16]);
      assert row[..16] == row[..8] + row[8..16];
      Success(Uuid(BytesToLong(row[..8]), BytesToLong(row[8..16])))
  }

  /** The first of `fields` whose id is `b`, or `NotFound`. */
  function FirstWithId(names: Names, fields: seq<Field>, b: byte): (r: Field)
    requires NotFound !in fields
    ensures r != NotFound ==> r in fields && names.id(r) == b
    ensures r == NotFound ==> forall f :: f in fields && f != NotFound ==> names.id(f) != b
  {
    if fields == [] then NotFound
    else if names.id(fields[0]) == b then fields[0]
    else FirstWithId(names, fields[1..], b)
  }

  /** `rowToField`: the field whose id is byte 16 of the row. The source
      scans all of `MessageFields.values()`, `NOT_FOUND` included, and returns
      `NOT_FOUND` when nothing else matches, so matching `NOT_FOUND`'s own id
      and matching nothing give the same answer; the search here runs over
      the other fields. */
  function RowToField(names: Names, row: seq<byte>): (r: Result<Field, CodecError>)
    ensures r.Success? <==> |row| >= 17
    ensures r.Success? && r.value != NotFound ==> names.id(r.value) == row[16]
    ensures r.Success? && r.value == NotFound ==> forall f :: f != NotFound ==> names.id(f) != row[16]
  {
    if |row| < 17 then Failure(RowTooShort)
    else
      KnownComplete();
      Success(FirstWithId(names, Known, row[16]))
  }

  /** `rowToTerm`: the bytes after the field id, decoded as UTF-8. */
  function RowToTerm(row: seq<byte>): (r: Result<string, CodecError>)
    ensures r.Success? <==> |row| >= 17
  {
    if |row| < 17 then Failure(RowTooShort) else Success(Utf8.Decode(row[17..]))
  }

  /** The mailbox UUID survives the encoding. */
  lemma UuidRoundTrip(u: Uuid)
    ensures RowToUuid(UuidToBytes(u)) == Success(u)
  {
    var b := UuidToBytes(u);
    assert b[..8] == LongToBytes(u.msb) && b[8..16] == LongToBytes(u.lsb);
    LongRoundTrip(u.msb);
    LongRoundTrip(u.lsb);
  }

  /** The decoders invert the key layout: mailbox, field and term all come
      back from a row written for them. */
  lemma RowKeyRoundTrip(names: Names, m: Uuid, f: Field, term: string)
    requires names.Valid()
    ensures RowToUuid(RowKey(names, m, f, term)) == Success(m)
    ensures RowToField(names, RowKey(names, m, f, term)) == Success(f)
    ensures RowToTerm(RowKey(names, m, f, term)) == Success(term)
  {
    var row := RowKey(names, m, f, term);
    assert row[..16] == UuidToBytes(m);
    assert row[..8] == LongToBytes(m.msb) && row[8..16] == LongToBytes(m.lsb);
    LongRoundTrip(m.msb);
    LongRoundTrip(m.lsb);
    assert row[16] == names.id(f);
    assert row[17..] == Utf8.Encode(term);
    Utf8.DecodeEncode(term);
  }

  /** Distinct (mailbox, field, term) triples get distinct row keys. */
  lemma RowKeyInjective(names: Names, m1: Uuid, f1: Field, t1: string, m2: Uuid, f2: Field, t2: string)
    requires names.Valid()
    ensures RowKey(names, m1, f1, t1) == RowKey(names, m2, f2, t2) <==> (m1, f1, t1) == (m2, f2, t2)
  {
    if RowKey(names, m1, f1, t1) == RowKey(names, m2, f2, t2) {
      RowKeyRoundTrip(names, m1, f1, t1);
      RowKeyRoundTrip(names, m2, f2, t2);
    }
  }

  /** Every row of a mailbox starts with the mailbox's 16 bytes. */
  lemma RowKeyInMailbox(names: Names, m: Uuid, f: Field, term: string)
    ensures UuidToBytes(m) <= RowKey(names, m, f, term)
    ensures UuidToBytes(m) + [names.id(f)] <= RowKey(names, m, f, term)
  {
    var row := RowKey(names, m, f, term);
    assert row[..16] == UuidToBytes(m);
    assert row[..17] == UuidToBytes(m) + [names.id(f)];
  }

  /** A row key is contiguous per mailbox: all rows of a mailbox whose
      encoded id sorts first come before every row of the other mailbox. */
  lemma MailboxRowsContiguous(names: Names, m1: Uuid, f1: Field, t1: string, m2: Uuid, f2: Field, t2: string)
    requires m1 != m2 && LexLeq(UuidToBytes(m1), UuidToBytes(m2))
    ensures LexLeq(RowKey(names, m1, f1, t1), RowKey(names, m2, f2, t2))
    ensures !LexLeq(RowKey(names, m2, f2, t2), RowKey(names, m1, f1, t1))
  {
    UuidRoundTrip(m1);
    UuidRoundTrip(m2);
    assert RowKey(names, m1, f1, t1) == UuidToBytes(m1) + ([names.id(f1)] + Utf8.Encode(t1));
    assert RowKey(names, m2, f2, t2) == UuidToBytes(m2) + ([names.id(f2)] + Utf8.Encode(t2));
    PrefixOrderDominates(UuidToBytes(m1), UuidToBytes(m2), [names.id(f1)] + Utf8.Encode(t1), [names.id(f2)] + Utf8.Encode(t2));
  }

  /** Within a mailbox, rows are ordered by field id first. */
  lemma FieldRowsOrdered(names: Names, m: Uuid, f1: Field, t1: string, f2: Field, t2: string)
    requires names.id(f1) < names.id(f2)
    ensures LexLeq(RowKey(names, m, f1, t1), RowKey(names, m, f2, t2))
    ensures !LexLeq(RowKey(names, m, f2, t2), RowKey(names, m, f1, t1))
  {
    var p1 := UuidToBytes(m) + [names.id(f1)];
    var p2 := UuidToBytes(m) + [names.id(f2)];
    assert p1 != p2 by { assert p1[16] != p2[16]; }
    assert LexLeq(p1, p2) by { SamePrefixThenLess(UuidToBytes(m), names.id(f1), names.id(f2)); }
    PrefixOrderDominates(p1, p2, Utf8.Encode(t1), Utf8.Encode(t2));
  }

  lemma {:induction false} SamePrefixThenLess(p: seq<byte>, a: byte, b: byte)
    requires a < b
    ensures LexLeq(p + [a], p + [b])
  {
    if p != [] {
      assert (p + [a])[1..] == p[1..] + [a];
      assert (p + [b])[1..] == p[1..] + [b];
      SamePrefixThenLess(p[1..], a, b);
    }
  }
}
