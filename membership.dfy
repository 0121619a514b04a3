/** `SimpleMailboxMembership`: the in-memory message the store tests index.
    It keeps the six system flags as booleans, the headers as a name-to-value
    table and the body as bytes, and serialises the headers as an RFC 5322
    header block in US-ASCII. */
module Membership {
  import opened Bytes
  import opened RowCodec
  import MF = MailFlags

  /** A `java.util.UUID` object. `equals` compares these by reference, so the
      model keeps them as objects. */
  class MailboxId {
    const value: Uuid

    constructor (value: Uuid)
      ensures this.value == value
    {
      this.value := value;
    }
  }

  const CR: byte := 13
  const LF: byte := 10
  const Question: byte := 63

  /** A character written by the US-ASCII writer: itself below 128, `'?'`
      otherwise. */
  function AsciiByte(c: char): (r: byte)
    ensures r < 128
    ensures c as int < 128 ==> r == c as int
  {
    if c as int < 128 then c as int else Question
  }

  function AsciiBytes(s: string): (r: seq<byte>)
    ensures |r| == |s|
    ensures forall i :: 0 <= i < |s| ==> r[i] == AsciiByte(s[i])
  {
    if s == [] then [] else [AsciiByte(s[0])] + AsciiBytes(s[1..])
  }

  /** One header line: `name: value` and CRLF. */
  function HeaderLine(header: (string, string)): seq<byte>
  {
    AsciiBytes(header.0) + AsciiBytes(": ") + AsciiBytes(header.1) + [CR, LF]
  }

  /** The header lines in iteration order. */
  function HeaderLines(headers: seq<(string, string)>): seq<byte>
  {
    if headers == [] then [] else HeaderLines(headers[..|headers| - 1]) + HeaderLine(headers[|headers| - 1])
  }

  /** The header block: the lines and the empty line that ends it. */
  function HeaderBlock(headers: seq<(string, string)>): seq<byte>
  {
    HeaderLines(headers) + [CR, LF]
  }

  /** The number of bytes a header block takes: four per header beyond its
      name and value, and two for the closing line. */
  function BlockSize(headers: seq<(string, string)>): nat
  {
    if headers == [] then 2
    else BlockSize(headers[..|headers| - 1]) + |headers[|headers| - 1].0| + |headers[|headers| - 1].1| + 4
  }

  /** The header block is pure ASCII, has the size `BlockSize` counts, and
      ends with an empty line. */
  lemma {:induction false} HeaderBlockShape(headers: seq<(string, string)>)
    ensures |HeaderBlock(headers)| == BlockSize(headers)
    ensures forall i :: 0 <= i < |HeaderBlock(headers)| ==> HeaderBlock(headers)[i] < 128
    ensures HeaderBlock(headers)[|HeaderBlock(headers)| - 2..] == [CR, LF]
    ensures headers == [] ==> HeaderBlock(headers) == [CR, LF]
  {
    HeaderLinesShape(headers);
  }

  lemma {:induction false} HeaderLinesShape(headers: seq<(string, string)>)
    ensures |HeaderLines(headers)| + 2 == BlockSize(headers)
    ensures forall i :: 0 <= i < |HeaderLines(headers)| ==> HeaderLines(headers)[i] < 128
  {
    if headers != [] {
      HeaderLinesShape(headers[..|headers| - 1]);
      var line := HeaderLine(headers[|headers| - 1]);
      assert forall i :: 0 <= i < |line| ==> line[i] < 128;
    }
  }

  /** A header whose name and value are ASCII is written verbatim. */
  lemma AsciiHeaderLine(name: string, value: string)
    requires forall i :: 0 <= i < |name| ==> name[i] as int < 128
    requires forall i :: 0 <= i < |value| ==> value[i] as int < 128
    ensures HeaderLine((name, value)) ==
      seq(|name|, i requires 0 <= i < |name| => name[i] as int as byte) + [58, 32] +
      seq(|value|, i requires 0 <= i < |value| => value[i] as int as byte) + [CR, LF]
  {
    var r := HeaderLine((name, value));
    var s := seq(|name|, i requires 0 <= i < |name| => name[i] as int as byte) + [58, 32] +
      seq(|value|, i requires 0 <= i < |value| => value[i] as int as byte) + [CR, LF];
    assert |r| == |s|;
    forall i | 0 <= i < |r|
      ensures r[i] == s[i]
    {
      if i < |name| {
      } else if i < |name| + 2 {
      } else if i < |name| + 2 + |value| {
      }
    }
  }

  /** `compareTo` as written: `(int) (uid - other.uid)`, a `long`
      difference narrowed to `int`. */
  function CompareUids(a: long, b: long): (r: int32)
    ensures (r - (a - b)) % 0x1_0000_0000 == 0
    ensures -0x8000_0000 <= a - b < 0x8000_0000 ==> r == a - b
  {
    var d := Wrap64(a - b);
    SumOfMultiples(Wrap32(d) - d, d - (a - b));
    Wrap32(d)
  }

  /** A multiple of 2^64 plus a multiple of 2^32 is a multiple of 2^32. */
  lemma SumOfMultiples(x: int, y: int)
    requires x % 0x1_0000_0000 == 0 && y % TwoTo64 == 0
    ensures (x + y) % 0x1_0000_0000 == 0
  {
    assert TwoTo64 == 0x1_0000_0000 * 0x1_0000_0000;
    var k := x / 0x1_0000_0000;
    var m := y / TwoTo64;
    assert x == k * 0x1_0000_0000;
    assert y == m * TwoTo64;
    assert y == (m * 0x1_0000_0000) * 0x1_0000_0000;
    var j := k + m * 0x1_0000_0000;
    assert x + y == k * 0x1_0000_0000 + (m * 0x1_0000_0000) * 0x1_0000_0000;
    assert x + y == j * 0x1_0000_0000;
  }

  /** `compareTo` as intended: the sign of the comparison of the two uids,
      as `Long.compare` gives it. */
  function CompareUidsIntended(a: long, b: long): (r: int32)
    ensures r < 0 <==> a < b
    ensures r == 0 <==> a == b
    ensures r > 0 <==> a > b
  {
    if a < b then -1 else if a == b then 0 else 1
  }

  /** While the uids are less than 2^31 apart the written comparison has the
      right sign. */
  lemma CompareUidsNear(a: long, b: long)
    requires -0x8000_0000 < a - b < 0x8000_0000
    ensures CompareUids(a, b) < 0 <==> CompareUidsIntended(a, b) < 0
    ensures CompareUids(a, b) == 0 <==> CompareUidsIntended(a, b) == 0
  {
  }

  /** Uids 2^31 apart compare the wrong way round, and uids 2^32 apart
      compare equal. */
  lemma CompareUidsFar()
    ensures CompareUids(0x8000_0000, 0) < 0 && CompareUidsIntended(0x8000_0000, 0) > 0
    ensures CompareUids(0x1_0000_0000, 0) == 0 && CompareUidsIntended(0x1_0000_0000, 0) > 0
  {
    assert Wrap32(0x8000_0000) == -0x8000_0000;
    assert Wrap32(0x1_0000_0000) == 0;
  }

  /** The low 64 bits of an integer. */
  function Bits64(x: int): bv64
  {
    (x % 0x1_0000_0000_0000_0000) as bv64
  }

  /** `UUID.hashCode`: the two halves of `msb ^ lsb`, exclusive-ored. */
  function UuidHash(u: Uuid): (r: int32)
    ensures u.msb == u.lsb ==> r == 0
  {
    var hilo := Bits64(u.msb) ^ Bits64(u.lsb);
    Wrap32(((hilo >> 32) ^ (hilo & 0xFFFF_FFFF)) as int)
  }

  /** `(int) (x ^ (x >>> 32))`, the fold `Long.hashCode` also uses: the two
      halves of the 64-bit pattern, exclusive-ored and narrowed to `int`. */
  function LongHash(x: long): (r: int32)
    ensures x == 0 ==> r == 0
  {
    var u := Bits64(x);
    assert x == 0 ==> u == 0;
    Wrap32((u ^ (u >> 32)) as int)
  }

  /** `hashCode`: `31 * mailboxId.hashCode() + (int) (uid ^ (uid >>> 32))`
      in `int` arithmetic, with 0 for a null mailbox id. */
  function MembershipHash(mailboxId: MailboxId?, uid: long): (r: int32)
    ensures uid == 0 && mailboxId == null ==> r == 0
    ensures uid == 0 && mailboxId != null ==> r == Wrap32(31 * UuidHash(mailboxId.value))
  {
    var idHash := if mailboxId == null then 0 else UuidHash(mailboxId.value);
    var sum := 31 * idHash + LongHash(uid);
    assert uid == 0 ==> sum == 31 * idHash;
    Wrap32(sum)
  }

  class SimpleMailboxMembership {
    var mailboxId: MailboxId?
    var uid: long
    var internalDate: long
    var size: int32
    var modSeq: long
    var answered: bool
    var deleted: bool
    var draft: bool
    var flagged: bool
    var recent: bool
    var seen: bool
    var body: seq<byte>
    /** The header table in its iteration order. */
    var headers: seq<(string, string)>

    /** The system flags whose booleans are set. */
    function FlagSet(): (r: set<MF.SystemFlag>)
      reads this
      ensures MF.Answered in r <==> answered
      ensures MF.Deleted in r <==> deleted
      ensures MF.Draft in r <==> draft
      ensures MF.Flagged in r <==> flagged
      ensures MF.Recent in r <==> recent
      ensures MF.Seen in r <==> seen
    {
      (if answered then {MF.Answered} else {}) + (if deleted then {MF.Deleted} else {}) +
      (if draft then {MF.Draft} else {}) + (if flagged then {MF.Flagged} else {}) +
      (if recent then {MF.Recent} else {}) + (if seen then {MF.Seen} else {})
    }

    /** The constructor keeps its arguments, with an empty header table for
        a null one, and sets the flags; its `modSeq` argument is not
        stored. */
    constructor (mailboxId: MailboxId?, uid: long, modSeq: long, internalDate: long, size: int32,
                 flags: MF.Flags, body: seq<byte>, headers: seq<(string, string)>)
      ensures this.mailboxId == mailboxId && this.uid == uid && this.internalDate == internalDate
      ensures this.size == size && this.body == body && this.headers == headers
      ensures this.modSeq == 0
      ensures FlagSet() == flags.system
    {
      this.mailboxId := mailboxId;
      this.uid := uid;
      this.internalDate := internalDate;
      this.size := size;
      this.body := body;
      this.headers := headers;
      this.modSeq := 0;
      new;
      SetFlags(flags);
    }

    /** `setFlags`: each boolean says whether its flag is in the set; user
        flags are dropped. */
    method SetFlags(flags: MF.Flags)
      modifies this
      ensures FlagSet() == flags.system
      ensures mailboxId == old(mailboxId) && uid == old(uid) && internalDate == old(internalDate)
      ensures size == old(size) && modSeq == old(modSeq) && body == old(body) && headers == old(headers)
    {
      answered := MF.Answered in flags.system;
      deleted := MF.Deleted in flags.system;
      draft := MF.Draft in flags.system;
      flagged := MF.Flagged in flags.system;
      recent := MF.Recent in flags.system;
      seen := MF.Seen in flags.system;
      var s := FlagSet();
      assert forall f: MF.SystemFlag :: f in s <==> f in flags.system by {
        forall f: MF.SystemFlag ensures f in s <==> f in flags.system {
          match f
          case Answered => case Deleted => case Draft => case Flagged => case Recent => case Seen =>
        }
      }
    }

    /** `createFlags`: the system flags whose booleans are set, added one by
        one, and no user flags. */
    method CreateFlags() returns (r: MF.Flags)
      ensures r == MF.Flags(FlagSet(), [])
    {
      var system: set<MF.SystemFlag> := {};
      if answered {
        system := system + {MF.Answered};
      }
      if deleted {
        system := system + {MF.Deleted};
      }
      if draft {
        system := system + {MF.Draft};
      }
      if flagged {
        system := system + {MF.Flagged};
      }
      if recent {
        system := system + {MF.Recent};
      }
      if seen {
        system := system + {MF.Seen};
      }
      r := MF.Flags(system, []);
    }

    /** `unsetRecent`: clears the recent flag and nothing else. */
    method UnsetRecent()
      modifies this
      ensures FlagSet() == old(FlagSet()) - {MF.Recent}
      ensures mailboxId == old(mailboxId) && uid == old(uid) && internalDate == old(internalDate)
      ensures size == old(size) && modSeq == old(modSeq) && body == old(body) && headers == old(headers)
    {
      recent := false;
    }

    method SetUid(uid: long)
      modifies this
      ensures this.uid == uid && FlagSet() == old(FlagSet())
      ensures mailboxId == old(mailboxId) && internalDate == old(internalDate)
      ensures size == old(size) && modSeq == old(modSeq) && body == old(body) && headers == old(headers)
    {
      this.uid := uid;
    }

    method SetModSeq(modSeq: long)
      modifies this
      ensures this.modSeq == modSeq && FlagSet() == old(FlagSet())
      ensures mailboxId == old(mailboxId) && uid == old(uid) && internalDate == old(internalDate)
      ensures size == old(size) && body == old(body) && headers == old(headers)
    {
      this.modSeq := modSeq;
    }

    /** `getHeaderContent`: every header as `name: value` CRLF, then an
        empty line. */
    method GetHeaderContent() returns (r: seq<byte>)
      ensures r == HeaderBlock(headers)
    {
      var written: seq<byte> := [];
      var entries := headers;
      var i := 0;
      while i < |entries|
        invariant 0 <= i <= |entries|
        invariant written == HeaderLines(entries[..i])
      {
        var header := entries[i];
        var line := AsciiBytes(header.0) + AsciiBytes(": ") + AsciiBytes(header.1) + [CR, LF];
        assert line == HeaderLine(header);
        assert entries[..i + 1][..i] == entries[..i];
        written := written + line;
        i := i + 1;
      }
      assert entries[..i] == entries;
      r := written + [CR, LF];
    }

    /** `getFullContent`: the header block followed by the body. */
    method GetFullContent() returns (r: seq<byte>)
      ensures r == HeaderBlock(headers) + body
      ensures r[..|r| - |body|] == HeaderBlock(headers) && r[|r| - |body|..] == body
    {
      var header := GetHeaderContent();
      r := header + body;
    }

    /** `getBodyOctets`: the length of the body. */
    method GetBodyOctets() returns (r: nat)
      ensures r == |body|
    {
      r := |body|;
    }

    /** `getFullContentOctets`: the size given to the constructor, whatever
        the content. */
    method GetFullContentOctets() returns (r: int32)
      ensures r == size
    {
      r := size;
    }

    /** `equals`: another membership with the very same mailbox id object
        and the same uid. */
    method Equals(other: SimpleMailboxMembership?) returns (r: bool)
      ensures r <==> other != null && (other == this || (mailboxId == other.mailboxId && uid == other.uid))
    {
      if other == this {
        return true;
      }
      if other == null {
        return false;
      }
      r := mailboxId == other.mailboxId && uid == other.uid;
    }

    method HashCode() returns (r: int32)
      ensures r == MembershipHash(mailboxId, uid)
    {
      r := MembershipHash(mailboxId, uid);
    }

    /** `compareTo`: the narrowed difference of the uids. */
    method CompareTo(other: SimpleMailboxMembership) returns (r: int32)
      ensures r == CompareUids(uid, other.uid)
    {
      r := Wrap32(Wrap64(uid - other.uid));
    }
  }

  /** Memberships `equals` calls equal have equal hash codes. */
  method EqualsAgreesWithHash(a: SimpleMailboxMembership, b: SimpleMailboxMembership) returns (equal: bool, ha: int32, hb: int32)
    ensures equal ==> ha == hb
  {
    equal := a.Equals(b);
    ha := a.HashCode();
    hb := b.HashCode();
  }

  /** Two memberships for the same mailbox and uid whose ids are distinct
      `UUID` objects are not equal, whatever their values. */
  method EqualValueIdsDiffer(u: Uuid, uid: long, flags: MF.Flags) returns (equal: bool)
    ensures !equal
  {
    var first := new MailboxId(u);
    var second := new MailboxId(u);
    var a := new SimpleMailboxMembership(first, uid, 0, 0, 0, flags, [], []);
    var b := new SimpleMailboxMembership(second, uid, 0, 0, 0, flags, [], []);
    equal := a.Equals(b);
  }

  /** The flags read back after `setFlags` are the system flags set. */
  method SetThenCreate(m: SimpleMailboxMembership, flags: MF.Flags) returns (r: MF.Flags)
    modifies m
    ensures r == MF.Flags(flags.system, [])
  {
    m.SetFlags(flags);
    r := m.CreateFlags();
  }
}
