/** `MessageFields`, the closed set of indexed fields, and the `HBaseNames`
    constants the index uses. The byte ids and the sentinel values are not
    part of this model, so they are parameters: `Names` carries them, and
    `Names.Valid` states the one thing the codec relies on, that distinct
    fields have distinct ids. */
module Fields {
  import opened Bytes

  datatype Field =
    | Body | Headers | PrefixHeader | To | Cc | From | Bcc | BaseSubject
    | SentDate | Flags
    | FirstFromMailboxName | FirstToMailboxName | FirstCcMailboxName
    | FirstFromMailboxDisplay | FirstToMailboxDisplay
    | NotFound

  /** The fields of `MessageFields.values()` other than `NOT_FOUND`. */
  const Known: seq<Field> := [
    Body, Headers, PrefixHeader, To, Cc, From, Bcc, BaseSubject, SentDate, Flags,
    FirstFromMailboxName, FirstToMailboxName, FirstCcMailboxName,
    FirstFromMailboxDisplay, FirstToMailboxDisplay]

  lemma KnownComplete()
    ensures forall f: Field :: f != NotFound <==> f in Known
  {
    forall f: Field ensures f != NotFound <==> f in Known {
      match f
      case Body => case Headers => case PrefixHeader => case To => case Cc =>
      case From => case Bcc => case BaseSubject => case SentDate => case Flags =>
      case FirstFromMailboxName => case FirstToMailboxName => case FirstCcMailboxName =>
      case FirstFromMailboxDisplay => case FirstToMailboxDisplay => case NotFound =>
    }
  }

  /** The field ids (`MessageFields.id`) and the two faces of
      `HBaseNames.EMPTY_COLUMN_VALUE`: its `name` bytes, stored as the value of
      every posting cell, and its `toString()` text, written into the FLAGS
      cell of a message without flags. */
  datatype Names = Names(id: Field -> byte, emptyValue: seq<byte>, emptyText: string)
  {
    ghost predicate Valid()
    {
      forall f: Field, g: Field :: id(f) == id(g) ==> f == g
    }
  }
}
