/** The posting lists of the prototype index: a `TermDocument` is one
    document's entry for a term (how often the term occurs there and at which
    positions), and `TermDocuments` maps each term to the list of its
    entries. */
module TermIndex {
  import opened Wrappers
  import opened Bytes
  import Text

  /** `TermDocument`: immutable, and compared by reference, since it does
      not override `equals`. The positions array is the caller's own, kept
      without a copy. */
  class TermDocument {
    const docFrequency: int32
    const docPositions: array?<int32>

    constructor (docFrequency: int32, docPositions: array?<int32>)
      ensures this.docFrequency == docFrequency && this.docPositions == docPositions
    {
      this.docFrequency := docFrequency;
      this.docPositions := docPositions;
    }

    method GetDocFrequency() returns (r: int32)
      ensures r == docFrequency
    {
      r := docFrequency;
    }

    /** `getDocPositions`: the very array given to the constructor. */
    method GetDocPositions() returns (r: array?<int32>)
      ensures r == docPositions
    {
      r := docPositions;
    }

    /** `toString`: `TermDocument{docFrequency=N, docPositions=[p, ...]}`. */
    method ToString() returns (r: string)
      ensures r == DocumentText(docFrequency, if docPositions == null then None else Some(docPositions[..]))
    {
      var positions := if docPositions == null then None else Some(docPositions[..]);
      r := DocumentText(docFrequency, positions);
    }
  }

  /** `Arrays.toString(int[])`: the elements in decimal, separated by
      `", "`, in brackets; `"null"` for no array. */
  function PositionsText(positions: Option<seq<int32>>): (r: string)
    ensures positions.None? ==> r == "null"
    ensures positions.Some? ==> |r| >= 2 && r[0] == '[' && r[|r| - 1] == ']'
    ensures positions == Some([]) <==> r == "[]"
  {
    match positions
    case None => "null"
    case Some(ps) => "[" + JoinNumbers(ps) + "]"
  }

  /** The numbers in decimal, separated by `", "`. */
  function JoinNumbers(ps: seq<int32>): (r: string)
    ensures ps == [] <==> r == []
    ensures ps != [] ==> Text.LongToString(ps[0]) <= r
  {
    if ps == [] then ""
    else if |ps| == 1 then Text.LongToString(ps[0])
    else Text.LongToString(ps[0]) + ", " + JoinNumbers(ps[1..])
  }

  function DocumentText(frequency: int32, positions: Option<seq<int32>>): (r: string)
  {
    "TermDocument{docFrequency=" + Text.LongToString(frequency) + ", docPositions=" + PositionsText(positions) + "}"
  }

  /** The frequency printed by `toString` reads back as the document's
      frequency. */
  lemma DocumentTextFrequency(frequency: int32, positions: Option<seq<int32>>)
    ensures var prefix := "TermDocument{docFrequency=";
      var digits := Text.LongToString(frequency);
      DocumentText(frequency, positions)[..|prefix| + |digits|] == prefix + digits &&
      Text.ParseLong(digits) == Success(frequency as long)
  {
    var prefix := "TermDocument{docFrequency=";
    var digits := Text.LongToString(frequency);
    var rest := ", docPositions=" + PositionsText(positions) + "}";
    assert DocumentText(frequency, positions) == (prefix + digits) + rest;
    Text.ParseLongToString(frequency);
  }

  /** The sum of the entries' frequencies, in unbounded arithmetic. */
  function SumFrequencies(docs: seq<TermDocument>): int
  {
    if docs == [] then 0 else SumFrequencies(docs[..|docs| - 1]) + docs[|docs| - 1].docFrequency
  }

  /** The frequency of a term over a posting map, in unbounded arithmetic. */
  function TermFrequency(documentMap: map<string, seq<TermDocument>>, term: string): int
  {
    if term in documentMap then SumFrequencies(documentMap[term]) else 0
  }

  /** The map after `addDocument(term, doc)`. */
  function Added(documentMap: map<string, seq<TermDocument>>, term: string, doc: TermDocument): (r: map<string, seq<TermDocument>>)
    ensures term in r && r[term] == (if term in documentMap then documentMap[term] else []) + [doc]
    ensures forall t :: t != term ==> (t in r <==> t in documentMap)
    ensures forall t :: t != term && t in documentMap ==> r[t] == documentMap[t]
  {
    documentMap[term := (if term in documentMap then documentMap[term] else []) + [doc]]
  }

  /** The list with every occurrence of `doc` taken out. */
  function Without(docs: seq<TermDocument>, doc: TermDocument): (r: seq<TermDocument>)
    ensures forall i :: 0 <= i < |r| ==> r[i] in docs && r[i] != doc
    ensures forall i :: 0 <= i < |docs| && docs[i] != doc ==> docs[i] in r
    ensures |r| <= |docs|
  {
    if docs == [] then []
    else (if docs[0] == doc then [] else [docs[0]]) + Without(docs[1..], doc)
  }

  /** Java `int` accumulation agrees with reducing the exact sum once. */
  lemma Wrap32Add(a: int, b: int)
    ensures Wrap32(Wrap32(a) + b) == Wrap32(a + b)
  {
    var m := 0x1_0000_0000;
    var h := 0x8000_0000;
    var q := (a + h) / m;
    assert a + h == q * m + (a + h) % m;
    assert Wrap32(a) + b + h == (a + h + b) - q * m;
    ModuloShift(a + h + b, q);
  }

  lemma ModuloShift(x: int, q: int)
    ensures (x - q * 0x1_0000_0000) % 0x1_0000_0000 == x % 0x1_0000_0000
  {
  }

  class TermDocuments {
    var documentMap: map<string, seq<TermDocument>>

    /** The map passed in becomes the index's map. */
    constructor (documentMap: map<string, seq<TermDocument>>)
      ensures this.documentMap == documentMap
    {
      this.documentMap := documentMap;
    }

    /** `getTermFrequency`: the frequencies of the term's entries summed in
        a Java `int`; 0 for an unknown term. */
    method GetTermFrequency(term: string) returns (r: int32)
      ensures r == Wrap32(TermFrequency(documentMap, term))
    {
      r := 0;
      var remaining := documentMap.Keys;
      while remaining != {}
        invariant remaining <= documentMap.Keys
        invariant r == Wrap32(if term in documentMap && term !in remaining then SumFrequencies(documentMap[term]) else 0)
        decreases remaining
      {
        var key :| key in remaining;
        if key == term {
          var docs := documentMap[key];
          var k := 0;
          while k < |docs|
            invariant 0 <= k <= |docs|
            invariant r == Wrap32(SumFrequencies(docs[..k]))
          {
            assert docs[..k + 1][..k] == docs[..k];
            Wrap32Add(SumFrequencies(docs[..k]), docs[k].docFrequency);
            r := Wrap32(r + docs[k].docFrequency);
            k := k + 1;
          }
          assert docs[..k] == docs;
        }
        remaining := remaining - {key};
      }
    }

    /** `addDocument`: the document goes at the end of the term's list, or
        into a new one-element list for a new term. */
    method AddDocument(term: string, doc: TermDocument)
      modifies this
      ensures documentMap == Added(old(documentMap), term, doc)
    {
      if term in documentMap {
        documentMap := documentMap[term := documentMap[term] + [doc]];
      } else {
        assert [] + [doc] == [doc];
        documentMap := documentMap[term := [doc]];
      }
    }

    /** `removeDocument` as written: for every term whose list holds the
        document it removes the map entry keyed by the document itself,
        which is never a key, so the map is left as it was. The walk over
        the keys is kept and its body does nothing on purpose: the
        membership test and the removal it guards change no state, and
        `RemoveDocumentIntended` models the removal the documentation
        describes. */
    method RemoveDocument(document: TermDocument)
      ensures documentMap == old(documentMap)
    {
      var remaining := documentMap.Keys;
      while remaining != {}
        invariant remaining <= documentMap.Keys
        decreases remaining
      {
        var key :| key in remaining;
        remaining := remaining - {key};
      }
    }

    /** `removeDocuments` as written: `removeDocument` on each document in
        turn. */
    method RemoveDocuments(documents: seq<TermDocument>)
      ensures documentMap == old(documentMap)
    {
      for i := 0 to |documents|
        invariant documentMap == old(documentMap)
      {
        RemoveDocument(documents[i]);
      }
    }

    /** `removeDocument` as its documentation describes it: the document
        leaves the list of every term, and every other entry stays, in
        order. */
    method RemoveDocumentIntended(document: TermDocument)
      modifies this
      ensures documentMap.Keys == old(documentMap).Keys
      ensures forall t :: t in documentMap ==> documentMap[t] == Without(old(documentMap)[t], document)
      ensures forall t, k :: t in documentMap && 0 <= k < |documentMap[t]| ==>
        documentMap[t][k] in old(documentMap)[t] && documentMap[t][k] != document
    {
      var remaining := documentMap.Keys;
      ghost var original := documentMap;
      while remaining != {}
        invariant remaining <= documentMap.Keys == original.Keys
        invariant forall t :: t in documentMap ==>
          documentMap[t] == if t in remaining then original[t] else Without(original[t], document)
        decreases remaining
      {
        var key :| key in remaining;
        documentMap := documentMap[key := Without(documentMap[key], document)];
        remaining := remaining - {key};
      }
    }

    /** `removeDocuments` as intended: none of the documents is left in any
        list. */
    method RemoveDocumentsIntended(documents: seq<TermDocument>)
      modifies this
      ensures documentMap.Keys == old(documentMap).Keys
      ensures forall t, k :: t in documentMap && 0 <= k < |documentMap[t]| ==>
        documentMap[t][k] in old(documentMap)[t] && documentMap[t][k] !in documents
    {
      ghost var original := documentMap;
      var i := 0;
      while i < |documents|
        invariant 0 <= i <= |documents|
        invariant documentMap.Keys == original.Keys
        invariant forall t, k :: t in documentMap && 0 <= k < |documentMap[t]| ==>
          documentMap[t][k] in original[t] && documentMap[t][k] !in documents[..i]
      {
        RemoveDocumentIntended(documents[i]);
        assert documents[..i + 1] == documents[..i] + [documents[i]];
        i := i + 1;
      }
      assert documents[..i] == documents;
    }

    /** `getDocument`: always null. */
    method GetDocument(term: string, document: TermDocument) returns (r: TermDocument?)
      ensures r == null
    {
      r := null;
    }

    /** `getDocuments`: the term's list in insertion order, or null for an
        unknown term. */
    method GetDocuments(term: string) returns (r: Option<seq<TermDocument>>)
      ensures term in documentMap ==> r == Some(documentMap[term])
      ensures term !in documentMap ==> r == None
    {
      if term in documentMap {
        r := Some(documentMap[term]);
      } else {
        r := None;
      }
    }

    /** `getDocumentIterator`: walks the term's list; on an unknown term the
        call on the missing list throws `NullPointerException`. */
    method GetDocumentIterator(term: string) returns (r: Result<seq<TermDocument>, ()>)
      ensures term in documentMap ==> r == Success(documentMap[term])
      ensures term !in documentMap ==> r == Failure(())
    {
      if term !in documentMap {
        return Failure(());
      }
      r := Success(documentMap[term]);
    }
  }

  /** Adding an entry raises its term's frequency by the entry's frequency
      and leaves every other term's frequency as it was. */
  lemma AddedFrequency(documentMap: map<string, seq<TermDocument>>, term: string, doc: TermDocument, other: string)
    requires other != term
    ensures TermFrequency(Added(documentMap, term, doc), term) == TermFrequency(documentMap, term) + doc.docFrequency
    ensures TermFrequency(Added(documentMap, term, doc), other) == TermFrequency(documentMap, other)
  {
    var list := Added(documentMap, term, doc)[term];
    var before := if term in documentMap then documentMap[term] else [];
    assert list == before + [doc] && list[..|list| - 1] == before && list[|list| - 1] == doc;
    assert SumFrequencies(list) == SumFrequencies(before) + doc.docFrequency;
    assert SumFrequencies(before) == TermFrequency(documentMap, term);
  }

  /** A document added under a term and then removed with `removeDocument`
      is still listed under that term. */
  method DocumentSurvivesRemoval(term: string) returns (listed: bool)
    ensures listed
  {
    var positions := new int32[1](_ => 7);
    var document := new TermDocument(1, positions);
    var index := new TermDocuments(map[]);
    index.AddDocument(term, document);
    index.RemoveDocument(document);
    listed := document in index.documentMap[term];
  }

  /** With the intended removal the same document is gone. */
  method DocumentLeavesOnIntendedRemoval(term: string) returns (listed: bool)
    ensures !listed
  {
    var positions := new int32[1](_ => 7);
    var document := new TermDocument(1, positions);
    var index := new TermDocuments(map[]);
    index.AddDocument(term, document);
    index.RemoveDocumentIntended(document);
    listed := document in index.documentMap[term];
  }
}
