/** `AvroUtils`: schemas are composed textually. Every registered schema's
    JSON text replaces each mention of its name in a schema document before
    the document is parsed, and the parsed schema is registered under its
    full name in turn. */
module AvroSchemas {
  import opened Wrappers

  /** A parsed schema: its full name and the JSON text `toString` gives. */
  datatype Schema = Schema(fullName: string, json: string)

  /** `Schema.Parser.parse`, which is not part of this model: a parameter. */
  type SchemaParser = string -> Result<Schema, ()>

  /** `p` occurs in `s` at index `j`. */
  predicate OccursAt(s: string, p: string, j: int)
  {
    0 <= j && j + |p| <= |s| && s[j..j + |p|] == p
  }

  /** `String.indexOf(p, from)`: the first index at or after `from` where
      `p` occurs in `s`, or -1. */
  function IndexOfFrom(s: string, p: string, from: nat): (r: int)
    requires from <= |s|
    ensures r == -1 || (from <= r && OccursAt(s, p, r))
    ensures r == -1 ==> forall j :: from <= j ==> !OccursAt(s, p, j)
    ensures r != -1 ==> forall j :: from <= j < r ==> !OccursAt(s, p, j)
    decreases |s| - from
  {
    if from + |p| > |s| then -1
    else if s[from..from + |p|] == p then from
    else IndexOfFrom(s, p, from + 1)
  }

  /** The text from index `start` on with every occurrence of `p`, found
      left to right without overlaps, replaced by `r`. */
  function ReplacedFrom(s: string, p: string, r: string, start: nat): string
    requires p != "" && start <= |s|
    decreases |s| - start
  {
    var i := IndexOfFrom(s, p, start);
    if i < 0 then s[start..] else s[start..i] + r + ReplacedFrom(s, p, r, i + |p|)
  }

  /** The whole text with every occurrence of `p` replaced by `r`. */
  function Replaced(s: string, p: string, r: string): string
    requires p != ""
  {
    ReplacedFrom(s, p, r, 0)
  }

  /** One step of the scan, after the text `acc` already produced: the text
      before the next occurrence and the replacement join `acc`, and the
      scan resumes after the occurrence. */
  lemma ReplacedStep(acc: string, s: string, p: string, r: string, start: nat)
    requires p != "" && start <= |s|
    ensures var i := IndexOfFrom(s, p, start);
      (i < 0 ==> acc + ReplacedFrom(s, p, r, start) == acc + s[start..]) &&
      (i >= 0 ==>
        start <= i && i + |p| <= |s| &&
        acc + ReplacedFrom(s, p, r, start) == (acc + s[start..i] + r) + ReplacedFrom(s, p, r, i + |p|))
  {
    var i := IndexOfFrom(s, p, start);
    if i >= 0 {
      var rest := ReplacedFrom(s, p, r, i + |p|);
      assert ReplacedFrom(s, p, r, start) == s[start..i] + r + rest;
      assert acc + (s[start..i] + r + rest) == (acc + s[start..i] + r) + rest;
    }
  }

  /** `replace(str, pattern, replace)`: scans from `start` for the next
      occurrence, copies the text before it and the replacement, and resumes
      after the occurrence. An empty pattern is found at `start` forever, so
      the source needs a non-empty one to return. */
  method Replace(str: string, pattern: string, replacement: string) returns (r: string)
    requires pattern != ""
    ensures r == Replaced(str, pattern, replacement)
  {
    var start := 0;
    var result := "";
    while true
      invariant 0 <= start <= |str|
      invariant result + ReplacedFrom(str, pattern, replacement, start) == Replaced(str, pattern, replacement)
      decreases |str| - start
    {
      var end := IndexOfFrom(str, pattern, start);
      ReplacedStep(result, str, pattern, replacement, start);
      if end < 0 {
        break;
      }
      result := result + str[start..end] + replacement;
      start := end + |pattern|;
    }
    r := result + str[start..];
  }

  /** Where the pattern does not occur, the text is returned unchanged. */
  lemma ReplaceAbsent(s: string, p: string, r: string)
    requires p != ""
    requires forall j :: !OccursAt(s, p, j)
    ensures Replaced(s, p, r) == s
  {
  }

  /** Replacing the pattern by itself changes nothing. */
  lemma {:induction false} ReplaceIdentity(s: string, p: string, start: nat)
    requires p != "" && start <= |s|
    ensures ReplacedFrom(s, p, p, start) == s[start..]
    decreases |s| - start
  {
    var i := IndexOfFrom(s, p, start);
    if i >= 0 {
      ReplaceIdentity(s, p, i + |p|);
      assert s[start..] == s[start..i] + s[i..i + |p|] + s[i + |p|..];
    }
  }

  /** An occurrence at the scan position is replaced and scanning resumes
      after it, so text brought in by the replacement is never scanned
      again. */
  lemma ReplaceLeading(t: string, p: string, r: string, j: nat)
    requires p != "" && OccursAt(t, p, j)
    ensures ReplacedFrom(t, p, r, j) == r + ReplacedFrom(t, p, r, j + |p|)
  {
    assert t[j..j + |p|] == p;
    assert IndexOfFrom(t, p, j) == j;
    assert t[j..j] + r == r;
  }

  /** The pattern replaced by a text that contains it: each occurrence is
      replaced once, `replace("ab", "ab", "abab")` is `"abab"`. */
  lemma ReplaceOnce()
    ensures Replaced("ab", "ab", "abab") == "abab"
  {
    ReplaceLeading("ab", "ab", "abab", 0);
    assert "ab"[2..] == "";
  }

  /** The text after replacing the names in `order` one after another, each
      by its registered schema's JSON text. */
  function ResolveIn(text: string, order: seq<string>, schemas: map<string, Schema>): string
    requires forall i :: 0 <= i < |order| ==> order[i] in schemas && order[i] != ""
  {
    if order == [] then text
    else
      var last := order[|order| - 1];
      Replaced(ResolveIn(text, order[..|order| - 1], schemas), last, schemas[last].json)
  }

  /** The registry of schemas by name (a static map in the source). */
  class SchemaRegistry {
    var schemas: map<string, Schema>

    constructor ()
      ensures schemas == map[]
    {
      schemas := map[];
    }

    /** `addSchema`: registers the schema under the name, replacing any
        schema of that name. */
    method AddSchema(name: string, schema: Schema)
      modifies this
      ensures schemas == old(schemas)[name := schema]
    {
      schemas := schemas[name := schema];
    }

    /** `getSchema`: the schema registered under the name, or null. */
    method GetSchema(name: string) returns (r: Option<Schema>)
      ensures name in schemas ==> r == Some(schemas[name])
      ensures name !in schemas ==> r == None
    {
      if name in schemas {
        r := Some(schemas[name]);
      } else {
        r := None;
      }
    }

    /** `resolveSchema`: each registered name, in the map's iteration order,
        replaced by its schema's text. A registered empty name would make
        `replace` run forever. */
    method ResolveSchema(text: string) returns (result: string, ghost order: seq<string>)
      requires "" !in schemas
      ensures forall n :: n in order <==> n in schemas
      ensures forall i, j :: 0 <= i < j < |order| ==> order[i] != order[j]
      ensures result == ResolveIn(text, order, schemas)
    {
      result := text;
      order := [];
      var remaining := schemas.Keys;
      while remaining != {}
        invariant remaining <= schemas.Keys
        invariant forall n :: n in order <==> n in schemas && n !in remaining
        invariant forall i, j :: 0 <= i < j < |order| ==> order[i] != order[j]
        invariant result == ResolveIn(text, order, schemas)
        decreases remaining
      {
        var name :| name in remaining;
        assert (order + [name])[..|order|] == order;
        result := Replace(result, name, schemas[name].json);
        order := order + [name];
        remaining := remaining - {name};
      }
    }

    /** `parseSchema`: the resolved document is parsed and the schema is
        registered under its full name; a parse failure registers nothing. */
    method ParseSchema(text: string, parse: SchemaParser) returns (r: Result<Schema, ()>, ghost order: seq<string>)
      requires "" !in schemas
      modifies this
      ensures forall n :: n in order <==> n in old(schemas)
      ensures parse(ResolveIn(text, order, old(schemas))).Failure? ==>
        r.Failure? && schemas == old(schemas)
      ensures parse(ResolveIn(text, order, old(schemas))).Success? ==>
        r == parse(ResolveIn(text, order, old(schemas))) && schemas == old(schemas)[r.value.fullName := r.value]
    {
      var complete;
      complete, order := ResolveSchema(text);
      r := parse(complete);
      if r.Failure? {
        return;
      }
      AddSchema(r.value.fullName, r.value);
    }
  }

  /** With nothing registered, resolving leaves the document as it is; with
      one schema registered, it is one `replace`. */
  lemma ResolveSmall(text: string, name: string, schema: Schema)
    requires name != ""
    ensures ResolveIn(text, [], map[]) == text
    ensures ResolveIn(text, [name], map[name := schema]) == Replaced(text, name, schema.json)
  {
  }

  /** A schema added and then looked up is the one added, and a second add
      under the same name replaces it. */
  method AddThenGet(registry: SchemaRegistry, name: string, first: Schema, second: Schema) returns (seen: Option<Schema>, later: Option<Schema>)
    modifies registry
    ensures seen == Some(first) && later == Some(second)
  {
    registry.AddSchema(name, first);
    seen := registry.GetSchema(name);
    registry.AddSchema(name, second);
    later := registry.GetSchema(name);
  }
}
