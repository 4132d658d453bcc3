/**
 * The drawing-metadata pass of the Columbus drawing analyzer: five field
 * patterns searched over the whole model response, the first match of each
 * kept, group 1 trimmed, under the field's key.
 */
module Metadata {

  import opened Wrappers
  import opened Strings
  import opened Matching

  /** One entry of the field table: the key stored in the metadata and the expression searched for. */
  datatype FieldPattern = FieldPattern(key: string, regex: string)

  /** The field table, in the order the extractor searches it. */
  const MetadataPatterns: seq<FieldPattern> := [
      FieldPattern("part_number", @"(?:part|drawing|no\.?|number)\s*:?\s*([A-Z0-9\-\.]+)"),
      FieldPattern("material", @"(?:material|mat\'l)\s*:?\s*([A-Z0-9\s\-]+)"),
      FieldPattern("scale", @"(?:scale)\s*:?\s*([\d\.:]+)"),
      FieldPattern("weight", @"(?:weight)\s*:?\s*([\d\.]+\s*\w+)"),
      FieldPattern("revision", @"(?:rev|revision)\s*:?\s*([A-Z0-9]+)")
    ]

  /** The keys the metadata may hold. */
  const MetadataKeys: set<string> := {"part_number", "material", "scale", "weight", "revision"}

  /** Python's `d.get(key)`. */
  function Get(m: map<string, string>, key: string): Option<string> {
    if key in m then Some(m[key]) else None
  }

  /**
   * The first match of `regex` on `text`, if any, holds its group 1. Every
   * field pattern has one capture group that takes part in every match, so
   * Python's `re` guarantees this.
   */
  predicate GroupPresent(finditer: Matcher, regex: string, text: string) {
    match Search(finditer, regex, text)
    case None => true
    case Some(m) => HasGroups(m, |m.groups|) && |m.groups| >= 1
  }

  /** `GroupPresent` for every entry of `patterns`. */
  predicate GroupsPresent(patterns: seq<FieldPattern>, text: string, finditer: Matcher) {
    forall f :: 0 <= f < |patterns| ==> GroupPresent(finditer, patterns[f].regex, text)
  }

  /** `re.search(regex, text)` followed by `match.group(1).strip()` when there is a match. */
  function FieldValue(finditer: Matcher, regex: string, text: string): Option<string>
    requires GroupPresent(finditer, regex, text)
  {
    match Search(finditer, regex, text)
    case None => None
    case Some(m) => Some(Strip(m.groups[0].value))
  }

  /** The metadata after the first `n` entries of `patterns`. */
  function MetadataAfter(patterns: seq<FieldPattern>, text: string, n: nat, finditer: Matcher): map<string, string>
    requires n <= |patterns| && GroupsPresent(patterns, text, finditer)
  {
    if n == 0 then map[]
    else
      var metadata := MetadataAfter(patterns, text, n - 1, finditer);
      match FieldValue(finditer, patterns[n - 1].regex, text)
      case None => metadata
      case Some(value) => metadata[patterns[n - 1].key := value]
  }

  /** What `_extract_drawing_metadata(text)` returns. */
  function MetadataOf(text: string, finditer: Matcher): map<string, string>
    requires GroupsPresent(MetadataPatterns, text, finditer)
  {
    MetadataAfter(MetadataPatterns, text, |MetadataPatterns|, finditer)
  }

  /** `_extract_drawing_metadata`: for every field in order, search the text and keep the trimmed group 1 of a match. */
  method ExtractMetadata(text: string, finditer: Matcher) returns (metadata: map<string, string>)
    requires GroupsPresent(MetadataPatterns, text, finditer)
    ensures metadata == MetadataOf(text, finditer)
  {
    metadata := map[];
    var f := 0;
    while f < |MetadataPatterns|
      invariant 0 <= f <= |MetadataPatterns|
      invariant metadata == MetadataAfter(MetadataPatterns, text, f, finditer)
    {
      var field := MetadataPatterns[f];
      var found := Search(finditer, field.regex, text);
      if found.Some? {
        metadata := metadata[field.key := Strip(found.value.groups[0].value)];
      }
      f := f + 1;
    }
  }

  // ---------------------------------------------------------------------------
  // Properties

  ghost predicate DistinctKeys(patterns: seq<FieldPattern>) {
    forall f, g :: 0 <= f < g < |patterns| ==> patterns[f].key != patterns[g].key
  }

  /** The keys of the first `n` entries of `patterns`. */
  function KeysOf(patterns: seq<FieldPattern>, n: nat): set<string>
    requires n <= |patterns|
  {
    set f | 0 <= f < n :: patterns[f].key
  }

  /** A field found by a search has a value; a field whose search fails has none. */
  lemma FieldValueFound(finditer: Matcher, regex: string, text: string)
    requires GroupPresent(finditer, regex, text)
    ensures FieldValue(finditer, regex, text).Some? <==> finditer(regex, text) != []
    ensures FieldValue(finditer, regex, text).Some? ==>
              FieldValue(finditer, regex, text).value == Strip(finditer(regex, text)[0].groups[0].value)
  {
  }

  /**
   * With distinct keys, entry `f` ends up in the metadata after the first `n`
   * entries exactly when it is among them and its search matched, holding the
   * trimmed group 1 of its first match.
   */
  lemma {:induction false} MetadataAfterField(patterns: seq<FieldPattern>, text: string, n: nat, finditer: Matcher, f: nat)
    requires n <= |patterns| && f < |patterns| && GroupsPresent(patterns, text, finditer) && DistinctKeys(patterns)
    ensures Get(MetadataAfter(patterns, text, n, finditer), patterns[f].key)
         == if f < n then FieldValue(finditer, patterns[f].regex, text) else None
  {
    if n > 0 {
      MetadataAfterField(patterns, text, n - 1, finditer, f);
      if f != n - 1 {
        assert patterns[f].key != patterns[n - 1].key;
      }
    }
  }

  /** The metadata after the first `n` entries uses only their keys. */
  lemma {:induction false} MetadataAfterKeys(patterns: seq<FieldPattern>, text: string, n: nat, finditer: Matcher)
    requires n <= |patterns| && GroupsPresent(patterns, text, finditer)
    ensures MetadataAfter(patterns, text, n, finditer).Keys <= KeysOf(patterns, n)
  {
    if n > 0 {
      MetadataAfterKeys(patterns, text, n - 1, finditer);
      assert KeysOf(patterns, n) == KeysOf(patterns, n - 1) + {patterns[n - 1].key};
    }
  }

  /** The metadata after the first `n` entries is empty exactly when none of their searches matched. */
  lemma {:induction false} MetadataAfterEmpty(patterns: seq<FieldPattern>, text: string, n: nat, finditer: Matcher)
    requires n <= |patterns| && GroupsPresent(patterns, text, finditer)
    ensures MetadataAfter(patterns, text, n, finditer) == map[]
        <==> forall f :: 0 <= f < n ==> finditer(patterns[f].regex, text) == []
  {
    if n > 0 {
      MetadataAfterEmpty(patterns, text, n - 1, finditer);
      var metadata := MetadataAfter(patterns, text, n - 1, finditer);
      var field := patterns[n - 1];
      FieldValueFound(finditer, field.regex, text);
      if finditer(field.regex, text) != [] {
        var value := FieldValue(finditer, field.regex, text).value;
        assert field.key in metadata[field.key := value];
      }
    }
  }

  lemma MetadataKeysDistinct()
    ensures DistinctKeys(MetadataPatterns)
  {
  }

  /**
   * A field's key is in the metadata exactly when its pattern matches
   * somewhere in the text, and then it holds group 1 of the first match,
   * trimmed.
   */
  lemma MetadataField(text: string, finditer: Matcher, f: nat)
    requires GroupsPresent(MetadataPatterns, text, finditer) && f < |MetadataPatterns|
    ensures MetadataPatterns[f].key in MetadataOf(text, finditer) <==> finditer(MetadataPatterns[f].regex, text) != []
    ensures MetadataPatterns[f].key in MetadataOf(text, finditer) ==>
              MetadataOf(text, finditer)[MetadataPatterns[f].key]
              == Strip(finditer(MetadataPatterns[f].regex, text)[0].groups[0].value)
  {
    MetadataKeysDistinct();
    MetadataAfterField(MetadataPatterns, text, |MetadataPatterns|, finditer, f);
    FieldValueFound(finditer, MetadataPatterns[f].regex, text);
  }

  /** The metadata holds no key outside the five fields. */
  lemma MetadataKeysKnown(text: string, finditer: Matcher)
    requires GroupsPresent(MetadataPatterns, text, finditer)
    ensures MetadataOf(text, finditer).Keys <= MetadataKeys
  {
    MetadataAfterKeys(MetadataPatterns, text, |MetadataPatterns|, finditer);
    forall k | k in KeysOf(MetadataPatterns, |MetadataPatterns|)
      ensures k in MetadataKeys
    {
      var f :| 0 <= f < |MetadataPatterns| && MetadataPatterns[f].key == k;
      assert f == 0 || f == 1 || f == 2 || f == 3 || f == 4;
    }
  }

  /** A text on which no field pattern matches yields the empty map, and only such a text does. */
  lemma NoMatchNoMetadata(text: string, finditer: Matcher)
    requires GroupsPresent(MetadataPatterns, text, finditer)
    ensures MetadataOf(text, finditer) == map[]
        <==> forall f :: 0 <= f < |MetadataPatterns| ==> finditer(MetadataPatterns[f].regex, text) == []
  {
    MetadataAfterEmpty(MetadataPatterns, text, |MetadataPatterns|, finditer);
  }
}
