/**
 * The regex pass of the Columbus drawing analyzer: the ordered table of
 * dimension patterns, the confidence score of one match, and the extractor
 * that turns a block of model output into dimension records, line by line,
 * pattern by pattern, match by match.
 *
 * Confidences are kept in integer hundredths (0.95 is 95).
 */
module Dimensions {

  import opened Wrappers
  import opened Strings
  import opened Matching

  /** One entry of the pattern table: the name a record carries as its type, the expression, its group count. */
  datatype DimensionPattern = DimensionPattern(name: string, regex: string, groups: nat)

  /** The pattern table, in the order the extractor tries the patterns on every line. */
  const DimensionPatterns: seq<DimensionPattern> := [
      DimensionPattern("tolerance_dim", @"(\d+\.?\d*)\s*[" + "\U{B1}" + @"]\s*(\d+\.?\d*)", 2),
      DimensionPattern("diameter_symbol", @"[" + "\U{D8}\U{2205}" + @"]\s*(\d+\.?\d*)", 1),
      DimensionPattern("radius", @"R\s*(\d+\.?\d*)", 1),
      DimensionPattern("thread_spec", @"(\d+(?:\s*/\s*\d+)?)\s*[-" + "\U{2011}" + @"]\s*(\d+)\s*(UNC|UNF|UNEF)\s*[-" + "\U{2011}" + @"]\s*(\dA|\dB)", 4),
      DimensionPattern("chamfer", @"(\d+\.?\d*)\s*[Xx" + "\U{D7}" + @"]\s*(\d+\.?\d*)" + "\U{B0}" + @"?\s*[Cc]hamfer", 2),
      DimensionPattern("decimal_dim", @"\b(\d+\.\d{2,3})\b", 1),
      DimensionPattern("fractional_dim", @"(\d+)\s*(\d+/\d+)", 2),
      DimensionPattern("inspection_feature", @"\*\s*(\d+\.?\d*)\s*[" + "\U{B1}" + @"]?\s*(\d+\.?\d*)?", 2)
    ]

  /** Base confidence of each pattern name, in hundredths. */
  const BaseConfidenceTable: map<string, nat> := map[
      "tolerance_dim" := 90,
      "diameter_symbol" := 95,
      "thread_spec" := 98,
      "inspection_feature" := 95,
      "chamfer" := 85,
      "radius" := 85,
      "decimal_dim" := 70,
      "fractional_dim" := 60
    ]

  /** Base confidence of a name missing from the table. */
  const UnknownKindConfidence: nat := 50

  /** Substrings of typical hydraulic dimensions that raise a match's confidence. */
  const BoostKeywords: seq<string> := ["2.49", "2.47", "1.00", "0.81"]

  const Boost: nat := 10

  const MaxConfidence: nat := 100

  // ---------------------------------------------------------------------------
  // Pattern names

  function RankFrom(table: seq<DimensionPattern>, kind: string, i: nat): (k: nat)
    requires i <= |table|
    ensures i <= k <= |table|
    ensures k < |table| ==> table[k].name == kind
    ensures forall j :: i <= j < k ==> table[j].name != kind
    decreases |table| - i
  {
    if i == |table| then i
    else if table[i].name == kind then i
    else RankFrom(table, kind, i + 1)
  }

  /** Position of the first entry of `table` named `kind`, or the table's length for a name not in it. */
  function RankIn(table: seq<DimensionPattern>, kind: string): (k: nat)
    ensures k <= |table|
    ensures k < |table| ==> table[k].name == kind
    ensures k == |table| <==> forall j :: 0 <= j < |table| ==> table[j].name != kind
  {
    RankFrom(table, kind, 0)
  }

  /** Position of a name in the extractor's pattern table. */
  function Rank(kind: string): nat {
    RankIn(DimensionPatterns, kind)
  }

  predicate IsPatternName(kind: string) {
    Rank(kind) < |DimensionPatterns|
  }

  ghost predicate DistinctNames(table: seq<DimensionPattern>) {
    forall i, j :: 0 <= i < j < |table| ==> table[i].name != table[j].name
  }

  /** In a table with distinct names every entry is found at its own position. */
  lemma RankOfEntry(table: seq<DimensionPattern>, k: nat)
    requires DistinctNames(table) && k < |table|
    ensures RankIn(table, table[k].name) == k
  {
    var kind := table[k].name;
    var r := RankIn(table, kind);
    assert r <= k;
    assert forall j :: 0 <= j < |table| && table[j].name == kind ==> j == k;
  }

  /** No two entries of the extractor's table share a name. */
  lemma PatternNamesDistinct()
    ensures DistinctNames(DimensionPatterns)
  {
    var names := seq(|DimensionPatterns|, j requires 0 <= j < |DimensionPatterns| => DimensionPatterns[j].name);
    assert names == ["tolerance_dim", "diameter_symbol", "radius", "thread_spec",
                     "chamfer", "decimal_dim", "fractional_dim", "inspection_feature"];
  }

  // ---------------------------------------------------------------------------
  // _calculate_confidence

  /** The confidence table and the pattern table name the same eight kinds. */
  lemma BaseTableCoversPatterns(kind: string)
    ensures kind in BaseConfidenceTable <==> IsPatternName(kind)
  {
    var r := Rank(kind);
    if r < |DimensionPatterns| {
      assert kind == DimensionPatterns[r].name;
    }
    if kind in BaseConfidenceTable {
      var names := seq(|DimensionPatterns|, j requires 0 <= j < |DimensionPatterns| => DimensionPatterns[j].name);
      assert names == ["tolerance_dim", "diameter_symbol", "radius", "thread_spec",
                       "chamfer", "decimal_dim", "fractional_dim", "inspection_feature"];
      assert kind in names;
      var j :| 0 <= j < |names| && names[j] == kind;
      assert DimensionPatterns[j].name == kind;
    }
  }

  /** The keywords hold no letters, so lower-casing the match text cannot change whether they occur. */
  lemma BoostKeywordsIgnoreCase(text: string)
    ensures forall k :: 0 <= k < |BoostKeywords| ==>
              (Contains(Lower(text), BoostKeywords[k]) <==> Contains(text, BoostKeywords[k]))
  {
    forall k | 0 <= k < |BoostKeywords|
      ensures Contains(Lower(text), BoostKeywords[k]) <==> Contains(text, BoostKeywords[k])
    {
      LowerKeepsCaselessWord(text, BoostKeywords[k]);
    }
  }

  /** `base_confidence.get(pattern_type, 0.5)`. */
  function BaseConfidence(kind: string): nat {
    if kind in BaseConfidenceTable then BaseConfidenceTable[kind] else UnknownKindConfidence
  }

  /** Every name of the pattern table has its own base below 1.0; only other names fall back to 0.5. */
  lemma BaseConfidenceRange(kind: string)
    ensures UnknownKindConfidence <= BaseConfidence(kind) < MaxConfidence
    ensures BaseConfidence(kind) == UnknownKindConfidence <==> !IsPatternName(kind)
  {
    BaseTableCoversPatterns(kind);
  }

  /** `any(keyword in text for keyword in keywords)` over the boost keywords. */
  predicate HasBoostKeyword(text: string) {
    exists k :: 0 <= k < |BoostKeywords| && Contains(text, BoostKeywords[k])
  }

  /**
   * `_calculate_confidence`: the base for the kind, 0.1 more when the
   * lower-cased match text holds a boost keyword, never above 1.0.
   */
  function Confidence(kind: string, matchText: string): nat {
    var base := BaseConfidence(kind);
    var conf := if HasBoostKeyword(Lower(matchText)) then base + Boost else base;
    if conf < MaxConfidence then conf else MaxConfidence
  }

  /**
   * The confidence lies between the kind's base and 1.0; it exceeds the base
   * exactly when the match text (in any case) holds a boost keyword, and then
   * it is the base plus 0.1, capped at 1.0.
   */
  lemma ConfidenceBounds(kind: string, matchText: string)
    ensures BaseConfidence(kind) <= Confidence(kind, matchText) <= MaxConfidence
    ensures Confidence(kind, matchText) > BaseConfidence(kind) <==> HasBoostKeyword(matchText)
    ensures HasBoostKeyword(matchText) ==>
              Confidence(kind, matchText)
              == if BaseConfidence(kind) + Boost < MaxConfidence then BaseConfidence(kind) + Boost else MaxConfidence
  {
    BaseConfidenceRange(kind);
    BoostKeywordsIgnoreCase(matchText);
  }

  // ---------------------------------------------------------------------------
  // Dimension records

  /**
   * One dictionary of `extract_dimensions_regex`'s result: `type`, `value`,
   * `tolerance`, `full_match`, `line_number` (1-based), `line_text` and
   * `confidence` (hundredths).
   */
  datatype DimensionRecord = DimensionRecord(
    kind: string,
    value: Option<string>,
    tolerance: Option<string>,
    fullMatch: string,
    lineNumber: nat,
    lineText: string,
    confidence: nat)

  /** What every record promises of its confidence. */
  predicate ScoredRecord(r: DimensionRecord) {
    && BaseConfidence(r.kind) <= r.confidence <= MaxConfidence
    && (r.confidence > BaseConfidence(r.kind) <==> HasBoostKeyword(r.fullMatch))
  }

  /** Where one record comes from: a match `m` of the table entry `pattern` on line `lineNumber`, whose text is `line`. */
  datatype Hit = Hit(pattern: DimensionPattern, m: Match, lineNumber: nat, line: string)

  /**
   * The dictionary built for one hit: group 1 as the value (the whole match
   * for a pattern without groups), group 2 as the tolerance when the pattern
   * has a second group, the stripped line and the confidence of the match.
   */
  function MakeRecord(h: Hit): DimensionRecord {
    DimensionRecord(
      h.pattern.name,
      if |h.m.groups| > 0 then h.m.groups[0] else Some(h.m.full),
      if |h.m.groups| > 1 then h.m.groups[1] else None,
      h.m.full,
      h.lineNumber,
      Strip(h.line),
      Confidence(h.pattern.name, h.m.full))
  }

  /** The records of a sequence of hits, one each, in order. */
  function Records(hits: seq<Hit>): seq<DimensionRecord> {
    seq(|hits|, i requires 0 <= i < |hits| => MakeRecord(hits[i]))
  }

  /** `text.split('\n')`. */
  function Lines(text: string): seq<string> {
    Split(text, '\n')
  }

  /** The hits of one pattern's matches on one line, in match order. */
  function MatchHits(pattern: DimensionPattern, matches: seq<Match>, lineNumber: nat, line: string): seq<Hit> {
    seq(|matches|, k requires 0 <= k < |matches| => Hit(pattern, matches[k], lineNumber, line))
  }

  /** The hits of the first `n` patterns of `table` on one line. */
  function PatternHits(table: seq<DimensionPattern>, line: string, lineNumber: nat, n: nat, finditer: Matcher): seq<Hit>
    requires n <= |table|
  {
    if n == 0 then []
    else
      var pattern := table[n - 1];
      PatternHits(table, line, lineNumber, n - 1, finditer) + MatchHits(pattern, finditer(pattern.regex, line), lineNumber, line)
  }

  /** The hits of the first `n` lines. */
  function LinesHits(table: seq<DimensionPattern>, lines: seq<string>, n: nat, finditer: Matcher): seq<Hit>
    requires n <= |lines|
  {
    if n == 0 then []
    else LinesHits(table, lines, n - 1, finditer) + PatternHits(table, lines[n - 1], n, |table|, finditer)
  }

  /** The hits of the extractor on `text`. */
  function HitsOf(text: string, finditer: Matcher): seq<Hit> {
    LinesHits(DimensionPatterns, Lines(text), |Lines(text)|, finditer)
  }

  /** What `extract_dimensions_regex(text)` returns. */
  function DimensionsOf(text: string, finditer: Matcher): seq<DimensionRecord> {
    Records(HitsOf(text, finditer))
  }

  lemma RecordsConcat(xs: seq<Hit>, ys: seq<Hit>)
    ensures Records(xs + ys) == Records(xs) + Records(ys)
  {
    var l, r := Records(xs + ys), Records(xs) + Records(ys);
    forall i | 0 <= i < |l| ensures l[i] == r[i] {
      if i < |xs| { assert (xs + ys)[i] == xs[i]; } else { assert (xs + ys)[i] == ys[i - |xs|]; }
    }
  }

  /**
   * `extract_dimensions_regex`: for every line, every pattern of the table in
   * order, every match in order, append one record. The two inner loops are
   * `LineDimensions` and `MatchDimensions`.
   */
  method ExtractDimensions(text: string, finditer: Matcher) returns (dimensions: seq<DimensionRecord>)
    ensures dimensions == DimensionsOf(text, finditer)
  {
    dimensions := [];
    var lines := Lines(text);
    var i := 0;
    while i < |lines|
      invariant 0 <= i <= |lines|
      invariant dimensions == Records(LinesHits(DimensionPatterns, lines, i, finditer))
    {
      var lineRecords := LineDimensions(lines[i], i + 1, finditer);
      RecordsConcat(LinesHits(DimensionPatterns, lines, i, finditer),
                    PatternHits(DimensionPatterns, lines[i], i + 1, |DimensionPatterns|, finditer));
      dimensions := dimensions + lineRecords;
      i := i + 1;
    }
  }

  /** The loop over the pattern table for one line. */
  method LineDimensions(line: string, lineNumber: nat, finditer: Matcher) returns (records: seq<DimensionRecord>)
    ensures records == Records(PatternHits(DimensionPatterns, line, lineNumber, |DimensionPatterns|, finditer))
  {
    records := [];
    var j := 0;
    while j < |DimensionPatterns|
      invariant 0 <= j <= |DimensionPatterns|
      invariant records == Records(PatternHits(DimensionPatterns, line, lineNumber, j, finditer))
    {
      var pattern := DimensionPatterns[j];
      var matchRecords := MatchDimensions(pattern, finditer(pattern.regex, line), lineNumber, line);
      RecordsConcat(PatternHits(DimensionPatterns, line, lineNumber, j, finditer),
                    MatchHits(pattern, finditer(pattern.regex, line), lineNumber, line));
      records := records + matchRecords;
      j := j + 1;
    }
  }

  /** The loop over one pattern's matches on one line. */
  method MatchDimensions(pattern: DimensionPattern, matches: seq<Match>, lineNumber: nat, line: string)
    returns (records: seq<DimensionRecord>)
    ensures records == Records(MatchHits(pattern, matches, lineNumber, line))
  {
    records := [];
    var k := 0;
    while k < |matches|
      invariant 0 <= k <= |matches|
      invariant |records| == k
      invariant forall i :: 0 <= i < k ==> records[i] == MakeRecord(Hit(pattern, matches[i], lineNumber, line))
    {
      records := records + [MakeRecord(Hit(pattern, matches[k], lineNumber, line))];
      k := k + 1;
    }
    var expected := Records(MatchHits(pattern, matches, lineNumber, line));
    assert forall i :: 0 <= i < k ==> expected[i] == MakeRecord(Hit(pattern, matches[i], lineNumber, line));
  }

  /**
   * A record carries the type of its pattern and the number of its line,
   * quotes the line stripped, and takes group 1 as its value whenever the
   * pattern has groups; the tolerance is group 2 when the pattern has more
   * than one group, and there is none otherwise.
   */
  lemma RecordOfHit(h: Hit)
    requires HasGroups(h.m, h.pattern.groups)
    ensures MakeRecord(h).kind == h.pattern.name && MakeRecord(h).lineNumber == h.lineNumber
    ensures MakeRecord(h).lineText == Strip(h.line) && MakeRecord(h).fullMatch == h.m.full
    ensures MakeRecord(h).value.Some?
    ensures h.pattern.groups > 0 ==> MakeRecord(h).value == h.m.groups[0]
    ensures h.pattern.groups == 0 ==> MakeRecord(h).value == Some(h.m.full)
    ensures MakeRecord(h).tolerance == if h.pattern.groups > 1 then h.m.groups[1] else None
  {
  }

  // ---------------------------------------------------------------------------
  // Where hits come from

  /** Every hit of `hs` lies on line `lineNumber`. */
  predicate OnLine(hs: seq<Hit>, lineNumber: nat) {
    forall i :: 0 <= i < |hs| ==> hs[i].lineNumber == lineNumber
  }

  /** Every hit of `hs` is on the text `line`. */
  predicate OfLine(hs: seq<Hit>, line: string) {
    forall i :: 0 <= i < |hs| ==> hs[i].line == line
  }

  /** Every hit of `hs` comes from one of the first `n` entries of `table`. */
  predicate KindsBelow(table: seq<DimensionPattern>, hs: seq<Hit>, n: nat) {
    forall i :: 0 <= i < |hs| ==> RankIn(table, hs[i].pattern.name) < n
  }

  /** Every hit of `hs` lies on one of the lines 1 to `n`. */
  predicate LinesWithin(hs: seq<Hit>, n: nat) {
    forall i :: 0 <= i < |hs| ==> 1 <= hs[i].lineNumber <= n
  }

  /** Every hit of `hs` names a line of `lines` and was found on that line's text. */
  predicate FromLines(hs: seq<Hit>, lines: seq<string>) {
    forall i :: 0 <= i < |hs| ==> 1 <= hs[i].lineNumber <= |lines| && hs[i].line == lines[hs[i].lineNumber - 1]
  }

  lemma OnLineConcat(xs: seq<Hit>, ys: seq<Hit>, lineNumber: nat)
    requires OnLine(xs, lineNumber) && OnLine(ys, lineNumber)
    ensures OnLine(xs + ys, lineNumber)
  {
    forall i | 0 <= i < |xs + ys| ensures (xs + ys)[i].lineNumber == lineNumber {
      if i < |xs| { assert (xs + ys)[i] == xs[i]; } else { assert (xs + ys)[i] == ys[i - |xs|]; }
    }
  }

  lemma OfLineConcat(xs: seq<Hit>, ys: seq<Hit>, line: string)
    requires OfLine(xs, line) && OfLine(ys, line)
    ensures OfLine(xs + ys, line)
  {
    forall i | 0 <= i < |xs + ys| ensures (xs + ys)[i].line == line {
      if i < |xs| { assert (xs + ys)[i] == xs[i]; } else { assert (xs + ys)[i] == ys[i - |xs|]; }
    }
  }

  lemma KindsBelowConcat(table: seq<DimensionPattern>, xs: seq<Hit>, ys: seq<Hit>, n: nat)
    requires KindsBelow(table, xs, n) && KindsBelow(table, ys, n)
    ensures KindsBelow(table, xs + ys, n)
  {
    forall i | 0 <= i < |xs + ys| ensures RankIn(table, (xs + ys)[i].pattern.name) < n {
      if i < |xs| { assert (xs + ys)[i] == xs[i]; } else { assert (xs + ys)[i] == ys[i - |xs|]; }
    }
  }

  lemma LinesWithinConcat(xs: seq<Hit>, ys: seq<Hit>, n: nat)
    requires LinesWithin(xs, n) && LinesWithin(ys, n)
    ensures LinesWithin(xs + ys, n)
  {
    forall i | 0 <= i < |xs + ys| ensures 1 <= (xs + ys)[i].lineNumber <= n {
      if i < |xs| { assert (xs + ys)[i] == xs[i]; } else { assert (xs + ys)[i] == ys[i - |xs|]; }
    }
  }

  lemma FromLinesConcat(xs: seq<Hit>, ys: seq<Hit>, lines: seq<string>)
    requires FromLines(xs, lines) && FromLines(ys, lines)
    ensures FromLines(xs + ys, lines)
  {
    forall i | 0 <= i < |xs + ys|
      ensures 1 <= (xs + ys)[i].lineNumber <= |lines| && (xs + ys)[i].line == lines[(xs + ys)[i].lineNumber - 1]
    {
      if i < |xs| { assert (xs + ys)[i] == xs[i]; } else { assert (xs + ys)[i] == ys[i - |xs|]; }
    }
  }

  /** The hits of the first `n` patterns on one line lie on that line, on its text, and come from those patterns. */
  lemma {:induction false} PatternHitsOrigin(table: seq<DimensionPattern>, line: string, lineNumber: nat, n: nat, finditer: Matcher)
    requires n <= |table|
    ensures OnLine(PatternHits(table, line, lineNumber, n, finditer), lineNumber)
    ensures OfLine(PatternHits(table, line, lineNumber, n, finditer), line)
    ensures KindsBelow(table, PatternHits(table, line, lineNumber, n, finditer), n)
  {
    if n > 0 {
      var pattern := table[n - 1];
      var earlier := PatternHits(table, line, lineNumber, n - 1, finditer);
      var these := MatchHits(pattern, finditer(pattern.regex, line), lineNumber, line);
      PatternHitsOrigin(table, line, lineNumber, n - 1, finditer);
      assert RankIn(table, pattern.name) <= n - 1;
      assert KindsBelow(table, earlier, n);
      assert KindsBelow(table, these, n);
      OnLineConcat(earlier, these, lineNumber);
      OfLineConcat(earlier, these, line);
      KindsBelowConcat(table, earlier, these, n);
    }
  }

  /** The hits of one line, seen as hits of the first `n` lines. */
  lemma LineHitsFromLines(hs: seq<Hit>, lines: seq<string>, n: nat)
    requires 1 <= n <= |lines| && OnLine(hs, n) && OfLine(hs, lines[n - 1])
    ensures LinesWithin(hs, n) && FromLines(hs, lines)
  {
  }

  /** Every hit of the first `n` lines lies on one of them, was found on its text, and comes from the table. */
  lemma {:induction false} LinesHitsOrigin(table: seq<DimensionPattern>, lines: seq<string>, n: nat, finditer: Matcher)
    requires n <= |lines|
    ensures LinesWithin(LinesHits(table, lines, n, finditer), n)
    ensures FromLines(LinesHits(table, lines, n, finditer), lines)
    ensures KindsBelow(table, LinesHits(table, lines, n, finditer), |table|)
  {
    if n > 0 {
      var earlier := LinesHits(table, lines, n - 1, finditer);
      var these := PatternHits(table, lines[n - 1], n, |table|, finditer);
      LinesHitsOrigin(table, lines, n - 1, finditer);
      PatternHitsOrigin(table, lines[n - 1], n, |table|, finditer);
      LineHitsFromLines(these, lines, n);
      assert LinesWithin(earlier, n);
      LinesWithinConcat(earlier, these, n);
      FromLinesConcat(earlier, these, lines);
      KindsBelowConcat(table, earlier, these, |table|);
    }
  }

  /**
   * `r` points at one of `lines`, quotes it stripped, has a type from the
   * pattern table, and carries the confidence of its type and match text:
   * between the type's base and 1.0, above the base exactly when the match
   * holds a boost keyword.
   */
  predicate RecordOfLines(r: DimensionRecord, lines: seq<string>) {
    && 1 <= r.lineNumber <= |lines|
    && r.lineText == Strip(lines[r.lineNumber - 1])
    && IsPatternName(r.kind)
    && r.confidence == Confidence(r.kind, r.fullMatch)
    && ScoredRecord(r)
  }

  /** Every record of the extractor is located on a line of the text and scored. */
  lemma DimensionRecordsLocated(text: string, finditer: Matcher)
    ensures forall r <- DimensionsOf(text, finditer) :: RecordOfLines(r, Lines(text))
  {
    var lines := Lines(text);
    var hs := LinesHits(DimensionPatterns, lines, |lines|, finditer);
    var rs := Records(hs);
    assert rs == DimensionsOf(text, finditer);
    LinesHitsOrigin(DimensionPatterns, lines, |lines|, finditer);
    forall r | r in rs ensures RecordOfLines(r, lines) {
      var i :| 0 <= i < |rs| && rs[i] == r;
      LocatedRecord(hs, lines, i);
    }
  }

  /** The record of a hit from the table on a line of `lines`. */
  lemma LocatedRecord(hs: seq<Hit>, lines: seq<string>, i: nat)
    requires FromLines(hs, lines) && KindsBelow(DimensionPatterns, hs, |DimensionPatterns|) && i < |hs|
    ensures RecordOfLines(Records(hs)[i], lines)
  {
    var h := hs[i];
    assert Records(hs)[i] == MakeRecord(h);
    ConfidenceBounds(h.pattern.name, h.m.full);
  }

  // ---------------------------------------------------------------------------
  // Order

  /** A record on line `lx` of type `kx` may come before one on line `ly` of type `ky`. */
  predicate Precedes(table: seq<DimensionPattern>, lx: nat, kx: string, ly: nat, ky: string) {
    lx < ly || (lx == ly && RankIn(table, kx) <= RankIn(table, ky))
  }

  /** Records come line by line, and within a line in the order of `table`. */
  predicate InExtractionOrder(table: seq<DimensionPattern>, rs: seq<DimensionRecord>) {
    forall a, b :: 0 <= a < b < |rs| ==> Precedes(table, rs[a].lineNumber, rs[a].kind, rs[b].lineNumber, rs[b].kind)
  }

  predicate HitsInOrder(table: seq<DimensionPattern>, hs: seq<Hit>) {
    forall a, b :: 0 <= a < b < |hs| ==>
      Precedes(table, hs[a].lineNumber, hs[a].pattern.name, hs[b].lineNumber, hs[b].pattern.name)
  }

  lemma HitsInOrderConcat(table: seq<DimensionPattern>, xs: seq<Hit>, ys: seq<Hit>)
    requires HitsInOrder(table, xs) && HitsInOrder(table, ys)
    requires forall a, b :: 0 <= a < |xs| && 0 <= b < |ys| ==>
               Precedes(table, xs[a].lineNumber, xs[a].pattern.name, ys[b].lineNumber, ys[b].pattern.name)
    ensures HitsInOrder(table, xs + ys)
  {
    var zs := xs + ys;
    forall a, b | 0 <= a < b < |zs|
      ensures Precedes(table, zs[a].lineNumber, zs[a].pattern.name, zs[b].lineNumber, zs[b].pattern.name)
    {
      if b < |xs| {
        assert zs[a] == xs[a] && zs[b] == xs[b];
      } else if a >= |xs| {
        assert zs[a] == ys[a - |xs|] && zs[b] == ys[b - |xs|];
      } else {
        assert zs[a] == xs[a] && zs[b] == ys[b - |xs|];
      }
    }
  }

  lemma {:induction false} PatternHitsOrdered(table: seq<DimensionPattern>, line: string, lineNumber: nat, n: nat, finditer: Matcher)
    requires n <= |table| && DistinctNames(table)
    ensures HitsInOrder(table, PatternHits(table, line, lineNumber, n, finditer))
  {
    if n > 0 {
      var pattern := table[n - 1];
      var earlier := PatternHits(table, line, lineNumber, n - 1, finditer);
      var these := MatchHits(pattern, finditer(pattern.regex, line), lineNumber, line);
      PatternHitsOrdered(table, line, lineNumber, n - 1, finditer);
      PatternHitsOrigin(table, line, lineNumber, n - 1, finditer);
      RankOfEntry(table, n - 1);
      forall a: int, b: int | 0 <= a < |earlier| && 0 <= b < |these|
        ensures Precedes(table, earlier[a].lineNumber, earlier[a].pattern.name, these[b].lineNumber, these[b].pattern.name)
      {
        assert RankIn(table, earlier[a].pattern.name) < n - 1;
      }
      HitsInOrderConcat(table, earlier, these);
    }
  }

  lemma {:induction false} LinesHitsOrdered(table: seq<DimensionPattern>, lines: seq<string>, n: nat, finditer: Matcher)
    requires n <= |lines| && DistinctNames(table)
    ensures HitsInOrder(table, LinesHits(table, lines, n, finditer))
  {
    if n > 0 {
      var earlier := LinesHits(table, lines, n - 1, finditer);
      var these := PatternHits(table, lines[n - 1], n, |table|, finditer);
      LinesHitsOrdered(table, lines, n - 1, finditer);
      LinesHitsOrigin(table, lines, n - 1, finditer);
      PatternHitsOrdered(table, lines[n - 1], n, |table|, finditer);
      PatternHitsOrigin(table, lines[n - 1], n, |table|, finditer);
      forall a: int, b: int | 0 <= a < |earlier| && 0 <= b < |these|
        ensures Precedes(table, earlier[a].lineNumber, earlier[a].pattern.name, these[b].lineNumber, these[b].pattern.name)
      {
        assert earlier[a].lineNumber <= n - 1;
      }
      HitsInOrderConcat(table, earlier, these);
    }
  }

  /** Records come line by line, and within a line in the order of the pattern table. */
  lemma DimensionsInTableOrder(text: string, finditer: Matcher)
    ensures InExtractionOrder(DimensionPatterns, DimensionsOf(text, finditer))
  {
    var hs := HitsOf(text, finditer);
    var rs := DimensionsOf(text, finditer);
    PatternNamesDistinct();
    LinesHitsOrdered(DimensionPatterns, Lines(text), |Lines(text)|, finditer);
    forall a, b | 0 <= a < b < |rs|
      ensures Precedes(DimensionPatterns, rs[a].lineNumber, rs[a].kind, rs[b].lineNumber, rs[b].kind)
    {
      assert rs[a] == MakeRecord(hs[a]) && rs[b] == MakeRecord(hs[b]);
    }
  }

  // ---------------------------------------------------------------------------
  // Selection by line and type

  /** The records of line `lineNumber` whose type is `kind`, in their order. */
  function Select(rs: seq<DimensionRecord>, lineNumber: nat, kind: string): seq<DimensionRecord> {
    if rs == [] then []
    else (if rs[0].lineNumber == lineNumber && rs[0].kind == kind then [rs[0]] else [])
         + Select(rs[1..], lineNumber, kind)
  }

  /** The hits of line `lineNumber` from the entry named `kind`, in their order. */
  function SelectHits(hs: seq<Hit>, lineNumber: nat, kind: string): seq<Hit> {
    if hs == [] then []
    else (if hs[0].lineNumber == lineNumber && hs[0].pattern.name == kind then [hs[0]] else [])
         + SelectHits(hs[1..], lineNumber, kind)
  }

  /** Selecting records is selecting the hits they come from. */
  lemma {:induction false} SelectRecords(hs: seq<Hit>, lineNumber: nat, kind: string)
    ensures Select(Records(hs), lineNumber, kind) == Records(SelectHits(hs, lineNumber, kind))
  {
    if hs != [] {
      var rs := Records(hs);
      SelectRecords(hs[1..], lineNumber, kind);
      assert rs[1..] == Records(hs[1..]);
      assert rs[0] == MakeRecord(hs[0]);
      var head := if hs[0].lineNumber == lineNumber && hs[0].pattern.name == kind then [hs[0]] else [];
      RecordsConcat(head, SelectHits(hs[1..], lineNumber, kind));
      assert Records(head) == if rs[0].lineNumber == lineNumber && rs[0].kind == kind then [rs[0]] else [];
    }
  }

  lemma {:induction false} SelectHitsConcat(xs: seq<Hit>, ys: seq<Hit>, lineNumber: nat, kind: string)
    ensures SelectHits(xs + ys, lineNumber, kind) == SelectHits(xs, lineNumber, kind) + SelectHits(ys, lineNumber, kind)
  {
    if xs == [] {
      assert xs + ys == ys;
    } else {
      assert (xs + ys)[1..] == xs[1..] + ys;
      SelectHitsConcat(xs[1..], ys, lineNumber, kind);
    }
  }

  lemma {:induction false} SelectAll(hs: seq<Hit>, lineNumber: nat, kind: string)
    requires forall i :: 0 <= i < |hs| ==> hs[i].lineNumber == lineNumber && hs[i].pattern.name == kind
    ensures SelectHits(hs, lineNumber, kind) == hs
  {
    if hs != [] {
      SelectAll(hs[1..], lineNumber, kind);
    }
  }

  lemma {:induction false} SelectNone(hs: seq<Hit>, lineNumber: nat, kind: string)
    requires forall i :: 0 <= i < |hs| ==> hs[i].lineNumber != lineNumber || hs[i].pattern.name != kind
    ensures SelectHits(hs, lineNumber, kind) == []
  {
    if hs != [] {
      SelectNone(hs[1..], lineNumber, kind);
    }
  }

  /** Selection keeps `xs` alone when `ys` contributes nothing. */
  lemma SelectBefore(xs: seq<Hit>, ys: seq<Hit>, lineNumber: nat, kind: string)
    requires SelectHits(ys, lineNumber, kind) == []
    ensures SelectHits(xs + ys, lineNumber, kind) == SelectHits(xs, lineNumber, kind)
  {
    SelectHitsConcat(xs, ys, lineNumber, kind);
    assert SelectHits(xs, lineNumber, kind) + [] == SelectHits(xs, lineNumber, kind);
  }

  /** Selection keeps `ys` alone when `xs` contributes nothing. */
  lemma SelectAfter(xs: seq<Hit>, ys: seq<Hit>, lineNumber: nat, kind: string)
    requires SelectHits(xs, lineNumber, kind) == []
    ensures SelectHits(xs + ys, lineNumber, kind) == SelectHits(ys, lineNumber, kind)
  {
    SelectHitsConcat(xs, ys, lineNumber, kind);
    assert [] + SelectHits(ys, lineNumber, kind) == SelectHits(ys, lineNumber, kind);
  }

  /** Selecting by the name of entry `k` out of the first `k + 1` patterns leaves that entry's matches. */
  lemma SelectLastPattern(table: seq<DimensionPattern>, line: string, lineNumber: nat, k: nat, finditer: Matcher)
    requires k < |table| && DistinctNames(table)
    ensures SelectHits(PatternHits(table, line, lineNumber, k + 1, finditer), lineNumber, table[k].name)
         == MatchHits(table[k], finditer(table[k].regex, line), lineNumber, line)
  {
    var kind := table[k].name;
    var earlier := PatternHits(table, line, lineNumber, k, finditer);
    var these := MatchHits(table[k], finditer(table[k].regex, line), lineNumber, line);
    assert PatternHits(table, line, lineNumber, k + 1, finditer) == earlier + these;
    RankOfEntry(table, k);
    PatternHitsOrigin(table, line, lineNumber, k, finditer);
    forall i: int | 0 <= i < |earlier| ensures earlier[i].pattern.name != kind {
      assert RankIn(table, earlier[i].pattern.name) < k;
    }
    SelectNone(earlier, lineNumber, kind);
    SelectAll(these, lineNumber, kind);
    SelectAfter(earlier, these, lineNumber, kind);
  }

  /** The hits of the first `n` patterns on a line, selected by the name of entry `k < n`, are that entry's matches. */
  lemma {:induction false} SelectPatternHits(table: seq<DimensionPattern>, line: string, lineNumber: nat, n: nat, finditer: Matcher, k: nat)
    requires k < n <= |table| && DistinctNames(table)
    ensures SelectHits(PatternHits(table, line, lineNumber, n, finditer), lineNumber, table[k].name)
         == MatchHits(table[k], finditer(table[k].regex, line), lineNumber, line)
  {
    if k == n - 1 {
      SelectLastPattern(table, line, lineNumber, k, finditer);
    } else {
      var pattern := table[n - 1];
      var earlier := PatternHits(table, line, lineNumber, n - 1, finditer);
      var these := MatchHits(pattern, finditer(pattern.regex, line), lineNumber, line);
      assert PatternHits(table, line, lineNumber, n, finditer) == earlier + these;
      SelectPatternHits(table, line, lineNumber, n - 1, finditer, k);
      RankOfEntry(table, n - 1);
      SelectNone(these, lineNumber, table[k].name);
      SelectBefore(earlier, these, lineNumber, table[k].name);
    }
  }

  /** Selecting the last of the first `n` lines leaves the hits of that line alone. */
  lemma SelectLastLine(table: seq<DimensionPattern>, lines: seq<string>, n: nat, finditer: Matcher, kind: string)
    requires 1 <= n <= |lines|
    ensures SelectHits(LinesHits(table, lines, n, finditer), n, kind)
         == SelectHits(PatternHits(table, lines[n - 1], n, |table|, finditer), n, kind)
  {
    var earlier := LinesHits(table, lines, n - 1, finditer);
    var these := PatternHits(table, lines[n - 1], n, |table|, finditer);
    assert LinesHits(table, lines, n, finditer) == earlier + these;
    LinesHitsOrigin(table, lines, n - 1, finditer);
    assert LinesWithin(earlier, n - 1);
    SelectNone(earlier, n, kind);
    SelectAfter(earlier, these, n, kind);
  }

  /** Selecting line `lineNumber` out of the first `n` lines leaves the hits of that line alone. */
  lemma {:induction false} SelectLinesHits(table: seq<DimensionPattern>, lines: seq<string>, n: nat, finditer: Matcher, lineNumber: nat, kind: string)
    requires 1 <= lineNumber <= n <= |lines|
    ensures SelectHits(LinesHits(table, lines, n, finditer), lineNumber, kind)
         == SelectHits(PatternHits(table, lines[lineNumber - 1], lineNumber, |table|, finditer), lineNumber, kind)
  {
    if lineNumber == n {
      SelectLastLine(table, lines, n, finditer, kind);
    } else {
      var earlier := LinesHits(table, lines, n - 1, finditer);
      var these := PatternHits(table, lines[n - 1], n, |table|, finditer);
      assert LinesHits(table, lines, n, finditer) == earlier + these;
      SelectLinesHits(table, lines, n - 1, finditer, lineNumber, kind);
      PatternHitsOrigin(table, lines[n - 1], n, |table|, finditer);
      SelectNone(these, lineNumber, kind);
      SelectBefore(earlier, these, lineNumber, kind);
    }
  }

  /**
   * The records of one line and one pattern are exactly one record per match
   * of that pattern on that line, in match order.
   */
  lemma DimensionsPerLineAndPattern(text: string, finditer: Matcher, lineNumber: nat, k: nat)
    requires 1 <= lineNumber <= |Lines(text)| && k < |DimensionPatterns|
    ensures Select(DimensionsOf(text, finditer), lineNumber, DimensionPatterns[k].name)
         == Records(MatchHits(DimensionPatterns[k], finditer(DimensionPatterns[k].regex, Lines(text)[lineNumber - 1]),
                              lineNumber, Lines(text)[lineNumber - 1]))
  {
    var line := Lines(text)[lineNumber - 1];
    var kind := DimensionPatterns[k].name;
    PatternNamesDistinct();
    SelectRecords(HitsOf(text, finditer), lineNumber, kind);
    SelectLinesHits(DimensionPatterns, Lines(text), |Lines(text)|, finditer, lineNumber, kind);
    SelectPatternHits(DimensionPatterns, line, lineNumber, |DimensionPatterns|, finditer, k);
  }

  // ---------------------------------------------------------------------------
  // Empty results

  /** No pattern of the first `n` matches on `line`. */
  predicate NoMatchOnLine(table: seq<DimensionPattern>, line: string, n: nat, finditer: Matcher)
    requires n <= |table|
  {
    n == 0 || (finditer(table[n - 1].regex, line) == [] && NoMatchOnLine(table, line, n - 1, finditer))
  }

  /** No pattern of the table matches on any of the first `n` lines. */
  predicate NoMatchOnLines(table: seq<DimensionPattern>, lines: seq<string>, n: nat, finditer: Matcher)
    requires n <= |lines|
  {
    n == 0 || (NoMatchOnLine(table, lines[n - 1], |table|, finditer) && NoMatchOnLines(table, lines, n - 1, finditer))
  }

  lemma {:induction false} NoMatchOnLineIff(table: seq<DimensionPattern>, line: string, n: nat, finditer: Matcher)
    requires n <= |table|
    ensures NoMatchOnLine(table, line, n, finditer) <==> forall k :: 0 <= k < n ==> finditer(table[k].regex, line) == []
  {
    if n > 0 {
      NoMatchOnLineIff(table, line, n - 1, finditer);
    }
  }

  lemma {:induction false} NoMatchOnLinesIff(table: seq<DimensionPattern>, lines: seq<string>, n: nat, finditer: Matcher)
    requires n <= |lines|
    ensures NoMatchOnLines(table, lines, n, finditer)
        <==> forall i, k :: 0 <= i < n && 0 <= k < |table| ==> finditer(table[k].regex, lines[i]) == []
  {
    if n > 0 {
      NoMatchOnLinesIff(table, lines, n - 1, finditer);
      NoMatchOnLineIff(table, lines[n - 1], |table|, finditer);
    }
  }

  /** No pattern matches on a line exactly when the line contributes no hit. */
  lemma {:induction false} PatternHitsEmpty(table: seq<DimensionPattern>, line: string, lineNumber: nat, n: nat, finditer: Matcher)
    requires n <= |table|
    ensures PatternHits(table, line, lineNumber, n, finditer) == [] <==> NoMatchOnLine(table, line, n, finditer)
  {
    if n > 0 {
      var pattern := table[n - 1];
      var earlier := PatternHits(table, line, lineNumber, n - 1, finditer);
      var these := MatchHits(pattern, finditer(pattern.regex, line), lineNumber, line);
      assert PatternHits(table, line, lineNumber, n, finditer) == earlier + these;
      assert earlier + these == [] <==> earlier == [] && these == [];
      PatternHitsEmpty(table, line, lineNumber, n - 1, finditer);
    }
  }

  /** No pattern matches on any of the first `n` lines exactly when they contribute no hit. */
  lemma {:induction false} LinesHitsEmpty(table: seq<DimensionPattern>, lines: seq<string>, n: nat, finditer: Matcher)
    requires n <= |lines|
    ensures LinesHits(table, lines, n, finditer) == [] <==> NoMatchOnLines(table, lines, n, finditer)
  {
    if n > 0 {
      var earlier := LinesHits(table, lines, n - 1, finditer);
      var these := PatternHits(table, lines[n - 1], n, |table|, finditer);
      assert LinesHits(table, lines, n, finditer) == earlier + these;
      assert earlier + these == [] <==> earlier == [] && these == [];
      LinesHitsEmpty(table, lines, n - 1, finditer);
      PatternHitsEmpty(table, lines[n - 1], n, |table|, finditer);
    }
  }

  /** Text on which no pattern matches yields the empty list, and only such text does. */
  lemma NoMatchNoDimensions(text: string, finditer: Matcher)
    ensures DimensionsOf(text, finditer) == []
        <==> forall i, k :: 0 <= i < |Lines(text)| && 0 <= k < |DimensionPatterns| ==>
               finditer(DimensionPatterns[k].regex, Lines(text)[i]) == []
  {
    LinesHitsEmpty(DimensionPatterns, Lines(text), |Lines(text)|, finditer);
    NoMatchOnLinesIff(DimensionPatterns, Lines(text), |Lines(text)|, finditer);
  }
}
