/**
 * The Columbus drawing analyzer around its two extractors: the prompt it
 * sends, the cut of the assistant's turn out of the decoded output, and the
 * summary counts of a complete analysis.
 */
module Analyzer {

  import opened Wrappers
  import opened Strings
  import opened Matching
  import opened Dimensions
  import opened Metadata

  /** The chat marker that opens the assistant's turn. */
  const AssistantMarker: string := "<|im_start|>assistant"

  /** The system and user turns of the default prompt, up to the assistant marker. */
  const ColumbusInstructions: string :=
    "<|im_start|>system\n"
    + "You are an expert mechanical engineer specializing in hydraulic "
    + "systems and precision machining. You're analyzing technical "
    + "drawings for Columbus Hydraulics components.\n"
    + "\n"
    + "<|im_start|>user\n"
    + "<image>\n"
    + "Analyze this Columbus hydraulics mechanical drawing and "
    + "extract ALL dimensions with their tolerances and geometric "
    + "significance. This appears to be a piston assembly or hydraulic component.\n"
    + "\n"
    + "For each dimension you identify:\n"
    + "\n"
    + "1. **Exact Value & Tolerance**: Extract the precise numerical "
    + "value and tolerance (e.g., \"2.490 \U{B1}0.002\")\n"
    + "\n"
    + "2. **Geometric Significance**: Identify what each dimension controls:\n"
    + "   - Piston diameters (main, lands, grooves)\n"
    + "   - Shaft diameters and lengths\n"
    + "   - Seal groove dimensions (width, depth)\n"
    + "   - Threading specifications (UNF, UNC)\n"
    + "   - Chamfers and radii\n"
    + "   - Critical inspection dimensions (marked with *)\n"
    + "   - Hydraulic port dimensions\n"
    + "\n"
    + "3. **Functional Purpose**: Explain the hydraulic/mechanical function:\n"
    + "   - Sealing surfaces\n"
    + "   - Bearing surfaces\n"
    + "   - Pressure containment\n"
    + "   - Assembly interfaces\n"
    + "\n"
    + "4. **Manufacturing Notes**: Note any:\n"
    + "   - Surface finish requirements\n"
    + "   - Tool chatter restrictions\n"
    + "   - Material specifications\n"
    + "   - Heat treatment callouts\n"
    + "\n"
    + "Pay special attention to:\n"
    + "- Columbus part numbering system\n"
    + "- Inspection/sampling features (*)\n"
    + "- Thread specifications for hydraulic fittings\n"
    + "- Seal groove critical dimensions\n"
    + "- Piston-to-cylinder clearances\n"
    + "\n"
    + "Format your response with clear sections for dimensions, "
    + "threads, inspection features, and manufacturing notes.\n"
    + "\n"

  /** The default prompt for hydraulic component drawings; it ends by opening the assistant's turn. */
  const ColumbusPrompt: string := ColumbusInstructions + AssistantMarker

  /** Confidences strictly above 0.8 count as high. */
  const HighConfidenceThreshold: nat := 80

  /** The pattern names whose matches always score as high confidence. */
  const HighConfidenceKinds: set<string> :=
    {"tolerance_dim", "diameter_symbol", "thread_spec", "inspection_feature", "chamfer", "radius"}

  // ---------------------------------------------------------------------------
  // Prompt selection

  /** The prompt sent with the image: the caller's own, or the default when there is none. */
  function SelectPrompt(customPrompt: Option<string>): (prompt: string)
    ensures customPrompt.Some? ==> prompt == customPrompt.value
  {
    match customPrompt
    case None => ColumbusPrompt
    case Some(p) => p
  }

  // ---------------------------------------------------------------------------
  // The assistant's turn

  /**
   * `response.split(marker)[-1].strip()` when the marker occurs in the
   * decoded output; the output unchanged when it does not.
   */
  function StripAssistantTurn(response: string): string {
    if Contains(response, AssistantMarker) then Strip(AfterLast(response, AssistantMarker))
    else response
  }

  /** The marker's opening `<` does not recur inside it, so two occurrences never overlap. */
  lemma MarkerFirstCharUnique()
    ensures FirstCharUnique(AssistantMarker)
  {
  }

  /** Stripping keeps a string free of any substring it was free of. */
  lemma StripKeepsAbsence(s: string, sub: string)
    requires !Contains(s, sub)
    ensures !Contains(Strip(s), sub)
  {
    var pre, post := StripCuts(s);
    assert Strip(s) == s[|pre|..|s| - |post|];
    ContainsInSlice(s, sub, |pre|, |s| - |post|);
  }

  /**
   * The result never holds the marker; output without the marker is kept
   * as it is, so cutting twice is cutting once.
   */
  lemma AssistantTurnMarkerFree(response: string)
    ensures !Contains(StripAssistantTurn(response), AssistantMarker)
    ensures !Contains(response, AssistantMarker) ==> StripAssistantTurn(response) == response
    ensures StripAssistantTurn(StripAssistantTurn(response)) == StripAssistantTurn(response)
  {
    if Contains(response, AssistantMarker) {
      StripKeepsAbsence(AfterLast(response, AssistantMarker), AssistantMarker);
    }
  }

  /**
   * Output that ends with the marker followed by a reply free of it (the
   * echoed prompt, then the generated answer) is cut down to the reply,
   * trimmed, whatever precedes the marker.
   */
  lemma AssistantTurnAfterEcho(echo: string, reply: string)
    requires !Contains(reply, AssistantMarker)
    ensures StripAssistantTurn(echo + AssistantMarker + reply) == Strip(reply)
  {
    var response := echo + AssistantMarker + reply;
    assert response[|echo|..|echo| + |AssistantMarker|] == AssistantMarker;
    assert OccursAt(response, AssistantMarker, |echo|);
    MarkerFirstCharUnique();
    AfterLastOfTail(echo, AssistantMarker, reply);
  }

  /**
   * Output whose last marker starts at `p` is cut to the stripped text after
   * that marker, whatever comes before it, the reply's own markers included.
   */
  lemma CutAtLast(response: string, p: nat)
    requires OccursAt(response, AssistantMarker, p)
    requires forall k :: p < k <= |response| ==> !OccursAt(response, AssistantMarker, k)
    ensures StripAssistantTurn(response) == Strip(response[p + |AssistantMarker|..])
  {
    var after := p + |AssistantMarker|;
    var echo, reply := response[..p], response[after..];
    assert response == echo + AssistantMarker + reply;
    forall k | 0 <= k <= |reply| - |AssistantMarker| ensures !OccursAt(reply, AssistantMarker, k) {
      OccursInSuffix(response, AssistantMarker, after, k);
    }
    AssistantTurnAfterEcho(echo, reply);
  }

  /** With the default prompt echoed in front of the answer, only the answer survives, trimmed. */
  lemma DefaultPromptEchoRemoved(reply: string)
    requires !Contains(reply, AssistantMarker)
    ensures StripAssistantTurn(SelectPrompt(None) + reply) == Strip(reply)
  {
    AssistantTurnAfterEcho(ColumbusInstructions, reply);
  }

  // ---------------------------------------------------------------------------
  // Summary counts

  predicate IsHighConfidence(r: DimensionRecord) {
    r.confidence > HighConfidenceThreshold
  }

  /** `len([d for d in dims if d['confidence'] > 0.8])`. */
  function HighConfidenceCount(dims: seq<DimensionRecord>): nat {
    if dims == [] then 0
    else HighConfidenceCount(dims[..|dims| - 1]) + (if IsHighConfidence(dims[|dims| - 1]) then 1 else 0)
  }

  /** The records of `dims` whose pattern name is in `kinds`. */
  function CountKinds(dims: seq<DimensionRecord>, kinds: set<string>): nat {
    if dims == [] then 0
    else CountKinds(dims[..|dims| - 1], kinds) + (if dims[|dims| - 1].kind in kinds then 1 else 0)
  }

  /**
   * The high count never exceeds the total; it equals the total exactly
   * when every record is high and is zero exactly when none is.
   */
  lemma {:induction false} HighConfidenceCountBounds(dims: seq<DimensionRecord>)
    ensures HighConfidenceCount(dims) <= |dims|
    ensures HighConfidenceCount(dims) == |dims| <==> forall k :: 0 <= k < |dims| ==> IsHighConfidence(dims[k])
    ensures HighConfidenceCount(dims) == 0 <==> forall k :: 0 <= k < |dims| ==> !IsHighConfidence(dims[k])
  {
    if dims != [] {
      var init := dims[..|dims| - 1];
      HighConfidenceCountBounds(init);
      assert forall k :: 0 <= k < |init| ==> init[k] == dims[k];
    }
  }

  /**
   * A match is high confidence exactly when its pattern's base is at least
   * 0.85, that is, exactly for six of the eight pattern names: the boost of
   * 0.1 lifts a decimal dimension from 0.7 only to 0.8, which is not above
   * the threshold.
   */
  lemma HighConfidenceByKind(kind: string, matchText: string)
    ensures Confidence(kind, matchText) > HighConfidenceThreshold <==> BaseConfidence(kind) >= 85
    ensures Confidence(kind, matchText) > HighConfidenceThreshold <==> kind in HighConfidenceKinds
  {
    ConfidenceBounds(kind, matchText);
  }

  /** Over records scored by their own type, the high count is the count of the six high-confidence types. */
  lemma {:induction false} HighCountIsKindCount(dims: seq<DimensionRecord>)
    requires forall k :: 0 <= k < |dims| ==> dims[k].confidence == Confidence(dims[k].kind, dims[k].fullMatch)
    ensures HighConfidenceCount(dims) == CountKinds(dims, HighConfidenceKinds)
  {
    if dims != [] {
      var init, last := dims[..|dims| - 1], dims[|dims| - 1];
      assert forall k :: 0 <= k < |init| ==> init[k] == dims[k];
      HighCountIsKindCount(init);
      HighConfidenceByKind(last.kind, last.fullMatch);
    }
  }

  /**
   * The high-confidence count of an analysis is the number of extracted
   * tolerance, diameter, thread, inspection, chamfer and radius dimensions.
   */
  lemma HighCountOfText(text: string, finditer: Matcher)
    ensures HighConfidenceCount(DimensionsOf(text, finditer))
         == CountKinds(DimensionsOf(text, finditer), HighConfidenceKinds)
  {
    var dims := DimensionsOf(text, finditer);
    DimensionRecordsLocated(text, finditer);
    forall i | 0 <= i < |dims| ensures dims[i].confidence == Confidence(dims[i].kind, dims[i].fullMatch) {
      assert RecordOfLines(dims[i], Lines(text));
    }
    HighCountIsKindCount(dims);
  }

  // ---------------------------------------------------------------------------
  // comprehensive_analysis

  /** The part of a complete analysis computed from the model's output. */
  datatype Analysis = Analysis(
    response: string,
    dimensions: seq<DimensionRecord>,
    metadata: map<string, string>,
    totalDimensionsFound: nat,
    highConfidenceDims: nat)

  /**
   * From the decoded model output: cut out the assistant's turn, run both
   * extractors on it and count the dimensions found and those above 0.8.
   */
  method ComprehensiveAnalysis(decoded: string, finditer: Matcher) returns (analysis: Analysis)
    requires GroupsPresent(MetadataPatterns, StripAssistantTurn(decoded), finditer)
    ensures analysis.response == StripAssistantTurn(decoded)
    ensures analysis.dimensions == DimensionsOf(analysis.response, finditer)
    ensures analysis.metadata == MetadataOf(analysis.response, finditer)
    ensures analysis.totalDimensionsFound == |analysis.dimensions|
    ensures analysis.highConfidenceDims <= analysis.totalDimensionsFound
    ensures analysis.highConfidenceDims == CountKinds(analysis.dimensions, HighConfidenceKinds)
  {
    var response := StripAssistantTurn(decoded);
    var dimensions := ExtractDimensions(response, finditer);
    var metadata := ExtractMetadata(response, finditer);
    HighConfidenceCountBounds(dimensions);
    HighCountOfText(response, finditer);
    analysis := Analysis(response, dimensions, metadata, |dimensions|, HighConfidenceCount(dimensions));
  }
}
