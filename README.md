# Columbus drawing analyzer — a Dafny model

This project models the text-processing core of the Columbus Hydraulics
drawing analyzer and of its companion chat service.

The analyzer (`ColumbusDrawingAnalyzer` in `main.py`) works in four steps:

1. It sends a vision-language model a prompt, which is either the caller's own
   or a long default prompt in chat-template form.
2. It cuts the assistant's turn out of the decoded output.
3. It runs two regex passes over that answer:
   - a per-line dimension extractor with an ordered table of eight patterns,
     which scores every match with a confidence;
   - a whole-text metadata extractor with five fields.
4. It reports how many dimensions it found and how many of them score above 0.8.

The chat service (`GPTService` in `Openai/backend/services/gpt_service.py`)
can put a named template in front of the user's prompt. It then builds the
message content: the prompt as a text part, followed by one data-URL image
part per uploaded image.

Modules:

- `Wrappers`: `Option`.
- `Strings`: the Python `str` operations the code relies on, each with its
  properties proved:
  - `strip()` over Python's whitespace set;
  - `split('\n')` and its inverse `join`;
  - `sub in s`, with a left-to-right search for the next occurrence that `split(sep)` scans with;
  - `split(sep)[-1]`;
  - `lower()`.
- `Matching`: regular expressions, taken as given (see below).
- `Dimensions`:
  - the pattern table and `_calculate_confidence`;
  - `extract_dimensions_regex`, as three nested loops (`ExtractDimensions`,
    `LineDimensions`, `MatchDimensions`) proved against the specification
    function `DimensionsOf`.
- `Metadata`: `_extract_drawing_metadata`, as a loop (`ExtractMetadata`)
  proved against `MetadataOf`.
- `Analyzer`:
  - prompt selection;
  - the assistant-turn cut;
  - the summary counts;
  - the part of `comprehensive_analysis` that is computed from the model's output.
- `GptService`: `_apply_template`, `_build_message_content` and the data
  URL it builds.

### How regular expressions are modelled

A `Matcher` is a function from (pattern, text) to the sequence of matches that
`re.finditer(pattern, text, re.IGNORECASE)` yields. `re.search` is its first
match.

A `Match` records:
- the full match text;
- each capture group as `Option<string>` (`None` when the group took no
  part in the match).

The pattern strings are kept verbatim in the tables. Everything proved holds
for every matcher that meets the stated group conditions, so none of it
depends on how the regex engine reads those strings. The conditions are:
- `HasGroups`, in `Dimensions.RecordOfHit`: a match has one entry per capture group of its pattern, and group 1 is present when the pattern has groups;
- `GroupsPresent`, in the metadata members and `Analyzer.ComprehensiveAnalysis`: the first match of every field pattern holds its group 1.

Python's `re` meets both for the patterns of this code.

Confidences are integers in hundredths: 0.95 is `95` and the 0.8 threshold is
`80`.

## Model

| member | source | states |
|---|---|---|
| Dimensions.RankIn | main.py:34-43 | the position of a name in the ordered pattern table; it is the table's length exactly when no entry has that name |
| Dimensions.PatternNamesDistinct | main.py:34-43 | the eight dimension patterns have distinct names |
| Dimensions.BaseTableCoversPatterns | main.py:34-43 | a name is in the base-confidence table exactly when it is a name of the pattern table |
| Dimensions.BaseConfidenceRange | main.py:178-189 | every base confidence lies in 0.5 up to (not including) 1.0; it is 0.5 exactly for names outside the pattern table |
| Dimensions.BoostKeywordsIgnoreCase | main.py:192 | lower-casing the match text never changes whether a boost keyword occurs in it, because the keywords hold no letters |
| Dimensions.ConfidenceBounds | main.py:176-195 | the confidence is between the type's base and 1.0; it exceeds the base exactly when the match text holds one of 2.49, 2.47, 1.00 or 0.81; it is then the base plus 0.1, capped at 1.0 |
| Dimensions.ExtractDimensions | main.py:154-174 | the loop over the lines of `text.split('\n')` returns exactly `DimensionsOf(text)` |
| Dimensions.LineDimensions | main.py:160-172 | the loop over the pattern table, in table order, returns the records of every pattern's matches on one line |
| Dimensions.MatchDimensions | main.py:162-172 | the loop over one pattern's matches returns one record per match, in match order |
| Dimensions.RecordOfHit | main.py:163-171 | a record carries the pattern name, the 1-based line number and the stripped line; its value is group 1 when the pattern has groups and the full match otherwise; its tolerance is group 2 when the pattern has more than one group and none otherwise |
| Dimensions.DimensionRecordsLocated | main.py:157-171 | every extracted record points at a line of the text, quotes it stripped, has a type from the table, and carries `Confidence(type, full match)`: between the base and 1.0, above the base exactly when a boost keyword occurs |
| Dimensions.DimensionsInTableOrder | main.py:159-172 | records come line by line; within a line they follow the order of the pattern table |
| Dimensions.DimensionsPerLineAndPattern | main.py:159-172 | the records of line `n` and pattern `k` are exactly one record per match of pattern `k` on line `n`, in match order |
| Dimensions.NoMatchNoDimensions | main.py:154-174 | the result is empty exactly when no pattern matches on any line |
| Metadata.ExtractMetadata | main.py:234-252 | the loop over the five field patterns returns exactly `MetadataOf(text)` |
| Metadata.MetadataField | main.py:239-250 | a field's key is present exactly when its pattern matches somewhere in the response; its value is then group 1 of the first match, stripped |
| Metadata.MetadataKeysKnown | main.py:239-245 | the metadata holds no key other than the five field names |
| Metadata.NoMatchNoMetadata | main.py:236-252 | the metadata is empty exactly when none of the five patterns matches |
| Analyzer.SelectPrompt | main.py:60-104 | a caller's own prompt is used unchanged; what the default prompt guarantees is stated by `DefaultPromptEchoRemoved` |
| Analyzer.AssistantTurnMarkerFree | main.py:126-127 | the result never holds `<\|im_start\|>assistant`; output without the marker is kept as it is; applying the cut twice is the same as applying it once |
| Analyzer.AssistantTurnAfterEcho | main.py:126-127 | output that ends with the marker followed by a marker-free reply is cut to that reply, stripped, whatever comes before the marker |
| Analyzer.CutAtLast | main.py:126-127 | output whose last marker starts at `p` is cut to the stripped text after that marker, whatever precedes it, even when the reply before it holds markers of its own |
| Analyzer.DefaultPromptEchoRemoved | main.py:60-127 | when the default prompt is echoed in front of the answer, only the answer survives, stripped |
| Analyzer.HighConfidenceCountBounds | main.py:227 | the high-confidence count is at most the total; it equals the total exactly when every record scores above 0.8; it is zero exactly when none does |
| Analyzer.HighConfidenceByKind | main.py:176-195 | a match scores above 0.8 exactly when its type's base is at least 0.85, i.e. exactly for tolerance, diameter, thread, inspection, chamfer and radius dimensions; the boost lifts a decimal dimension only to 0.8 |
| Analyzer.HighCountOfText | main.py:226-227 | the high-confidence count of an analysis is the number of extracted dimensions of those six types |
| Analyzer.ComprehensiveAnalysis | main.py:198-232 | the analysis holds the cut response and both extractors' results; its total is the number of dimensions; its high count is at most the total and equals the count of the six high types |
| GptService.ApplyTemplate | Openai/backend/services/gpt_service.py:48-60 | whatever the template, the prompt is the tail of the result |
| GptService.ApplyTemplateKeepsPrompt | Openai/backend/services/gpt_service.py:48-60 | the prompt comes back unchanged exactly when the template is missing, empty, `default` or unknown |
| GptService.ApplyTemplateRewrites | Openai/backend/services/gpt_service.py:53-58 | `analyze`, `describe` and `technical` put their own sentence in front of the prompt and nothing else |
| GptService.ApplyTemplateInjective | Openai/backend/services/gpt_service.py:48-60 | under one template, different prompts give different results |
| GptService.RewritingTemplatesDiffer | Openai/backend/services/gpt_service.py:53-58 | two different rewriting templates never give the same text for one prompt |
| GptService.DataUrlRoundTrip | Openai/backend/services/gpt_service.py:70 | a data URL reads back into the image's MIME type and base64 content, provided the MIME type does not contain `;base64,` |
| GptService.BuildMessageContent | Openai/backend/services/gpt_service.py:62-74 | the content is the prompt as a text part, then one image-URL part per image in upload order, each holding that image's data URL; a missing or empty image list gives the text part alone |
| GptService.ImagePartsDecode | Openai/backend/services/gpt_service.py:62-74 | only the first part is text; every image part decodes back to its upload's type and content |
| Strings.StripTrims | main.py:169 | `strip()` removes whitespace, and only whitespace, from both ends; neither end of the result is whitespace; the result is empty exactly for blank input |
| Strings.JoinSplit | main.py:157 | joining the lines of `split('\n')` with newlines gives back the text |
| Strings.SplitJoin | main.py:157 | splitting a newline-join of newline-free lines gives back those lines |
| Strings.SplitPiecesFree | main.py:157 | no line of `split('\n')` holds a newline |
| Strings.AfterLast | main.py:127 | `split(sep)[-1]` is a suffix without `sep`; what precedes it ends with `sep` when `sep` occurs at all, and it is the whole text otherwise |
| Strings.AfterLastOfTail | main.py:127 | when the separator's first character does not recur in it, `split(sep)[-1]` of `t + sep + c` with a `sep`-free `c` is `c` |
| Strings.LowerKeepsCaselessWord | main.py:192 | for a word without letters, `word in s.lower()` holds exactly when `word in s` |

## Left out

- Model loading, PDF and image loading, the processor call, generation and decoding are not modelled (`main.py` lines 16-32, 45-58, 106-124, 129-152). Nor are the timing, the printing, the workspace setup and the command-line driver (lines 254-386). The analyzer's input is the decoded output as a string.
- `comprehensive_analysis` fields that come from the file system, the clock or the model are left out: the file name, the path, the timestamp, the inference time, the device and the image size. `ComprehensiveAnalysis` starts from the decoded output.
- Regular-expression semantics is not modelled. Every result holds for every `Matcher` that meets the group conditions above (`HasGroups`, `GroupsPresent`), so the proofs do not depend on what the eight dimension patterns or the five metadata patterns actually match.
- `process_chat` (the OpenAI API call and its error wrapping) and the rest of the chat backend are not part of this model: routes, uploads, storage, environment variables. `ImageData` (`Openai/backend/models.py:18-21`) is modelled as a record.
- Python dictionaries become records (a dimension) and a `map` (the metadata). The insertion order of the metadata dictionary is not kept. The message-content dictionaries `{"type": "text", ...}` and `{"type": "image_url", "image_url": {"url": ...}}` become the `ContentPart` constructors `TextPart` and `ImageUrlPart`: the constructor stands for the `type` tag, and the nested `image_url` dictionary is reduced to its URL.
- Confidences are exact hundredths, not binary floats. For example, Python computes 0.7 + 0.1 as 0.7999…, while the model stores 80. The only score that lands on the threshold is 0.7 + 0.1. It is not above 0.8 either way, so the `> 0.8` test agrees.
- `Strings.Lower` maps ASCII letters only; Python's `lower()` covers all of Unicode. The model lower-cases the match text (`Dimensions.Confidence`) only to search it for the boost keywords. Those keywords hold only digits and dots, and `Dimensions.BoostKeywordsIgnoreCase` shows that lower-casing cannot change whether they occur. Lower-casing a character never creates or removes a digit or a dot, under either mapping, so the two mappings give the same confidence.
- The diameter pattern's character class is `Ø` (U+00D8) or `∅` (U+2205), as in `main.py:36`. Drawings often write the diameter sign as `⌀` (U+2300), which this character class does not contain; the model keeps the code's class.
- Metadata.ExtractMetadata requires that the first match of every field pattern holds its group 1 (`GroupsPresent`). Python's `re` guarantees this for these five patterns, because each has one mandatory capture group. Without that guarantee, `match.group(1).strip()` would raise.
- `DefaultPromptEchoRemoved` and `AssistantTurnAfterEcho` assume a reply free of the assistant marker. A reply that itself contains the marker is cut after its own last marker, which `Analyzer.CutAtLast` states for any output.
- `Metadata.MetadataKeysDistinct` and the `Dimensions` helper lemmas (`RankOfEntry`, `RecordsConcat` and the selection, order and origin lemmas on hits) are proof steps. They model nothing on their own.
