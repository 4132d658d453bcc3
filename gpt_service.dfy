/**
 * The request side of the chat service: the optional prompt template and the
 * message content (the prompt as a text part, then every uploaded image as a
 * base64 data URL part).
 */
module GptService {

  import opened Wrappers
  import opened Strings

  /** An uploaded image: its file name, its content already base64-encoded, and its MIME type. */
  datatype ImageData = ImageData(filename: string, content: string, contentType: string)

  /** One entry of a user message's content list. */
  datatype ContentPart = TextPart(text: string) | ImageUrlPart(url: string)

  /** What each named template puts in front of the prompt; `default` keeps the prompt as it is. */
  const TemplatePrefixes: map<string, string> := map[
      "analyze" := "Please analyze the following images and provide detailed insights: ",
      "describe" := "Please describe what you see in the images: ",
      "technical" := "Provide a technical analysis of the images with focus on: ",
      "default" := ""
    ]

  /** The templates that change the prompt. */
  const RewritingTemplates: set<string> := {"analyze", "describe", "technical"}

  const DataScheme: string := "data:"

  const Base64Marker: string := ";base64,"

  // ---------------------------------------------------------------------------
  // _apply_template

  /**
   * No template (or an empty name) leaves the prompt alone; a known name puts
   * its text in front of the prompt; an unknown name falls back to `default`.
   * Whatever happens, the prompt is the tail of the result.
   */
  function ApplyTemplate(prompt: string, template: Option<string>): (r: string)
    ensures EndsWith(r, prompt)
  {
    if template.None? || template.value == "" then prompt
    else
      var prefix := if template.value in TemplatePrefixes then TemplatePrefixes[template.value]
                    else TemplatePrefixes["default"];
      EndsWithAppended(prefix, prompt);
      prefix + prompt
  }

  /** The prompt comes back unchanged exactly when the template is missing, empty, `default` or unknown. */
  lemma ApplyTemplateKeepsPrompt(prompt: string, template: Option<string>)
    ensures ApplyTemplate(prompt, template) == prompt
        <==> template.None? || template.value !in RewritingTemplates
  {
    if template.Some? && template.value in RewritingTemplates {
      assert |TemplatePrefixes[template.value]| > 0;
      assert |ApplyTemplate(prompt, template)| > |prompt|;
    }
  }

  /** A rewriting template puts its own text in front of the prompt and nothing else. */
  lemma ApplyTemplateRewrites(prompt: string, template: string)
    requires template in RewritingTemplates
    ensures StartsWith(ApplyTemplate(prompt, Some(template)), TemplatePrefixes[template])
    ensures ApplyTemplate(prompt, Some(template))[|TemplatePrefixes[template]|..] == prompt
  {
    var r := ApplyTemplate(prompt, Some(template));
    assert r == TemplatePrefixes[template] + prompt;
    assert r[..|TemplatePrefixes[template]|] == TemplatePrefixes[template];
  }

  /** Under one template, different prompts give different results: the template can be undone. */
  lemma ApplyTemplateInjective(p: string, q: string, template: Option<string>)
    requires ApplyTemplate(p, template) == ApplyTemplate(q, template)
    ensures p == q
  {
    var r := ApplyTemplate(p, template);
    assert |p| == |q|;
    assert p == r[|r| - |p|..];
  }

  /** Two different rewriting templates never give the same result for one prompt. */
  lemma RewritingTemplatesDiffer(prompt: string, s: string, t: string)
    requires s in RewritingTemplates && t in RewritingTemplates && s != t
    ensures ApplyTemplate(prompt, Some(s)) != ApplyTemplate(prompt, Some(t))
  {
    assert |TemplatePrefixes[s]| != |TemplatePrefixes[t]|;
  }

  // ---------------------------------------------------------------------------
  // _build_message_content

  /** `f"data:{image.content_type};base64,{image.content}"`. */
  function DataUrl(image: ImageData): string {
    DataScheme + image.contentType + Base64Marker + image.content
  }

  /** Reads a data URL back into its MIME type and its base64 content, cutting at the first marker. */
  function ParseDataUrl(url: string): Option<(string, string)> {
    if !StartsWith(url, DataScheme) then None
    else
      match IndexFrom(url, Base64Marker, |DataScheme|)
      case None => None
      case Some(i) =>
        IndexFromFacts(url, Base64Marker, |DataScheme|);
        Some((url[|DataScheme|..i], url[i + |Base64Marker|..]))
  }

  /** No occurrence of the marker in a data URL starts before the one after the MIME type. */
  lemma NoEarlierMarker(image: ImageData, k: nat)
    requires !Contains(image.contentType, Base64Marker)
    requires |DataScheme| <= k < |DataScheme| + |image.contentType|
    ensures !OccursAt(DataUrl(image), Base64Marker, k)
  {
    var url := DataUrl(image);
    var p := |DataScheme| + |image.contentType|;
    assert url[..p] == DataScheme + image.contentType;
    assert url[p..p + |Base64Marker|] == Base64Marker;
    if OccursAt(url, Base64Marker, k) {
      if k + |Base64Marker| <= p {
        assert url[|DataScheme|..p] == image.contentType;
        assert image.contentType[k - |DataScheme|..k - |DataScheme| + |Base64Marker|] == url[k..k + |Base64Marker|];
        assert OccursAt(image.contentType, Base64Marker, k - |DataScheme|);
      } else {
        OverlapRepeatsFirstChar(url, Base64Marker, k, p);
      }
    }
  }

  /** A MIME type free of `;base64,` and the base64 content come back out of the data URL. */
  lemma DataUrlRoundTrip(image: ImageData)
    requires !Contains(image.contentType, Base64Marker)
    ensures ParseDataUrl(DataUrl(image)) == Some((image.contentType, image.content))
  {
    var url := DataUrl(image);
    var p := |DataScheme| + |image.contentType|;
    assert url[..|DataScheme|] == DataScheme;
    assert url[p..p + |Base64Marker|] == Base64Marker;
    assert OccursAt(url, Base64Marker, p);
    IndexFromFacts(url, Base64Marker, |DataScheme|);
    var i := IndexFrom(url, Base64Marker, |DataScheme|).value;
    if i < p {
      NoEarlierMarker(image, i);
    }
    assert i == p;
    assert url[|DataScheme|..p] == image.contentType;
    assert url[p + |Base64Marker|..] == image.content;
  }

  /** The images of the request; a missing list and an empty one both mean none. */
  function ImagesOf(images: Option<seq<ImageData>>): seq<ImageData> {
    match images
    case None => []
    case Some(list) => list
  }

  /**
   * `_build_message_content`: the prompt as the first part, then one image
   * part per image, in upload order, each holding the image's data URL.
   */
  method BuildMessageContent(prompt: string, images: Option<seq<ImageData>>) returns (content: seq<ContentPart>)
    ensures |content| == 1 + |ImagesOf(images)|
    ensures content[0] == TextPart(prompt)
    ensures forall k :: 0 <= k < |ImagesOf(images)| ==> content[k + 1] == ImageUrlPart(DataUrl(ImagesOf(images)[k]))
  {
    content := [TextPart(prompt)];
    if images.Some? && images.value != [] {
      var list := images.value;
      var k := 0;
      while k < |list|
        invariant 0 <= k <= |list|
        invariant |content| == 1 + k
        invariant content[0] == TextPart(prompt)
        invariant forall j :: 0 <= j < k ==> content[j + 1] == ImageUrlPart(DataUrl(list[j]))
      {
        content := content + [ImageUrlPart(DataUrl(list[k]))];
        k := k + 1;
      }
    }
  }

  /** Only the first part is text; every other part is an image that decodes back to its upload. */
  lemma ImagePartsDecode(content: seq<ContentPart>, prompt: string, images: seq<ImageData>)
    requires |content| == 1 + |images| && content[0] == TextPart(prompt)
    requires forall k :: 0 <= k < |images| ==> content[k + 1] == ImageUrlPart(DataUrl(images[k]))
    requires forall image <- images :: !Contains(image.contentType, Base64Marker)
    ensures forall k :: 0 < k < |content| ==> content[k].ImageUrlPart?
    ensures forall k :: 0 <= k < |images| ==>
              content[k + 1].ImageUrlPart?
              && ParseDataUrl(content[k + 1].url) == Some((images[k].contentType, images[k].content))
  {
    forall k | 0 < k < |content| ensures content[k].ImageUrlPart? {
      assert content[(k - 1) + 1] == ImageUrlPart(DataUrl(images[k - 1]));
    }
    forall k | 0 <= k < |images|
      ensures ParseDataUrl(content[k + 1].url) == Some((images[k].contentType, images[k].content))
    {
      DataUrlRoundTrip(images[k]);
    }
  }
}
