/** Response extraction: the generated text read out of the API's JSON answer
    at candidates[0].content.parts[0].text, with a fallback string for every
    missing step and an error string for an unparsable answer. */
module ResponseExtractor {
  import opened Wrappers
  import opened Json

  const NoValidResponse: string := "No valid response from Gemini."
  const ParseErrorPrefix: string := "Error parsing Gemini response: "

  /** The node at candidates[0].content.parts[0].text, read straight off the
      tree: the root, the first candidate, its content and the first part
      must be objects, candidates and parts non-empty arrays, and every key
      present. */
  function CandidateText(root: Option<Json>): Option<Json> {
    match root
    case Some(Obj(top)) =>
      if "candidates" in top && top["candidates"].Arr? && |top["candidates"].elems| > 0 then
        match top["candidates"].elems[0]
        case Obj(candidate) =>
          if "content" in candidate then
            match candidate["content"]
            case Obj(content) =>
              if "parts" in content && content["parts"].Arr? && |content["parts"].elems| > 0 then
                match content["parts"].elems[0]
                case Obj(part) => if "text" in part then Some(part["text"]) else None
                case _ => None
              else None
            case _ => None
          else None
        case _ => None
      else None
    case _ => None
  }

  /** The extractor as the service writes it: `path` steps that yield the
      missing node on any absent key or non-object parent, array tests before
      each `get(0)`, and `asText` on the text node. It never fails: a parse
      error and every missing step become strings. */
  function ExtractResponseContent(response: ParseOutcome): (r: string)
    ensures response.ParseFailed? ==> r == ParseErrorPrefix + response.message
    ensures response.Parsed? && CandidateText(response.root).Some? ==>
      r == AsText(CandidateText(response.root).value)
    ensures response.Parsed? && CandidateText(response.root).None? ==> r == NoValidResponse
  {
    match response
    case ParseFailed(message) => ParseErrorPrefix + message
    case Parsed(root) =>
      var candidates := Path(root, "candidates");
      if IsNonEmptyArray(candidates) then
        var parts := Path(Path(First(candidates), "content"), "parts");
        if IsNonEmptyArray(parts) then
          var textNode := Path(First(parts), "text");
          if textNode.Some? then AsText(textNode.value) else NoValidResponse
        else
          NoValidResponse
      else
        NoValidResponse
  }

  /** The answer shape the API documents yields the first candidate's first
      text, whatever other candidates and parts follow. */
  lemma ExtractsFirstCandidateText(text: string, moreCandidates: seq<Json>, moreParts: seq<Json>)
    ensures var part := Obj(map["text" := Str(text)]);
      var content := Obj(map["parts" := Arr([part] + moreParts)]);
      var candidate := Obj(map["content" := content]);
      var root := Obj(map["candidates" := Arr([candidate] + moreCandidates)]);
      ExtractResponseContent(Parsed(Some(root))) == text
  {
  }
}
