/** The reply pipeline of the email generator service: build the prompt, send
    it to the generative-language API, pull the generated text out of the JSON
    answer and post-process it. Every failure becomes a descriptive string
    rather than an exception. The HTTP exchange and the JSON parser are
    parameters: `send` gives the outcome of posting a prompt, `parse` the
    outcome of reading a response body (or null) as a JSON tree. */
module EmailGeneratorService {
  import opened Wrappers
  import opened JavaStrings
  import opened Json
  import opened PromptBuilder
  import opened ResponseExtractor
  import opened PostProcessor

  const ApiErrorPrefix: string := "Gemini API Error: "
  const UnexpectedErrorPrefix: string := "Unexpected Error: "

  /** How the blocking POST ends: with the response body (`None` when
      `block()` yields null), with an HTTP error response (a
      WebClientResponseException) carrying the provider's body, or with any
      other exception. */
  datatype HttpOutcome =
    | Ok(body: Option<string>)
    | ResponseError(responseBody: string)
    | OtherError(message: string)

  /** generateEmailReply: a successful answer is extracted and post-processed;
      an HTTP error response becomes "Gemini API Error: " and its body; any
      other failure becomes "Unexpected Error: " and its message. */
  function GenerateEmailReply(req: EmailRequest, send: string -> HttpOutcome, parse: Option<string> -> ParseOutcome)
    : (reply: string)
    ensures var outcome := send(EnhancedPrompt(req));
      && (outcome.Ok? ==> reply == PostProcessed(Some(ExtractResponseContent(parse(outcome.body)))))
      && (outcome.Ok? ==> reply == NoEmailGenerated || (HasGreeting(reply) && HasSignOff(reply)))
      && (outcome.ResponseError? ==> reply == ApiErrorPrefix + outcome.responseBody)
      && (outcome.OtherError? ==> reply == UnexpectedErrorPrefix + outcome.message)
  {
    match send(EnhancedPrompt(req))
    case Ok(body) =>
      var email := Some(ExtractResponseContent(parse(body)));
      PostProcessedErrorOrEmail(email);
      PostProcessed(email)
    case ResponseError(responseBody) => ApiErrorPrefix + responseBody
    case OtherError(message) => UnexpectedErrorPrefix + message
  }

  /** A well-formed answer without the text path does not surface as the bare
      fallback string: post-processing dresses it as an email. */
  lemma MissingContentDecorated(req: EmailRequest, send: string -> HttpOutcome, parse: Option<string> -> ParseOutcome)
    requires send(EnhancedPrompt(req)).Ok?
    requires var parsed := parse(send(EnhancedPrompt(req)).body);
      parsed.Parsed? && CandidateText(parsed.root).None?
    ensures GenerateEmailReply(req, send, parse) == Greeting + NoValidResponse + SignOff
  {
    FallbackIsTrimmedAndUngreeted();
    FallbackHasNoSignOff();
    Decorated(NoValidResponse);
  }

  lemma FallbackIsTrimmedAndUngreeted()
    ensures !IsBlank(NoValidResponse) && Trim(NoValidResponse) == NoValidResponse
    ensures !HasGreeting(NoValidResponse)
  {
    PlainOpening(NoValidResponse);
  }

  /** The fallback has no letter y, and every letter of "regards" occurs in
      it, but "g" is never followed by "a" there. */
  lemma FallbackHasNoSignOff()
    ensures !HasSignOff(NoValidResponse)
  {
    FallbackLetters();
    FallbackPairs();
    NotContainsLowerByPair(NoValidResponse, "regards", 2);
    NotContainsLowerByLetter(NoValidResponse, "sincerely", 8);
  }

  lemma FallbackLetters()
    ensures 'y' !in NoValidResponse && 'Y' !in NoValidResponse
  {
  }

  lemma FallbackPairs()
    ensures forall j :: 0 <= j < |NoValidResponse| - 1 ==>
      !(LowerChar(NoValidResponse[j]) == 'g' && LowerChar(NoValidResponse[j + 1]) == 'a')
  {
  }

  /** An unparsable answer surfaces behind the greeting, still recognisable by
      its "Error parsing Gemini response:" head. The sign-off follows only
      when the trimmed error text (whose message may quote the offending
      body) contains neither "regards" nor "sincerely". */
  lemma ParseErrorDecorated(req: EmailRequest, send: string -> HttpOutcome, parse: Option<string> -> ParseOutcome)
    requires send(EnhancedPrompt(req)).Ok?
    requires parse(send(EnhancedPrompt(req)).body).ParseFailed?
    ensures StartsWith(GenerateEmailReply(req, send, parse), Greeting + ParseErrorHead)
    ensures var reply := GenerateEmailReply(req, send, parse);
      var text := Trim(ParseErrorPrefix + parse(send(EnhancedPrompt(req)).body).message);
      && (!HasSignOff(text) ==> |text + SignOff| <= |reply| && reply[|reply| - |text + SignOff|..] == text + SignOff)
      && (HasSignOff(text) ==> |text| <= |reply| && reply[|reply| - |text|..] == text)
  {
    var message := parse(send(EnhancedPrompt(req)).body).message;
    ParseErrorHeadIsTrimmedAndUngreeted();
    assert (ParseErrorPrefix + message)[..|ParseErrorHead|] == ParseErrorHead;
    GreetedHeadKept(ParseErrorPrefix + message, ParseErrorHead);
    assert !IsBlank(ParseErrorPrefix + message) by {
      assert (ParseErrorPrefix + message)[0] == ParseErrorHead[0];
    }
    PostProcessedShape(Some(ParseErrorPrefix + message));
  }

  /** The parse-error prefix without its trailing space, which trim may eat. */
  const ParseErrorHead: string := "Error parsing Gemini response:"

  lemma ParseErrorHeadIsTrimmedAndUngreeted()
    ensures 4 <= |ParseErrorHead| && ParseErrorPrefix[..|ParseErrorHead|] == ParseErrorHead
    ensures !IsWhitespace(ParseErrorHead[0]) && !IsTrimmable(ParseErrorHead[0])
    ensures !IsTrimmable(ParseErrorHead[|ParseErrorHead| - 1])
    ensures !HasGreeting(ParseErrorHead)
  {
    assert ToLower(ParseErrorHead)[0] == 'e';
  }

  // A request for a formal reply, answered with one candidate text.

  const MeetingText: string := "The meeting is confirmed for 3 PM."

  const MeetingAnswer: Json :=
    Obj(map["candidates" := Arr([Obj(map["content" := Obj(map["parts" := Arr([Obj(map["text" := Str(MeetingText)])])])])])])

  /** The generated text gets both the greeting and the sign-off:
      "Dear [Recipient],\n\nThe meeting is confirmed for 3 PM.\n\nBest regards,\n[Your Name]". */
  lemma MeetingScenario(responseBody: string)
    ensures var req := EmailRequest(Some("Please confirm the meeting time."), Some("formal"));
      GenerateEmailReply(req, (prompt: string) => Ok(Some(responseBody)), (body: Option<string>) => Parsed(Some(MeetingAnswer)))
        == Greeting + MeetingText + SignOff
  {
    MeetingDecorated();
  }

  lemma MeetingDecorated()
    ensures PostProcessed(Some(ExtractResponseContent(Parsed(Some(MeetingAnswer)))))
      == Greeting + MeetingText + SignOff
  {
    MeetingExtracted();
    MeetingTextIsTrimmedAndUngreeted();
    MeetingTextHasNoSignOff();
    Decorated(MeetingText);
  }

  lemma MeetingExtracted()
    ensures ExtractResponseContent(Parsed(Some(MeetingAnswer))) == MeetingText
  {
  }

  /** The text has neither a letter a nor a letter y. */
  lemma MeetingTextHasNoSignOff()
    ensures !HasSignOff(MeetingText)
  {
    MeetingTextLacksA();
    MeetingTextLacksY();
    NotContainsLowerByLetter(MeetingText, "regards", 3);
    NotContainsLowerByLetter(MeetingText, "sincerely", 8);
  }

  lemma MeetingTextIsTrimmedAndUngreeted()
    ensures !IsBlank(MeetingText) && Trim(MeetingText) == MeetingText
    ensures !HasGreeting(MeetingText)
  {
    PlainOpening(MeetingText);
  }

  lemma MeetingTextLacksA()
    ensures 'a' !in MeetingText && 'A' !in MeetingText
  {
  }

  lemma MeetingTextLacksY()
    ensures 'y' !in MeetingText && 'Y' !in MeetingText
  {
  }

  /** A rate-limited call surfaces the provider's body behind the API-error
      prefix. */
  lemma RateLimitedScenario(req: EmailRequest, parse: Option<string> -> ParseOutcome)
    ensures GenerateEmailReply(req, (prompt: string) => ResponseError("rate limited"), parse)
      == "Gemini API Error: rate limited"
  {
  }
}
