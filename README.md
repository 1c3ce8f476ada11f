# Email reply generator — Dafny model

This project models the reply pipeline of the email writer service
(`EmailGeneratorService`). The service takes an email and an optional tone,
builds an instruction prompt, and posts it to the Gemini generative-language
API. It then reads the generated text out of the JSON answer and normalises
it into an email with a greeting and a sign-off. Every failure comes back as
a descriptive string instead of an exception.

The modules follow the service's steps:

- `Wrappers`: `Option`. Java `null` and Jackson's missing node are both `None`.
- `JavaStrings`: the `java.lang.String` operations the service calls:
  `isBlank` (the exact `Character.isWhitespace` set), `trim` (every
  character up to U+0020), `toLowerCase`, `startsWith` and `contains`.
- `Json`: the parsed JSON tree, Jackson's `path` / `isArray` / `size` /
  `get(0)` / `asText`, and the outcome of `readTree`.
- `PromptBuilder`: `buildEnhancedPrompt`. A method appends to a buffer
  piece by piece, the way the `StringBuilder` does. It is proved equal to the
  function `EnhancedPrompt`, and layout lemmas are proved about that function.
- `ResponseExtractor`: `extractResponseContent`. It is written as the
  source's chain of `path` steps and proved against `CandidateText`, an
  independent reference definition by nested pattern matching.
- `PostProcessor`: `postProcessEmail`. A method reassigns the text in
  source order: trim, maybe prepend the greeting, then run the sign-off
  tests on the possibly greeted text. It is proved equal to the declarative
  `PostProcessed`, which runs both tests on the trimmed text alone. The
  lemmas about `PostProcessed` cover well-formedness, the error case,
  idempotence and shape.
- `EmailGeneratorService`: `generateEmailReply` as a function of the request.
  The HTTP exchange (`send`) and the JSON parser (`parse`) are parameters.

Where the code and its design description differ, the model follows the
code:

- The design description says a missing text path surfaces as
  "No valid response from Gemini." and a malformed answer as a string
  starting "Error parsing Gemini response:". In the code both strings go
  through `postProcessEmail`, so the caller gets them behind
  "Dear [Recipient],\n\n". The fallback always gets the sign-off as well
  (`MissingContentDecorated`). A parse error gets it only when its trimmed
  text contains neither "regards" nor "sincerely", ignoring case; its
  message may quote the offending body (`ParseErrorDecorated`).
- The normalisation rules are described as idempotent. That holds for every
  text that is neither null nor blank (`PostProcessedIdempotent`). It fails
  for blank input: the error string "Error: No email generated." is itself
  decorated on a second pass (`ErrorStringDecorated`).
- A network failure that produces no HTTP response is described as a
  "Gemini API Error". In the code only a `WebClientResponseException` maps
  to that prefix. Every other exception maps to "Unexpected Error: "
  (`GenerateEmailReply`).
- "The prompt contains 'tone should be {tone}' iff the tone is non-blank"
  is true only left to right: the email content may itself contain that
  phrase. The model states the tone clause's position instead
  (`PromptToneClause`, `PromptWithoutTone`).

## Model

| member | source | states |
|---|---|---|
| JavaStrings.Trim | email-writer-sb/email-writer-sb/src/main/java/com/email/writer/app/EmailGeneratorService.java:114 | `trim` yields the empty string exactly when every character is at most U+0020; otherwise neither of its end characters is |
| JavaStrings.TrimSlice | email-writer-sb/email-writer-sb/src/main/java/com/email/writer/app/EmailGeneratorService.java:114 | the trimmed text is one contiguous slice of the input, and every character outside that slice is trimmable |
| JavaStrings.IsWhitespace | email-writer-sb/email-writer-sb/src/main/java/com/email/writer/app/EmailGeneratorService.java:76 | definition: `Character.isWhitespace`, the test `isBlank` applies to each character: TAB to CR, FS to US, the space, and the Unicode space, line and paragraph separators except the non-breaking ones |
| JavaStrings.IsBlank | email-writer-sb/email-writer-sb/src/main/java/com/email/writer/app/EmailGeneratorService.java:110 | definition: `isBlank` holds of the empty string and of strings made only of whitespace characters |
| JavaStrings.ToLower | email-writer-sb/email-writer-sb/src/main/java/com/email/writer/app/EmailGeneratorService.java:117 | definition: `toLowerCase`, mapping each ASCII capital letter to its lower-case letter and leaving every other character unchanged |
| JavaStrings.StartsWith | email-writer-sb/email-writer-sb/src/main/java/com/email/writer/app/EmailGeneratorService.java:117 | definition: `startsWith`, the prefix test |
| JavaStrings.Contains | email-writer-sb/email-writer-sb/src/main/java/com/email/writer/app/EmailGeneratorService.java:122-124 | definition: `contains`, an occurrence of the pattern at some offset |
| Json.Path | email-writer-sb/email-writer-sb/src/main/java/com/email/writer/app/EmailGeneratorService.java:90-96 | definition: Jackson's `path`, the member value of an object node, and the missing node for an absent key, a non-object node or a missing node |
| Json.IsNonEmptyArray | email-writer-sb/email-writer-sb/src/main/java/com/email/writer/app/EmailGeneratorService.java:91 | definition: `isArray() && size() > 0`, which the missing node fails |
| Json.First | email-writer-sb/email-writer-sb/src/main/java/com/email/writer/app/EmailGeneratorService.java:92 | definition: `get(0)` on a non-empty array node |
| Json.AsText | email-writer-sb/email-writer-sb/src/main/java/com/email/writer/app/EmailGeneratorService.java:98 | definition: `asText` for each node kind: the text of a string, the rendering of a number, "true"/"false", "null", and "" for arrays and objects |
| PromptBuilder.BuildEnhancedPrompt | email-writer-sb/email-writer-sb/src/main/java/com/email/writer/app/EmailGeneratorService.java:65-82 | appending the seven instruction sentences, the tone clause (only for a non-null, non-blank tone), "Scenario:\n" and the content ("null" for a null content) builds exactly `EnhancedPrompt` |
| PromptBuilder.PromptOpensWithPreamble | email-writer-sb/email-writer-sb/src/main/java/com/email/writer/app/EmailGeneratorService.java:66-74 | every prompt starts with the fixed preamble |
| PromptBuilder.PromptToneClause | email-writer-sb/email-writer-sb/src/main/java/com/email/writer/app/EmailGeneratorService.java:76-80 | for a non-null, non-blank tone, the text between the preamble and "Scenario:\n" + content is exactly "The tone should be " + tone + ". ", and the prompt contains that clause |
| PromptBuilder.PromptWithoutTone | email-writer-sb/email-writer-sb/src/main/java/com/email/writer/app/EmailGeneratorService.java:76-80 | for a null or blank tone, nothing sits between the preamble and "Scenario:\n" + content |
| PromptBuilder.PromptClosesWithScenario | email-writer-sb/email-writer-sb/src/main/java/com/email/writer/app/EmailGeneratorService.java:80 | every prompt ends with "Scenario:\n" followed by the content, or by "null" for a null content, and contains that content |
| ResponseExtractor.ExtractResponseContent | email-writer-sb/email-writer-sb/src/main/java/com/email/writer/app/EmailGeneratorService.java:85-106 | a parse failure gives "Error parsing Gemini response: " + message; otherwise the result is `asText` of the node at candidates[0].content.parts[0].text when every step exists (by the nested-match reference `CandidateText`), and "No valid response from Gemini." when any step is missing, is not an object or non-empty array, or the text key is absent |
| ResponseExtractor.ExtractsFirstCandidateText | email-writer-sb/email-writer-sb/src/main/java/com/email/writer/app/EmailGeneratorService.java:90-99 | the documented answer shape yields the first candidate's first text, whatever other candidates and parts follow |
| PostProcessor.PostProcessEmail | email-writer-sb/email-writer-sb/src/main/java/com/email/writer/app/EmailGeneratorService.java:109-129 | the source-order steps (greeting test on the trimmed text, then three sign-off tests on the possibly greeted text) compute `PostProcessed`, whose tests look at the trimmed text only |
| PostProcessor.BestRegardsRedundant | email-writer-sb/email-writer-sb/src/main/java/com/email/writer/app/EmailGeneratorService.java:122-124 | a text that contains "best regards" contains "regards", so the third sign-off test never changes the outcome |
| PostProcessor.SignOffIgnoresGreeting | email-writer-sb/email-writer-sb/src/main/java/com/email/writer/app/EmailGeneratorService.java:117-124 | a text passes the sign-off test after "Dear [Recipient],\n\n" is prepended exactly when it passed before |
| PostProcessor.PostProcessedShape | email-writer-sb/email-writer-sb/src/main/java/com/email/writer/app/EmailGeneratorService.java:114-126 | for non-blank input the result is the trimmed text, preceded by the greeting exactly when it lacks "dear"/"hi" at its start and followed by the sign-off exactly when it lacks "regards"/"sincerely", ignoring case, with nothing else added |
| PostProcessor.PostProcessedWellFormed | email-writer-sb/email-writer-sb/src/main/java/com/email/writer/app/EmailGeneratorService.java:114-126 | every result for non-blank input starts with "dear" or "hi" and contains "regards" or "sincerely", ignoring case |
| PostProcessor.PostProcessedErrorIffBlank | email-writer-sb/email-writer-sb/src/main/java/com/email/writer/app/EmailGeneratorService.java:110-112 | the result is "Error: No email generated." if and only if the input is null or blank |
| PostProcessor.PostProcessedErrorOrEmail | email-writer-sb/email-writer-sb/src/main/java/com/email/writer/app/EmailGeneratorService.java:109-129 | every result is the error string or a text with both a greeting and a sign-off |
| PostProcessor.PostProcessedIdempotent | email-writer-sb/email-writer-sb/src/main/java/com/email/writer/app/EmailGeneratorService.java:109-129 | post-processing the result for non-blank input a second time returns it unchanged: no second greeting, no second sign-off |
| PostProcessor.ErrorStringDecorated | email-writer-sb/email-writer-sb/src/main/java/com/email/writer/app/EmailGeneratorService.java:110-126 | post-processing the error string itself wraps it in the greeting and the sign-off, so idempotence fails for blank input |
| PostProcessor.GreetedHeadKept | email-writer-sb/email-writer-sb/src/main/java/com/email/writer/app/EmailGeneratorService.java:114-119 | a text that opens with a greeting-free head whose end characters trim keeps comes out as the greeting followed by that head |
| EmailGeneratorService.GenerateEmailReply | email-writer-sb/email-writer-sb/src/main/java/com/email/writer/app/EmailGeneratorService.java:27-61 | a successful body gives the post-processed extraction, which is the error string or a greeted, signed email; an HTTP error response gives "Gemini API Error: " + its body; any other failure gives "Unexpected Error: " + its message |
| EmailGeneratorService.MissingContentDecorated | email-writer-sb/email-writer-sb/src/main/java/com/email/writer/app/EmailGeneratorService.java:52-55 | a well-formed answer without the text path yields greeting + "No valid response from Gemini." + sign-off, not the bare fallback |
| EmailGeneratorService.ParseErrorDecorated | email-writer-sb/email-writer-sb/src/main/java/com/email/writer/app/EmailGeneratorService.java:52-55 | an unparsable answer yields a reply starting with the greeting followed by "Error parsing Gemini response:"; it ends with the trimmed error text plus the sign-off when that text contains neither "regards" nor "sincerely", and with the trimmed error text alone otherwise |
| EmailGeneratorService.MeetingScenario | email-writer-sb/email-writer-sb/src/main/java/com/email/writer/app/EmailGeneratorService.java:27-61 | a formal request answered with the text "The meeting is confirmed for 3 PM." yields that text between the greeting and the sign-off |
| EmailGeneratorService.RateLimitedScenario | email-writer-sb/email-writer-sb/src/main/java/com/email/writer/app/EmailGeneratorService.java:57-58 | an HTTP error response with body "rate limited" yields "Gemini API Error: rate limited", whatever the request |

## Left out

- The WebClient POST, the URI built with the API key, the JSON header and `.block()` (EmailGeneratorService.java:43-49) are network I/O. Their outcome is the parameter `send`: the body (`None` when `block()` yields null), an HTTP error response with its body, or any other exception with its message.
- The request-body `Map` (EmailGeneratorService.java:33-40) is serialisation handed to a library. The prompt is what the model passes to `send`.
- Jackson's `readTree` is a foreign parser. Its outcome is the parameter `parse`: a root node (`None` for content-free input) or the exception message. `readTree(null)` throws, so `parse(None)` stands for a `ParseFailed`; the model does not force it to be one.
- Strings are sequences of Unicode scalar values. A Java string holding an unpaired UTF-16 surrogate, which Jackson builds from an escape such as `"\ud800"`, cannot be an input.
- The `@Value` configuration fields and the constructor are Spring wiring.
- `EmailGeneratorController.java` is not part of this model: it does HTTP routing and returns a constant health string, plus a 500 catch-all.
- `toLowerCase` is modelled on ASCII letters only. Locale rules (Turkish dotted I) and non-ASCII case mappings that can change a string's length are not modelled.
- Exception messages are opaque strings. A null message, which Java concatenates as "null", is the string "null" in the model.
- `asText` of a number node is carried as the rendering stored in `Num`. Jackson's number formatting is not modelled.
- A JSON object keeps one value per key. Duplicate keys, which Jackson resolves as last-wins, are not modelled.
- A null `EmailRequest` passed to `generateEmailReply` is not modelled. It would fail in `buildEnhancedPrompt` with an exception that maps to "Unexpected Error: ".
