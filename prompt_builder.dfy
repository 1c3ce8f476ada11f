/** Prompt construction: the instruction text sent to the generative-language
    API, built from the request's email content and optional tone. */
module PromptBuilder {
  import opened Wrappers
  import opened JavaStrings

  /** The fixed instructions every prompt opens with, sentence by sentence. */
  const Role: string := "You are a professional email writing assistant. "
  const Task: string := "Write a clear, concise, and polished email reply. "
  const NoSubject: string := "Do NOT include a subject line unless explicitly asked. "
  const Structure: string := "Ensure proper greeting, structured body, and professional closing. "
  const Length: string := "Keep it between 80\U{2013}150 words. "
  const NoFiller: string := "Avoid repetition or generic filler text. "
  const ContentIntro: string := "Here is the email content: \n"

  const Preamble: string :=
    Role + Task + NoSubject + Structure + Length + NoFiller + ContentIntro

  const ToneLead: string := "The tone should be "
  const ScenarioHeader: string := "Scenario:\n"

  /** The request the controller hands over; either field may be null. */
  datatype EmailRequest = EmailRequest(emailContent: Option<string>, tone: Option<string>)

  /** What `StringBuilder.append(String)` adds: the text, or "null" for a
      null reference. */
  function AppendedText(s: Option<string>): string {
    if s.None? then "null" else s.value
  }

  /** The tone clause is emitted only for a non-null, non-blank tone. */
  predicate HasTone(tone: Option<string>) {
    tone.Some? && !IsBlank(tone.value)
  }

  function ToneClause(tone: Option<string>): string {
    if HasTone(tone) then ToneLead + tone.value + ". " else ""
  }

  /** The prompt: preamble, optional tone clause, then the scenario. */
  function EnhancedPrompt(req: EmailRequest): string {
    Preamble + ToneClause(req.tone) + ScenarioHeader + AppendedText(req.emailContent)
  }

  /** Builds the prompt by appending to a buffer, one piece at a time. */
  method BuildEnhancedPrompt(req: EmailRequest) returns (prompt: string)
    ensures prompt == EnhancedPrompt(req)
  {
    var sb := "";
    assert sb + Role == Role;
    sb := sb + Role;
    sb := sb + Task;
    sb := sb + NoSubject;
    sb := sb + Structure;
    sb := sb + Length;
    sb := sb + NoFiller;
    sb := sb + ContentIntro;
    ghost var preamble := sb;
    if req.tone != None && !IsBlank(req.tone.value) {
      sb := sb + ToneLead;
      sb := sb + req.tone.value;
      sb := sb + ". ";
      ConcatAssoc3(preamble, ToneLead, req.tone.value, ". ");
    }
    sb := sb + ScenarioHeader;
    sb := sb + AppendedText(req.emailContent);
    prompt := sb;
  }

  // The layout of every prompt: it opens with the preamble and closes with
  // the scenario header and the content (or "null"); the tone clause sits
  // between them when the tone is non-null and non-blank, and otherwise
  // nothing does.

  lemma PromptOpensWithPreamble(req: EmailRequest)
    ensures StartsWith(EnhancedPrompt(req), Preamble)
  {
    ConcatLayout(Preamble, ToneClause(req.tone), ScenarioHeader, AppendedText(req.emailContent));
  }

  lemma PromptClosesWithScenario(req: EmailRequest)
    ensures var p := EnhancedPrompt(req);
      var tail := ScenarioHeader + AppendedText(req.emailContent);
      |tail| <= |p| && p[|p| - |tail|..] == tail && Contains(p, AppendedText(req.emailContent))
  {
    ConcatLayout(Preamble, ToneClause(req.tone), ScenarioHeader, AppendedText(req.emailContent));
  }

  lemma PromptToneClause(req: EmailRequest)
    requires HasTone(req.tone)
    ensures var p := EnhancedPrompt(req);
      var tail := ScenarioHeader + AppendedText(req.emailContent);
      |Preamble| + |tail| <= |p|
      && p[|Preamble|..|p| - |tail|] == ToneLead + req.tone.value + ". "
      && Contains(p, ToneLead + req.tone.value + ". ")
  {
    ConcatLayout(Preamble, ToneClause(req.tone), ScenarioHeader, AppendedText(req.emailContent));
  }

  lemma PromptWithoutTone(req: EmailRequest)
    requires !HasTone(req.tone)
    ensures EnhancedPrompt(req) == Preamble + ScenarioHeader + AppendedText(req.emailContent)
  {
  }

  /** Where each of four concatenated parts sits in the whole. */
  lemma ConcatLayout(a: string, b: string, c: string, d: string)
    ensures var p := a + b + c + d;
      p[..|a|] == a && p[|p| - |c + d|..] == c + d && p[|a|..|p| - |c + d|] == b
      && Contains(p, b) && Contains(p, d)
  {
    var p := a + b + c + d;
    assert p[|a|..|a| + |b|] == b;
    assert p[|p| - |d|..] == d;
    ContainsAt(p, b, |a|);
    ContainsAt(p, d, |p| - |d|);
  }

  lemma ConcatAssoc3(a: string, b: string, c: string, d: string)
    ensures a + b + c + d == a + (b + c + d)
  {
  }
}
