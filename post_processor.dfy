/** Post-processing: the two text rules that turn the generated text into an
    email with a greeting and a sign-off. */
module PostProcessor {
  import opened Wrappers
  import opened JavaStrings

  const Greeting: string := "Dear [Recipient],\n\n"
  const SignOff: string := "\n\nBest regards,\n[Your Name]"
  const NoEmailGenerated: string := "Error: No email generated."


  /** The greeting test: the text starts with "dear" or "hi", ignoring case. */
  predicate HasGreeting(s: string) {
    StartsWith(ToLower(s), "dear") || StartsWith(ToLower(s), "hi")
  }

  /** The sign-off test: the text contains "regards" or "sincerely",
      ignoring case. */
  predicate HasSignOff(s: string) {
    Contains(ToLower(s), "regards") || Contains(ToLower(s), "sincerely")
  }

  /** The normal form post-processing produces: the error string for a null
      or blank text; otherwise the trimmed text, preceded by the greeting
      exactly when it lacks one and followed by the sign-off exactly when it
      lacks one. Both tests look at the trimmed text alone. */
  function PostProcessed(email: Option<string>): string {
    if email.None? || IsBlank(email.value) then
      NoEmailGenerated
    else
      Dressed(Trim(email.value), Greeting, SignOff)
  }

  /** The text, preceded by `greeting` unless it has a greeting and followed
      by `signOff` unless it has a sign-off. */
  function Dressed(text: string, greeting: string, signOff: string): string {
    (if HasGreeting(text) then "" else greeting) + text + (if HasSignOff(text) then "" else signOff)
  }

  /** Post-processing as the service runs it: trim, maybe prepend the
      greeting, then test the possibly greeted text for a sign-off (the
      "regards" and "sincerely" tests, then the redundant "best regards"
      test) and maybe append it. */
  method PostProcessEmail(email: Option<string>) returns (result: string)
    ensures result == PostProcessed(email)
  {
    if email == None || IsBlank(email.value) {
      return NoEmailGenerated;
    }
    var text := Trim(email.value);
    ghost var trimmed := text;
    if !HasGreeting(text) {
      text := Greeting + text;
      SignOffIgnoresGreeting(trimmed);
    }
    assert HasSignOff(text) == HasSignOff(trimmed);
    BestRegardsRedundant(ToLower(text));
    if !HasSignOff(text) && !Contains(ToLower(text), "best regards") {
      text := text + SignOff;
    }
    return text;
  }

  /** The "best regards" test can never fire when the "regards" test did not. */
  lemma BestRegardsRedundant(s: string)
    ensures Contains(s, "best regards") ==> Contains(s, "regards")
  {
    if Contains(s, "best regards") {
      ContainsAt("best regards", "regards", 5);
      ContainsTransitive(s, "best regards", "regards");
    }
  }

  /** The greeting passes the greeting test and ends in a newline. */
  lemma GreetingHasGreeting()
    ensures HasGreeting(Greeting)
    ensures ToLower(Greeting)[|Greeting| - 1] == '\n'
  {
    GreetingWord();
    ToLowerSlice(Greeting, 0, 4);
    assert ToLower("Dear") == "dear";
  }

  lemma GreetingWord()
    ensures 4 <= |Greeting| && Greeting[..4] == "Dear"
  {
  }

  /** The greeting fails the sign-off test: it has no letter s. */
  lemma GreetingHasNoSignOff()
    ensures !HasSignOff(Greeting)
  {
    GreetingLetters();
    NotContainsLowerByLetter(Greeting, "regards", 6);
    NotContainsLowerByLetter(Greeting, "sincerely", 0);
  }

  lemma GreetingLetters()
    ensures 's' !in Greeting && 'S' !in Greeting
  {
  }

  /** The sign-off passes the sign-off test and cannot be trimmed at its end. */
  lemma SignOffIsSignOff()
    ensures HasSignOff(SignOff) && !IsTrimmable(SignOff[|SignOff| - 1])
  {
    SignOffWord();
    ToLowerSlice(SignOff, 7, 14);
    assert ToLower("regards") == "regards";
    ContainsAt(ToLower(SignOff), "regards", 7);
  }

  lemma SignOffWord()
    ensures 14 <= |SignOff| && SignOff[7..14] == "regards"
  {
  }

  /** Whatever follows a greeting keeps it. */
  lemma GreetingSurvivesAppend(s: string, x: string)
    requires HasGreeting(s)
    ensures HasGreeting(s + x)
  {
    ToLowerConcat(s, x);
    var low := ToLower(s);
    if StartsWith(low, "dear") {
      assert (low + ToLower(x))[..4] == low[..4];
    } else {
      assert (low + ToLower(x))[..2] == low[..2];
    }
  }

  /** Whatever surrounds a sign-off keeps it. */
  lemma SignOffSurvivesConcat(x: string, s: string, y: string)
    requires HasSignOff(s)
    ensures HasSignOff(x + s + y)
  {
    ToLowerConcat(x, s);
    ToLowerConcat(x + s, y);
    if Contains(ToLower(s), "regards") {
      ContainsPrepend(ToLower(x), ToLower(s), "regards");
      ContainsAppend(ToLower(x) + ToLower(s), ToLower(y), "regards");
    } else {
      ContainsPrepend(ToLower(x), ToLower(s), "sincerely");
      ContainsAppend(ToLower(x) + ToLower(s), ToLower(y), "sincerely");
    }
  }

  /** Prepending the greeting neither creates nor hides a sign-off, so testing
      the greeted text is the same as testing the trimmed one. */
  lemma SignOffIgnoresGreeting(text: string)
    ensures HasSignOff(Greeting + text) <==> HasSignOff(text)
  {
    GreetingHasGreeting();
    GreetingHasNoSignOff();
    ToLowerConcat(Greeting, text);
    SignOffIgnoresPrefix(ToLower(Greeting), ToLower(text));
  }

  /** A lower-case prefix that ends in a newline and holds neither sign-off
      word leaves the sign-off test where it was. */
  lemma SignOffIgnoresPrefix(low: string, lowText: string)
    requires |low| > 0 && low[|low| - 1] == '\n'
    requires !Contains(low, "regards") && !Contains(low, "sincerely")
    ensures (Contains(low + lowText, "regards") || Contains(low + lowText, "sincerely"))
        <==> (Contains(lowText, "regards") || Contains(lowText, "sincerely"))
  {
    ContainsAcrossNewline(low, lowText, "regards");
    ContainsAcrossNewline(low, lowText, "sincerely");
  }

  /** A text with a greeting opens with D, d, H or h, so neither trim nor
      isBlank can touch its first character. */
  lemma GreetingOpensText(s: string)
    requires HasGreeting(s)
    ensures |s| > 0 && s[0] in "DdHh"
    ensures !IsWhitespace(s[0]) && !IsTrimmable(s[0])
  {
    assert ToLower(s)[0] == LowerChar(s[0]);
  }

  /** Every text that was not null or blank comes out with a greeting and a
      sign-off. */
  lemma PostProcessedWellFormed(email: Option<string>)
    requires email.Some? && !IsBlank(email.value)
    ensures HasGreeting(PostProcessed(email)) && HasSignOff(PostProcessed(email))
  {
    GreetingHasGreeting();
    SignOffIsSignOff();
    DressedWellFormed(Trim(email.value), Greeting, SignOff);
  }

  /** Dressing with decorations that pass the tests yields a text that passes
      both. */
  lemma DressedWellFormed(text: string, greeting: string, signOff: string)
    requires HasGreeting(greeting) && HasSignOff(signOff)
    ensures HasGreeting(Dressed(text, greeting, signOff)) && HasSignOff(Dressed(text, greeting, signOff))
  {
    var pre := if HasGreeting(text) then "" else greeting;
    var post := if HasSignOff(text) then "" else signOff;
    if HasGreeting(text) {
      assert pre + text + post == text + post;
      GreetingSurvivesAppend(text, post);
    } else {
      assert pre + text + post == greeting + (text + post);
      GreetingSurvivesAppend(greeting, text + post);
    }
    if HasSignOff(text) {
      SignOffSurvivesConcat(pre, text, post);
    } else {
      assert pre + text + post == (pre + text) + signOff + "";
      SignOffSurvivesConcat(pre + text, signOff, "");
    }
  }

  /** For a text that was not null or blank the result is the trimmed text
      with at most a greeting in front and a sign-off behind: the greeting
      comes exactly when the trimmed text has none, the sign-off exactly
      when it has none, and nothing else is added. */
  lemma PostProcessedShape(email: Option<string>)
    requires email.Some? && !IsBlank(email.value)
    ensures var text := Trim(email.value);
      var r := PostProcessed(email);
      && |r| == (if HasGreeting(text) then 0 else |Greeting|) + |text| + (if HasSignOff(text) then 0 else |SignOff|)
      && (HasGreeting(text) ==> StartsWith(r, text))
      && (!HasGreeting(text) ==> StartsWith(r, Greeting + text))
      && (HasSignOff(text) ==> r[|r| - |text|..] == text)
      && (!HasSignOff(text) ==> r[|r| - |text + SignOff|..] == text + SignOff)
  {
    DressedShape(Trim(email.value), Greeting, SignOff);
  }

  lemma DressedShape(text: string, greeting: string, signOff: string)
    ensures var r := Dressed(text, greeting, signOff);
      && |r| == (if HasGreeting(text) then 0 else |greeting|) + |text| + (if HasSignOff(text) then 0 else |signOff|)
      && (HasGreeting(text) ==> StartsWith(r, text))
      && (!HasGreeting(text) ==> StartsWith(r, greeting + text))
      && (HasSignOff(text) ==> r[|r| - |text|..] == text)
      && (!HasSignOff(text) ==> r[|r| - |text + signOff|..] == text + signOff)
  {
    var pre := if HasGreeting(text) then "" else greeting;
    var post := if HasSignOff(text) then "" else signOff;
    var r := pre + text + post;
    assert r[..|pre + text|] == pre + text;
    assert r[|pre|..] == text + post;
  }

  /** The error string comes out exactly for a null or blank text. */
  lemma PostProcessedErrorIffBlank(email: Option<string>)
    ensures PostProcessed(email) == NoEmailGenerated <==> (email.None? || IsBlank(email.value))
  {
    if email.Some? && !IsBlank(email.value) {
      PostProcessedWellFormed(email);
      GreetingOpensText(PostProcessed(email));
    }
  }

  /** Every result is the error string or an email with greeting and sign-off. */
  lemma PostProcessedErrorOrEmail(email: Option<string>)
    ensures var r := PostProcessed(email);
      r == NoEmailGenerated || (HasGreeting(r) && HasSignOff(r))
  {
    if email.Some? && !IsBlank(email.value) {
      PostProcessedWellFormed(email);
    }
  }

  /** Post-processing a text that was not null or blank a second time changes
      nothing: no second greeting and no second sign-off. */
  lemma PostProcessedIdempotent(email: Option<string>)
    requires email.Some? && !IsBlank(email.value)
    ensures PostProcessed(Some(PostProcessed(email))) == PostProcessed(email)
  {
    var r := PostProcessed(email);
    PostProcessedWellFormed(email);
    SignOffIsSignOff();
    DressedEndsUntrimmable(Trim(email.value), Greeting, SignOff);
    NormalFormIsFixpoint(r);
  }

  /** A text that has a greeting and a sign-off and does not end in a
      trimmable character passes through post-processing unchanged. */
  lemma NormalFormIsFixpoint(r: string)
    requires HasGreeting(r) && HasSignOff(r) && !IsTrimmable(r[|r| - 1])
    ensures PostProcessed(Some(r)) == r
  {
    GreetingOpensText(r);
    assert !IsBlank(r);
    TrimNoop(r);
    DressedKeepsDressed(r, Greeting, SignOff);
  }

  /** A dressed text ends in a character trim keeps, when the text and the
      sign-off both do. */
  lemma DressedEndsUntrimmable(text: string, greeting: string, signOff: string)
    requires text == [] || !IsTrimmable(text[|text| - 1])
    requires signOff != [] && !IsTrimmable(signOff[|signOff| - 1])
    ensures var d := Dressed(text, greeting, signOff); d != [] && !IsTrimmable(d[|d| - 1])
  {
  }

  lemma DressedKeepsDressed(text: string, greeting: string, signOff: string)
    requires HasGreeting(text) && HasSignOff(text)
    ensures Dressed(text, greeting, signOff) == text
  {
    assert "" + text + "" == text;
  }

  /** A text that trims to itself and has neither a greeting nor a sign-off
      gets both. */
  lemma Decorated(e: string)
    requires !IsBlank(e) && Trim(e) == e && !HasGreeting(e) && !HasSignOff(e)
    ensures PostProcessed(Some(e)) == Greeting + e + SignOff
  {
  }

  /** The error string is no fixed point: a second pass decorates it. */
  lemma ErrorStringDecorated()
    ensures PostProcessed(Some(NoEmailGenerated)) == Greeting + NoEmailGenerated + SignOff
  {
    ErrorStringIsTrimmedAndUngreeted();
    ErrorStringHasNoSignOff();
    Decorated(NoEmailGenerated);
  }

  lemma ErrorStringIsTrimmedAndUngreeted()
    ensures !IsBlank(NoEmailGenerated) && Trim(NoEmailGenerated) == NoEmailGenerated
    ensures !HasGreeting(NoEmailGenerated)
  {
    PlainOpening(NoEmailGenerated);
  }

  /** A text whose first character is neither whitespace nor trimmable nor a
      d or an h, and whose last character is not trimmable, is not blank, is
      its own trim and has no greeting. */
  lemma PlainOpening(s: string)
    requires |s| > 0 && !IsWhitespace(s[0]) && !IsTrimmable(s[0]) && !IsTrimmable(s[|s| - 1])
    requires LowerChar(s[0]) != 'd' && LowerChar(s[0]) != 'h'
    ensures !IsBlank(s) && Trim(s) == s && !HasGreeting(s)
  {
    TrimNoop(s);
    assert ToLower(s)[0] == LowerChar(s[0]);
  }

  /** The error string has no letter s. */
  lemma ErrorStringHasNoSignOff()
    ensures !HasSignOff(NoEmailGenerated)
  {
    ErrorStringLetters();
    NotContainsLowerByLetter(NoEmailGenerated, "regards", 6);
    NotContainsLowerByLetter(NoEmailGenerated, "sincerely", 0);
  }

  lemma ErrorStringLetters()
    ensures 's' !in NoEmailGenerated && 'S' !in NoEmailGenerated
  {
  }

  /** A text that opens with a head that has no greeting and no trimmable
      character at either end keeps that head, right behind the greeting. */
  lemma GreetedHeadKept(e: string, head: string)
    requires 4 <= |head| && StartsWith(e, head)
    requires !IsWhitespace(head[0]) && !IsTrimmable(head[0]) && !IsTrimmable(head[|head| - 1])
    requires !HasGreeting(head)
    ensures StartsWith(PostProcessed(Some(e)), Greeting + head)
  {
    assert e[0] == head[0] && e[|head| - 1] == head[|head| - 1];
    assert !IsBlank(e);
    var t := Trim(e);
    var lo := TrimSlice(e);
    assert lo == 0;
    assert |head| <= |t|;
    assert t[..|head|] == head;
    assert ToLower(t)[..4] == ToLower(head)[..4];
    assert !HasGreeting(t);
    var r := PostProcessed(Some(e));
    assert r[..|Greeting + head|] == Greeting + head;
  }
}
