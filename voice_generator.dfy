/** The client-side voice generator service (components/VoiceGenerator.ts): its own copy
    of the pirate text transformer, with seven rules instead of the route's ten, its own
    copies of the two parameter tables, and `generate`, which runs the synthesis model,
    derives the audio URL from whatever the model returns and wraps every failure.
    The service's only field, the API client, is set once and stands for the external
    model, which is a parameter here: the outcome of the one `run` call. */
module VoiceGenerator {
  import opened Js
  import opened WordRegExp
  import opened Synthesis
  import Route

  // ---------------------------------------------------------------------------
  // Parameter tables (the same step functions as the route's)

  function GetVoiceParameters(intensity: int): (p: VoiceParams)
    ensures p.emotion == [Neutral, Happy, Angry, Angry][Route.Bucket(intensity)]
    ensures p.pitch == p.speed == [0.9, 1.0, 1.1, 1.2][Route.Bucket(intensity)]
  {
    if intensity <= 3 then VoiceParams(Neutral, 0.9, 0.9)
    else if intensity <= 6 then VoiceParams(Happy, 1.0, 1.0)
    else if intensity <= 8 then VoiceParams(Angry, 1.1, 1.1)
    else VoiceParams(Angry, 1.2, 1.2)
  }

  function GetPirateExpressions(intensity: int): (expressions: seq<string>)
    ensures |expressions| == [3, 4, 4, 5][Route.Bucket(intensity)]
  {
    if intensity <= 3 then ["Ahoy there", "Well met, matey", "Greetings, sailor"]
    else if intensity <= 6 then ["Arrr, matey", "Avast ye", "Shiver me timbers", "Yo ho ho"]
    else if intensity <= 8 then
      ["Batten down the hatches", "Blast ye, scurvy dog", "By Blackbeard's beard", "Scallywag"]
    else
      ["Blast yer black heart", "Ye scurvy bilge rat", "By Davy Jones' locker",
       "Curse ye to the depths", "Arrr, ye mangy sea dog"]
  }

  /** The service's voice-parameter table is the route's, for every intensity. */
  lemma VoiceParametersMatchRoute(intensity: int)
    ensures GetVoiceParameters(intensity) == Route.GetVoiceParameters(intensity)
  {
  }

  /** The service's phrase table is the route's, for every intensity; each bucket is
      one of the voice-parameter buckets. */
  lemma ExpressionsMatchRoute(i: int, j: int)
    ensures GetPirateExpressions(i) == Route.GetPirateExpressions(i)
    ensures GetPirateExpressions(i) == GetPirateExpressions(j) <==>
            GetVoiceParameters(i) == GetVoiceParameters(j)
  {
    Route.ExpressionsFollowVoiceBuckets(i, j);
  }

  // ---------------------------------------------------------------------------
  // The transformer

  const SevenRules: seq<Rule> := [
    Rule("you", "ye"), Rule("your", "yer"), Rule("my", "me"), Rule("is", "be"),
    Rule("are", "be"), Rule("over", "o'er"), Rule("to", "ter")]

  /** The seven rules are the first seven of the route's ten. */
  lemma SevenRulesArePrefix()
    ensures |SevenRules| == 7 && SevenRules == Route.PirateRules[..7]
  {
  }

  /** The seven replaces never rewrite their own output. */
  lemma SevenRulesWellBehaved()
    ensures RulesOk(SevenRules) && NoRewrite(SevenRules) && Closed(SevenRules)
  {
    SevenRulesArePrefix();
    Route.PirateRulesWellBehaved();
    ClosedPrefix(Route.PirateRules, 7);
    ClosedHasNoRewrite(SevenRules);
  }

  /** After the seven replaces no standalone you/your/my/is/are/over/to is left. */
  lemma NoPatternWordSurvives(text: string)
    ensures forall j :: 0 <= j < |SevenRules| ==>
      !OccursAsWord(ApplyRules(text, SevenRules), SevenRules[j].word)
  {
    SevenRulesWellBehaved();
    NoRuleWordSurvives(text, SevenRules);
  }

  /** None of "and", "for", "the" is one of the seven patterns, in any case. */
  lemma KeptWordMatchesNoRule(w: string)
    requires w in ["and", "for", "the"]
    ensures forall j :: 0 <= j < |SevenRules| ==> !SameIgnoringCase(w, SevenRules[j].word)
  {
  }

  /** The route's last three rules are missing here: a standalone "and", "for" or
      "the", in any case, is still there afterwards. */
  lemma AndForTheKept(text: string, w: string)
    requires w in ["and", "for", "the"]
    ensures OccursAsWord(text, w) ==> OccursAsWord(ApplyRules(text, SevenRules), w)
  {
    SevenRulesWellBehaved();
    KeptWordMatchesNoRule(w);
    if OccursAsWord(text, w) {
      OtherWordSurvives(text, SevenRules, w);
    }
  }

  /** What the transformer computes: the simultaneous substitution of the seven
      rules, decorated with the phrase `pick` selects, in front when `coin > 0.5`. */
  function Transformed(text: string, intensity: int, pick: real, coin: real): string
    requires 0.0 <= pick < 1.0
  {
    var expressions := GetPirateExpressions(intensity);
    var expression := expressions[Route.PickIndex(pick, |expressions|)];
    var body := Simultaneous(text, SevenRules);
    if coin > 0.5 then expression + " " + body else body + ", " + ToLower(expression)
  }

  /** The output is exactly one of the two forms, around the substituted text and
      with a phrase of the intensity's bucket. */
  lemma TransformedForms(text: string, intensity: int, pick: real, coin: real)
    requires 0.0 <= pick < 1.0
    ensures var r := Transformed(text, intensity, pick, coin);
            var body := Simultaneous(text, SevenRules);
            exists e :: e in GetPirateExpressions(intensity) &&
              (r == e + " " + body || r == body + ", " + ToLower(e))
    ensures var r := Transformed(text, intensity, pick, coin);
            var body := Simultaneous(text, SevenRules);
            (coin > 0.5 ==> |r| > |body| && r[|r| - |body|..] == body) &&
            (coin <= 0.5 ==> |r| > |body| && r[..|body|] == body)
  {
    var expressions := GetPirateExpressions(intensity);
    var e := expressions[Route.PickIndex(pick, |expressions|)];
    assert e in expressions;
    var r := Transformed(text, intensity, pick, coin);
    var body := Simultaneous(text, SevenRules);
    if coin > 0.5 {
      var front := e + " ";
      assert r == front + body;
      assert r[|front|..] == body;
    } else {
      var back := ", " + ToLower(e);
      assert r == body + back;
      assert r[..|body|] == body;
    }
  }

  /** The output, whichever phrase and form is chosen, has no standalone "you", "your"
      or "my" in any case. (The phrases bring back other pattern words: "Curse ye to
      the depths" has "to".) */
  lemma OutputHasNoPronoun(text: string, intensity: int)
    ensures forall k, j :: 0 <= k < |GetPirateExpressions(intensity)| && 0 <= j < |Route.PronounRules| ==>
      var phrase := GetPirateExpressions(intensity)[k];
      var body := Simultaneous(text, SevenRules);
      !OccursAsWord(phrase + " " + body, Route.PronounRules[j].word) &&
      !OccursAsWord(body + ", " + ToLower(phrase), Route.PronounRules[j].word)
  {
    SevenRulesWellBehaved();
    SevenRulesArePrefix();
    var body := Simultaneous(text, SevenRules);
    SimultaneousUntouched(text, SevenRules);
    UntouchedByPrefix(Lex(body), SevenRules, 3);
    assert SevenRules[..3] == Route.PronounRules;
    ExpressionsMatchRoute(intensity, intensity);
    Route.DecoratedHasNoPronoun(body, intensity);
  }

  /** transformToPirateSpeak: seven whole-word replaces in order, then the phrase. */
  method TransformToPirateSpeak(text: string, intensity: int, pick: real, coin: real)
    returns (pirateText: string)
    requires 0.0 <= pick < 1.0
    ensures pirateText == Transformed(text, intensity, pick, coin)
    ensures forall j :: 0 <= j < |Route.PronounRules| ==>
      !OccursAsWord(pirateText, Route.PronounRules[j].word)
  {
    pirateText := text;
    pirateText := ReplaceWord(pirateText, "you", "ye");
    pirateText := ReplaceWord(pirateText, "your", "yer");
    pirateText := ReplaceWord(pirateText, "my", "me");
    pirateText := ReplaceWord(pirateText, "is", "be");
    pirateText := ReplaceWord(pirateText, "are", "be");
    pirateText := ReplaceWord(pirateText, "over", "o'er");
    pirateText := ReplaceWord(pirateText, "to", "ter");
    SevenRulesWellBehaved();
    assert pirateText == ApplyRules(text, SevenRules);
    SequentialIsSimultaneous(text, SevenRules);

    var expressions := GetPirateExpressions(intensity);
    var randomExpression := expressions[Route.PickIndex(pick, |expressions|)];
    if coin > 0.5 {
      pirateText := randomExpression + " " + pirateText;
    } else {
      pirateText := pirateText + ", " + ToLower(randomExpression);
    }
    OutputHasNoPronoun(text, intensity);
  }

  // ---------------------------------------------------------------------------
  // generate

  /** The resolved value of `generate`; the duration is never known. */
  datatype GenerationResult = GenerationResult(url: Value, duration: Option<real>)

  const FailurePrefix := "Failed to generate pirate voice: "
  const NoAudioUrl := "No audio URL returned from the API"

  /** The audio URL taken from the model's output: a string is the URL itself, an
      object contributes its `url` property when that is truthy, and anything else
      (or an object with a falsy `url`) is used as it is. The URL is usable exactly
      when the output is truthy. */
  function AudioUrl(output: Value): (url: Value)
    ensures output.Obj? && Truthy(output.url) ==> url == output.url
    ensures !(output.Obj? && Truthy(output.url)) ==> url == output
    ensures Truthy(url) <==> Truthy(output)
  {
    match output
    case Obj(u) => if Truthy(u) then u else output
    case _ => output
  }

  /** generate: transform the text, pick the voice parameters, run the model and
      return the URL it produced. `run` is the outcome of the model call. Returns the
      outcome of `generate` and the synthesis input sent to the model. */
  method Generate(text: string, intensity: int, pick: real, coin: real, run: Call<Value>)
    returns (result: Call<GenerationResult>, input: SynthesisInput)
    requires 0.0 <= pick < 1.0
    ensures input == InputFor(Transformed(text, intensity, pick, coin), GetVoiceParameters(intensity))
    ensures result.Returned? <==> run.Returned? && Truthy(run.value)
    ensures result.Returned? ==> result.value == GenerationResult(AudioUrl(run.value), None)
    ensures result.Returned? ==> Truthy(result.value.url)
    ensures run.Threw? ==> result == Threw(Error(FailurePrefix + MessageOf(run.exc)))
    ensures run.Returned? && !Truthy(run.value) ==>
              result == Threw(Error(FailurePrefix + NoAudioUrl))
    ensures result.Threw? ==> result.exc.Error? && FailurePrefix <= result.exc.message
  {
    var pirateText := TransformToPirateSpeak(text, intensity, pick, coin);
    var params := GetVoiceParameters(intensity);
    input := InputFor(pirateText, params);

    var error: Exception;
    if run.Threw? {
      error := run.exc;
    } else {
      var audioUrl := AudioUrl(run.value);
      if Truthy(audioUrl) {
        return Returned(GenerationResult(audioUrl, None)), input;
      }
      error := Error(NoAudioUrl);
    }
    result := Threw(Error(FailurePrefix + MessageOf(error)));
  }
}
