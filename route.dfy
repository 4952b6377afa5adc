/** The voice generation API route (app/api/generate-voice/route.ts): the request guard,
    intensity defaulting, the bounded poll of the external prediction, the mapping of
    its final status to an HTTP response, and the route's copy of the pirate text
    transformer and parameter tables. The external service is a parameter: the outcome
    of the create call and the answer to each status poll. */
module Route {
  import opened Js
  import opened WordRegExp
  import opened Synthesis

  // ---------------------------------------------------------------------------
  // Parameter tables

  /** Voice parameters by intensity; the buckets end (inclusively) at 3, 6 and 8. */
  function GetVoiceParameters(intensity: int): (p: VoiceParams)
    ensures p.emotion == [Neutral, Happy, Angry, Angry][Bucket(intensity)]
    ensures p.pitch == p.speed == [0.9, 1.0, 1.1, 1.2][Bucket(intensity)]
  {
    if intensity <= 3 then VoiceParams(Neutral, 0.9, 0.9)
    else if intensity <= 6 then VoiceParams(Happy, 1.0, 1.0)
    else if intensity <= 8 then VoiceParams(Angry, 1.1, 1.1)
    else VoiceParams(Angry, 1.2, 1.2)
  }

  /** The four intensity buckets both tables share: 0 for up to 3, 1 for 4..6,
      2 for 7..8, 3 above. */
  function Bucket(intensity: int): (b: nat)
    ensures b <= 3
    ensures b == 0 <==> intensity <= 3
    ensures b == 1 <==> 3 < intensity <= 6
    ensures b == 2 <==> 6 < intensity <= 8
    ensures b == 3 <==> 8 < intensity
  {
    if intensity <= 3 then 0 else if intensity <= 6 then 1 else if intensity <= 8 then 2 else 3
  }

  /** Stock phrases by intensity. */
  function GetPirateExpressions(intensity: int): (expressions: seq<string>)
    ensures |expressions| == [3, 4, 4, 5][Bucket(intensity)]
  {
    if intensity <= 3 then ["Ahoy there", "Well met, matey", "Greetings, sailor"]
    else if intensity <= 6 then ["Arrr, matey", "Avast ye", "Shiver me timbers", "Yo ho ho"]
    else if intensity <= 8 then
      ["Batten down the hatches", "Blast ye, scurvy dog", "By Blackbeard's beard", "Scallywag"]
    else
      ["Blast yer black heart", "Ye scurvy bilge rat", "By Davy Jones' locker",
       "Curse ye to the depths", "Arrr, ye mangy sea dog"]
  }

  /** The parameter table is a step function of the bucket: equal buckets give equal
      parameters and different buckets different ones. */
  lemma VoiceParametersFollowBuckets(i: int, j: int)
    ensures GetVoiceParameters(i) == GetVoiceParameters(j) <==> Bucket(i) == Bucket(j)
  {
  }

  /** The phrase table uses the same buckets as the parameter table. */
  lemma ExpressionsFollowVoiceBuckets(i: int, j: int)
    ensures GetPirateExpressions(i) == GetPirateExpressions(j) <==>
            GetVoiceParameters(i) == GetVoiceParameters(j)
  {
    VoiceParametersFollowBuckets(i, j);
    if Bucket(i) != Bucket(j) {
      var a, b := GetPirateExpressions(i), GetPirateExpressions(j);
      if |a| == |b| {
        assert a[0] != b[0];
      }
    }
  }

  /** Pitch, speed and emotion never decrease as the intensity rises. */
  lemma VoiceParametersMonotone(i: int, j: int)
    requires i <= j
    ensures GetVoiceParameters(i).pitch <= GetVoiceParameters(j).pitch
    ensures GetVoiceParameters(i).speed <= GetVoiceParameters(j).speed
    ensures EmotionRank(GetVoiceParameters(i).emotion) <= EmotionRank(GetVoiceParameters(j).emotion)
  {
  }

  // ---------------------------------------------------------------------------
  // The pirate text transformer (not called by the route: its call is commented out)

  const PirateRules: seq<Rule> := [
    Rule("you", "ye"), Rule("your", "yer"), Rule("my", "me"), Rule("is", "be"),
    Rule("are", "be"), Rule("over", "o'er"), Rule("to", "ter"), Rule("and", "an'"),
    Rule("for", "fer"), Rule("the", "th'")]

  /** None of the words the replacements are made of is a word a rule replaces. */
  lemma ReplacementWordsUntouched()
    ensures forall j :: 0 <= j < |PirateRules| ==>
      && !SameIgnoringCase("ye", PirateRules[j].word) && !SameIgnoringCase("yer", PirateRules[j].word)
      && !SameIgnoringCase("me", PirateRules[j].word) && !SameIgnoringCase("be", PirateRules[j].word)
      && !SameIgnoringCase("o", PirateRules[j].word) && !SameIgnoringCase("er", PirateRules[j].word)
      && !SameIgnoringCase("ter", PirateRules[j].word) && !SameIgnoringCase("an", PirateRules[j].word)
      && !SameIgnoringCase("fer", PirateRules[j].word) && !SameIgnoringCase("th", PirateRules[j].word)
  {
  }

  /** "o'er" splits at its apostrophe into the words "o" and "er". */
  lemma OerAtoms()
    ensures Lex("o'er") == [Word("o"), Sep('\''), Word("er")]
  {
    LexOfWord("er");
    assert "'er"[1..] == "er";
    assert Lex("'er") == [Sep('\'')] + Lex("er");
    assert RunLength("o'er") == 1;
    assert "o'er"[..1] == "o" && "o'er"[1..] == "'er";
  }

  /** A word followed by an apostrophe, as "an'" and "th'", splits into that word and
      the apostrophe. */
  lemma WordApostropheAtoms(u: string)
    requires IsWord(u)
    ensures Lex(u + "'") == [Word(u), Sep('\'')]
  {
    LexOfWord(u);
    LexJoin(u, '\'', "");
    assert u + "'" == u + ['\''] + "";
  }

  /** The replacement "o'er" has no whole word a rule replaces: neither "o" nor "er". */
  lemma OerUntouched()
    ensures Untouched(Lex("o'er"), PirateRules)
  {
    ReplacementWordsUntouched();
    OerAtoms();
  }

  /** The replacement "an'" has no whole word a rule replaces: its one word is "an". */
  lemma AnUntouched()
    ensures Untouched(Lex("an'"), PirateRules)
  {
    ReplacementWordsUntouched();
    WordApostropheAtoms("an");
    assert "an" + "'" == "an'";
  }

  /** The replacement "th'" has no whole word a rule replaces: its one word is "th". */
  lemma ThUntouched()
    ensures Untouched(Lex("th'"), PirateRules)
  {
    ReplacementWordsUntouched();
    WordApostropheAtoms("th");
    assert "th" + "'" == "th'";
  }

  /** Every pattern of the ten rules is a word. */
  lemma PirateRulesOk()
    ensures RulesOk(PirateRules)
  {
  }

  /** Each of the seven replacements without an apostrophe is a single word no rule
      replaces. */
  lemma WordRepUntouched(i: nat)
    requires i < |PirateRules| && i != 5 && i != 7 && i != 9
    ensures Untouched(Lex(PirateRules[i].replacement), PirateRules)
  {
    ReplacementWordsUntouched();
    UntouchedWord(PirateRules[i].replacement, PirateRules);
  }

  /** No replacement contains a whole word that any rule replaces. */
  lemma PirateRulesClosed()
    ensures Closed(PirateRules)
  {
    forall i | 0 <= i < |PirateRules|
      ensures Untouched(Lex(PirateRules[i].replacement), PirateRules)
    {
      if i == 5 {
        OerUntouched();
      } else if i == 7 {
        AnUntouched();
      } else if i == 9 {
        ThUntouched();
      } else {
        WordRepUntouched(i);
      }
    }
  }

  /** The chain of replaces never rewrites its own output. */
  lemma PirateRulesWellBehaved()
    ensures RulesOk(PirateRules) && NoRewrite(PirateRules) && Closed(PirateRules)
  {
    PirateRulesOk();
    PirateRulesClosed();
    ClosedHasNoRewrite(PirateRules);
  }

  /** No pattern is longer than four letters. */
  lemma PatternsShort()
    ensures forall j :: 0 <= j < |PirateRules| ==> |PirateRules[j].word| <= 4
  {
  }

  /** A word longer than every pattern is not one of them, in any case. */
  lemma LongWordUntouched(u: string)
    requires IsWord(u) && |u| > 4
    ensures Untouched(Lex(u), PirateRules)
  {
    PatternsShort();
    assert forall j :: 0 <= j < |PirateRules| ==> !SameIgnoringCase(u, PirateRules[j].word);
    LexOfWord(u);
  }

  /** Text without a pattern word passes the chain unchanged. */
  lemma UntouchedUnchanged(s: string)
    requires Untouched(Lex(s), PirateRules)
    ensures ApplyRules(s, PirateRules) == s
  {
    PirateRulesWellBehaved();
    UntouchedTextUnchanged(s, PirateRules);
  }

  /** A word longer than every pattern passes the chain unchanged. */
  lemma LongWordUnchanged(u: string)
    requires IsWord(u) && |u| > 4
    ensures ApplyRules(u, PirateRules) == u
  {
    LongWordUntouched(u);
    UntouchedUnchanged(u);
  }

  /** Words that only contain a pattern word are left alone. */
  lemma ContainingWordsUnchanged()
    ensures ApplyRules("Youth", PirateRules) == "Youth"
    ensures ApplyRules("myself", PirateRules) == "myself"
    ensures ApplyRules("yours", PirateRules) == "yours"
  {
    assert IsWord("Youth") && IsWord("myself") && IsWord("yours");
    LongWordUnchanged("Youth");
    LongWordUnchanged("myself");
    LongWordUnchanged("yours");
  }

  /** After the chain no standalone you/your/my/is/are/over/to/and/for/the is left,
      in any case. */
  lemma NoPatternWordSurvives(text: string)
    ensures forall j :: 0 <= j < |PirateRules| ==>
      !OccursAsWord(ApplyRules(text, PirateRules), PirateRules[j].word)
  {
    PirateRulesWellBehaved();
    NoRuleWordSurvives(text, PirateRules);
  }

  // ---------------------------------------------------------------------------
  // The transformer's output, phrase included, has no you, your or my

  /** The rules for the three pronouns, the first three of the chain. */
  const PronounRules: seq<Rule> := PirateRules[..3]

  /** A "my", or a "you" (with which "your" starts), in any case, begins at `i`. */
  predicate PronounAt(s: string, i: nat)
    requires i < |s|
  {
    (i + 1 < |s| && Canonicalize(s[i]) == 'M' && Canonicalize(s[i + 1]) == 'Y') ||
    (i + 2 < |s| && Canonicalize(s[i]) == 'Y' && Canonicalize(s[i + 1]) == 'O' &&
     Canonicalize(s[i + 2]) == 'U')
  }

  /** `s` contains no "my" and no "you" in any case, not even inside a word. */
  predicate NoPronouns(s: string) {
    forall i :: 0 <= i < |s| ==> !PronounAt(s, i)
  }

  lemma NoPronounsSlices(s: string, k: nat)
    requires NoPronouns(s) && k <= |s|
    ensures NoPronouns(s[..k]) && NoPronouns(s[k..])
  {
    forall i | 0 <= i < k ensures !PronounAt(s[..k], i) {
      assert !PronounAt(s, i);
    }
    forall i | 0 <= i < |s| - k ensures !PronounAt(s[k..], i) {
      assert !PronounAt(s, k + i);
    }
  }

  /** A word without "my" or "you" in it is none of the three pronouns. */
  lemma WordNotPronoun(u: string)
    requires NoPronouns(u)
    ensures forall j :: 0 <= j < |PronounRules| ==> !SameIgnoringCase(u, PronounRules[j].word)
  {
    forall j | 0 <= j < |PronounRules| ensures !SameIgnoringCase(u, PronounRules[j].word) {
      var w := PronounRules[j].word;
      assert w == "you" || w == "your" || w == "my";
      if SameIgnoringCase(u, w) {
        SameIgnoringCaseAt(u, w, 0);
        SameIgnoringCaseAt(u, w, 1);
        if |w| > 2 { SameIgnoringCaseAt(u, w, 2); }
        assert PronounAt(u, 0);
        assert false;
      }
    }
  }

  /** Text without "my" or "you" in it has no word a pronoun rule replaces. */
  lemma {:induction false} NoPronounsUntouched(s: string)
    requires NoPronouns(s)
    ensures Untouched(Lex(s), PronounRules)
    decreases |s|
  {
    if s != [] {
      if !IsWordChar(s[0]) {
        NoPronounsSlices(s, 1);
        NoPronounsUntouched(s[1..]);
        assert Lex(s) == [Sep(s[0])] + Lex(s[1..]);
        UntouchedAppend([Sep(s[0])], Lex(s[1..]), PronounRules);
      } else {
        var n := RunLength(s);
        NoPronounsSlices(s, n);
        NoPronounsUntouched(s[n..]);
        WordNotPronoun(s[..n]);
        assert Lex(s) == [Word(s[..n])] + Lex(s[n..]);
        UntouchedAppend([Word(s[..n])], Lex(s[n..]), PronounRules);
      }
    }
  }

  // The phrases are checked a few at a time: one lemma per bucket would hand the
  // solver too many literal strings at once.

  /** The three phrases of bucket 0 (intensity up to 3) contain no "you" or "my". */
  lemma Bucket0Phrases()
    ensures NoPronouns("Ahoy there") && NoPronouns("Well met, matey")
    ensures NoPronouns("Greetings, sailor")
  {
  }

  /** The four phrases of bucket 1 (intensity 4 to 6) contain no "you" or "my". */
  lemma Bucket1Phrases()
    ensures NoPronouns("Arrr, matey") && NoPronouns("Avast ye")
    ensures NoPronouns("Shiver me timbers") && NoPronouns("Yo ho ho")
  {
  }

  /** The first two phrases of bucket 2 (intensity 7 and 8) contain no "you" or "my". */
  lemma Bucket2PhrasesA()
    ensures NoPronouns("Batten down the hatches") && NoPronouns("Blast ye, scurvy dog")
  {
  }

  /** The last two phrases of bucket 2 contain no "you" or "my". */
  lemma Bucket2PhrasesB()
    ensures NoPronouns("By Blackbeard's beard") && NoPronouns("Scallywag")
  {
  }

  /** The first two phrases of bucket 3 (intensity 9 and up) contain no "you" or "my". */
  lemma Bucket3PhrasesA()
    ensures NoPronouns("Blast yer black heart") && NoPronouns("Ye scurvy bilge rat")
  {
  }

  /** The third and fourth phrases of bucket 3 contain no "you" or "my". */
  lemma Bucket3PhrasesB()
    ensures NoPronouns("By Davy Jones' locker") && NoPronouns("Curse ye to the depths")
  {
  }

  /** The last phrase of bucket 3 contains no "you" or "my". */
  lemma Bucket3PhrasesC()
    ensures NoPronouns("Arrr, ye mangy sea dog")
  {
  }

  /** No stock phrase contains "my" or "you", in any case. */
  lemma PhrasesHaveNoPronouns(intensity: int)
    ensures forall k :: 0 <= k < |GetPirateExpressions(intensity)| ==>
      NoPronouns(GetPirateExpressions(intensity)[k])
  {
    match Bucket(intensity)
    case 0 => Bucket0Phrases();
    case 1 => Bucket1Phrases();
    case 2 => Bucket2PhrasesA(); Bucket2PhrasesB();
    case 3 => Bucket3PhrasesA(); Bucket3PhrasesB(); Bucket3PhrasesC();
  }

  /** Decorating a text without the three pronouns with a phrase of any intensity, in
      either form, brings none of them back. */
  lemma DecoratedHasNoPronoun(body: string, intensity: int)
    requires Untouched(Lex(body), PronounRules)
    ensures forall k, j :: 0 <= k < |GetPirateExpressions(intensity)| && 0 <= j < |PronounRules| ==>
      var phrase := GetPirateExpressions(intensity)[k];
      !OccursAsWord(phrase + " " + body, PronounRules[j].word) &&
      !OccursAsWord(body + ", " + ToLower(phrase), PronounRules[j].word)
  {
    var phrases := GetPirateExpressions(intensity);
    PhrasesHaveNoPronouns(intensity);
    forall k | 0 <= k < |phrases|
      ensures forall j :: 0 <= j < |PronounRules| ==>
        !OccursAsWord(phrases[k] + " " + body, PronounRules[j].word) &&
        !OccursAsWord(body + ", " + ToLower(phrases[k]), PronounRules[j].word)
    {
      NoPronounsUntouched(phrases[k]);
      DecoratedUntouched(phrases[k], body, PronounRules);
      UntouchedHasNoRuleWord(phrases[k] + " " + body, PronounRules);
      UntouchedHasNoRuleWord(body + ", " + ToLower(phrases[k]), PronounRules);
    }
  }

  /** The transformer's output, whichever phrase and form is chosen, has no standalone
      "you", "your" or "my" in any case. (The phrases do bring back other pattern
      words: "Curse ye to the depths" has "to" and "the".) */
  lemma OutputHasNoPronoun(text: string, intensity: int)
    ensures forall k, j :: 0 <= k < |GetPirateExpressions(intensity)| && 0 <= j < |PronounRules| ==>
      var phrase := GetPirateExpressions(intensity)[k];
      var body := Simultaneous(text, PirateRules);
      !OccursAsWord(phrase + " " + body, PronounRules[j].word) &&
      !OccursAsWord(body + ", " + ToLower(phrase), PronounRules[j].word)
  {
    PirateRulesWellBehaved();
    SimultaneousUntouched(text, PirateRules);
    UntouchedByPrefix(Lex(Simultaneous(text, PirateRules)), PirateRules, 3);
    DecoratedHasNoPronoun(Simultaneous(text, PirateRules), intensity);
  }

  /** `Math.floor(r * n)` for `r = Math.random()`, which lies in [0, 1): always an
      index into a list of `n > 0` entries. */
  function PickIndex(r: real, n: nat): (k: nat)
    requires 0.0 <= r < 1.0 && n > 0
    ensures k < n
    ensures k as real <= r * n as real < k as real + 1.0
  {
    var p := r * n as real;
    ScaleBelow(r, n as real);
    FloorBelow(p, n);
    p.Floor
  }

  lemma FloorBelow(p: real, n: nat)
    requires 0.0 <= p < n as real
    ensures 0 <= p.Floor < n
    ensures p.Floor as real <= p < p.Floor as real + 1.0
  {
  }

  lemma ScaleBelow(r: real, x: real)
    requires 0.0 <= r < 1.0 && x > 0.0
    ensures 0.0 <= r * x < x
  {
    assert x - r * x == (1.0 - r) * x;
  }

  /** transformToPirateSpeak: the ten whole-word replaces in order, then one stock
      phrase of the intensity's bucket as a prefix or, lower-cased, as a suffix.
      `pick` and `coin` are the two `Math.random()` draws. */
  method TransformToPirateSpeak(text: string, intensity: int, pick: real, coin: real)
    returns (pirateText: string)
    requires 0.0 <= pick < 1.0
    ensures var expressions := GetPirateExpressions(intensity);
            var expression := expressions[PickIndex(pick, |expressions|)];
            var body := Simultaneous(text, PirateRules);
            pirateText == if coin > 0.5 then expression + " " + body
                          else body + ", " + ToLower(expression)
    ensures forall j :: 0 <= j < |PronounRules| ==> !OccursAsWord(pirateText, PronounRules[j].word)
  {
    pirateText := text;
    pirateText := ReplaceWord(pirateText, "you", "ye");
    pirateText := ReplaceWord(pirateText, "your", "yer");
    pirateText := ReplaceWord(pirateText, "my", "me");
    pirateText := ReplaceWord(pirateText, "is", "be");
    pirateText := ReplaceWord(pirateText, "are", "be");
    pirateText := ReplaceWord(pirateText, "over", "o'er");
    pirateText := ReplaceWord(pirateText, "to", "ter");
    pirateText := ReplaceWord(pirateText, "and", "an'");
    pirateText := ReplaceWord(pirateText, "for", "fer");
    pirateText := ReplaceWord(pirateText, "the", "th'");
    PirateRulesWellBehaved();
    assert pirateText == ApplyRules(text, PirateRules);
    SequentialIsSimultaneous(text, PirateRules);

    var expressions := GetPirateExpressions(intensity);
    var randomExpression := expressions[PickIndex(pick, |expressions|)];
    if coin > 0.5 {
      pirateText := randomExpression + " " + pirateText;
    } else {
      pirateText := pirateText + ", " + ToLower(randomExpression);
    }
    OutputHasNoPronoun(text, intensity);
  }

  /** A text of one word is rewritten by that word's substitution alone. */
  lemma SubstituteOneWord(u: string)
    requires IsWord(u)
    ensures Simultaneous(u, PirateRules) == Concat(Substitute(u, PirateRules))
  {
    LexOfWord(u);
    assert [Word(u)][1..] == [];
    assert SubstituteAll([Word(u)], PirateRules) == Substitute(u, PirateRules) + [];
    assert Substitute(u, PirateRules) + [] == Substitute(u, PirateRules);
  }

  /** A lone matching word is replaced, whatever its case. */
  lemma YouBecomesYe()
    ensures ApplyRules("You", PirateRules) == "ye"
  {
    assert IsWord("You") && IsWord("ye");
    SubstituteOneWord("You");
    assert SameIgnoringCase("You", PirateRules[0].word);
    LexOfWord("ye");
    assert Substitute("You", PirateRules) == [Word("ye")];
    assert Concat([Word("ye")]) == "ye";
    PirateRulesWellBehaved();
    SequentialIsSimultaneous("You", PirateRules);
  }

  // ---------------------------------------------------------------------------
  // POST /api/generate-voice

  datatype Status = Starting | Processing | Succeeded | Failed | Canceled

  /** A property as JavaScript reads it from an object: missing (`undefined`), `null`,
      or a value. `JSON.stringify` leaves a missing property out of the text and writes
      a null one as `null`. */
  datatype Field<+T> = Absent | JsonNull | Given(value: T)

  /** A prediction as the status poll reports it; `output` is the audio URL. */
  datatype Prediction = Prediction(status: Status, output: Option<string>, error: Field<string>)

  /** The parsed JSON body. A missing or null `text` is `None`: both are falsy, and the
      text is echoed only when it is present. `intensity` is echoed as received, so its
      three cases are kept apart. */
  datatype RequestBody = RequestBody(text: Option<string>, intensity: Field<int>)

  /** The JSON bodies the route answers with. An `Absent` field is left out of the JSON;
      a `JsonNull` one is written as `null`. */
  datatype Json =
    | ErrorJson(error: string, details: Field<string>)
    | VoiceJson(url: string, pirateText: string, originalText: string, intensity: Field<int>)

  datatype Response = Response(status: int, body: Json)

  const MaxAttempts: nat := 30

  /** `!text || !text.trim()`: the text is absent, empty or only white space. */
  function MissingText(text: Option<string>): (missing: bool)
    ensures missing <==> text.None? || AllWhiteSpace(text.value)
  {
    match text
    case None => true
    case Some(t) => BlankIffAllWhiteSpace(t); Blank(t)
  }

  /** `intensity || 5`: a missing or null intensity, or 0, becomes 5; any other value
      is kept. */
  function EffectiveIntensity(intensity: Field<int>): (e: int)
    ensures e != 0
    ensures intensity.Given? && intensity.value != 0 ==> e == intensity.value
    ensures !intensity.Given? || intensity.value == 0 ==> e == 5
  {
    if intensity.Given? && intensity.value != 0 then intensity.value else 5
  }

  /** A poll that found the prediction still starting or processing. */
  predicate Pending(c: Call<Prediction>) {
    c.Returned? && (c.value.status == Starting || c.value.status == Processing)
  }

  /** The first poll in `from..limit` that ends the loop (a final status or a thrown
      error), if any. */
  function FirstStop(polls: seq<Call<Prediction>>, from: nat, limit: nat): (k: Option<nat>)
    requires from <= limit <= |polls|
    decreases limit - from
    ensures k.Some? ==> from <= k.value < limit && !Pending(polls[k.value])
    ensures k.Some? ==> forall i :: from <= i < k.value ==> Pending(polls[i])
    ensures k.None? ==> forall i :: from <= i < limit ==> Pending(polls[i])
  {
    if from == limit then None
    else if !Pending(polls[from]) then Some(from)
    else FirstStop(polls, from + 1, limit)
  }

  /** The stopping poll is determined by its two defining properties. */
  lemma FirstStopUnique(polls: seq<Call<Prediction>>, from: nat, limit: nat, k: nat)
    requires from <= k < limit <= |polls|
    requires !Pending(polls[k]) && forall i :: from <= i < k ==> Pending(polls[i])
    ensures FirstStop(polls, from, limit) == Some(k)
  {
  }

  /** What the `catch` block answers for a thrown `e`. */
  function Crash(e: Exception): (r: Response)
    ensures r.status == 500
    ensures r.body == ErrorJson("Failed to generate pirate voice", Given(MessageOf(e)))
  {
    Response(500, ErrorJson("Failed to generate pirate voice", Given(MessageOf(e))))
  }

  const TimedOut := Response(408, ErrorJson("Voice generation timed out. Please try again.", Absent))
  const TextRequired := Response(400, ErrorJson("Text is required", Absent))

  /** The answer for a prediction that left the starting and processing states:
      success exactly when it succeeded with a non-empty output, which is then the URL. */
  function Settle(p: Prediction, pirateText: string, originalText: string, intensity: Field<int>)
    : (r: Response)
    ensures r.status == 200 <==> p.status == Succeeded && Present(p.output)
    ensures r.status != 200 ==> r.status == 500 && r.body.ErrorJson?
    ensures r.status == 200 ==> r.body == VoiceJson(p.output.value, pirateText, originalText, intensity)
    ensures p.status == Failed ==> r.body == ErrorJson("Voice generation failed", p.error)
    ensures p.status == Canceled ==> r.body == ErrorJson("Voice generation was canceled", Absent)
    ensures p.status == Succeeded && !Present(p.output) ==>
              r.body == ErrorJson("Voice generation did not complete successfully", Absent)
    ensures p.status == Starting || p.status == Processing ==>
              r.body == ErrorJson("Voice generation did not complete successfully", Absent)
  {
    if p.status == Failed then
      Response(500, ErrorJson("Voice generation failed", p.error))
    else if p.status == Canceled then
      Response(500, ErrorJson("Voice generation was canceled", Absent))
    else if p.status != Succeeded || !Present(p.output) then
      Response(500, ErrorJson("Voice generation did not complete successfully", Absent))
    else
      Response(200, VoiceJson(p.output.value, pirateText, originalText, intensity))
  }

  /** A request with `"intensity": null` gets the parameters for 5, and a successful
      answer echoes the intensity as `null`, not leaving it out. */
  lemma NullIntensityEchoed(p: Prediction, pirateText: string, originalText: string)
    requires p.status == Succeeded && Present(p.output)
    ensures GetVoiceParameters(EffectiveIntensity(JsonNull)) == GetVoiceParameters(5)
    ensures Settle(p, pirateText, originalText, JsonNull).body.intensity == JsonNull
    ensures Settle(p, pirateText, originalText, Absent).body.intensity == Absent
  {
  }

  /** The polling loop: at most `MaxAttempts` polls, stopping at the first one that
      finds a final status or throws, which it returns; `None` when all were pending. */
  method Poll(polls: seq<Call<Prediction>>) returns (last: Option<Call<Prediction>>, attempts: nat)
    requires |polls| >= MaxAttempts
    ensures attempts <= MaxAttempts
    ensures match FirstStop(polls, 0, MaxAttempts)
            case None => last.None? && attempts == MaxAttempts
            case Some(k) => last == Some(polls[k]) && attempts == k + 1
  {
    last := None;
    attempts := 0;
    while attempts < MaxAttempts
      invariant attempts <= MaxAttempts
      invariant forall i :: 0 <= i < attempts ==> Pending(polls[i])
    {
      var latest := polls[attempts];
      attempts := attempts + 1;
      if !Pending(latest) {
        FirstStopUnique(polls, 0, MaxAttempts, attempts - 1);
        return Some(latest), attempts;
      }
    }
  }

  /** The POST handler. `body` is the outcome of parsing the request, `created` that of
      creating the prediction, and `polls[i]` that of the i-th status poll. Returns the
      response, the synthesis input sent (if any) and the number of polls made. */
  method Post(body: Call<RequestBody>, created: Call<Prediction>, polls: seq<Call<Prediction>>)
    returns (response: Response, sent: Option<SynthesisInput>, attempts: nat)
    requires |polls| >= MaxAttempts
    ensures attempts <= MaxAttempts
    ensures response.status in {200, 400, 408, 500}
    ensures body.Threw? ==> response == Crash(body.exc) && sent.None? && attempts == 0
    ensures body.Returned? && MissingText(body.value.text) ==>
              response == TextRequired && sent.None? && attempts == 0
    ensures body.Returned? && !MissingText(body.value.text) ==>
              sent == Some(InputFor(Trim(body.value.text.value),
                                    GetVoiceParameters(EffectiveIntensity(body.value.intensity))))
    ensures body.Returned? && !MissingText(body.value.text) && created.Threw? ==>
              response == Crash(created.exc) && attempts == 0
    ensures body.Returned? && !MissingText(body.value.text) && created.Returned? ==>
              match FirstStop(polls, 0, MaxAttempts)
              case None => response == TimedOut && attempts == MaxAttempts
              case Some(k) =>
                attempts == k + 1 &&
                (polls[k].Threw? ==> response == Crash(polls[k].exc)) &&
                (polls[k].Returned? ==>
                   response == Settle(polls[k].value, Trim(body.value.text.value),
                                      body.value.text.value, body.value.intensity))
    ensures response.status == 200 ==>
              sent.Some? && response.body.VoiceJson? && response.body.url != "" &&
              response.body.pirateText == sent.value.text
  {
    sent := None;
    attempts := 0;
    if body.Threw? {
      return Crash(body.exc), sent, attempts;
    }
    var text, intensity := body.value.text, body.value.intensity;
    if MissingText(text) {
      return TextRequired, sent, attempts;
    }
    var pirateText := Trim(text.value);
    var voiceParams := GetVoiceParameters(EffectiveIntensity(intensity));
    var input := InputFor(pirateText, voiceParams);
    sent := Some(input);
    if created.Threw? {
      return Crash(created.exc), sent, attempts;
    }

    var last;
    last, attempts := Poll(polls);
    if last.None? {
      return TimedOut, sent, attempts;
    }
    if last.value.Threw? {
      return Crash(last.value.exc), sent, attempts;
    }
    response := Settle(last.value.value, pirateText, text.value, intensity);
  }
}
