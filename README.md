# Pirate voice generator — a Dafny model

The application turns a piece of text into a "pirate voice" recording. A browser page
posts the text and an intensity from 1 to 10 to an API route. The route builds a
speech-synthesis request for an external model, polls the prediction until it
finishes, and answers with the audio URL or an error. The page shows the result and
keeps a history of the last ten generations. A pirate text transformer (whole-word
replaces plus a stock phrase) exists in two copies: the route's (ten rules, currently
not called) and a client-side service's (seven rules).

The model has one module per source file, plus three shared ones:

- `Js` (js.dfy): the parts of the JavaScript runtime the code relies on. These are
  optional values, thrown exceptions, truthiness, `String.prototype.trim` with the
  ECMAScript white-space set, and ASCII `toLowerCase`.
- `WordRegExp` (word_regexp.dfy): `s.replace(/\bWORD\b/gi, rep)` for a replacement
  without `$` (none of the replacements here has one), written as a
  left-to-right scan with the `\b` and `IsWordChar` rules of section 22.2 of
  ECMA-262. It also gives a word-level view of a string: maximal word runs and single
  separators. The main result is that a chain of such replaces equals one
  simultaneous substitution, provided no replacement contains a whole word that a
  later rule replaces. It also proves that afterwards no rule word is left.
- `Synthesis` (synthesis.dfy): the synthesis input both callers build.
- `Route` (route.dfy): `POST /api/generate-voice` and the route's transformer and
  tables.
- `VoiceGenerator` (voice_generator.dfy): the client-side service.
- `Page` (page.dfy): the home page's state as a class `Home`.
- `IntensitySlider` (intensity_slider.dfy): the slider's display rules.

External calls are parameters:

- the parsed request body, the prediction `create` call, each status poll, the
  model `run` call and the page's `fetch` are each a `Call` value: returned, or threw;
- the status polls are a sequence with one answer per poll;
- the two `Math.random()` draws are the reals `pick` (in [0, 1)) and `coin`.

`Post` delegates the status polling to `Poll`, a loop proved against `FirstStop`,
the first poll among the first 30 that is not pending. The transformers are methods
that replace step by step. They are proved equal to the simultaneous substitution
with the phrase attached. Their output, phrase included, has no standalone "you",
"your" or "my" in any case. The page is a class whose methods update its fields.

Behaviour of the code worth noting:

- The route does not reject an intensity outside 1..10. A missing or null intensity,
  or 0, selects the parameters for 5; the response echoes the intensity as received:
  a missing one is left out of the JSON, a null one is written as `null`, and 0 stays 0.
  A null job error is likewise sent as `"details": null`.
- The route does not copy the audio to other storage. The URL returned is the
  prediction's output.
- The route does not apply the transformer: `pirateText` is the trimmed input.
- History entries hold text, audio URL, intensity and pirate text. The history is
  capped at exactly 10.
- The phrase is attached as written, not capitalised. It goes in front only when the
  coin is strictly above 0.5.

## Model

| member | source | states |
|---|---|---|
| Js.MessageOf | app/api/generate-voice/route.ts:125 | an `Error` gives its message; anything else gives "Unknown error" |
| Js.Trim | app/api/generate-voice/route.ts:28-36 | the result starts and ends with no white space; it is empty exactly when the input is all white space |
| Js.TrimIsInfix | app/api/generate-voice/route.ts:36 | the trimmed text is a contiguous part of the input with only white space around it |
| Js.LeadingSpace | app/api/generate-voice/route.ts:36 | the number of white-space characters the text starts with: all before it are white space, the one at it is not |
| Js.TrailingSpace | app/api/generate-voice/route.ts:36 | where the trailing white space begins: all from it on are white space, the one before it is not |
| Js.ToLower | components/VoiceGenerator.ts:86 | same length, every character lower-cased |
| WordRegExp.ReplaceWord | app/api/generate-voice/route.ts:136-145 | for a pattern made of word characters, one `/\bw\b/gi` replace equals the word-level substitution of that single rule |
| WordRegExp.ScanIsSubstitution | app/api/generate-voice/route.ts:136 | one `/\bw\b/gi` replace over well-formed atoms rewrites exactly the word atoms equal to `w` ignoring case, and leaves separators and other words in place |
| WordRegExp.LexSound | components/VoiceGenerator.ts:70-76 | the word view of a string is well formed and concatenates back to the string |
| WordRegExp.LexConcat | components/VoiceGenerator.ts:70-76 | splitting a concatenation of well-formed atoms gives those atoms back |
| WordRegExp.SequentialIsSimultaneous | app/api/generate-voice/route.ts:136-145 | applying the rules one replace after another equals substituting every word once, when no replacement holds a later rule's word |
| WordRegExp.NoRuleWordSurvives | app/api/generate-voice/route.ts:136-145 | for closed rules, no rule's word is left as a whole word in any case after the chain |
| WordRegExp.UntouchedTextUnchanged | app/api/generate-voice/route.ts:136-145 | text none of whose words a rule replaces comes out unchanged |
| WordRegExp.OtherWordSurvives | components/VoiceGenerator.ts:70-76 | a whole word that no rule replaces is still a whole word of the output |
| WordRegExp.ClosedPrefix | components/VoiceGenerator.ts:70-76 | the first n of a closed rule list are closed |
| WordRegExp.SimultaneousUntouched | app/api/generate-voice/route.ts:136-145 | for closed rules, no word of the substituted text is one a rule replaces |
| WordRegExp.LexJoin | app/api/generate-voice/route.ts:152-156 | joining two texts at a non-word character splits into the words of each with that separator between |
| WordRegExp.UntouchedToLower | components/VoiceGenerator.ts:86 | lower-casing a text none of whose words a rule replaces keeps it so |
| WordRegExp.DecoratedUntouched | app/api/generate-voice/route.ts:152-156 | a phrase and a text, neither with a word a rule replaces, joined by " " or by ", " with the phrase lower-cased, have no such word either |
| Synthesis.InputFor | app/api/generate-voice/route.ts:42-54 | the request carries the text and the three voice parameters, the emotion by its name, with volume 1, 128000 bit/s, mono, voice R8_QBE6P33A, 32000 Hz, English, normalisation on |
| Route.GetVoiceParameters | app/api/generate-voice/route.ts:161-187 | emotion neutral, happy, angry, angry and pitch = speed = 0.9, 1.0, 1.1, 1.2 for the four buckets |
| Route.Bucket | app/api/generate-voice/route.ts:161-187 | the four intensity buckets with inclusive upper ends 3, 6 and 8 |
| Route.GetPirateExpressions | app/api/generate-voice/route.ts:189-219 | 3, 4, 4 and 5 phrases per bucket, so never empty |
| Route.VoiceParametersFollowBuckets | app/api/generate-voice/route.ts:161-187 | two intensities get the same voice parameters exactly when they are in the same bucket |
| Route.ExpressionsFollowVoiceBuckets | app/api/generate-voice/route.ts:189-219 | two intensities get the same phrase list exactly when they get the same voice parameters |
| Route.VoiceParametersMonotone | app/api/generate-voice/route.ts:161-187 | pitch, speed and emotion never decrease as the intensity rises |
| Route.PirateRulesWellBehaved | app/api/generate-voice/route.ts:136-145 | the ten rules are closed: no later replace rewrites an earlier one's output |
| Route.LongWordUnchanged | app/api/generate-voice/route.ts:136-145 | a single word longer than four letters is never changed |
| Route.ContainingWordsUnchanged | app/api/generate-voice/route.ts:136-138 | "Youth", "myself" and "yours" come through unchanged |
| Route.YouBecomesYe | app/api/generate-voice/route.ts:136 | "You" becomes "ye" |
| Route.NoPatternWordSurvives | app/api/generate-voice/route.ts:136-145 | no standalone you/your/my/is/are/over/to/and/for/the is left, in any case |
| Route.PickIndex | app/api/generate-voice/route.ts:149 | `floor(r * n)` for r in [0, 1) is an index below n |
| Route.NoPronounsUntouched | app/api/generate-voice/route.ts:136-138 | a text with no "you" or "my" in any case anywhere has no whole word any of the first three rules replaces |
| Route.PhrasesHaveNoPronouns | app/api/generate-voice/route.ts:189-219 | no stock phrase of any intensity contains "you" or "my" in any case |
| Route.DecoratedHasNoPronoun | app/api/generate-voice/route.ts:147-156 | a text without standalone you/your/my keeps none after any phrase of the intensity is attached, in front or behind |
| Route.OutputHasNoPronoun | app/api/generate-voice/route.ts:132-159 | for every phrase of the intensity and both forms, the transformer's output has no standalone "you", "your" or "my" in any case |
| Route.TransformToPirateSpeak | app/api/generate-voice/route.ts:132-159 | the ten replaces in order produce the simultaneous substitution; the result is the chosen phrase, a space and that text when the coin is above 0.5, and otherwise that text, ", " and the phrase lower-cased; it has no standalone you/your/my |
| Route.MissingText | app/api/generate-voice/route.ts:28 | the text counts as missing exactly when it is absent or all white space (the empty text included) |
| Route.EffectiveIntensity | app/api/generate-voice/route.ts:40 | a missing or null intensity, or 0, becomes 5; any other value is kept |
| Route.NullIntensityEchoed | app/api/generate-voice/route.ts:112-117 | a null intensity gets the parameters for 5 and a 200 answer echoes it as `null`; a missing one stays missing |
| Route.FirstStop | app/api/generate-voice/route.ts:68-79 | the first poll in range that did not find `starting` or `processing`; all polls before it were pending, and `None` means all in range were pending |
| Route.FirstStopUnique | app/api/generate-voice/route.ts:68-79 | a poll that stops, with only pending polls before it, is the one `FirstStop` finds |
| Route.Crash | app/api/generate-voice/route.ts:119-129 | 500 with "Failed to generate pirate voice" and the thrown message as details |
| Route.Settle | app/api/generate-voice/route.ts:88-117 | 200 exactly when the prediction succeeded with a non-empty output, which becomes the URL; failed gives 500 with the job error as details, a missing error left out and a null one sent as `null`; canceled gives 500; a succeeded prediction without output, or one still starting or processing, gives 500 "did not complete successfully" |
| Route.Poll | app/api/generate-voice/route.ts:65-79 | at most 30 polls; it stops at `FirstStop` and returns that poll, or nothing after 30 pending polls |
| Route.Post | app/api/generate-voice/route.ts:23-130 | blank or missing text gives 400 with nothing sent; otherwise the request holds the trimmed text and the parameters of the defaulted intensity; a throw gives 500; no final status gives 408 after 30 polls; the result is `Settle` of the stopping poll, with the intensity as received (missing, null or a value); a 200 carries a non-empty URL and the text that was sent |
| VoiceGenerator.GetVoiceParameters | components/VoiceGenerator.ts:95-121 | emotion neutral, happy, angry, angry and pitch = speed = 0.9, 1.0, 1.1, 1.2 for the four buckets |
| VoiceGenerator.GetPirateExpressions | components/VoiceGenerator.ts:126-156 | 3, 4, 4 and 5 phrases per bucket, so never empty |
| VoiceGenerator.VoiceParametersMatchRoute | components/VoiceGenerator.ts:95-121 | the service's voice-parameter table equals the route's for every intensity |
| VoiceGenerator.ExpressionsMatchRoute | components/VoiceGenerator.ts:126-156 | the phrase table equals the route's; phrase buckets are the voice-parameter buckets |
| VoiceGenerator.SevenRulesArePrefix | components/VoiceGenerator.ts:70-76 | the seven rules are the route's first seven |
| VoiceGenerator.SevenRulesWellBehaved | components/VoiceGenerator.ts:70-76 | the seven rules are closed, so applying them in order is simultaneous substitution |
| VoiceGenerator.NoPatternWordSurvives | components/VoiceGenerator.ts:70-76 | no standalone you/your/my/is/are/over/to is left, in any case |
| VoiceGenerator.KeptWordMatchesNoRule | components/VoiceGenerator.ts:70-76 | "and", "for" and "the" equal none of the seven patterns, in any case |
| VoiceGenerator.AndForTheKept | components/VoiceGenerator.ts:70-76 | a standalone "and", "for" or "the" in the input is still there in the output |
| VoiceGenerator.TransformedForms | components/VoiceGenerator.ts:79-87 | the output is a phrase of the intensity's bucket plus the substituted text, in the prefix form or the suffix form; that text ends the prefix form and starts the suffix form |
| VoiceGenerator.OutputHasNoPronoun | components/VoiceGenerator.ts:66-90 | for every phrase of the intensity and both forms, the service's output has no standalone "you", "your" or "my" in any case |
| VoiceGenerator.TransformToPirateSpeak | components/VoiceGenerator.ts:66-90 | the seven replaces in order plus the phrase produce `Transformed`, which has no standalone you/your/my |
| VoiceGenerator.AudioUrl | components/VoiceGenerator.ts:47 | a string output is the URL; an object with a truthy `url` gives that `url`; anything else, an object with a falsy `url` included, is the output itself; the URL is truthy exactly when the output is |
| VoiceGenerator.Generate | components/VoiceGenerator.ts:20-61 | the request holds the transformed text and the table's parameters; it succeeds exactly when the model returned a truthy output, and then gives that URL; a falsy output raises "No audio URL returned from the API"; every failure is rethrown with the prefix "Failed to generate pirate voice: " |
| Page.Reverse | app/page.tsx:67 | the reversal of a sequence: same length, the i-th element from the front is the i-th from the back |
| Page.PushHistory | app/page.tsx:67 | at most 10 entries and at most one more than before; the new entry is first; the old ones follow in order, and only those from index 9 on are dropped |
| Page.HistoryIsNewestFirst | app/page.tsx:67 | after any run of successful generations the history is the newest ten entries, newest first |
| Page.FailureMessage | app/page.tsx:51-70 | a non-OK answer gives the route's error, or "Failed to generate voice" when there is none; anything thrown gives its message |
| Page.Home.constructor | app/page.tsx:10-15 | empty text, intensity 5, not generating, no audio, empty pirate text and history |
| Page.Home.Recent | app/page.tsx:278 | exactly the first min(5, size) history entries |
| Page.Home.GenerateEnabled | app/page.tsx:166 | the button is enabled exactly when the text has a character other than white space and no generation is in flight |
| Page.Home.SetText | app/page.tsx:76-78 | sets the text and nothing else |
| Page.Home.SetIntensity | app/page.tsx:160 | sets the intensity and nothing else |
| Page.Home.ClearText | app/page.tsx:185 | empties the text (generation is then disabled) and nothing else |
| Page.Home.SelectHistory | app/page.tsx:282-285 | restores the entry's text and intensity and nothing else |
| Page.Home.BeginGenerate | app/page.tsx:38-49 | blank text changes nothing and sends nothing; otherwise sets `isGenerating` and sends the current text and intensity |
| Page.Home.SettleGenerate | app/page.tsx:50-73 | on success shows the URL and pirate text and pushes the entry onto the history; on any failure alerts and leaves history, URL and pirate text unchanged; `isGenerating` is cleared on every path |
| IntensitySlider.Label | components/IntensitySlider.tsx:14-20 | the label is the text of the value's level: Gentle Sailor, Seasoned Crew, First Mate, Captain, Blackbeard! |
| IntensitySlider.LabelLevel | components/IntensitySlider.tsx:14-20 | five label levels with inclusive upper ends 2, 4, 6 and 8 |
| IntensitySlider.LabelFollowsLevels | components/IntensitySlider.tsx:14-20 | two values share a label exactly when they are in the same level |
| IntensitySlider.LabelLevelsArePairs | components/IntensitySlider.tsx:14-20 | over 1..10 each label covers exactly two values |
| IntensitySlider.Color | components/IntensitySlider.tsx:22-26 | blue for the first voice bucket, yellow for the second, red for the last two |
| IntensitySlider.ColorFollowsVoiceBuckets | components/IntensitySlider.tsx:22-26 | two values share a colour exactly when they are in the same voice bucket, or both in the top two |
| IntensitySlider.Descriptions | components/IntensitySlider.tsx:102-105 | exactly one of the four descriptions is rendered |
| IntensitySlider.ExactlyOneDescription | components/IntensitySlider.tsx:102-105 | for every value exactly one description is shown, the one for its voice bucket |
| IntensitySlider.HighIntensityEffects | components/IntensitySlider.tsx:110 | the effect shows exactly in the top voice bucket and at 8 |
| IntensitySlider.EffectsVersusDescriptions | components/IntensitySlider.tsx:102-110 | the effect accompanies every "Maximum pirate aggression!", and the only other value that shows it is 8 |
| IntensitySlider.Markers | components/IntensitySlider.tsx:72 | ten markers numbered 1 to 10 in order |
| IntensitySlider.HighlightedMarkers | components/IntensitySlider.tsx:72-79 | of the ten markers in order, exactly the one at position v - 1 is highlighted, so none for a value outside 1..10 |
| IntensitySlider.ExactlyOneHighlighted | components/IntensitySlider.tsx:72-79 | a value in 1..10 highlights exactly its own marker; any other value highlights none |
| IntensitySlider.WidthPercent | components/IntensitySlider.tsx:36 | the width is ten times the value, so 10 to 100 percent over 1..10 |
| IntensitySlider.WidthMonotone | components/IntensitySlider.tsx:46 | a larger value never gives a narrower track or a thumb further left |

## Left out

- Replicate `predictions.create`, `predictions.get`, `replicate.run` and the page's `fetch` are external calls. Their outcomes are parameters. The model name and the prediction id are not modelled.
- The 2-second wait between polls (app/api/generate-voice/route.ts:78) and all console logging: timing and logging only. The model counts polls.
- `Math.random()`: the two draws are parameters.
- Route.Post: `request.json()` is modelled as either returning fields or throwing. A `text` that is not a string (its `trim` would throw a TypeError) is not modelled. An intensity that is not an integer, or is `NaN`, is not modelled either. Intensities are integers.
- Route.Post: a status string outside the five known ones is not modelled.
- Route.OutputHasNoPronoun and VoiceGenerator.OutputHasNoPronoun cover only "you", "your" and "my". The phrases bring back other pattern words ("Curse ye to the depths" has "to" and "the"), so the whole-output property holds for these three alone.
- Route.TransformToPirateSpeak is modelled although `POST` never calls it, because its call is commented out.
- WordRegExp: JavaScript strings are UTF-16 code units, and a Dafny `char` is a Unicode scalar value. Surrogate pairs are not modelled.
- WordRegExp: case folding is ASCII-only. This is exact here because every pattern is ASCII. In the non-Unicode mode of ECMA-262, Canonicalize never maps a character at or above 128 to one below it.
- Js.ToLower: ASCII only. It is applied only to the fixed ASCII phrases.
- VoiceGenerator: the service class's only field, the API client, is not modelled. `generate` is a method of the module.
- VoiceGenerator.Generate: the raw output is a dynamic value. Only the parts the code inspects are modelled: string, object with `url`, and truthiness.
- Page: history load and save in localStorage (app/page.tsx:26-36) is browser storage. History loaded from there could hold more than ten entries; the model starts from an empty history.
- Page: download, share, clipboard and the alert dialog (app/page.tsx:80-105). The alert text is returned as a value.
- Page: React batches state updates, and `setHistory` with a function is modelled as an immediate update. Re-entering `handleGenerate` while a request runs is not modelled, since the button is disabled.
- Page.Home.SettleGenerate: the success JSON is taken to have string `url` and `pirateText`, which is what the route sends.
- IntensitySlider: the `isDragging` state and all animation and markup are presentation only.
- IntensitySlider.WidthPercent: the model uses real arithmetic. In IEEE doubles, `(v / 10) * 100` rounds to exactly `10 * v` for v in 1..10. Outside that range double rounding is not modelled.
- lib/supabase.ts (storage wrappers), components/AudioPlayer.tsx (DOM audio, floating-point time), components/StarField.tsx (random animation), app/layout.tsx and tailwind.config.js are not part of this model. They are library glue, browser I/O or presentation.
