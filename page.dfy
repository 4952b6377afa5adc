/** The home page's state (app/page.tsx): the text being edited, the chosen intensity,
    whether a generation is in flight, the last audio URL and pirate text, and the
    history of generations, newest first and capped at ten entries.

    `handleGenerate` is split at its `await`: `BeginGenerate` is the part before the
    request goes out and `SettleGenerate` the part after the answer arrives, so the
    state in between (with `isGenerating` set) is observable. The request's answer is
    a parameter of `SettleGenerate`. */
module Page {
  import opened Js

  /** One generation as the history records it. */
  datatype Entry = Entry(text: string, audioUrl: string, intensity: int, pirateText: string)

  /** The JSON body sent to the route. */
  datatype Request = Request(text: string, intensity: int)

  /** The JSON the route answers with, as the page reads it. */
  datatype ReplyJson = ReplyJson(error: Option<string>, url: string, pirateText: string)

  /** The answer to `fetch`: whether the status was OK and the outcome of reading its
      body as JSON. */
  datatype Reply = Reply(ok: bool, json: Call<ReplyJson>)

  const HistoryCap: nat := 10
  const RecentCount: nat := 5
  const AlertPrefix := "Arrr! Something went wrong with the voice generation, matey! "
  const DefaultFailure := "Failed to generate voice"

  /** `[entry, ...prev.slice(0, 9)]`: the new entry in front, then the previous entries
      in their order, of which only those from index 9 on are dropped. */
  function PushHistory(entry: Entry, prev: seq<Entry>): (h: seq<Entry>)
    ensures |h| <= HistoryCap && |h| <= |prev| + 1
    ensures |h| == HistoryCap || |h| == |prev| + 1
    ensures h[0] == entry
    ensures h[1..] == prev[..|h| - 1]
  {
    [entry] + (if |prev| <= HistoryCap - 1 then prev else prev[..HistoryCap - 1])
  }

  function Reverse<T>(s: seq<T>): (r: seq<T>)
    ensures |r| == |s|
    ensures forall i :: 0 <= i < |s| ==> r[i] == s[|s| - 1 - i]
  {
    if s == [] then [] else Reverse(s[1..]) + [s[0]]
  }

  function Min(a: nat, b: nat): nat {
    if a <= b then a else b
  }

  /** The history after successful generations of `entries`, in that order. */
  function HistoryAfter(entries: seq<Entry>, start: seq<Entry>): seq<Entry>
    decreases |entries|
  {
    if entries == [] then start else HistoryAfter(entries[1..], PushHistory(entries[0], start))
  }

  /** Cutting `a + b` and `a + c` at the same point, no further than `b` reaches,
      gives the same result when `b` is a prefix of `c`. */
  lemma PrefixAgree<T>(a: seq<T>, b: seq<T>, c: seq<T>, n: nat)
    requires |b| <= |c| && b == c[..|b|] && n <= |a| + |b|
    ensures (a + b)[..n] == (a + c)[..n]
  {
    forall i | 0 <= i < n ensures (a + b)[i] == (a + c)[i] {
      if i >= |a| {
        assert (a + b)[i] == b[i - |a|];
      }
    }
  }

  /** The history is a bounded log: after any run of successful generations it holds
      the newest ten entries (of the new ones, then of the old ones), newest first. */
  lemma {:induction false} HistoryIsNewestFirst(entries: seq<Entry>, start: seq<Entry>)
    requires |start| <= HistoryCap
    ensures var all := Reverse(entries) + start;
            HistoryAfter(entries, start) == all[..Min(HistoryCap, |all|)]
    decreases |entries|
  {
    if entries == [] {
      assert Reverse(entries) + start == start;
    } else {
      var e, rest := entries[0], entries[1..];
      var pushed := PushHistory(e, start);
      HistoryIsNewestFirst(rest, pushed);
      assert HistoryAfter(entries, start) == HistoryAfter(rest, pushed);
      assert Reverse(entries) == Reverse(rest) + [e];
      PushThenCut(Reverse(rest), e, start);
    }
  }

  /** Pushing an entry and then keeping the newest ten of `r` before it is keeping the
      newest ten of everything. */
  lemma PushThenCut(r: seq<Entry>, e: Entry, start: seq<Entry>)
    requires |start| <= HistoryCap
    ensures var pushed := PushHistory(e, start); var all := r + [e] + start;
            (r + pushed)[..Min(HistoryCap, |r + pushed|)] == all[..Min(HistoryCap, |all|)]
  {
    var pushed := PushHistory(e, start);
    assert r + [e] + start == r + ([e] + start);
    assert pushed == ([e] + start)[..|pushed|];
    var n := Min(HistoryCap, |r| + |pushed|);
    assert n == Min(HistoryCap, |r| + 1 + |start|);
    PrefixAgree(r, pushed, [e] + start, n);
  }

  /** The text the alert shows after a failed generation: the route's error message for
      a non-OK answer (or a default when it has none), else whatever was thrown. */
  function FailureMessage(reply: Call<Reply>): (m: string)
    ensures reply.Threw? ==> m == MessageOf(reply.exc)
    ensures reply.Returned? && reply.value.json.Threw? ==> m == MessageOf(reply.value.json.exc)
    ensures reply.Returned? && !reply.value.ok && reply.value.json.Returned? ==>
              m == (if Present(reply.value.json.value.error) then reply.value.json.value.error.value
                    else DefaultFailure)
  {
    match reply
    case Threw(e) => MessageOf(e)
    case Returned(Reply(ok, json)) =>
      match json
      case Threw(e) => MessageOf(e)
      case Returned(j) => if Present(j.error) then j.error.value else DefaultFailure
  }

  /** A generation succeeded: the answer was OK and its body could be read. */
  predicate Succeeded(reply: Call<Reply>) {
    reply.Returned? && reply.value.ok && reply.value.json.Returned?
  }

  class Home {
    var text: string
    var intensity: int
    var isGenerating: bool
    var audioUrl: Option<string>
    var pirateText: string
    var history: seq<Entry>

    /** The initial state: no text, intensity 5, nothing generated yet. */
    constructor ()
      ensures text == "" && intensity == 5 && !isGenerating
      ensures audioUrl == None && pirateText == "" && history == []
    {
      text := "";
      intensity := 5;
      isGenerating := false;
      audioUrl := None;
      pirateText := "";
      history := [];
    }

    /** The entries listed under "Recent Generations": the first five of the history. */
    function Recent(): (r: seq<Entry>)
      reads this
      ensures |r| == Min(RecentCount, |history|)
      ensures r == history[..|r|]
    {
      if |history| <= RecentCount then history else history[..RecentCount]
    }

    /** Whether the generate button is enabled: the text has a character other than
        white space and no generation is in flight. */
    function GenerateEnabled(): (enabled: bool)
      reads this
      ensures enabled <==> !AllWhiteSpace(text) && !isGenerating
    {
      BlankIffAllWhiteSpace(text);
      !Blank(text) && !isGenerating
    }

    /** Typing, or choosing a sample phrase. */
    method SetText(t: string)
      modifies this
      ensures text == t
      ensures intensity == old(intensity) && isGenerating == old(isGenerating)
      ensures audioUrl == old(audioUrl) && pirateText == old(pirateText) && history == old(history)
    {
      text := t;
    }

    /** Moving the intensity slider. */
    method SetIntensity(v: int)
      modifies this
      ensures intensity == v
      ensures text == old(text) && isGenerating == old(isGenerating)
      ensures audioUrl == old(audioUrl) && pirateText == old(pirateText) && history == old(history)
    {
      intensity := v;
    }

    /** The "Clear Text" button: empties the text and nothing else. */
    method ClearText()
      modifies this
      ensures text == "" && !GenerateEnabled()
      ensures intensity == old(intensity) && isGenerating == old(isGenerating)
      ensures audioUrl == old(audioUrl) && pirateText == old(pirateText) && history == old(history)
    {
      text := "";
      BlankIffAllWhiteSpace(text);
    }

    /** Clicking the k-th recent entry restores its text and intensity. */
    method SelectHistory(k: nat)
      requires k < |Recent()|
      modifies this
      ensures text == old(history[k].text) && intensity == old(history[k].intensity)
      ensures isGenerating == old(isGenerating)
      ensures audioUrl == old(audioUrl) && pirateText == old(pirateText) && history == old(history)
    {
      var item := Recent()[k];
      text := item.text;
      intensity := item.intensity;
    }

    /** `handleGenerate` up to the request: nothing happens for blank text; otherwise
        the flag is raised and the current text and intensity are sent. */
    method BeginGenerate() returns (req: Option<Request>)
      modifies this
      ensures Blank(old(text)) ==> req.None? && isGenerating == old(isGenerating)
      ensures !Blank(old(text)) ==> req == Some(Request(old(text), old(intensity))) && isGenerating
      ensures text == old(text) && intensity == old(intensity)
      ensures audioUrl == old(audioUrl) && pirateText == old(pirateText) && history == old(history)
    {
      if Blank(text) {
        return None;
      }
      isGenerating := true;
      req := Some(Request(text, intensity));
    }

    /** `handleGenerate` after the answer to `req` arrives. On success the audio URL and
        pirate text are shown and the generation is pushed onto the history; on any
        failure only an alert is raised. Either way the flag is cleared. */
    method SettleGenerate(req: Request, reply: Call<Reply>) returns (alert: Option<string>)
      modifies this
      ensures !isGenerating
      ensures text == old(text) && intensity == old(intensity)
      ensures Succeeded(reply) ==>
                var result := reply.value.json.value;
                alert.None? && audioUrl == Some(result.url) && pirateText == result.pirateText &&
                history == PushHistory(Entry(req.text, result.url, req.intensity, result.pirateText),
                                       old(history))
      ensures !Succeeded(reply) ==>
                alert == Some(AlertPrefix + FailureMessage(reply)) &&
                audioUrl == old(audioUrl) && pirateText == old(pirateText) && history == old(history)
    {
      alert := None;
      if Succeeded(reply) {
        var result := reply.value.json.value;
        audioUrl := Some(result.url);
        pirateText := result.pirateText;
        var newEntry := Entry(req.text, result.url, req.intensity, result.pirateText);
        history := PushHistory(newEntry, history);
      } else {
        alert := Some(AlertPrefix + FailureMessage(reply));
      }
      isGenerating := false;
    }
  }
}
