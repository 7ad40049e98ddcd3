/**
 * The server action `generateRoasts` (app/actions/generate-roasts.ts): it
 * validates the form, escapes the tweet and the handle into two prompts,
 * asks the chat-completion service for three roasts, reads the reply as a
 * JSON array of strings or else as lines, escapes and cuts every roast to
 * 300 code units, and answers either `{ roasts }` or `{ error }`.
 *
 * The completion call and `JSON.parse` are foreign code; they enter as two
 * functions the caller supplies.
 */
module RoastAction {
  import opened Wrappers
  import opened JsString
  import opened Constants
  import opened HtmlEscape
  import opened RoastSchema

  /** What the completion call gives back: the first choice's content, if any, or a thrown error. */
  datatype ServiceOutcome =
    | Completed(content: Option<string>)
    | ServiceError(code: Option<string>, status: Option<int>)

  /**
   * `JSON.parse(text)`: an array of strings, any other JSON value (whose
   * `.map` or `.replace` then throws a TypeError), or a syntax error.
   */
  datatype JsonValue = StringArray(items: seq<string>) | OtherJson | SyntaxError

  /** The action's answer: exactly one of `{ roasts }` and `{ error }`. */
  datatype Response = Roasts(roasts: seq<string>) | Error(error: string)

  const RoastCount: nat := 3
  const MaxRoastLength: nat := 300

  const InvalidInputMessage := "Invalid input."
  const CountMessage := "Could not generate 3 roasts. Please try again."
  /** The quota message as the file holds it: its emoji was stored with a broken encoding. */
  const QuotaMessage := "OpenAI quota exceeded \U{F0}\U{178}\U{2DC}\U{A2}. Please try again later or check your API plan."
  const GenericMessage := "Something went wrong. Please try again later."

  const QuotaCode := "insufficient_quota"
  const QuotaStatus: int := 429

  /** Every text the action can answer with. */
  const UserMessages: set<string> := ValidationMessages + {InvalidInputMessage, CountMessage, QuotaMessage, GenericMessage}

  /** The system prompt up to the level; its emoji were stored with a broken encoding and are kept as stored. */
  const SystemPromptHead: string := "You are a witty AI roast generator. Given a tweet, a mood, and a roast level (easy, medium, hard), generate 3 roast responses in a conversational, ChatGPT-like tone. Each roast should be labeled with an emoji and level (Mild, Medium, Hard). Format: [\n\"\U{F0}\U{178}\U{152}\U{B6}\U{EF}\U{B8} Mild: ...\", \"\U{F0}\U{178}\U{201D}\U{A5} Medium: ...\", \"\U{F0}\U{178}\U{2019}\U{20AC} Hard: ...\"]\nRoast Level: "

  /** The system prompt, which ends with the level id. */
  function SystemPrompt(roastLevel: string): string
  {
    SystemPromptHead + roastLevel
  }

  /** The user prompt; an empty safe handle adds no handle line. */
  function UserPrompt(safeTweet: string, mood: string, safeHandle: string): string
  {
    "Tweet: \"" + safeTweet + "\"\nMood: " + mood
    + (if safeHandle != "" then "\nTwitter Handle: @" + safeHandle else "")
  }

  /**
   * `twitterHandle ? escapeHTML(twitterHandle.trim()) : undefined`, with
   * "" standing for `undefined` (both are falsy where it is used).
   */
  function SafeHandle(h: Option<string>): (r: string)
    ensures r == "" <==> h.None? || AllSpace(h.value)
  {
    if h.None? || h.value == "" then ""
    else
      var t := Trim(h.value);
      TrimEmptyIff(h.value);
      assert |Escape(t)| >= |t|;
      Escape(t)
  }

  /** The system and user prompts built from a validated request. */
  function Prompts(req: RoastRequest): (string, string)
  {
    var safeTweet := Escape(Trim(req.tweet));
    (SystemPrompt(LevelId(req.roastLevel)), UserPrompt(safeTweet, MoodId(req.mood), SafeHandle(req.twitterHandle)))
  }

  /** `completion.choices[0]?.message?.content || ""` */
  function ReplyText(content: Option<string>): string
  {
    if content.Some? then content.value else ""
  }

  /** `.map((r) => r.trim())` */
  function TrimAll(ps: seq<string>): (r: seq<string>)
    ensures |r| == |ps| && forall k :: 0 <= k < |ps| ==> r[k] == Trim(ps[k])
  {
    seq(|ps|, k requires 0 <= k < |ps| => Trim(ps[k]))
  }

  /** The fallback reading of a reply that is not JSON: `text.split(/\n+/).filter(Boolean).map((r) => r.trim())`. */
  function FallbackLines(text: string): (r: seq<string>)
    ensures forall k :: 0 <= k < |r| ==> '\n' !in r[k]
  {
    var pieces := NonEmptyPieces(SplitRuns(text));
    forall k | 0 <= k < |pieces| ensures '\n' !in Trim(pieces[k]) {
      assert pieces[k] in SplitRuns(text);
      TrimSlice(pieces[k]);
    }
    TrimAll(pieces)
  }

  /**
   * The list of raw roasts read from the reply, or None where reading it
   * throws (JSON that is not an array of strings).
   */
  function ParseReply(text: string, parseJson: string -> JsonValue): Option<seq<string>>
  {
    match parseJson(text)
    case StringArray(items) => Some(items)
    case OtherJson => None
    case SyntaxError => Some(FallbackLines(text))
  }

  /** `escapeHTML(r).slice(0, 300)`: the first 300 code units of the escaped roast. */
  function SafeRoast(raw: string): (r: string)
    ensures |r| == if |Escape(raw)| <= MaxRoastLength then |Escape(raw)| else MaxRoastLength
    ensures r == Escape(raw)[..|r|]
    ensures NoMarkup(r)
  {
    var e := Escape(raw);
    if |e| <= MaxRoastLength then e else e[..MaxRoastLength]
  }

  /** `.map((r) => escapeHTML(r).slice(0, 300))` */
  function SafeRoasts(raws: seq<string>): (r: seq<string>)
    ensures |r| == |raws| && forall k :: 0 <= k < |raws| ==> r[k] == SafeRoast(raws[k])
  {
    seq(|raws|, k requires 0 <= k < |raws| => SafeRoast(raws[k]))
  }

  /** The message of a thrown error that is not a validation error. */
  function ClassifyError(code: Option<string>, status: Option<int>): (m: string)
    ensures m == QuotaMessage <==> code == Some(QuotaCode) || status == Some(QuotaStatus)
    ensures m == GenericMessage <==> !(code == Some(QuotaCode) || status == Some(QuotaStatus))
  {
    if code == Some(QuotaCode) || status == Some(QuotaStatus) then QuotaMessage else GenericMessage
  }

  /** `err.errors[0]?.message || "Invalid input."` */
  function ValidationErrorMessage(issues: seq<Issue>): string
  {
    if issues != [] && Message(issues[0]) != "" then Message(issues[0]) else InvalidInputMessage
  }

  /** None of the action's own messages can be mistaken for a validation message. */
  lemma ActionMessagesDistinct()
    ensures InvalidInputMessage !in ValidationMessages && CountMessage !in ValidationMessages
    ensures QuotaMessage !in ValidationMessages && GenericMessage !in ValidationMessages
  {
  }

  /**
   * What follows the completion call: a thrown error is classified, and a
   * reply becomes three escaped roasts of at most 300 code units or an
   * error message.
   */
  function Answer(outcome: ServiceOutcome, parseJson: string -> JsonValue): (r: Response)
    ensures r.Roasts? ==>
              |r.roasts| == RoastCount
              && forall k :: 0 <= k < |r.roasts| ==> |r.roasts[k]| <= MaxRoastLength && NoMarkup(r.roasts[k])
    ensures r.Error? ==> r.error in {CountMessage, QuotaMessage, GenericMessage}
  {
    match outcome
    case ServiceError(code, status) => Error(ClassifyError(code, status))
    case Completed(content) =>
      var parsed := ParseReply(ReplyText(content), parseJson);
      if parsed.None? then
        // The TypeError carries neither a code nor a status.
        Error(ClassifyError(None, None))
      else
        var roasts := SafeRoasts(parsed.value);
        if |roasts| != RoastCount then Error(CountMessage) else Roasts(roasts)
  }

  /**
   * `generateRoasts(formData)`, with the completion call and `JSON.parse`
   * supplied as `complete` and `parseJson`. Roasts come back only as three
   * escaped texts of at most 300 code units; an error is always one of the
   * fixed messages, and it is a validation message exactly when the form was
   * refused.
   */
  function GenerateRoasts(formData: Payload, complete: (string, string) -> ServiceOutcome, parseJson: string -> JsonValue): (r: Response)
    ensures r.Roasts? ==>
              |r.roasts| == RoastCount
              && forall k :: 0 <= k < |r.roasts| ==> |r.roasts[k]| <= MaxRoastLength && NoMarkup(r.roasts[k])
    ensures r.Error? ==> r.error in UserMessages
    ensures (r.Error? && r.error in ValidationMessages) <==> Validate(formData).Failure?
  {
    match Validate(formData)
    case Failure(issues) =>
      var m := ValidationErrorMessage(issues);
      assert m in ValidationMessages;
      Error(m)
    case Success(req) =>
      var prompts := Prompts(req);
      var r := Answer(complete(prompts.0, prompts.1), parseJson);
      ServiceMessages(r);
      r
  }

  /** The messages of the step after the completion call are user messages, never validation messages. */
  lemma ServiceMessages(r: Response)
    requires r.Error? ==> r.error in {CountMessage, QuotaMessage, GenericMessage}
    ensures r.Error? ==> r.error in UserMessages && r.error !in ValidationMessages
  {
    ActionMessagesDistinct();
  }

  /** The "Invalid input." fallback is never reached: a refused form always has a first issue with a message. */
  lemma FirstIssueReported(p: Payload)
    requires Validate(p).Failure?
    ensures ValidationErrorMessage(Validate(p).error) == Message(Validate(p).error[0])
    ensures ValidationErrorMessage(Validate(p).error) != InvalidInputMessage
  {
  }

  /** A refused form is answered with its first issue's message, whatever the service and the parser would do. */
  lemma RefusedBeforeService(p: Payload, complete: (string, string) -> ServiceOutcome, parseJson: string -> JsonValue,
                             complete': (string, string) -> ServiceOutcome, parseJson': string -> JsonValue)
    requires Validate(p).Failure?
    ensures GenerateRoasts(p, complete, parseJson) == Error(Message(Validate(p).error[0]))
    ensures GenerateRoasts(p, complete, parseJson) == GenerateRoasts(p, complete', parseJson')
  {
    FirstIssueReported(p);
  }

  /** A validated form is answered by the step after the completion call, applied to the call's outcome for its prompts. */
  lemma AcceptedGoesToService(p: Payload, complete: (string, string) -> ServiceOutcome, parseJson: string -> JsonValue)
    requires Validate(p).Success?
    ensures var prompts := Prompts(Validate(p).value);
            GenerateRoasts(p, complete, parseJson) == Answer(complete(prompts.0, prompts.1), parseJson)
  {
  }

  /**
   * What "sanitize inputs" buys: the user prompt holds no `<` and no `>`,
   * since the tweet and the handle are escaped and everything else is
   * fixed text and a mood id.
   */
  lemma PromptsTagFree(req: RoastRequest)
    ensures '<' !in Prompts(req).1 && '>' !in Prompts(req).1
  {
    var safeHandle := SafeHandle(req.twitterHandle);
    EscapedTagFree(Trim(req.tweet));
    if safeHandle != "" {
      EscapedTagFree(Trim(req.twitterHandle.value));
    }
    MoodIdTagFree(req.mood);
    UserPromptTagFree(Escape(Trim(req.tweet)), MoodId(req.mood), safeHandle);
  }

  /** The fixed parts of the user prompt hold no `<` and no `>`. */
  lemma UserPromptTagFree(safeTweet: string, mood: string, safeHandle: string)
    requires '<' !in safeTweet && '>' !in safeTweet
    requires '<' !in mood && '>' !in mood
    requires '<' !in safeHandle && '>' !in safeHandle
    ensures '<' !in UserPrompt(safeTweet, mood, safeHandle) && '>' !in UserPrompt(safeTweet, mood, safeHandle)
  {
    var head, middle, line := "Tweet: \"", "\"\nMood: ", "\nTwitter Handle: @";
    assert '<' !in head && '>' !in head;
    assert '<' !in middle && '>' !in middle;
    assert '<' !in line && '>' !in line;
  }

  lemma MoodIdTagFree(m: Mood)
    ensures '<' !in MoodId(m) && '>' !in MoodId(m)
  {
  }

  /** An escaped text holds no `<` and no `>`. */
  lemma EscapedTagFree(s: string)
    ensures '<' !in Escape(s) && '>' !in Escape(s)
  {
    var e := Escape(s);
    if '<' in e || '>' in e {
      var i :| 0 <= i < |e| && (e[i] == '<' || e[i] == '>');
      assert IsMarkup(e[i]);
    }
  }

  /** A thrown service error is the quota message exactly for the quota code or status 429, else the generic one. */
  lemma ServiceErrorClassified(code: Option<string>, status: Option<int>, parseJson: string -> JsonValue)
    ensures Answer(ServiceError(code, status), parseJson)
            == Error(if code == Some(QuotaCode) || status == Some(QuotaStatus) then QuotaMessage else GenericMessage)
  {
  }

  /** Three raw roasts become the three safe roasts, in order. */
  lemma ThreeRoasts(raws: seq<string>)
    requires |raws| == RoastCount
    ensures SafeRoasts(raws) == [SafeRoast(raws[0]), SafeRoast(raws[1]), SafeRoast(raws[2])]
  {
  }

  /**
   * A reply that parses as an array of strings gives roasts exactly when
   * the array has three elements, each the escaped and cut element.
   */
  lemma ArrayReply(content: Option<string>, parseJson: string -> JsonValue, items: seq<string>)
    requires parseJson(ReplyText(content)) == StringArray(items)
    ensures Answer(Completed(content), parseJson).Roasts? <==> |items| == RoastCount
    ensures |items| != RoastCount ==> Answer(Completed(content), parseJson) == Error(CountMessage)
    ensures |items| == RoastCount ==>
              Answer(Completed(content), parseJson) == Roasts([SafeRoast(items[0]), SafeRoast(items[1]), SafeRoast(items[2])])
  {
    assert ParseReply(ReplyText(content), parseJson) == Some(items);
    if |items| == RoastCount {
      ThreeRoasts(items);
    }
  }

  /** JSON that is not an array of strings ends in the generic message, never in roasts. */
  lemma OtherJsonReply(content: Option<string>, parseJson: string -> JsonValue)
    requires parseJson(ReplyText(content)) == OtherJson
    ensures Answer(Completed(content), parseJson) == Error(GenericMessage)
  {
  }

  /** A reply that is not JSON is read line by line, and gives roasts exactly when it has three lines. */
  lemma NonJsonReply(content: Option<string>, parseJson: string -> JsonValue)
    requires parseJson(ReplyText(content)) == SyntaxError
    ensures var lines := FallbackLines(ReplyText(content));
            && (Answer(Completed(content), parseJson).Roasts? <==> |lines| == RoastCount)
            && (|lines| != RoastCount ==> Answer(Completed(content), parseJson) == Error(CountMessage))
            && (|lines| == RoastCount ==>
                  Answer(Completed(content), parseJson) == Roasts([SafeRoast(lines[0]), SafeRoast(lines[1]), SafeRoast(lines[2])]))
  {
    var lines := FallbackLines(ReplyText(content));
    assert ParseReply(ReplyText(content), parseJson) == Some(lines);
    if |lines| == RoastCount {
      ThreeRoasts(lines);
    }
  }

  /** A missing or empty reply has no lines, whatever the parser does with it, and so gives no roasts. */
  lemma EmptyReplyNoRoasts(parseJson: string -> JsonValue)
    requires parseJson("") == SyntaxError
    ensures Answer(Completed(None), parseJson) == Error(CountMessage)
    ensures Answer(Completed(Some("")), parseJson) == Error(CountMessage)
  {
    EmptyReplyNoLines();
  }

  /**
   * The fallback reading is a split at every line feed with the empty
   * pieces dropped and the rest trimmed, in order: runs of line feeds and
   * single ones give the same lines.
   */
  lemma FallbackAsSplit(text: string)
    ensures FallbackLines(text) == TrimAll(NonEmptyPieces(Split(text, '\n')))
  {
    SplitRunsNonEmpty(text);
  }

  /**
   * Lines joined by line feeds come back trimmed, in order, with the empty
   * lines dropped: a line of white space only is kept, as an empty roast.
   */
  lemma FallbackOfLines(ps: seq<string>)
    requires |ps| >= 1
    requires forall k :: 0 <= k < |ps| ==> '\n' !in ps[k]
    ensures FallbackLines(Join(ps, '\n')) == TrimAll(NonEmptyPieces(ps))
    ensures (forall k :: 0 <= k < |ps| ==> ps[k] != []) ==> FallbackLines(Join(ps, '\n')) == TrimAll(ps)
    ensures var kept := NonEmptyPieces(ps);
      forall k :: 0 <= k < |kept| ==> (FallbackLines(Join(ps, '\n'))[k] == "" <==> AllSpace(kept[k]))
  {
    FallbackAsSplit(Join(ps, '\n'));
    SplitJoin(ps, '\n');
    var kept := NonEmptyPieces(ps);
    forall k | 0 <= k < |kept| ensures Trim(kept[k]) == "" <==> AllSpace(kept[k]) {
      TrimEmptyIff(kept[k]);
    }
  }

  /** Empty pieces from leading or trailing line feeds are dropped, so an empty reply has no lines. */
  lemma EmptyReplyNoLines()
    ensures FallbackLines("") == []
  {
  }

  /** A handle that passed validation reaches the prompt unchanged: it has nothing to trim or escape. */
  lemma ValidatedHandleUnchanged(h: string)
    requires HandlePattern(h)
    ensures SafeHandle(Some(h)) == h
  {
    if h != "" {
      TrimKeeps(h);
      EscapeFixedIff(h);
    }
  }

  /**
   * A tweet of white space only is sent as an empty quotation, with no
   * handle line: the action trims what validation let through.
   */
  lemma SpaceTweetSentEmpty(t: string, mood: Mood, level: RoastLevel)
    requires 1 <= |t| <= MaxTweetLength && AllSpace(t)
    ensures var p := Form(Text(t), Text(MoodId(mood)), Text(LevelId(level)), Absent);
            && Validate(p).Success?
            && Prompts(Validate(p).value).1 == UserPrompt("", MoodId(mood), "")
  {
    SpaceTweetAccepted(t, mood, level);
    assert Escape(Trim(t)) == "" by {
      TrimEmptyIff(t);
    }
  }

  /** A short roast is cut nowhere: unescaping gives it back whole. */
  lemma ShortRoastKept(raw: string)
    requires |Escape(raw)| <= MaxRoastLength
    ensures Unescape(SafeRoast(raw)) == raw
  {
    UnescapeEscape(raw);
  }

  /**
   * The cut can fall inside an entity: 299 plain code units followed by `&`
   * come back ending in a bare `&`, the first code unit of `&amp;`.
   */
  lemma RoastCutMidEntity(s: string)
    requires |s| == MaxRoastLength - 1 && forall k :: 0 <= k < |s| ==> !IsSpecial(s[k])
    ensures SafeRoast(s + "&") == s + "&"
    ensures !BeginsEntity(SafeRoast(s + "&")[MaxRoastLength - 1..])
  {
    EscapeConcat(s, "&");
    EscapeFixedIff(s);
    assert Escape(s + "&") == s + "&amp;";
    assert (s + "&amp;")[..MaxRoastLength] == s + "&";
    assert (s + "&")[MaxRoastLength - 1..] == "&";
  }
}
