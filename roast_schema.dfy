/**
 * `roastSchema` of the server action (app/actions/generate-roasts.ts): the
 * rules a submitted form must meet, checked field by field in the order
 * tweet, mood, roastLevel, twitterHandle. Every failed rule adds an issue;
 * the caller reports the first one.
 */
module RoastSchema {
  import opened Wrappers
  import opened JsString
  import opened Constants

  /** A field of the submitted data as the validator sees it. */
  datatype Field = Absent | Text(s: string) | NonText

  /** The submitted data: an object with the four fields, `undefined`, or some other non-object value. */
  datatype Payload = Form(tweet: Field, mood: Field, roastLevel: Field, twitterHandle: Field) | Undefined | NonObject

  datatype Key = TweetKey | MoodKey | LevelKey | HandleKey

  /** What the validator can object to. */
  datatype Issue =
    | NoPayload
    | NotAnObject
    | Missing(key: Key)
    | NotAString(key: Key)
    | TweetEmpty
    | TweetTooLong
    | TweetForbidden
    | UnknownOption(key: Key)
    | HandleTooLong
    | HandleInvalid

  /** A form that passed validation. */
  datatype RoastRequest = RoastRequest(tweet: string, mood: Mood, roastLevel: RoastLevel, twitterHandle: Option<string>)

  const MaxTweetLength: nat := 300
  const MaxHandleLength: nat := 30

  const TweetRequiredMessage := "Tweet is required."
  const TweetTooLongMessage := "Tweet must be at most 300 characters."
  const ForbiddenMessage := "Tweet contains forbidden content."
  const InvalidHandleMessage := "Invalid Twitter handle."

  /**
   * The library's default messages, for the rules that give none of their
   * own. "Required" and the length message are the library's texts; the
   * other three stand for texts that also name the expected and received
   * types or options.
   */
  const ExpectedObjectMessage := "Expected object"
  const RequiredMessage := "Required"
  const ExpectedStringMessage := "Expected string"
  const InvalidEnumMessage := "Invalid enum value"
  const TooLongDefaultMessage := "String must contain at most 30 character(s)"

  /** The message of an issue. */
  function Message(i: Issue): (m: string)
    ensures m in ValidationMessages && m != ""
  {
    match i
    case NoPayload => RequiredMessage
    case NotAnObject => ExpectedObjectMessage
    case Missing(_) => RequiredMessage
    case NotAString(_) => ExpectedStringMessage
    case TweetEmpty => TweetRequiredMessage
    case TweetTooLong => TweetTooLongMessage
    case TweetForbidden => ForbiddenMessage
    case UnknownOption(_) => InvalidEnumMessage
    case HandleTooLong => TooLongDefaultMessage
    case HandleInvalid => InvalidHandleMessage
  }

  const ValidationMessages: set<string> := {
    ExpectedObjectMessage, RequiredMessage, ExpectedStringMessage, TweetRequiredMessage,
    TweetTooLongMessage, ForbiddenMessage, InvalidEnumMessage, TooLongDefaultMessage, InvalidHandleMessage
  }

  /**
   * The tag-opening substrings the tweet may not contain, in the order of
   * the pattern (`<xmp` is listed twice there, and so here). The list is
   * written in two halves only to keep each literal small.
   */
  const Denylist: seq<string> := DenylistFirstHalf + DenylistSecondHalf

  const DenylistFirstHalf: seq<string> := [
    "<script", "</script", "<iframe", "<object", "<embed", "<applet", "<form", "<input",
    "<textarea", "<button", "<link", "<style", "<img", "<svg", "<math", "<base", "<meta",
    "<body", "<html", "<head", "<title", "<audio", "<video", "<source", "<track", "<canvas",
    "<map"
  ]

  const DenylistSecondHalf: seq<string> := [
    "<area", "<frame", "<frameset", "<noframes", "<param", "<bgsound", "<layer",
    "<ilayer", "<plaintext", "<xmp", "<xml", "<marquee", "<blink", "<spacer", "<comment",
    "<isindex", "<listing", "<nextid", "<noembed", "<noscript", "<rb", "<rtc", "<shadow",
    "<template", "<tt", "<u", "<wbr", "<xmp"
  ]

  /**
   * The case-insensitive pattern `pat` matches t at position i: from there
   * on, each code unit of t, lower-cased, equals the pattern's (all pattern
   * letters are lower case).
   */
  predicate MatchesAt(t: string, i: nat, pat: string)
    decreases |pat|
  {
    pat == [] || (i < |t| && LowerChar(t[i]) == pat[0] && MatchesAt(t, i + 1, pat[1..]))
  }

  /** The denylist regular expression finds a match somewhere in t. */
  predicate Forbidden(t: string)
  {
    exists j, i :: 0 <= j < |Denylist| && 0 <= i <= |t| && MatchesAt(t, i, Denylist[j])
  }

  lemma {:induction false} MatchesAtPointwise(t: string, i: nat, pat: string)
    requires i <= |t|
    ensures MatchesAt(t, i, pat) <==> i + |pat| <= |t| && forall k :: 0 <= k < |pat| ==> LowerChar(t[i + k]) == pat[k]
    decreases |pat|
  {
    if pat != [] {
      var tail := pat[1..];
      if MatchesAt(t, i, pat) {
        assert i < |t| && LowerChar(t[i]) == pat[0] && MatchesAt(t, i + 1, tail);
        MatchesAtPointwise(t, i + 1, tail);
        forall k | 0 <= k < |pat|
          ensures LowerChar(t[i + k]) == pat[k]
        {
          if k > 0 {
            assert LowerChar(t[i + 1 + (k - 1)]) == tail[k - 1];
          }
        }
      }
      if i + |pat| <= |t| && forall k :: 0 <= k < |pat| ==> LowerChar(t[i + k]) == pat[k] {
        assert LowerChar(t[i + 0]) == pat[0];
        MatchesAtPointwise(t, i + 1, tail);
        forall k | 0 <= k < |tail|
          ensures LowerChar(t[i + 1 + k]) == tail[k]
        {
          assert LowerChar(t[i + (k + 1)]) == pat[k + 1];
        }
        assert MatchesAt(t, i + 1, tail);
      }
    }
  }

  lemma MatchesAtIff(t: string, i: nat, pat: string)
    requires i <= |t|
    ensures MatchesAt(t, i, pat) <==> OccursAt(AsciiLower(t), pat, i)
  {
    var lt := AsciiLower(t);
    MatchesAtPointwise(t, i, pat);
    if MatchesAt(t, i, pat) {
      assert lt[i..i + |pat|] == pat;
    }
    if OccursAt(lt, pat, i) {
      forall k | 0 <= k < |pat|
        ensures LowerChar(t[i + k]) == pat[k]
      {
        assert lt[i..i + |pat|][k] == lt[i + k];
      }
    }
  }

  /** The pattern test is "the ASCII-lower-cased tweet contains a denylist entry". */
  lemma ForbiddenIff(t: string)
    ensures Forbidden(t) <==> exists j :: 0 <= j < |Denylist| && Contains(AsciiLower(t), Denylist[j])
  {
    var lt := AsciiLower(t);
    if Forbidden(t) {
      var j, i :| 0 <= j < |Denylist| && 0 <= i <= |t| && MatchesAt(t, i, Denylist[j]);
      MatchesAtIff(t, i, Denylist[j]);
      ContainsIff(lt, Denylist[j]);
    }
    if exists j :: 0 <= j < |Denylist| && Contains(lt, Denylist[j]) {
      var j :| 0 <= j < |Denylist| && Contains(lt, Denylist[j]);
      ContainsIff(lt, Denylist[j]);
      var i :| OccursAt(lt, Denylist[j], i);
      MatchesAtIff(t, i, Denylist[j]);
    }
  }

  /** The characters of `[a-zA-Z0-9_]`. */
  predicate IsHandleChar(c: char)
  {
    'a' <= c <= 'z' || 'A' <= c <= 'Z' || '0' <= c <= '9' || c == '_'
  }

  /** `/^([a-zA-Z0-9_]+)?$/`: the empty string or a run of handle characters. */
  predicate HandlePattern(h: string)
  {
    forall k :: 0 <= k < |h| ==> IsHandleChar(h[k])
  }

  function TweetIssues(f: Field): seq<Issue>
  {
    match f
    case Absent => [Missing(TweetKey)]
    case NonText => [NotAString(TweetKey)]
    case Text(t) =>
      (if |t| < 1 then [TweetEmpty] else [])
      + (if |t| > MaxTweetLength then [TweetTooLong] else [])
      + (if Forbidden(t) then [TweetForbidden] else [])
  }

  function EnumIssues(f: Field, key: Key, ids: seq<string>): seq<Issue>
  {
    match f
    case Absent => [Missing(key)]
    case NonText => [NotAString(key)]
    case Text(s) => if s in ids then [] else [UnknownOption(key)]
  }

  function HandleIssues(f: Field): seq<Issue>
  {
    match f
    case Absent => []
    case NonText => [NotAString(HandleKey)]
    case Text(h) =>
      (if |h| > MaxHandleLength then [HandleTooLong] else [])
      + (if HandlePattern(h) then [] else [HandleInvalid])
  }

  /** All issues of a payload, in the order the validator finds them. */
  function Issues(p: Payload): seq<Issue>
  {
    match p
    case Undefined => [NoPayload]
    case NonObject => [NotAnObject]
    case Form(tweet, mood, level, handle) =>
      TweetIssues(tweet) + EnumIssues(mood, MoodKey, Ids(Moods))
      + EnumIssues(level, LevelKey, Ids(RoastLevels)) + HandleIssues(handle)
  }

  /** The field a validated handle came from. */
  function HandleField(h: Option<string>): Field
  {
    match h
    case None => Absent
    case Some(s) => Text(s)
  }

  /**
   * `roastSchema.parse`: the validated request, or the issues found. A
   * request carries exactly the submitted strings, and each of them meets
   * its rule.
   */
  function Validate(p: Payload): (r: Result<RoastRequest, seq<Issue>>)
    ensures r.Failure? <==> Issues(p) != []
    ensures r.Failure? ==> r.error == Issues(p)
    ensures r.Success? ==>
              var req := r.value;
              && p == Form(Text(req.tweet), Text(MoodId(req.mood)), Text(LevelId(req.roastLevel)), HandleField(req.twitterHandle))
              && 1 <= |req.tweet| <= MaxTweetLength && !Forbidden(req.tweet)
              && (req.twitterHandle.Some? ==> |req.twitterHandle.value| <= MaxHandleLength && HandlePattern(req.twitterHandle.value))
  {
    var issues := Issues(p);
    if issues != [] then Failure(issues)
    else
      var mood := MoodOfId(p.mood.s);
      var level := LevelOfId(p.roastLevel.s);
      var handle := if p.twitterHandle.Text? then Some(p.twitterHandle.s) else None;
      Success(RoastRequest(p.tweet.s, mood.value, level.value, handle))
  }

  /** No payload at all is refused with the library's "Required". */
  lemma UndefinedRequired()
    ensures Validate(Undefined).Failure? && Message(Validate(Undefined).error[0]) == "Required"
  {
  }

  /** An empty tweet is reported first, whatever the other fields hold. */
  lemma EmptyTweetFirst(mood: Field, level: Field, handle: Field)
    ensures Issues(Form(Text(""), mood, level, handle))[0] == TweetEmpty
  {
  }

  /** A tweet over 300 code units is reported first, whatever it contains and whatever the other fields hold. */
  lemma LongTweetFirst(t: string, mood: Field, level: Field, handle: Field)
    requires |t| > MaxTweetLength
    ensures Issues(Form(Text(t), mood, level, handle))[0] == TweetTooLong
  {
  }

  /** A tweet of acceptable length matching the denylist is reported first. */
  lemma ForbiddenTweetFirst(t: string, mood: Field, level: Field, handle: Field)
    requires 1 <= |t| <= MaxTweetLength && Forbidden(t)
    ensures Issues(Form(Text(t), mood, level, handle))[0] == TweetForbidden
  {
  }

  /**
   * The rules accept exactly: a tweet of 1 to 300 code units with no
   * denylist match (white space only is fine: nothing is trimmed here), a
   * mood id and a level id from the tables, and a handle that is absent or
   * at most 30 handle characters (possibly none).
   */
  lemma AcceptsExactly(p: Payload)
    ensures Validate(p).Success? <==>
              && p.Form? && p.tweet.Text? && p.mood.Text? && p.roastLevel.Text?
              && 1 <= |p.tweet.s| <= MaxTweetLength && !Forbidden(p.tweet.s)
              && p.mood.s in Ids(Moods) && p.roastLevel.s in Ids(RoastLevels)
              && (p.twitterHandle.Absent? || (p.twitterHandle.Text? && |p.twitterHandle.s| <= MaxHandleLength && HandlePattern(p.twitterHandle.s)))
  {
  }

  /**
   * A tweet of white space only passes (lengths are checked before any
   * trimming), and the request carries it as it came.
   */
  lemma SpaceTweetAccepted(t: string, mood: Mood, level: RoastLevel)
    requires 1 <= |t| <= MaxTweetLength && AllSpace(t)
    ensures Validate(Form(Text(t), Text(MoodId(mood)), Text(LevelId(level)), Absent)) == Success(RoastRequest(t, mood, level, None))
  {
    var p := Form(Text(t), Text(MoodId(mood)), Text(LevelId(level)), Absent);
    assert Validate(p).Success? by {
      SpaceNotForbidden(t);
      LevelIdsExact(LevelId(level), level);
      MoodIdsExact(MoodId(mood), mood);
      AcceptsExactly(p);
    }
    LevelIdsExact(LevelId(level), level);
    MoodIdsExact(MoodId(mood), mood);
  }

  /** `<script` is refused at any position and in any letter case. */
  lemma ScriptForbidden(t: string, i: nat)
    requires OccursAt(AsciiLower(t), "<script", i)
    ensures Forbidden(t)
  {
    assert Denylist[0] == "<script";
    MatchesAtIff(t, i, Denylist[0]);
  }

  /**
   * The broad entry `<u` refuses every tag whose name starts with u or U
   * (`<ul>`, `<U`, `<underline>`), not only `<u>`.
   */
  lemma BroadEntryForbidden(t: string, i: nat)
    requires i + 1 < |t| && t[i] == '<' && LowerChar(t[i + 1]) == 'u'
    ensures Forbidden(t)
  {
    assert Denylist[52] == "<u";
    MatchesAtPointwise(t, i, Denylist[52]);
  }

  /**
   * `<` followed by at least one code unit, and neither `<b>` nor `</b`:
   * an entry of this shape can only match where t has `<` and, right after
   * it, neither `b>` nor `/b`.
   */
  predicate Shaped(d: string)
  {
    && |d| >= 2 && d[0] == '<'
    && (d[1] == 'b' ==> |d| >= 3 && d[2] != '>')
    && (d[1] == '/' ==> |d| >= 3 && d[2] != 'b')
  }

  lemma FirstHalfShaped(j: int)
    requires 0 <= j < |DenylistFirstHalf|
    ensures Shaped(DenylistFirstHalf[j])
  {
  }

  lemma SecondHalfShaped(j: int)
    requires 0 <= j < |DenylistSecondHalf|
    ensures Shaped(DenylistSecondHalf[j])
  {
  }

  /** Every entry opens a tag: it is `<` and at least one more code unit, and none is `<b>` or `</b`. */
  lemma DenylistShape(j: int)
    requires 0 <= j < |Denylist|
    ensures Shaped(Denylist[j])
  {
    if j < |DenylistFirstHalf| {
      FirstHalfShaped(j);
    } else {
      SecondHalfShaped(j - |DenylistFirstHalf|);
    }
  }

  /** Every match of the pattern starts at a `<` of the tweet. */
  lemma {:induction false} MatchStartsAtAngle(t: string, i: nat, j: int)
    requires 0 <= j < |Denylist| && MatchesAt(t, i, Denylist[j])
    ensures i < |t| && t[i] == '<'
  {
    DenylistShape(j);
  }

  lemma BoldAt(t: string, i: nat, d: string)
    requires t == "<b>\"test\"</b>" && Shaped(d)
    ensures !MatchesAt(t, i, d)
  {
    if i < |t| && t[i] == '<' {
      assert i == 0 || i == 9;
      assert !MatchesAt(t, i + 1, d[1..]);
    }
  }

  /** `<b>` is not listed, so bold markup passes the filter. */
  lemma BoldNotForbidden()
    ensures !Forbidden("<b>\"test\"</b>")
  {
    var t := "<b>\"test\"</b>";
    forall j, i | 0 <= j < |Denylist| && 0 <= i <= |t|
      ensures !MatchesAt(t, i, Denylist[j])
    {
      DenylistShape(j);
      BoldAt(t, i, Denylist[j]);
    }
  }

  /** A tweet of white space only never matches: every entry starts with `<`. */
  lemma SpaceNotForbidden(t: string)
    requires AllSpace(t)
    ensures !Forbidden(t)
  {
    forall j, i | 0 <= j < |Denylist| && 0 <= i <= |t|
      ensures !MatchesAt(t, i, Denylist[j])
    {
      if MatchesAt(t, i, Denylist[j]) {
        MatchStartsAtAngle(t, i, j);
      }
    }
  }

  /** A name with digits and an underscore passes; so do the empty handle and no handle. */
  lemma HandleAccepted()
    ensures HandleIssues(Text("roastlord_99")) == []
    ensures HandleIssues(Text("")) == [] && HandleIssues(Absent) == []
  {
  }

  /** A space or an `@` anywhere fails the pattern; more than 30 characters fails the length rule first. */
  lemma HandleRejected(h: string)
    ensures (' ' in h || '@' in h) ==> HandleInvalid in HandleIssues(Text(h))
    ensures |h| > MaxHandleLength ==> HandleIssues(Text(h))[0] == HandleTooLong
  {
    if ' ' in h || '@' in h {
      var k :| 0 <= k < |h| && (h[k] == ' ' || h[k] == '@');
      assert !IsHandleChar(h[k]);
    }
  }
}
