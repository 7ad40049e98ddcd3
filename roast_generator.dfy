/**
 * The offline roast generator (lib/roast-generator.ts): three roasts picked
 * from a fixed table of templates for a (level, mood) pair, in shuffled
 * order, each possibly rewritten into a personalised salutation or replaced
 * by a template that quotes a word of the tweet.
 *
 * `Math.random` is replaced by injected draws: the comparator answers of the
 * shuffle, and per slot the outcomes of the three threshold tests and the
 * three index picks.
 */
module RoastGenerator {
  import opened JsString
  import opened Constants

  /** `RoastResult` */
  datatype RoastResult = RoastResult(text: string, level: RoastLevel, mood: Mood)

  /**
   * The random outcomes one slot of the loop uses. The tests `> 0.5`,
   * `> 0.7`, `> 0.5` become booleans; each `Math.floor(Math.random() * n)`
   * becomes a number taken modulo n, so that every index in [0, n) can occur.
   */
  datatype SlotDraws = SlotDraws(
    personalize: bool,
    prefix: nat,
    mention: bool,
    keyword: nat,
    replace: bool,
    contextual: nat)

  /** `roastTemplates.easy.angry` */
  const EasyAngry: seq<string> := [
    "This tweet is mildly annoying, like a mosquito that won't leave you alone.",
    "I've seen more excitement in a grocery store receipt.",
    "This take is about as hot as lukewarm coffee."
  ]

  /** `roastTemplates.easy.happy` */
  const EasyHappy: seq<string> := [
    "Aww, this tweet is trying so hard to be relevant! \U{1F60A}",
    "Bless your heart for sharing this with the world!",
    "This is cute in the way a participation trophy is cute!"
  ]

  /** `roastTemplates.easy.humorous` */
  const EasyHumorous: seq<string> := [
    "This tweet walked into a bar... and nobody noticed.",
    "I'd roast this harder, but I don't want to overcook something already well-done.",
    "This tweet is like a dad joke - it thinks it's funnier than it is."
  ]

  /** `roastTemplates.easy.sarcastic` */
  const EasySarcastic: seq<string> := [
    "Oh wow, what a groundbreaking observation. Truly revolutionary.",
    "I'm sure this will age like fine wine... or milk left in the sun.",
    "Such wisdom. I'm definitely taking notes here."
  ]

  /** `roastTemplates.medium.angry` */
  const MediumAngry: seq<string> := [
    "This tweet makes me want to throw my phone into a volcano.",
    "The audacity of posting this publicly is honestly impressive.",
    "This is the kind of content that makes aliens avoid Earth."
  ]

  /** `roastTemplates.medium.happy` */
  const MediumHappy: seq<string> := [
    "This tweet is so precious! Like a child's first attempt at philosophy! \U{1F31F}",
    "I love how confident you are about being completely wrong!",
    "This radiates the same energy as someone wearing socks with sandals!"
  ]

  /** `roastTemplates.medium.humorous` */
  const MediumHumorous: seq<string> := [
    "This tweet just called - it wants its credibility back.",
    "I've seen more depth in a puddle after a light drizzle.",
    "This is the tweet equivalent of bringing a spoon to a knife fight."
  ]

  /** `roastTemplates.medium.sarcastic` */
  const MediumSarcastic: seq<string> := [
    "Ah yes, because this is exactly what the internet was missing.",
    "I'm sure your high school English teacher is very proud right now.",
    "This tweet really said 'hold my beer' to common sense."
  ]

  /** `roastTemplates.hard.angry` */
  const HardAngry: seq<string> := [
    "This tweet is a crime against humanity and should be tried at The Hague.",
    "I've lost brain cells just reading this digital disaster.",
    "This is why aliens won't visit us - they've seen your tweets."
  ]

  /** `roastTemplates.hard.happy` */
  const HardHappy: seq<string> := [
    "This tweet is adorably wrong! Like watching someone confidently walk into a glass door! \U{2728}",
    "I'm genuinely impressed by your ability to be this confidently incorrect!",
    "This has the same energy as someone explaining the internet to Einstein!"
  ]

  /** `roastTemplates.hard.humorous` */
  const HardHumorous: seq<string> := [
    "This tweet just got roasted harder than a marshmallow at a bonfire.",
    "I'd explain why this is wrong, but I don't have that kind of time or crayons.",
    "This tweet is the reason why Twitter has a character limit - to minimize the damage."
  ]

  /** `roastTemplates.hard.sarcastic` */
  const HardSarcastic: seq<string> := [
    "Congratulations, you've just set the bar so low it's practically underground.",
    "This tweet is a masterclass in how to be wrong with maximum confidence.",
    "I'm sure this seemed brilliant in your head. That's where it should have stayed."
  ]

  /** `roastTemplates[level][mood]` */
  function Templates(level: RoastLevel, mood: Mood): (r: seq<string>)
    ensures |r| == 3
  {
    match (level, mood)
    case (Easy, Angry) => EasyAngry
    case (Easy, Happy) => EasyHappy
    case (Easy, Humorous) => EasyHumorous
    case (Easy, Sarcastic) => EasySarcastic
    case (Medium, Angry) => MediumAngry
    case (Medium, Happy) => MediumHappy
    case (Medium, Humorous) => MediumHumorous
    case (Medium, Sarcastic) => MediumSarcastic
    case (Hard, Angry) => HardAngry
    case (Hard, Happy) => HardHappy
    case (Hard, Humorous) => HardHumorous
    case (Hard, Sarcastic) => HardSarcastic
  }

  predicate Distinct(s: seq<string>)
  {
    forall i, j :: 0 <= i < j < |s| ==> s[i] != s[j]
  }

  /** Every (level, mood) pair has exactly three templates, no two alike. */
  lemma TemplatesDistinct(level: RoastLevel, mood: Mood)
    ensures |Templates(level, mood)| == 3 && Distinct(Templates(level, mood))
  {
  }

  /** The text before and after the `{handle}` placeholder in each personalised prefix. */
  const PrefixFrames: seq<(string, string)> := [
    ("Hey @", ","),
    ("@", ", sweetie,"),
    ("Listen @", ","),
    ("@", ", bless your heart,"),
    ("Oh @", ",")
  ]

  /** The k-th personalised prefix: its frame around the placeholder. */
  function Prefix(k: nat): string
    requires k < |PrefixFrames|
  {
    PrefixFrames[k].0 + HandlePlaceholder + PrefixFrames[k].1
  }

  /** `personalizedPrefixes`: "Hey @{handle},", "@{handle}, sweetie,", and so on. */
  const Prefixes: seq<string> := [Prefix(0), Prefix(1), Prefix(2), Prefix(3), Prefix(4)]

  const HandlePlaceholder := "{handle}"

  /** The words the keyword filter drops (`been` is listed twice, as in the filter). */
  const Stoplist: seq<string> := ["this", "that", "with", "have", "will", "been", "from", "they", "know", "want", "been"]

  /** `prefix.replace("{handle}", twitterHandle.replace("@", "")) + " " + template.toLowerCase()` */
  function Personalise(twitterHandle: string, prefix: string, template: string): string
  {
    ReplaceFirst(prefix, HandlePlaceholder, ReplaceFirst(twitterHandle, "@", "")) + " " + AsciiLower(template)
  }

  /** `words.filter((word) => word.length > 4 && !stoplist.includes(word))` */
  function KeptWords(words: seq<string>): seq<string>
  {
    if words == [] then []
    else if |words[0]| > 4 && words[0] !in Stoplist then [words[0]] + KeptWords(words[1..])
    else KeptWords(words[1..])
  }

  /** The words of more than four code units, in order: the filter without its stoplist. */
  function LongWords(words: seq<string>): seq<string>
  {
    if words == [] then []
    else if |words[0]| > 4 then [words[0]] + LongWords(words[1..])
    else LongWords(words[1..])
  }

  /** LongWords keeps exactly the words longer than four code units. */
  lemma {:induction false} LongWordsIff(words: seq<string>)
    ensures forall w :: w in LongWords(words) <==> w in words && |w| > 4
    decreases |words|
  {
    if words != [] {
      LongWordsIff(words[1..]);
      assert words == [words[0]] + words[1..];
    }
  }

  /** Every stoplist word has four letters, so the stoplist never removes a word the length test keeps. */
  lemma {:induction false} StoplistIrrelevant(words: seq<string>)
    ensures KeptWords(words) == LongWords(words)
    decreases |words|
  {
    if words != [] {
      assert forall k :: 0 <= k < |Stoplist| ==> |Stoplist[k]| == 4;
      StoplistIrrelevant(words[1..]);
    }
  }

  /** `keyWords`: the words of the lower-cased tweet split on single spaces that pass the filter. */
  function Keywords(tweetText: string): seq<string>
  {
    KeptWords(Split(AsciiLower(tweetText), ' '))
  }

  /** The keywords are exactly the pieces of the lower-cased tweet, between single spaces, longer than four code units. */
  lemma KeywordsAreLongWords(tweetText: string)
    ensures Keywords(tweetText) == LongWords(Split(AsciiLower(tweetText), ' '))
    ensures forall w :: w in Keywords(tweetText) <==> w in Split(AsciiLower(tweetText), ' ') && |w| > 4
    ensures forall w :: w in Keywords(tweetText) ==> ' ' !in w
  {
    var words := Split(AsciiLower(tweetText), ' ');
    StoplistIrrelevant(words);
    LongWordsIff(words);
  }

  /** The text around the quoted word in each of the three contextual templates. */
  const ContextualFrames: seq<(string, string)> := [
    ("Imagine thinking ", " was worth sharing with the world."),
    ("The way you used ", " tells me everything I need to know."),
    ("", " - and I cannot stress this enough - is not the flex you think it is.")
  ]

  function Quoted(word: string): string
  {
    "\"" + word + "\""
  }

  /** `contextualRoasts` for the chosen word. */
  function ContextualRoasts(word: string): (r: seq<string>)
    ensures |r| == 3
  {
    seq(3, k requires 0 <= k < 3 => ContextualFrames[k].0 + Quoted(word) + ContextualFrames[k].1)
  }

  /** The draws of a slot lead to the contextual replacement. */
  predicate Contextual(tweetText: string, d: SlotDraws)
  {
    |tweetText| > 0 && d.mention && |Keywords(tweetText)| > 0 && d.replace
  }

  /** The text after the personalisation step: the personalised template, or the template itself. */
  function Salutation(twitterHandle: string, template: string, d: SlotDraws): string
  {
    if twitterHandle != "" && d.personalize
    then Personalise(twitterHandle, Prefixes[d.prefix % |Prefixes|], template)
    else template
  }

  /** The contextual template the draws pick, quoting the keyword they pick. */
  function ContextualText(tweetText: string, d: SlotDraws): string
    requires Contextual(tweetText, d)
  {
    var words := Keywords(tweetText);
    ContextualRoasts(words[d.keyword % |words|])[d.contextual % 3]
  }

  /** The text one slot of the loop produces from its template and its draws. */
  function SlotText(tweetText: string, twitterHandle: string, template: string, d: SlotDraws): string
  {
    if Contextual(tweetText, d) then ContextualText(tweetText, d) else Salutation(twitterHandle, template, d)
  }

  /** Exchanges the entries at j - 1 and j. */
  function SwapDown(s: seq<string>, j: nat): (r: seq<string>)
    requires 0 < j < |s|
    ensures |r| == |s|
  {
    s[j - 1 := s[j]][j := s[j - 1]]
  }

  /**
   * One insertion step of the sort: the entry at j moves left for as long
   * as the comparator, asked once per comparison, says that it is out of
   * order with its left neighbour. `asked` is the number of the next
   * answer; the result is the new order and the number of the answer
   * after the last one read.
   */
  function Sink(s: seq<string>, j: nat, outOfOrder: nat -> bool, asked: nat): (r: (seq<string>, nat))
    requires j < |s|
    ensures |r.0| == |s|
    decreases j
  {
    if j == 0 then (s, asked)
    else if !outOfOrder(asked) then (s, asked + 1)
    else Sink(SwapDown(s, j), j - 1, outOfOrder, asked + 1)
  }

  /** The insertion steps for the entries from i on. */
  function SortFrom(s: seq<string>, i: nat, outOfOrder: nat -> bool, asked: nat): (r: seq<string>)
    requires i <= |s|
    ensures |r| == |s|
    decreases |s| - i
  {
    if i == |s| then s
    else
      var (next, nextAsked) := Sink(s, i, outOfOrder, asked);
      SortFrom(next, i + 1, outOfOrder, nextAsked)
  }

  /**
   * The order a sort of the templates ends in when `outOfOrder(n)` is the
   * comparator's answer to its n-th comparison.
   */
  function AnswerSort(templates: seq<string>, outOfOrder: nat -> bool): seq<string>
  {
    SortFrom(templates, 0, outOfOrder, 0)
  }

  /**
   * `[...templates].sort(() => Math.random() - 0.5)`: the templates are
   * copied into a fresh array, which an insertion sort reorders in place;
   * every comparison reads the next of the comparator's answers.
   */
  method Shuffle(templates: seq<string>, outOfOrder: nat -> bool) returns (shuffled: seq<string>)
    ensures shuffled == AnswerSort(templates, outOfOrder)
    ensures |shuffled| == |templates|
    ensures multiset(shuffled) == multiset(templates)
    ensures (forall n :: !outOfOrder(n)) ==> shuffled == templates
  {
    var a := new string[|templates|](k requires 0 <= k < |templates| => templates[k]);
    assert a[..] == templates;
    var asked := 0;
    var i := 0;
    while i < a.Length
      invariant 0 <= i <= a.Length
      invariant SortFrom(a[..], i, outOfOrder, asked) == AnswerSort(templates, outOfOrder)
    {
      ghost var start, startAsked := a[..], asked;
      var j := i;
      while j > 0
        invariant 0 <= j <= i
        invariant Sink(a[..], j, outOfOrder, asked) == Sink(start, i, outOfOrder, startAsked)
      {
        var swap := outOfOrder(asked);
        asked := asked + 1;
        if !swap {
          break;
        }
        a[j - 1], a[j] := a[j], a[j - 1];
        j := j - 1;
      }
      assert Sink(start, i, outOfOrder, startAsked) == (a[..], asked);
      i := i + 1;
    }
    shuffled := a[..];
    SortFromPermutes(templates, 0, outOfOrder, 0);
    if forall n :: !outOfOrder(n) {
      SortFromKeeps(templates, 0, outOfOrder, 0);
    }
  }

  /** A comparator that never asks for a swap leaves the order as it was. */
  lemma {:induction false} SortFromKeeps(s: seq<string>, i: nat, outOfOrder: nat -> bool, asked: nat)
    requires i <= |s| && forall n :: !outOfOrder(n)
    ensures SortFrom(s, i, outOfOrder, asked) == s
    decreases |s| - i
  {
    if i < |s| {
      assert Sink(s, i, outOfOrder, asked).0 == s;
      SortFromKeeps(s, i + 1, outOfOrder, Sink(s, i, outOfOrder, asked).1);
    }
  }

  /** Exchanging two neighbours keeps the entries. */
  lemma SwapDownPermutes(s: seq<string>, j: nat)
    requires 0 < j < |s|
    ensures multiset(SwapDown(s, j)) == multiset(s)
  {
    var r := SwapDown(s, j);
    assert s == s[..j - 1] + [s[j - 1], s[j]] + s[j + 1..];
    assert r == s[..j - 1] + [s[j], s[j - 1]] + s[j + 1..];
  }

  lemma {:induction false} SinkPermutes(s: seq<string>, j: nat, outOfOrder: nat -> bool, asked: nat)
    requires j < |s|
    ensures multiset(Sink(s, j, outOfOrder, asked).0) == multiset(s)
    decreases j
  {
    if j > 0 && outOfOrder(asked) {
      SwapDownPermutes(s, j);
      SinkPermutes(SwapDown(s, j), j - 1, outOfOrder, asked + 1);
    }
  }

  /** The sort only reorders: whatever the answers, the outcome is a permutation of its input. */
  lemma {:induction false} SortFromPermutes(s: seq<string>, i: nat, outOfOrder: nat -> bool, asked: nat)
    requires i <= |s|
    ensures multiset(SortFrom(s, i, outOfOrder, asked)) == multiset(s)
    decreases |s| - i
  {
    if i < |s| {
      var (next, nextAsked) := Sink(s, i, outOfOrder, asked);
      SinkPermutes(s, i, outOfOrder, asked);
      SortFromPermutes(next, i + 1, outOfOrder, nextAsked);
    }
  }

  /** Every order of three templates is the outcome of some sequence of comparator answers. */
  lemma EveryOrderReachable(t: seq<string>, x: nat, y: nat, z: nat)
    requires |t| == 3 && {x, y, z} == {0, 1, 2}
    ensures exists outOfOrder: nat -> bool :: AnswerSort(t, outOfOrder) == [t[x], t[y], t[z]]
  {
    var f: nat -> bool;
    if x == 0 && y == 1 {
      f := n => false;
    } else if x == 0 {
      f := n => n == 1;
    } else if x == 1 && y == 0 {
      f := n => n == 0;
    } else if x == 1 {
      f := n => n <= 1;
    } else if y == 0 {
      f := n => n == 1 || n == 2;
    } else {
      f := n => n <= 2;
    }
    AnswerSortOfThree(t, f);
    assert AnswerSort(t, f) == [t[x], t[y], t[z]];
  }

  /** The sort of three templates, comparison by comparison: answer 0 orders the first two, answers 1 and 2 place the third. */
  lemma AnswerSortOfThree(t: seq<string>, f: nat -> bool)
    requires |t| == 3
    ensures var s1 := if f(0) then [t[1], t[0], t[2]] else t;
            AnswerSort(t, f) == if !f(1) then s1 else if !f(2) then [s1[0], s1[2], s1[1]] else [s1[2], s1[0], s1[1]]
  {
    var s1 := if f(0) then [t[1], t[0], t[2]] else t;
    assert Sink(t, 0, f, 0) == (t, 0);
    assert Sink(t, 1, f, 0) == (s1, 1) by {
      if f(0) {
        assert SwapDown(t, 1) == s1;
      }
    }
    var s2 := if !f(1) then s1 else if !f(2) then [s1[0], s1[2], s1[1]] else [s1[2], s1[0], s1[1]];
    assert Sink(s1, 2, f, 1) == (s2, if f(1) then 3 else 2) by {
      if f(1) {
        var u := SwapDown(s1, 2);
        assert u == [s1[0], s1[2], s1[1]];
        if f(2) {
          assert SwapDown(u, 1) == s2;
        }
      }
    }
    calc {
      AnswerSort(t, f);
      SortFrom(t, 0, f, 0);
      SortFrom(t, 1, f, 0);
      SortFrom(s1, 2, f, 1);
      SortFrom(s2, 3, f, if f(1) then 3 else 2);
      s2;
    }
  }

  /** A sequence without repeats holds each value at most once. */
  lemma {:induction false} DistinctCount(s: seq<string>, x: string)
    requires Distinct(s)
    ensures multiset(s)[x] <= 1
    decreases |s|
  {
    if s != [] {
      assert s == [s[0]] + s[1..];
      assert Distinct(s[1..]);
      DistinctCount(s[1..], x);
      if x == s[0] {
        assert x !in s[1..];
      }
    }
  }

  /** A permutation of a sequence without repeats has none either. */
  lemma PermutationDistinct(a: seq<string>, b: seq<string>)
    requires multiset(a) == multiset(b) && Distinct(a)
    ensures Distinct(b)
  {
    forall i, j | 0 <= i < j < |b|
      ensures b[i] != b[j]
    {
      if b[i] == b[j] {
        var x := b[i];
        assert b == b[..j] + b[j..];
        assert x in b[..j] && x in b[j..];
        DistinctCount(a, x);
      }
    }
  }

  /** Every ordering of three distinct templates is the outcome of some sequence of comparator answers. */
  lemma EveryPermutationReachable(t: seq<string>, p: seq<string>)
    requires |t| == 3 && Distinct(t) && multiset(p) == multiset(t)
    ensures exists outOfOrder: nat -> bool :: AnswerSort(t, outOfOrder) == p
  {
    assert |p| == |multiset(p)| == 3;
    PermutationDistinct(t, p);
    assert p[0] in multiset(t) && p[1] in multiset(t) && p[2] in multiset(t);
    var x :| 0 <= x < 3 && t[x] == p[0];
    var y :| 0 <= y < 3 && t[y] == p[1];
    var z :| 0 <= z < 3 && t[z] == p[2];
    assert {x, y, z} == {0, 1, 2};
    EveryOrderReachable(t, x, y, z);
    assert p == [t[x], t[y], t[z]];
  }

  /**
   * `generateRoasts(tweetText, twitterHandle, level, mood)`: three results
   * in slot order, each stamped with the level and the mood, slot i made
   * from template `shuffled[i % 3]` of a permutation of the pair's
   * templates, whose three entries differ.
   */
  method GenerateRoasts(tweetText: string, twitterHandle: string, level: RoastLevel, mood: Mood,
                        outOfOrder: nat -> bool, draw: nat -> SlotDraws)
    returns (results: seq<RoastResult>, shuffled: seq<string>)
    ensures |results| == 3
    ensures forall i :: 0 <= i < 3 ==> results[i].level == level && results[i].mood == mood
    ensures shuffled == AnswerSort(Templates(level, mood), outOfOrder)
    ensures |shuffled| == 3 && multiset(shuffled) == multiset(Templates(level, mood)) && Distinct(shuffled)
    ensures forall i :: 0 <= i < 3 ==> results[i].text == SlotText(tweetText, twitterHandle, shuffled[i % 3], draw(i))
  {
    var templates := Templates(level, mood);
    shuffled := Shuffle(templates, outOfOrder);
    results := FillSlots(tweetText, twitterHandle, level, mood, shuffled, draw);
    TemplatesDistinct(level, mood);
    PermutationDistinct(templates, shuffled);
  }

  /** The loop of `generateRoasts` over its three slots, given the shuffled templates. */
  method FillSlots(tweetText: string, twitterHandle: string, level: RoastLevel, mood: Mood,
                   shuffled: seq<string>, draw: nat -> SlotDraws)
    returns (results: seq<RoastResult>)
    requires |shuffled| == 3
    ensures |results| == 3
    ensures forall i :: 0 <= i < 3 ==> results[i] == RoastResult(SlotText(tweetText, twitterHandle, shuffled[i % 3], draw(i)), level, mood)
  {
    results := [];
    for i := 0 to 3
      invariant |results| == i
      invariant forall k :: 0 <= k < i ==> results[k] == RoastResult(SlotText(tweetText, twitterHandle, shuffled[k % 3], draw(k)), level, mood)
    {
      var d := draw(i);
      var roastText := shuffled[i % |shuffled|];
      if twitterHandle != "" && d.personalize {
        var prefix := Prefixes[d.prefix % |Prefixes|];
        var cleanHandle := ReplaceFirst(twitterHandle, "@", "");
        roastText := ReplaceFirst(prefix, HandlePlaceholder, cleanHandle) + " " + AsciiLower(roastText);
      }
      assert roastText == Salutation(twitterHandle, shuffled[i % 3], d);
      if |tweetText| > 0 && d.mention {
        var keyWords := Keywords(tweetText);
        if |keyWords| > 0 {
          var randomWord := keyWords[d.keyword % |keyWords|];
          var contextualRoasts := ContextualRoasts(randomWord);
          if d.replace {
            roastText := contextualRoasts[d.contextual % |contextualRoasts|];
          }
        }
      }
      assert roastText == SlotText(tweetText, twitterHandle, shuffled[i % 3], d);
      results := results + [RoastResult(roastText, level, mood)];
    }
  }

  /**
   * Every text is a template of the pair, a personalised variant of one
   * with one of the five prefixes, or a contextual template quoting a
   * keyword of the tweet.
   */
  lemma SlotTextForms(tweetText: string, twitterHandle: string, template: string, d: SlotDraws)
    ensures var t := SlotText(tweetText, twitterHandle, template, d);
            || t == template
            || (exists k :: 0 <= k < |Prefixes| && t == Personalise(twitterHandle, Prefixes[k], template))
            || (exists w :: w in Keywords(tweetText) && t in ContextualRoasts(w))
  {
    if Contextual(tweetText, d) {
      var words := Keywords(tweetText);
      assert words[d.keyword % |words|] in words;
    } else if twitterHandle != "" && d.personalize {
      var k := d.prefix % |Prefixes|;
      assert SlotText(tweetText, twitterHandle, template, d) == Personalise(twitterHandle, Prefixes[k], template);
    }
  }

  /** Without a handle, or without the personalisation draw, a slot keeps its template unless it turns contextual. */
  lemma PersonalisedOnlyWithHandle(tweetText: string, twitterHandle: string, template: string, d: SlotDraws)
    requires twitterHandle == "" || !d.personalize
    requires !Contextual(tweetText, d)
    ensures SlotText(tweetText, twitterHandle, template, d) == template
  {
  }

  /**
   * The contextual replacement discards the template and any
   * personalisation: it needs a non-empty tweet, the two draws and a
   * keyword, and then the handle and the template do not matter.
   */
  lemma ContextualDiscards(tweetText: string, handle1: string, template1: string, handle2: string, template2: string, d: SlotDraws)
    requires Contextual(tweetText, d)
    ensures SlotText(tweetText, handle1, template1, d) == SlotText(tweetText, handle2, template2, d)
    ensures exists w :: w in Keywords(tweetText) && SlotText(tweetText, handle1, template1, d) in ContextualRoasts(w)
  {
    var words := Keywords(tweetText);
    assert words[d.keyword % |words|] in words;
  }

  /** No prefix has a `{` before its placeholder, so the placeholder is the first match. */
  lemma PrefixLeadsOpenFree(k: int)
    requires 0 <= k < |PrefixFrames|
    ensures '{' !in PrefixFrames[k].0
  {
    if k == 0 {
      assert PrefixFrames[0].0 == "Hey @";
    } else if k == 2 {
      assert PrefixFrames[2].0 == "Listen @";
    } else if k == 4 {
      assert PrefixFrames[4].0 == "Oh @";
    } else {
      assert PrefixFrames[k].0 == "@";
    }
  }

  /** A string without `@` is left alone by `replace("@", "")`, and a leading `@` is removed. */
  lemma CleanHandle(h: string)
    requires '@' !in h
    ensures ReplaceFirst(h, "@", "") == h
    ensures ReplaceFirst("@" + h, "@", "") == h
  {
    forall i | 0 <= i < |h|
      ensures !OccursAt(h, "@", i)
    {
      assert h[i..i + 1][0] == h[i];
    }
    ContainsIff(h, "@");
    var s := "@" + h;
    assert OccursAt(s, "@", 0);
    ContainsIff(s, "@");
    SubstituteLiteral("", "@", [], h);
    assert s[1..] == h;
  }

  /** `replace("@", "")` removes the first `@` of a handle and nothing else. */
  lemma CleanHandleFirstAt(a: string, b: string)
    requires '@' !in a
    ensures ReplaceFirst(a + "@" + b, "@", "") == a + b
  {
    var at := "@";
    assert at != [] && at[0] == '@';
    ReplaceFirstAfter(a, at, b, "");
    DropEmpty(a, b);
  }

  /** Putting nothing between two strings. */
  lemma DropEmpty(a: string, b: string)
    ensures a + "" + b == a + b
  {
    assert a + "" == a;
  }

  /**
   * When the cleaned handle holds no `$`, the personalised text is the
   * prefix with the cleaned handle in place of `{handle}`, a space and the
   * lower-cased template.
   */
  lemma PersonalisedText(twitterHandle: string, k: int, template: string)
    requires 0 <= k < |Prefixes|
    requires '$' !in ReplaceFirst(twitterHandle, "@", "")
    ensures Personalise(twitterHandle, Prefixes[k], template)
            == PrefixFrames[k].0 + ReplaceFirst(twitterHandle, "@", "") + PrefixFrames[k].1 + " " + AsciiLower(template)
  {
    assert Prefixes[k] == Prefix(k);
    PrefixLeadsOpenFree(k);
    ReplaceFirstAfter(PrefixFrames[k].0, HandlePlaceholder, PrefixFrames[k].1, ReplaceFirst(twitterHandle, "@", ""));
  }

  /**
   * The handle is a replacement pattern, not plain text: a handle `$&`
   * puts the matched `{handle}` back in place.
   */
  lemma HandleIsReplacementPattern(prefix: string, template: string)
    ensures Personalise("$&", prefix, template) == prefix + " " + AsciiLower(template)
  {
    CleanHandle("$&");
    ReplaceWithMatch(prefix, HandlePlaceholder);
  }

  /** Each contextual template quotes the word between double quotes. */
  lemma ContextualQuotes(word: string, k: int)
    requires 0 <= k < 3
    ensures Contains(ContextualRoasts(word)[k], Quoted(word))
  {
    var (lead, tail) := ContextualFrames[k];
    var q := Quoted(word);
    var r := ContextualRoasts(word)[k];
    assert r == lead + q + tail;
    assert r[|lead|..|lead| + |q|] == q;
    assert OccursAt(r, q, |lead|);
    ContainsIff(r, q);
  }
}
