# Roast pipeline model

A Dafny model of the text-processing core of a tweet-roasting web
application. There are three parts:

- **The server action `generateRoasts`** (`app/actions/generate-roasts.ts`).
  - It validates the submitted form against `roastSchema`:
    - a tweet of 1 to 300 code units with no tag from a case-insensitive denylist;
    - a mood id and a level id from the two tables;
    - an optional handle of at most 30 characters from `[A-Za-z0-9_]`.
  - It escapes the trimmed tweet and handle with `escapeHTML` and builds the two prompts.
  - It hands them to the chat-completion service.
  - It reads the reply as a JSON array of strings, or else as lines.
  - It escapes every roast and cuts it to 300 code units, and accepts exactly three.
  - Otherwise it answers with one of a fixed set of error messages.
- **The offline generator `generateRoasts`** (`lib/roast-generator.ts`).
  - It takes the three templates of a (level, mood) pair and shuffles them.
  - For each of three slots it may rewrite the template:
    - into a personalised salutation with one of five prefixes;
    - or replace it by a template that quotes a keyword of the tweet.
- **The two tables** `ROAST_LEVELS` and `MOODS` (`lib/constants.ts`). Their ids make up the `RoastLevel` and `Mood` types and the validator's enums.

Modules:

- `Wrappers`: `Option` and `Result`.
- `JsString`: the JavaScript string built-ins the core relies on:
  - `toLowerCase`, restricted to ASCII;
  - `indexOf`;
  - `replace` with a string pattern, which replaces the first occurrence only and interprets `$$`, `$&`, `` $` `` and `$'` in the replacement;
  - `trim`, with the ECMAScript white-space set;
  - `split` on one code unit;
  - `split(/\n+/)`;
  - `filter(Boolean)` on a list of strings.
- `Constants`: the tables and the two enumerations.
- `HtmlEscape`: `escapeHTML` and an unescaper used as its inverse.
- `RoastSchema`: the validation rules.
  - Issues are collected field by field in the order tweet, mood, roastLevel, twitterHandle.
  - A failed rule does not stop the later ones, and the caller reports the first issue.
- `RoastAction`: the server action.
  - The completion call is the parameter `complete`, and `JSON.parse` is the parameter `parseJson`.
- `RoastGenerator`: the offline generator.
  - `Math.random` becomes injected draws: the comparator answers of the shuffle, and per slot three booleans and three indices.
  - The template array is copied into a fresh array and sorted in place by an insertion sort; every comparison reads the next of the comparator's answers.

Two string constants of the action hold mis-encoded emoji, four in all: the system prompt, with one emoji for each of its three labels, and the quota message, with one. They are kept code unit for code unit as the file holds them.

## Model

| member | source | states |
|---|---|---|
| Constants.TableIds | lib/constants.ts:1-13 | The level ids are exactly easy, medium, hard in that order; the mood ids are exactly angry, happy, humorous, sarcastic in that order |
| Constants.TablesWellFormed | lib/constants.ts:1-13 | Ids are pairwise distinct within each table, and every row has a non-empty emoji, label and description |
| Constants.LevelIdsExact | lib/constants.ts:6 | `RoastLevel` is exactly the set of row ids: every level's id is a row id, every row id names some level, and looking the id up gives the level back |
| Constants.MoodIdsExact | lib/constants.ts:14 | `Mood` is exactly the set of row ids: every mood's id is a row id, every row id names some mood, and looking the id up gives the mood back |
| Constants.Ids | app/actions/generate-roasts.ts:19-20 | `table.map(e => e.id)`: one id per row, entry k being row k's id |
| Constants.FindId | app/actions/generate-roasts.ts:19-20 | Answers -1 exactly when the id is not among the table's ids; otherwise the first row carrying that id |
| Constants.LevelOfId | app/actions/generate-roasts.ts:20 | The level enum accepts an id exactly when it is a row id of ROAST_LEVELS, and yields the level with that id |
| Constants.MoodOfId | app/actions/generate-roasts.ts:19 | The mood enum accepts an id exactly when it is a row id of MOODS, and yields the mood with that id |
| HtmlEscape.Escape | app/actions/generate-roasts.ts:30-39 | The output is at least as long as the input and holds no raw `<`, `>`, `'`, `"` or backtick |
| HtmlEscape.AmpersandsStartEntities | app/actions/generate-roasts.ts:30-39 | Every `&` of the output begins one of `&amp; &lt; &gt; &#39; &quot; &#96;` |
| HtmlEscape.EscapeConcat | app/actions/generate-roasts.ts:31-38 | Escaping distributes over concatenation: it is a per-character map |
| HtmlEscape.EscapeFixedIff | app/actions/generate-roasts.ts:31-38 | A string is left unchanged exactly when it holds none of the six special characters |
| HtmlEscape.EscapeNotIdempotent | app/actions/generate-roasts.ts:32 | `&` escapes to `&amp;`, and escaping again gives `&amp;amp;` |
| HtmlEscape.UnescapeEscape | app/actions/generate-roasts.ts:30-39 | Decoding the six entities gives back the escaped string: escaping loses nothing |
| HtmlEscape.EscapeInjective | app/actions/generate-roasts.ts:30-39 | Two strings with the same escape are equal |
| JsString.AsciiLower | lib/roast-generator.ts:106 | Same length, each code unit lower-cased |
| JsString.IndexOf | lib/roast-generator.ts:100-101 | -1 exactly when the pattern does not occur; otherwise a position where it occurs, with no occurrence before it |
| JsString.SubstituteLiteral | lib/roast-generator.ts:101 | A replacement text without `$` is inserted as it is |
| JsString.ReplaceFirst | lib/roast-generator.ts:100-101 | Without an occurrence the string is unchanged; with one and a `$`-free replacement, exactly the first occurrence is replaced |
| JsString.ReplaceFirstAfter | lib/roast-generator.ts:101 | When the pattern's first character does not occur before it, the pattern between a and b is the one replaced: the result is a + replacement + b |
| JsString.ReplaceWithMatch | lib/roast-generator.ts:101 | The replacement `$&` reinserts the match, so the string is unchanged |
| JsString.Trim | app/actions/generate-roasts.ts:45 | The result is no longer than the input and neither starts nor ends with white space |
| JsString.TrimSlice | app/actions/generate-roasts.ts:45 | The result is a slice of the input, and everything cut off on either side is white space |
| JsString.TrimEmptyIff | app/actions/generate-roasts.ts:45 | Trimming gives "" exactly for strings of white space only |
| JsString.TrimKeeps | app/actions/generate-roasts.ts:46 | A string that neither starts nor ends with white space is unchanged |
| JsString.Split | lib/roast-generator.ts:106 | At least one piece, and no piece holds the separator |
| JsString.JoinSplit | lib/roast-generator.ts:106 | Joining the pieces with the separator gives back the string |
| JsString.SplitJoin | lib/roast-generator.ts:106 | Splitting a join of separator-free pieces gives back the pieces |
| JsString.SplitRunsExact | app/actions/generate-roasts.ts:65 | `split(/\n+/)` gives the first piece of a split at every line feed, then that split's later non-empty pieces in order, then one empty piece exactly when the text ends with a line feed |
| JsString.SplitRunsNonEmpty | app/actions/generate-roasts.ts:65 | `split(/\n+/)` and a split at every line feed have the same non-empty pieces, in the same order and with the same repetitions |
| JsString.SplitRunsJoin | app/actions/generate-roasts.ts:65 | Splitting a line-feed join of non-empty, line-feed-free pieces gives back the pieces |
| RoastSchema.Message | app/actions/generate-roasts.ts:8-26 | Every issue has a non-empty message, and it is one of the validation messages |
| RoastSchema.MatchesAtIff | app/actions/generate-roasts.ts:14 | The case-insensitive match at i holds exactly when the pattern occurs at i in the lower-cased tweet |
| RoastSchema.ForbiddenIff | app/actions/generate-roasts.ts:13-17 | A tweet is refused by the denylist exactly when its lower-cased text contains one of the entries |
| RoastSchema.Validate | app/actions/generate-roasts.ts:8-26 | Fails exactly when there are issues, and reports all of them in order. On success the request carries the submitted strings unchanged, each meeting its rule |
| RoastSchema.UndefinedRequired | app/actions/generate-roasts.ts:43 | A form data value of `undefined` is refused, and its message is "Required" |
| RoastSchema.EmptyTweetFirst | app/actions/generate-roasts.ts:11 | An empty tweet is the first issue, whatever the other fields hold |
| RoastSchema.LongTweetFirst | app/actions/generate-roasts.ts:12 | A tweet over 300 code units is the first issue, whatever it contains |
| RoastSchema.ForbiddenTweetFirst | app/actions/generate-roasts.ts:13-17 | A tweet of acceptable length that matches the denylist is the first issue |
| RoastSchema.AcceptsExactly | app/actions/generate-roasts.ts:8-26 | Validation accepts exactly an object with: a tweet of 1 to 300 code units and no denylist match; a mood id and a level id from the tables; no handle, or a handle of at most 30 handle characters |
| RoastSchema.SpaceTweetAccepted | app/actions/generate-roasts.ts:9-18 | A tweet of white space only passes, since lengths are checked on the untrimmed text, and the request carries it unchanged |
| RoastSchema.ScriptForbidden | app/actions/generate-roasts.ts:14 | `<script` is refused at any position and in any letter case |
| RoastSchema.BroadEntryForbidden | app/actions/generate-roasts.ts:14 | The entry `<u` refuses every tag starting with u or U (`<ul>`, `<U`), not only `<u>` |
| RoastSchema.DenylistShape | app/actions/generate-roasts.ts:14 | Every entry is `<` followed by at least one more code unit, and none begins `<b>` or `</b` |
| RoastSchema.MatchStartsAtAngle | app/actions/generate-roasts.ts:14 | Every denylist match starts at a `<` of the tweet |
| RoastSchema.BoldNotForbidden | app/actions/generate-roasts.ts:14 | Bold markup `<b>"test"</b>` is not refused |
| RoastSchema.SpaceNotForbidden | app/actions/generate-roasts.ts:14 | A tweet of white space only never matches the denylist |
| RoastSchema.HandleAccepted | app/actions/generate-roasts.ts:21-25 | A name of letters, digits and `_` passes; so do the empty handle and a missing handle |
| RoastSchema.HandleRejected | app/actions/generate-roasts.ts:21-25 | Any handle holding a space or an `@` fails the pattern, and any handle of 31 or more characters fails the length rule first |
| RoastAction.SafeHandle | app/actions/generate-roasts.ts:46 | The safe handle is empty exactly when there is no handle or it is white space only |
| JsString.NonEmptyPieces | app/actions/generate-roasts.ts:65 | `filter(Boolean)`: no more pieces than before, a string is kept exactly when it is a non-empty piece, and all pieces are kept when none is empty |
| JsString.NonEmptyConcat | app/actions/generate-roasts.ts:65 | The filter works piece by piece: filtering a + b gives the kept pieces of a followed by those of b, so order and repetitions are kept |
| RoastAction.FallbackAsSplit | app/actions/generate-roasts.ts:65 | The fallback reading of any text is its split at every line feed, with the empty pieces dropped and the rest trimmed, in order |
| RoastAction.SafeRoast | app/actions/generate-roasts.ts:68 | The roast is the escaped text cut to at most 300 code units: a prefix of the escape, of length min(300, its length), with no raw markup |
| RoastAction.ClassifyError | app/actions/generate-roasts.ts:77-82 | The quota message exactly for the code `insufficient_quota` or the status 429, the generic message otherwise |
| RoastAction.ActionMessagesDistinct | app/actions/generate-roasts.ts:70-82 | None of the action's own messages is a validation message |
| RoastAction.ServiceMessages | app/actions/generate-roasts.ts:69-82 | A count, quota or generic error is a user message and never a validation message |
| RoastAction.Answer | app/actions/generate-roasts.ts:58-82 | After the service call: roasts come only as exactly three, each at most 300 code units with no raw markup. Every error is the count, quota or generic message |
| RoastAction.GenerateRoasts | app/actions/generate-roasts.ts:41-84 | The answer is roasts (three, at most 300 code units each, no raw markup) or one fixed user message. It is a validation message exactly when the form is refused |
| RoastAction.FirstIssueReported | app/actions/generate-roasts.ts:74-76 | A refused form is answered with the first issue's message, never with the "Invalid input." fallback |
| RoastAction.RefusedBeforeService | app/actions/generate-roasts.ts:43 | A refused form is answered with its first issue's message before the service or the parser is consulted: the answer does not depend on them |
| RoastAction.AcceptedGoesToService | app/actions/generate-roasts.ts:43-58 | An accepted form is answered from the service's outcome for the form's two prompts |
| RoastAction.PromptsTagFree | app/actions/generate-roasts.ts:44-48 | Whatever the request holds, the user prompt contains no `<` and no `>`: the tweet and the handle are escaped |
| RoastAction.ServiceErrorClassified | app/actions/generate-roasts.ts:77-82 | A thrown service error gives the quota message exactly for the quota code or status 429, the generic message otherwise |
| RoastAction.ArrayReply | app/actions/generate-roasts.ts:61-72 | A reply that parses as an array of strings gives roasts exactly when the array has three entries. They are the three safe roasts in order; any other count gives the count message |
| RoastAction.OtherJsonReply | app/actions/generate-roasts.ts:61-82 | JSON that is not an array of strings ends in the generic message |
| RoastAction.NonJsonReply | app/actions/generate-roasts.ts:63-72 | A reply that is not JSON gives roasts exactly when its fallback reading has three lines, which become the three safe roasts; otherwise the count message |
| RoastAction.EmptyReplyNoRoasts | app/actions/generate-roasts.ts:58-71 | A missing or empty reply content gives the count message |
| RoastAction.FallbackOfLines | app/actions/generate-roasts.ts:65 | Lines without line feeds, joined by line feeds, come back as the non-empty lines trimmed, in order; when none is empty, one per line. A white-space line survives as "" |
| RoastAction.EmptyReplyNoLines | app/actions/generate-roasts.ts:65 | The empty text has no fallback lines: the leading empty piece is dropped |
| RoastAction.ValidatedHandleUnchanged | app/actions/generate-roasts.ts:46 | A handle that passed the pattern reaches the prompt unchanged |
| RoastAction.SpaceTweetSentEmpty | app/actions/generate-roasts.ts:45-48 | A white-space tweet passes and is sent as an empty quotation, with no handle line |
| RoastAction.ShortRoastKept | app/actions/generate-roasts.ts:68 | An escape of at most 300 code units is not cut: unescaping gives the raw roast back |
| RoastAction.RoastCutMidEntity | app/actions/generate-roasts.ts:68 | The cut can fall inside an entity: 299 plain code units and `&` end in a bare `&` |
| RoastGenerator.Templates | lib/roast-generator.ts:10-77 | Every (level, mood) pair has three templates |
| RoastGenerator.TemplatesDistinct | lib/roast-generator.ts:10-77 | The three templates of every pair differ from each other |
| RoastGenerator.LongWordsIff | lib/roast-generator.ts:107-111 | The length filter keeps exactly the words longer than four code units |
| RoastGenerator.StoplistIrrelevant | lib/roast-generator.ts:110 | Every stoplist word has four letters, so the keyword filter equals the length test alone |
| RoastGenerator.KeywordsAreLongWords | lib/roast-generator.ts:105-111 | The keywords are the words of the lower-cased tweet, split on single spaces, that are longer than four code units; none holds a space |
| RoastGenerator.ContextualQuotes | lib/roast-generator.ts:115-119 | Each contextual template holds the keyword between double quotes |
| RoastGenerator.Shuffle | lib/roast-generator.ts:92 | The in-place sort of the copy ends in AnswerSort's order for the comparator's answers. That is a permutation of the templates, and the templates' own order when no answer asks for a swap |
| RoastGenerator.SortFromPermutes | lib/roast-generator.ts:92 | Whatever the comparator answers, the sort's outcome is a permutation of its input |
| RoastGenerator.SortFromKeeps | lib/roast-generator.ts:92 | A comparator that never asks for a swap leaves the order as it was |
| RoastGenerator.AnswerSortOfThree | lib/roast-generator.ts:92 | The sort of three templates, comparison by comparison: the first answer orders the first two, the next one or two place the third |
| RoastGenerator.EveryOrderReachable | lib/roast-generator.ts:92 | Each of the six orders of three templates is the outcome of some sequence of comparator answers |
| RoastGenerator.EveryPermutationReachable | lib/roast-generator.ts:92 | Every permutation of three distinct templates is the outcome of some sequence of comparator answers |
| RoastGenerator.PermutationDistinct | lib/roast-generator.ts:92 | A permutation of distinct templates has distinct entries |
| RoastGenerator.GenerateRoasts | lib/roast-generator.ts:87-135 | Three results in slot order, each stamped with the given level and mood. The shuffled templates are AnswerSort's outcome for the comparator's answers, a permutation of the pair's templates with no two alike, and slot i's text comes from `shuffled[i % 3]` and that slot's draws |
| RoastGenerator.FillSlots | lib/roast-generator.ts:94-132 | The loop produces, for each of the three slots in order, the slot text of `shuffled[i % 3]` stamped with the level and mood |
| RoastGenerator.SlotTextForms | lib/roast-generator.ts:95-128 | Every text is the template itself, the template personalised with one of the five prefixes, or a contextual template quoting a keyword of the tweet |
| RoastGenerator.PersonalisedOnlyWithHandle | lib/roast-generator.ts:98 | Without a handle or without the personalisation draw, a slot that is not contextual keeps its template |
| RoastGenerator.ContextualDiscards | lib/roast-generator.ts:113-124 | The contextual replacement overwrites the whole text, so the handle, the personalisation and the template make no difference, and the text quotes a keyword of the tweet |
| RoastGenerator.PrefixLeadsOpenFree | lib/roast-generator.ts:79-85 | No prefix has a `{` before its placeholder |
| RoastGenerator.CleanHandle | lib/roast-generator.ts:100 | `replace("@", "")` leaves a handle without `@` alone and removes a leading `@` |
| RoastGenerator.CleanHandleFirstAt | lib/roast-generator.ts:100 | `replace("@", "")` removes exactly the first `@`, wherever it is: a + "@" + b becomes a + b when a has no `@` |
| RoastGenerator.PersonalisedText | lib/roast-generator.ts:98-102 | For any handle whose cleaned form has no `$`, the personalised text is the prefix with the cleaned handle in place of `{handle}`, a space, and the lower-cased template |
| RoastGenerator.HandleIsReplacementPattern | lib/roast-generator.ts:101 | The handle is read as a replacement pattern: the handle `$&` leaves `{handle}` in the text |

Several functions have no row of their own. Each one computes a value, and the lemmas named here state what that value is:

- `RoastSchema.Issues`, `TweetIssues`, `EnumIssues` and `HandleIssues` (app/actions/generate-roasts.ts:8-26): `Validate`, `AcceptsExactly`, `EmptyTweetFirst`, `LongTweetFirst`, `ForbiddenTweetFirst`, `HandleAccepted` and `HandleRejected`.
- `RoastAction.SystemPrompt`, `UserPrompt` and `Prompts` (app/actions/generate-roasts.ts:45-48): `PromptsTagFree`, `AcceptedGoesToService`, `SpaceTweetSentEmpty` and `ValidatedHandleUnchanged`.
- `RoastAction.ReplyText` and `ParseReply` (app/actions/generate-roasts.ts:58-66): `ArrayReply`, `OtherJsonReply`, `NonJsonReply` and `EmptyReplyNoRoasts`.
- `RoastAction.FallbackLines`, `TrimAll` and `SafeRoasts` (app/actions/generate-roasts.ts:65-68): `FallbackAsSplit`, `FallbackOfLines`, `EmptyReplyNoLines` and `ArrayReply`.
- `RoastAction.ValidationErrorMessage` (app/actions/generate-roasts.ts:75): `FirstIssueReported`.
- `JsString.SplitRuns` (app/actions/generate-roasts.ts:65): `SplitRunsExact`, `SplitRunsNonEmpty` and `SplitRunsJoin`.
- `RoastGenerator.Personalise` (lib/roast-generator.ts:98-102): `PersonalisedText`, `CleanHandle`, `CleanHandleFirstAt` and `HandleIsReplacementPattern`.
- `RoastGenerator.Keywords` and `KeptWords` (lib/roast-generator.ts:105-111): `KeywordsAreLongWords`, `LongWordsIff` and `StoplistIrrelevant`.
- `RoastGenerator.SlotText`, `Salutation`, `ContextualText` and `ContextualRoasts` (lib/roast-generator.ts:95-124): `SlotTextForms`, `PersonalisedOnlyWithHandle`, `ContextualDiscards`, `ContextualQuotes` and `FillSlots`.
- `RoastGenerator.AnswerSort`, `SortFrom` and `Sink` (lib/roast-generator.ts:92): `Shuffle`, `SortFromPermutes`, `SortFromKeeps`, `AnswerSortOfThree`, `EveryOrderReachable` and `EveryPermutationReachable`.

## Left out

- The chat-completion call (app/actions/generate-roasts.ts:28, 49-57) is the parameter `complete`. It returns the first choice's content or a thrown error with an optional `code` and `status`. The model name, token limit and temperature are not modelled.
- `JSON.parse` (app/actions/generate-roasts.ts:62) is the parameter `parseJson`. Any JSON value other than an array of strings is one case, because `.map` or `escapeHTML`'s `.replace` then throws a TypeError that ends in the generic message.
- Validation messages: the four custom messages are exact, and so are the library's defaults "Required" (a missing field, or no payload at all) and "String must contain at most 30 character(s)" (a handle over 30 characters). The texts for a payload that is not an object, a field that is not a string and an unknown enum value are stand-in constants: the library's texts also name the expected and received types or options.
- Lengths and indices count UTF-16 code units, modelled as `char`s; surrogate pairs are not modelled.
- JsString.AsciiLower: lower-cases ASCII letters only, where `toLowerCase` also maps non-ASCII letters. Only the keywords can differ (lib/roast-generator.ts:106): for a tweet with non-ASCII capitals a keyword can differ in those letters, and a mapping that changes the length can also change whether a word passes the `> 4` filter. The templates (lib/roast-generator.ts:10-77, lower-cased at :101) hold only ASCII and three emoji without case, so both give the same text there. The denylist test is unaffected too: its case-insensitive matching never maps a non-ASCII code unit onto an ASCII pattern letter.
- `Math.random` (lib/roast-generator.ts:92-122) becomes injected draws, and the probabilities of the draws are not modelled:
  - each threshold test is a boolean;
  - each `Math.floor(Math.random() * n)` is a natural number taken modulo n.
- RoastGenerator.Shuffle: the JavaScript engine's sort algorithm is modelled as an insertion sort in which every comparison reads the next of the comparator's answers. The permutation property holds whatever the algorithm, and all six orders of three templates can come out. The probability of each order is not modelled.
- The generator's own `RoastLevel` and `Mood` types (lib/roast-generator.ts:1-2) are the same sets as the tables' types, and the model uses the `Constants` ones.
- RoastAction.SafeHandle: "" stands for `undefined`; both are falsy where the handle is used.
- The unused `headers` import (app/actions/generate-roasts.ts:5) has no counterpart.
- The React components, pages, layout and image rendering (components/tweet-roaster.tsx, app/page.tsx, app/about/page.tsx, app/layout.tsx, lib/opengraph-image.tsx) are user interface and are not part of this model.
