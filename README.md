# Stories service: story lifecycle, word-coverage validation and queries

This project models the core of the stories service of the Dice-Tellers
application (`StoriesService/views/stories.py`). Users write short stories
that must use a set of required words, the *figures* rolled on story dice.
They can save a story as a draft, resume and publish it, delete it, and
browse published stories. The model keeps the handlers' logic and drops the
web framework and the ORM:

- the story table is a `seq<Story>` in insertion order;
- the Flask session is a `Session` value with two optional keys, `figures`
  and `id_story`;
- every handler's answer is a status code with a text (`Response`, or
  `Result` for the query handlers).

Modules:

- `Http`: `Option`, `Result` and `Response`.
- `Stories`: the `Story` record, lookups by id, row deletion, and
  `isdigit`/`int()` for ASCII digit strings.
- `Validation`: the word-coverage check run before publishing. `Tokens`
  strips punctuation, lower-cases and splits the text. `Cover` is the
  reference definition of what is missing. `MissingFigures` is the source's
  loop over a shrinking copy of the figures, with its early `break`, and is
  proved equal to `Cover`.
- `Figures`: the `#w1#w2#` encoding of a story's figures and its two round
  trips.
- `Queries`: `_stories`, `_range`, `_random_story` and `_open_story`.
- `Statistics`: the accumulation loop of `_stories_stats`.
- `Lifecycle`: `StartDraft` (`_get_draft`), `WriteStory` (`_write_story`)
  and `DeleteStory` (`_manage_stories`). Each is a function from the table
  and session before to the answer and the table and session after, and the
  module's lemmas state what the handlers promise about them.
- `Service`: class `StoryService`, whose fields `store` and `session` are
  updated in place by `GetDraft`, `WriteStory` and `ManageStories`. Each
  method is proved to give exactly the answer and new state that the
  `Lifecycle` function of the same handler specifies.

Inputs that the source takes from the environment are parameters:

- `now`, today's midnight and a parsed date are integer timestamps
  (seconds since `datetime.min`);
- the position that `randint` draws is `pos`;
- the id the database gives a new row is `newId`.

The functions `Cover`, `RemoveFirst`, `Unwords`, `StartDraft`, `WriteStory`
and `DeleteStory` carry no contract of their own. The lemmas in the table
below state their properties.

## Behaviour of the code worth knowing

The model keeps each of these behaviours of the code:

- Publishing a resumed draft checks the text against the session's
  `figures`, not against the figures stored with the story (line 150).
  `PublishedDraftNeedNotContainItsFigures` shows a draft published with a
  text that lacks its own stored figure. `ResumedDraftPublishedContainsItsFigures`
  shows that this cannot happen when the session was filled by `_get_draft`.
- No length limit on the text is checked anywhere.
- Saving a draft update while the session lacks `figures` is not free of side
  effects. The update is committed and `id_story` removed before the missing
  key raises `KeyError`, so the answer is 400 but the text and date have
  changed (lines 127-133 and 147). `FailedWriteChangesNothingElse` states
  that this is the only refused write that changes anything.
- Updating or publishing through `id_story` does not check the story's
  author or draft state. Only `_get_draft` checks those, when it fills the
  session.
- The range query returns rows in table order, not newest first.
- The random query starts at midnight three days before now (`.date()`),
  not exactly three days before now.
- The empty figure list is written as `"##"` and reads back as `[""]`, one
  empty word. `EncodeEmptyDecodesToBlank` proves it. Such a story counts one
  figure in the statistics and cannot be published after being resumed,
  because no token is empty.

## Model

| member | source | states |
|---|---|---|
| `Validation.Normalize` | StoriesService/views/stories.py:151-152 | each character of the text, in place: a punctuation mark becomes a space, any other character is lower-cased; so the result holds no punctuation and no capital |
| `Validation.SplitWords` | StoriesService/views/stories.py:153 | every word is non-empty and holds no whitespace, and the words run together are the text's non-whitespace characters in order |
| `Validation.WordsFromSep` | StoriesService/views/stories.py:153 | a whitespace character closes the word being read, and what follows it is split on its own |
| `Validation.SplitWordsSep` | StoriesService/views/stories.py:153 | words break at every whitespace character: the words of `a + [c] + b` are those of `a` followed by those of `b` |
| `Validation.SplitWordsWord` | StoriesService/views/stories.py:153 | a non-empty run without whitespace is exactly one word; with `SplitWordsSep` this fixes the words of every text |
| `Validation.Tokens` | StoriesService/views/stories.py:151-153 | every token is a non-empty word without whitespace, punctuation or upper-case letters |
| `Validation.NormalizeFixed` | StoriesService/views/stories.py:151-152 | a text without punctuation or capitals is left unchanged |
| `Validation.TokensUnwords` | StoriesService/views/stories.py:151-153 | normal-form words separated by spaces are exactly the tokens of that text, in order |
| `Validation.RemoveFirst` | StoriesService/views/stories.py:156 | `list.remove`; no contract of its own, `RemoveFirstMultiset` states what it removes |
| `Validation.Unwords` | StoriesService/views/stories.py:160-162 | the listing of the 422 message; no contract of its own, `UnwordsSnoc` ties it to the loop and `SplitUnwords` reads it back |
| `Validation.MissingFigures` | StoriesService/views/stories.py:150-158 | the loop with `remove` and early `break` leaves exactly `Cover(figures, multiset(tokens))` |
| `Validation.CoverAddToken` | StoriesService/views/stories.py:154-156 | one more token in the bag is the same as one `list.remove` of that token from what was missing |
| `Validation.CoverNextToken` | StoriesService/views/stories.py:154-156 | the missing list after token i+1 is the one after token i with one `remove` of that token |
| `Validation.CoverStaysEmpty` | StoriesService/views/stories.py:157-158 | once nothing is missing after a prefix of the tokens, nothing is missing after all of them, so the `break` is sound |
| `Validation.CoverNothing` | StoriesService/views/stories.py:150 | before any token is read, every figure is missing |
| `Validation.RemoveFirstMultiset` | StoriesService/views/stories.py:156 | `remove` drops exactly one copy of a present word and leaves the list unchanged otherwise |
| `Validation.CoverMultiset` | StoriesService/views/stories.py:154-159 | the missing words are the multiset difference of figures and tokens: each token removes at most one occurrence |
| `Validation.CoverEmptyIffContained` | StoriesService/views/stories.py:159 | nothing is missing if and only if the figures, counted with multiplicity, are contained in the tokens |
| `Validation.CoverIsSubsequence` | StoriesService/views/stories.py:159-162 | the missing words keep the figures' relative order |
| `Validation.UnreachableFigureAlwaysMissing` | StoriesService/views/stories.py:150-159 | a figure that is empty or holds a space, punctuation or a capital is reported missing for every text, since figures are not lower-cased |
| `Validation.UnwordsSnoc` | StoriesService/views/stories.py:161-162 | appending a word to the list appends the word and a space to the message |
| `Validation.SplitUnwords` | StoriesService/views/stories.py:160-162 | splitting the listing of the 422 message on whitespace gives back the missing words |
| `Validation.WordsFromWord` | StoriesService/views/stories.py:153 | a run of non-space characters is read as one word |
| `Stories.FindStory` | StoriesService/views/stories.py:108 | a row is found exactly when one has that id, and the row found has that id |
| `Stories.FindUnique` | StoriesService/views/stories.py:108 | with unique ids the lookup returns the one row with that id |
| `Stories.RemoveStory` | StoriesService/views/stories.py:242 | the rows left are exactly those whose id differs |
| `Stories.RemoveUnique` | StoriesService/views/stories.py:242 | with unique ids deleting removes exactly the target row and keeps the others in order |
| `Stories.UniqueTail` | StoriesService/views/stories.py:242 | the rows after the first keep unique ids, all different from the first's |
| `Stories.IsDigits` | StoriesService/views/stories.py:76 | `str.isdigit` on ASCII; no contract of its own, used as the guard in `StartDraftOnlyForOwnDraft`, `DeleteOnlyByAuthor` and `RecentCandidates` |
| `Stories.DigitsValue` | StoriesService/views/stories.py:109 | `int()` of a digit string, a natural number; no contract beyond its type, compared with the author id in the lemmas named above |
| `Stories.RemoveAbsent` | StoriesService/views/stories.py:242 | deleting an id no row has changes nothing |
| `Figures.SplitOn` | StoriesService/views/stories.py:110 | `split('#')` yields at least one piece and no piece holds the separator |
| `Figures.Encode` | StoriesService/views/stories.py:179 | the field is framed by '#' at both ends; `DecodeEncode` and `EncodeEmptyDecodesToBlank` give what it reads back as |
| `Figures.Decode` | StoriesService/views/stories.py:110-111 | no decoded word holds '#'; `EncodeDecode` gives the field it writes back to |
| `Figures.SplitConcat` | StoriesService/views/stories.py:110 | a separator splits a text into the pieces on either side of it |
| `Figures.SplitWord` | StoriesService/views/stories.py:110 | a text without the separator is one piece |
| `Figures.SplitJoin` | StoriesService/views/stories.py:140 | splitting undoes `'#'.join` for a non-empty list of words without '#' |
| `Figures.JoinSplit` | StoriesService/views/stories.py:110 | joining the pieces of any text with the separator gives the text back |
| `Figures.DecodeEncode` | StoriesService/views/stories.py:110-111 | a non-empty list of words without '#' is written and read back unchanged |
| `Figures.EncodeDecode` | StoriesService/views/stories.py:140 | a field framed by '#' is read and written back unchanged |
| `Figures.EncodeEmptyDecodesToBlank` | StoriesService/views/stories.py:140 | the empty list is written as "##", the same as `[""]`, and reads back as `[""]` |
| `Queries.Published` | StoriesService/views/stories.py:24 | exactly the stories that are not drafts |
| `Queries.PublishedSnoc` | StoriesService/views/stories.py:24 | a row added at the end of the table comes last in the published list iff it is not a draft, so the list keeps table order with each row once |
| `Queries.InsertByDatePermutes` | StoriesService/views/stories.py:24 | inserting adds exactly that story |
| `Queries.InsertByDateSorted` | StoriesService/views/stories.py:24 | inserting into a newest-first list keeps it newest first |
| `Queries.SortNewestFirst` | StoriesService/views/stories.py:24 | the result is ordered newest first and is a permutation of the input |
| `Queries.AllStories` | StoriesService/views/stories.py:22-25 | all published stories and nothing else, as a permutation, newest first |
| `Queries.Window` | StoriesService/views/stories.py:64-65 | exactly the published stories dated within the inclusive bounds |
| `Queries.WindowSnoc` | StoriesService/views/stories.py:64-67 | a row added at the end of the table comes last in the window iff it is published and dated inside it, so the window keeps table order with each row once |
| `Queries.RangeStories` | StoriesService/views/stories.py:38-67 | only the two 400 answers: "Wrong URL parameters" iff a date does not parse, "Begin date cannot be higher than End date" iff begin is after end 23:59:59; otherwise the window between begin and end 23:59:59, i.e. exactly the published stories in that range in table order |
| `Queries.LowerBound` | StoriesService/views/stories.py:45-48 | `datetime.min` or the given day's midnight; no contract of its own, `RangeStories` and `RangeWithoutArgumentsIsPublished` state its use |
| `Queries.UpperBound` | StoriesService/views/stories.py:49-54 | 23:59:59 of the given day or of today; no contract of its own, `RangeIncludesWholeEndDay` states that the whole end day is included |
| `Queries.RangeWithoutArgumentsIsPublished` | StoriesService/views/stories.py:44-54 | with neither date the result is the whole published list in table order, when no story is dated after today |
| `Queries.WindowCoversAll` | StoriesService/views/stories.py:64-65 | a window that includes every date is the published list itself |
| `Queries.RangeIncludesWholeEndDay` | StoriesService/views/stories.py:49-50 | a story dated at any second of the end day is in the result |
| `Queries.RecentSince` | StoriesService/views/stories.py:75 | a midnight, the last one at or before three days before now |
| `Queries.RecentCandidatesSnoc` | StoriesService/views/stories.py:76-82 | the candidates keep table order with each row once, so `RandomStory`'s result at `pos` is the query result's row `pos` |
| `Queries.RecentCandidates` | StoriesService/views/stories.py:76-82 | exactly the published stories from the cutoff on, without the asking user's when `user_id` is all digits |
| `Queries.RandomStory` | StoriesService/views/stories.py:72-88 | 404 "There are no recent stories by other users" iff there is no candidate; otherwise the candidate at the drawn position `pos`, a published, recent story not by the numeric asking user |
| `Queries.EveryCandidateCanBeDrawn` | StoriesService/views/stories.py:84-88 | every candidate is returned for some position in the range `randint` draws from |
| `Queries.RandomSingleCandidate` | StoriesService/views/stories.py:84-88 | with one candidate the draw returns it |
| `Queries.OpenStory` | StoriesService/views/stories.py:93-98 | the story with that id when one exists, 404 "Specified story not found" otherwise |
| `Statistics.AuthorStories` | StoriesService/views/stories.py:195 | exactly the author's stories, drafts included |
| `Statistics.StoriesStats` | StoriesService/views/stories.py:194-203 | the count of the author's stories and the sum of their decoded figure counts; zero stories give zero figures |
| `Statistics.TotalFiguresAppend` | StoriesService/views/stories.py:200-203 | the figure total is additive over concatenation |
| `Statistics.AuthorStoriesAppend` | StoriesService/views/stories.py:195 | a new row joins its author's list at the end and no one else's |
| `Statistics.StatsOfNewStory` | StoriesService/views/stories.py:195-203 | a new story with n figures (n >= 1, no '#') adds one story and n figures to its author's statistics |
| `Lifecycle.MinuteOf` | StoriesService/views/stories.py:129-130 | the update date is `now` truncated to the whole minute |
| `Lifecycle.Rewrite` | StoriesService/views/stories.py:131 | an update keeps the number of rows |
| `Lifecycle.StartDraft` | StoriesService/views/stories.py:104-115 | `_get_draft`; no contract of its own, `StartDraftOnlyForOwnDraft`, `StartDraftUnknownId` and `ResumedFiguresEncodeBack` state its properties |
| `Lifecycle.WriteStory` | StoriesService/views/stories.py:119-191 | `_write_story`; no contract of its own, `WriteSucceedsIff`, `FailedWriteChangesNothingElse`, `PublishAcceptedIffContainsAll` and the branch lemmas below state its properties |
| `Lifecycle.DeleteStory` | StoriesService/views/stories.py:233-245 | `_manage_stories`; no contract of its own, `DeleteOnlyByAuthor` and `DeleteWithoutNumericUserRefused` state its properties |
| `Lifecycle.StartDraftOnlyForOwnDraft` | StoriesService/views/stories.py:106-115 | 200 iff `user_id` is all digits, equals the author and the story is a draft; then the session holds the decoded figures and the id and the table is unchanged; otherwise 400 and nothing changes |
| `Lifecycle.StartDraftUnknownId` | StoriesService/views/stories.py:108-115 | an id no row has gets 400 and changes nothing |
| `Lifecycle.ResumedFiguresEncodeBack` | StoriesService/views/stories.py:110-111 | the figures put in the session encode back to the stored field when it is framed by '#' |
| `Lifecycle.PublishAcceptedIffContainsAll` | StoriesService/views/stories.py:148-163 | publishing succeeds iff the text contains the session's figures with multiplicity; otherwise 422 with the missing words in order and no change |
| `Lifecycle.WriteSucceedsIff` | StoriesService/views/stories.py:119-191 | a write succeeds iff the body has its keys, the session has figures, and it is a draft or its text contains them; success empties the session |
| `Lifecycle.FailedWriteChangesNothingElse` | StoriesService/views/stories.py:126-191 | a refused write changes nothing, except a draft update without session figures, which commits and drops `id_story` |
| `Lifecycle.DraftUpdateChangesOnlyTextAndDate` | StoriesService/views/stories.py:127-147 | saving a draft with `id_story` changes only that story's text and date, keeps the row count, answers 200 "Draft updated" and removes both session keys |
| `Lifecycle.NewWriteAppendsOneStory` | StoriesService/views/stories.py:136-187 | a successful write without `id_story` appends one row with the encoded session figures and `is_draft` as asked, with 201 |
| `Lifecycle.PublishDraftClearsDraftFlag` | StoriesService/views/stories.py:165-174 | publishing the session's draft clears its `is_draft`, sets text and date, adds no row and answers 201 |
| `Lifecycle.WriteKeepsIdentityOfRows` | StoriesService/views/stories.py:126-187 | no write removes a row or changes a row's id, author or figures |
| `Lifecycle.WritePreservesUniqueIds` | StoriesService/views/stories.py:136-185 | with a fresh id for new rows, ids stay unique |
| `Lifecycle.ResumedDraftPublishedContainsItsFigures` | StoriesService/views/stories.py:109-174 | a draft resumed through `_get_draft` and then published has a text containing its own stored figures |
| `Lifecycle.PublishedDraftNeedNotContainItsFigures` | StoriesService/views/stories.py:150-174 | when the session's figures are not the story's, a draft can be published with a text that lacks its stored figures |
| `Lifecycle.ResumePublishRepeat` | StoriesService/views/stories.py:104-191 | resume, publish with a covering text, repeat: the story is published and the session emptied, and the repeat gets 400 "Wrong parameters" |
| `Lifecycle.DeleteOnlyByAuthor` | StoriesService/views/stories.py:233-245 | 200 iff `user_id` is all digits and equals the author, and then exactly that row is removed; otherwise 400 and nothing changes |
| `Lifecycle.DeleteWithoutNumericUserRefused` | StoriesService/views/stories.py:234-237 | a missing or non-numeric `user_id` gets 400 for any id, one no row has included, and nothing changes |
| `Service.StoryService.GetDraft` | StoriesService/views/stories.py:104-115 | the answer and the new table and session are those of `StartDraft` |
| `Service.StoryService.WriteStory` | StoriesService/views/stories.py:119-191 | the answer and the new table and session are those of `Lifecycle.WriteStory`, with the validator run as the source's loop |
| `Service.StoryService.ManageStories` | StoriesService/views/stories.py:233-245 | the answer and the new table are those of `DeleteStory`; the session is untouched |

## Left out

- `_latest`: its one row per author depends on SQLite's handling of bare columns in a `group_by` with `max`, which the code does not show.
- Routing, `request.get_json`, `jsonify`, `make_response` and `abort` are replaced by `Response` and `Result` values. The JSON body is a record of three optional fields: `text` a string, `as_draft` a boolean, `user_id` an integer. Other JSON types, Python truthiness of non-boolean `as_draft`, and a body that is not JSON are not modelled.
- `_get_draft` for a request that is not a GET or has no id: the source returns nothing there.
- Date parsing and formatting: a `begin`/`end` argument is absent, a parsed day, or unparsable. "Now", today's UTC midnight and the column default for new rows are integer timestamps passed in, and new rows are dated `now`. The microseconds that `utcnow().replace(...)` keeps in the default end bound are dropped.
- `randint` is the parameter `pos`, required to lie in the candidates' index range.
- The id the database assigns to a new row is the parameter `newId`.
- `avg_dice`, a float rounded to two places, is not modelled. The count and the figure total are.
- Unicode: lower-casing, whitespace and `isdigit` are modelled on ASCII. Other characters are left as they are.
- Deleting an id no row has, with an all-digits `user_id`, crashes in the source (`first()` is `None`). For that case the model requires the row to exist. A missing or non-numeric `user_id` is answered 400 before the lookup, for any id, and is modelled.
- Deleting reactions and counters is a TODO in the source, and the older delete handler is commented out. Neither is modelled.
- Ties in `order_by(desc(date))` are left to the database. The model keeps table order for ties.
- Concurrency between requests is not modelled, and neither is the application setup in `StoriesService/app.py`.
- Figures.DecodeEncode: requires a non-empty list, because the empty list reads back as `[""]` (see `EncodeEmptyDecodesToBlank`).
