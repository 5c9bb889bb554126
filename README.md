# Resume analysis core, modelled in Dafny

This project models the request handler of an applicant-tracking-system (ATS)
resume analyser, `server/controllers/resumeController.js`. A request carries an
uploaded resume (PDF or DOCX) and a job description. The handler:

1. checks the form: a file must be present, then a non-empty job description;
2. reads the upload back from disk and dispatches on the declared MIME type:
   the PDF text layer, or the DOCX converted to HTML with every tag replaced
   by a space (any other type is a 400);
3. scores keyword overlap (`calculateAtsScore`): both texts are lower-cased
   and split into `\w+` tokens; the job tokens are de-duplicated in
   first-occurrence order; the matches are those the resume's token set
   contains; the score is `Math.round(matches / unique * 100)`;
4. refuses with a 500 when the chat-service API key is not set (checked only
   after scoring);
5. asks the chat service for suggestions (`generateRecommendations`): the
   trimmed reply is parsed as a JSON array, or split into non-empty lines, and
   a failing service yields one fixed message;
6. saves a record on a best-effort basis (a failed save only leaves the id
   null) and responds with the score, "Matched X of Y keywords", the
   suggestions and the id.

Modules, one per part of the controller, plus helpers:

- `AtsScore` (ats_score.dfy): tokenisation, de-duplication, matching, rounding.
- `TagStrip` (tag_strip.dfy): `replace(/<[^>]*>/g, ' ')` as a left-to-right scan,
  with a second description of its result: cut the input into kept characters
  and `<...>` tags, then write one space per tag.
- `Suggestions` (suggestions.dfy): the prompt, trim, the line-split fallback,
  the fixed failure message, and the method `GenerateRecommendations`.
- `Controller` (controller.dfy): `Handle` is the outcome of one request (response,
  the stages reached, the record handed to the database). The method
  `AnalyzeResume` is proved equal to it, and `ScoreAndRespond` is proved equal
  to `Respond`, the part of `Handle` after extraction. The handler is
  split in two methods to keep each proof small: the first covers the guards
  and extraction; the second starts once `resumeText` is known.
- `Text`, `Sequences`, `Wrappers`: `\w`, `\s`, ASCII lower-casing, `trim`, decimal
  rendering; `filter`, first-occurrence de-duplication, subsequences; `Option`.

Collaborators are given as functions in `Controller.Collaborators`:
`fs.readFileSync`, pdf-parse, mammoth, the chat-completion service,
`JSON.parse` and `Resume.create`. Each returns a value or a thrown message
(`Attempt`), or an outcome (`ChatReply`, `SaveOutcome`, `Option`).

Points where the code behaves differently from what one might expect:

- A job description without tokens makes the code divide 0 by 0, so the
  score is NaN (`Score.NaN`), not 0.
- The code reads the upload before it checks the MIME type, so a read failure
  is a 500 even for an unsupported type.
- `\w` includes `_`, so `foo_bar` is one token.

## Model

| member | source | states |
|---|---|---|
| `AtsScore.Words` | server/controllers/resumeController.js:27-28 | every token of the global `\b\w+\b` match (empty when nothing matches) is a non-empty run of `[A-Za-z0-9_]` |
| `AtsScore.WordsAroundSeparator` | server/controllers/resumeController.js:27-28 | a non-word character splits tokenisation: tokens of `a + c + b` are tokens of `a` followed by tokens of `b` |
| `AtsScore.WordRunLengthAppend` | server/controllers/resumeController.js:27-28 | a greedy `\w+` run that stops inside `a` stops at the same place once `a` is extended |
| `AtsScore.WordsOfWord` | server/controllers/resumeController.js:27-28 | a single word tokenises to itself |
| `AtsScore.WordsOfSpaced` | server/controllers/resumeController.js:27-28 | words joined by spaces tokenise back to exactly those words |
| `AtsScore.UniqueJobWords` | server/controllers/resumeController.js:29 | `[...new Set(jobWords)]` has no duplicates, has exactly the job tokens, lists them in first-occurrence order, and its length is the number of distinct job tokens |
| `Sequences.Dedup` | server/controllers/resumeController.js:29 | Set insertion-order de-duplication: no duplicates, same elements, first-occurrence order |
| `Sequences.Filter` | server/controllers/resumeController.js:30 | `filter` keeps exactly the elements satisfying the predicate, every occurrence of each, in input order (a subsequence with the same count of each kept element) |
| `Sequences.SubsequenceNoDuplicates` | server/controllers/resumeController.js:30 | filtering a duplicate-free list leaves it duplicate-free |
| `Sequences.SubsequenceKeepsOrder` | server/controllers/resumeController.js:30 | filtering keeps the job description's first-occurrence order, not the resume's |
| `Sequences.DistinctCardinality` | server/controllers/resumeController.js:29-32 | a duplicate-free list is as long as its set of elements |
| `AtsScore.MatchesAreOverlap` | server/controllers/resumeController.js:30-32 | the matches are the overlap of job and resume token sets, each once, in job order, and `matches.length` is the size of that overlap |
| `AtsScore.RoundPercent` | server/controllers/resumeController.js:31 | `Math.round(m / t * 100)` is the integer nearest `100m/t`, halves rounding up |
| `AtsScore.RoundPercentRange` | server/controllers/resumeController.js:31 | for `m <= t` the score is at most 100; it is 100 exactly when at most half a percent is missing, 0 exactly when under half a percent matched |
| `AtsScore.RoundPercentMonotone` | server/controllers/resumeController.js:31 | more matches never give a lower score |
| `AtsScore.CalculateAtsScore` | server/controllers/resumeController.js:26-33 | `totalKeywords` is the number of distinct job tokens; `matchCount = matches.length <= totalKeywords`; a word is matched exactly when it is a job token and a resume token; matches are a subsequence of `uniqueJobWords`, distinct, in job order, and count the overlap of the two sets; the score is NaN exactly when there are no job tokens, otherwise the rounded percentage |
| `AtsScore.ScoreIsPercentage` | server/controllers/resumeController.js:31 | with at least one job token the score is a number between 0 and 100 |
| `AtsScore.NoJobTokensGivesNaN` | server/controllers/resumeController.js:28-31 | a job description without tokens gives no keywords, no matches and NaN |
| `AtsScore.AllKeywordsGiveFullScore` | server/controllers/resumeController.js:30-31 | a resume with every job token scores 100 |
| `AtsScore.NoKeywordsGiveZeroScore` | server/controllers/resumeController.js:30-31 | a resume sharing no token with the job description scores 0 |
| `AtsScore.ScoringIgnoresCase` | server/controllers/resumeController.js:27-28 | scoring the lower-cased texts gives the same result: matching is case-insensitive |
| `AtsScore.ResumeSeparatorWords` | server/controllers/resumeController.js:27 | the resume token set of two parts joined by a separator is the union of their sets |
| `AtsScore.ResumeOrderIsIrrelevant` | server/controllers/resumeController.js:27-30 | swapping two parts of the resume joined by a non-word character does not change the result |
| `AtsScore.ResumeRepetitionIsIrrelevant` | server/controllers/resumeController.js:27-30 | the resume repeated after a non-word character gives the same result as the resume alone |
| `AtsScore.ExtendingResumeNeverLowersScore` | server/controllers/resumeController.js:27-31 | text appended to the resume after a non-word character never lowers the score (when the job description has a token) |
| `Text.LowerAppend` | server/controllers/resumeController.js:27-28 | the ASCII lower-casing distributes over concatenation |
| `Text.LowerIdempotent` | server/controllers/resumeController.js:27-28 | lower-casing twice is lower-casing once |
| `TagStrip.StripTags` | server/controllers/resumeController.js:22 | the output is no longer than the input, holds only input characters and spaces, and has no `<` followed later by a `>` |
| `TagStrip.StripTagsRendersPieces` | server/controllers/resumeController.js:22 | for the leftmost cut of the input into kept characters and `<...>` tags, the output keeps every kept character in order and writes exactly one space per tag |
| `TagStrip.StripTag` | server/controllers/resumeController.js:22 | a tag at the front becomes one space |
| `TagStrip.StripKept` | server/controllers/resumeController.js:22 | a character at the front that opens no tag is kept |
| `TagStrip.LeftmostTagsExist` | server/controllers/resumeController.js:22 | every input has such a leftmost cut, so the previous row describes every output |
| `Text.Trim` | server/controllers/resumeController.js:44 | `trim` removes exactly the leading and trailing whitespace: the input is the result padded by whitespace only, and the result starts and ends with non-whitespace |
| `Suggestions.Prompt` | server/controllers/resumeController.js:37 | the prompt is the fixed instruction, the resume verbatim, a heading, and the job description verbatim |
| `Suggestions.SplitAtLineBreaks` | server/controllers/resumeController.js:51 | `split(/\n\s*/)`: the input is the pieces joined by separators, each a line feed with whitespace after it; no piece holds a line feed; the first piece runs up to the first line feed; a later piece starts with non-whitespace, or is empty and last |
| `Suggestions.FallbackLines` | server/controllers/resumeController.js:51 | `filter(Boolean)` keeps every non-empty piece of the split, in order, with the same count of each; every line is non-empty and holds no line feed; on trimmed content none starts with whitespace |
| `Suggestions.SplitIsUnique` | server/controllers/resumeController.js:51 | any description of the input as maximal pieces joined by line-break separators is the one the split returns |
| `Suggestions.SplitRejoinRoundTrip` | server/controllers/resumeController.js:51 | clean lines joined by any line-break runs (blank lines, indentation) split, and survive the filter, as exactly those lines |
| `Suggestions.BlankLinesCollapse` | server/controllers/resumeController.js:51 | `"a\n\n\nb"` falls back to `["a", "b"]` |
| `Suggestions.IndentationCollapses` | server/controllers/resumeController.js:51 | `"a\n  b"` falls back to `["a", "b"]` |
| `Suggestions.SplitJoinRoundTrip` | server/controllers/resumeController.js:51 | clean lines joined with line feeds split back into exactly those lines |
| `Suggestions.SuggestionsFrom` | server/controllers/resumeController.js:44-56 | a failing service yields exactly `['Unable to generate suggestions at this time.']`; a JSON array is returned as parsed; otherwise the result is the fallback lines of the trimmed content, all clean |
| `Suggestions.GenerateRecommendations` | server/controllers/resumeController.js:36-58 | sends the prompt with model `gpt-4o-mini` and temperature 0.7 and returns what `SuggestionsFrom` gives for the reply |
| `Text.DecimalRoundTrip` | server/controllers/resumeController.js:104 | the decimal rendering of a count reads back as that count |
| `Controller.MatchSummaryInjective` | server/controllers/resumeController.js:115 | "Matched X of Y keywords" determines both X and Y |
| `Controller.ServerError` | server/controllers/resumeController.js:119-122 | a caught error gives a 500 with its message, or exactly `'Server error during analysis.'` when it has none |
| `Controller.ExtractText` | server/controllers/resumeController.js:74-80 | PDF gives the library's result unchanged; DOCX gives `StripTags` of the converted HTML, so no tag is left, or the converter's thrown message; extraction throws exactly when the chosen library throws |
| `Controller.Handle` | server/controllers/resumeController.js:61-123 | every response is a 200, 400 or 500, and a record is handed to the database exactly on a 200 |
| `Controller.Respond` | server/controllers/resumeController.js:85-118 | after extraction the outcome is a 200 or a 500, with a record exactly on a 200 |
| `Controller.GuardsComeFirst` | server/controllers/resumeController.js:64-83 | missing file, then missing job description, then unsupported type, each a 400 with its message; a 400 is sent exactly in those cases, before any extraction or scoring |
| `Controller.ThrownErrorsAreServerErrors` | server/controllers/resumeController.js:71-121 | an unreadable upload or a failing extraction is a 500 with the thrown message, before scoring |
| `Controller.KeyCheckedAfterScoring` | server/controllers/resumeController.js:85-92 | a missing API key is a 500 sent after scoring and before the chat service and the database are called |
| `Controller.SuccessIffGuardsPass` | server/controllers/resumeController.js:61-118 | the response is a 200 exactly when every guard passes and nothing throws, whatever the chat service and the database do |
| `Controller.SuccessContents` | server/controllers/resumeController.js:85-118 | a 200 carries the score of the extracted text, "Matched X of Y keywords" and the suggestions for the prompt built from both texts |
| `Controller.SaveFailureIsSwallowed` | server/controllers/resumeController.js:96-110 | a failed save still gives a 200, with a null id; a successful one returns the new id |
| `Controller.PersistedRecordMatchesResponse` | server/controllers/resumeController.js:99-117 | the record saved has the same score, summary and suggestions as the response |
| `Controller.AnalyzeResume` | server/controllers/resumeController.js:61-123 | the handler, step by step with early returns, produces exactly the outcome `Handle` describes |
| `Controller.ScoreAndRespond` | server/controllers/resumeController.js:85-118 | the handler from the extracted text on produces exactly the outcome `Respond` describes |

## Left out

- PDF and DOCX decoding (pdf-parse, mammoth), `fs.readFileSync` and `path.join`: foreign libraries and I/O, given as functions in `Collaborators`.
- The chat-completion client and its configuration: a network service. Only the request and the reply's content or failure are modelled. A reply without a first choice or without content throws in the code, and the model counts that as `ServiceFailed`.
- `Suggestions.SuggestionsFrom`: `JSON.parse` is an oracle returning a list of strings or nothing. In the code, a reply that parses as some other JSON value (a string, an object, an array of non-strings) is passed on unchanged as the suggestions. The model does not represent that case.
- `Resume.create` and the schema's validation: persistence, given as a function from the record to an id or a failure. Whether the database accepts a NaN score is up to that function.
- `Text.Lower`: `toLowerCase` is modelled on ASCII letters only. Unicode case mapping is not modelled. For example, the code lower-cases the Kelvin sign to `k`, a word character. It lower-cases U+0130 to `i` followed by a combining dot (U+0307). The dot is not a word character, so in the code `İstanbul` gives the tokens `i` and `stanbul`, while the model keeps U+0130 unchanged and does not count it as a word character.
- `AtsScore.RoundPercent`: `Math.round(m / t * 100)` is computed exactly in integers. Floating-point error in `m / t * 100` near a half is not modelled.
- The JSON serialisation of the response (a NaN score is sent as `null`) and the HTTP status-code plumbing of Express.
- Exceptions the code could raise elsewhere are not modelled: a PDF library that returns no text string, and a failing `res.json`.
- `console` logging.
- server/routes/resume.js (upload wiring, the 5 MB limit and the random file name), server/index.js (bootstrap, database connection), server/models/Resume.js (schema only) and client/src/App.jsx (user interface) are not part of this model.
