# nutriAI: meal extraction and session state, modelled in Dafny

nutriAI is a Streamlit chat front-end for a nutrition assistant. The language
model streams a reply in which every suggested meal name is wrapped in square
brackets. The app accumulates the streamed chunks into `assistant_response`,
extracts the bracketed meal names with `re.findall(r'\[(.*?)\]', ...)`,
requests one food photograph per extracted name, and keeps three session
variables: `all_meals` (every meal ever extracted, duplicates included),
`generated_images` (meal name to base64 PNG) and `conversation`. A reset
button clears all three.

This project models that core in Dafny 4.11 and proves its properties.

- `common.dfy`, module `Common`: the `Option` datatype (`None` is Python's `None`).
- `extraction.dfy`, module `Extraction`: `extract_meals` as a hand-written
  left-to-right scanner. `Scan` returns the match spans; `ExtractMeals` returns
  their interiors. The scanner follows Python's semantics for the pattern: the
  lazy group stops at the first `]`, a line feed before it makes the attempt
  fail (`.` does not match `\n`), a failed attempt retries one character later,
  and a match resumes the scan just past its `]`. The scanner is proved equal to
  a declarative description (`MatchList`), and that description admits only one
  list of spans.
- `imaging.dfy`, module `Imaging`: the prompt template, and the value returned
  by `generate_and_save_image` as a function of an abstract outcome of the
  service call and the download (`Delivery`). Python truthiness of that value
  is `IsTruthy`.
- `streaming.dfy`, module `Streaming`: the `for chunk in response` loop as a
  method `Assemble`, proved against the left fold `Accumulated`. That fold is
  proved equal to the plain in-order concatenation `Concatenation`.
- `session.dfy`, module `Sessions`: class `Session` with the three session
  variables. The constructor is the first-use initialisation. `Reset` is the
  reset button. `Turn` is one chat turn, and `StoreImages` is its
  image-generation loop. `Record` is the function on values that specifies the
  image-storing loop. `Valid` is the session invariant: every name with an image
  was extracted in this session. `Turn` preserves it, and the constructor and
  `Reset` establish it.

External services are parameters. The language-model stream is a `Stream`: the
sequence of chunk contents it yields, and whether iterating it raises after
them. The image service is a function `ImageService` from the call number
within the turn and the prompt to a `Delivery`.

Two behaviours of the code shape the model:

- There is no cache lookup: app.py:110-116 requests an image for every
  occurrence, duplicates included, and the last truthy result wins.
- `conversation` is initialised and reset (app.py:14-19, 126-129) but never
  appended to, so a turn leaves it unchanged.

## Model

| member | source | states |
|---|---|---|
| Extraction.FindClose | app.py:26 | the lazy group started after a `[` stops at the first `]` with no line feed before it; `None` exactly when no such `]` exists |
| Extraction.Scan | app.py:26-27 | every reported span is a `[` ... first `]` pair at or after the start, with no line feed inside; spans come in strictly increasing order and do not overlap |
| Extraction.ScanCovers | app.py:27 | every position where a match attempt would succeed is either a reported match or lies inside one: `findall` misses no match |
| Extraction.MatchListUnique | app.py:27 | any list of spans that is ordered, made of matches and misses no successful attempt is the scanner's result |
| Extraction.ScanCharacterised | app.py:24-27 | a list of spans meets the declarative description of `findall` if and only if it is the scanner's result |
| Extraction.ExtractMeals | app.py:24-27 | one meal per match, in match order; each meal `m` appears in the text as `"[" + m + "]"` at its match; no meal contains `]` or a line feed |
| Extraction.NoMealsWithoutBothBrackets | app.py:26-27 | a text lacking `[` or lacking `]` names no meal |
| Extraction.ScanSkips | app.py:27 | text without a `[` is passed over: scanning from before it gives the same matches as scanning from after it |
| Extraction.SingleMeal | app.py:24-27 | text free of `[` around one `[meal]`, with a one-line meal free of `]`, extracts exactly `[meal]` (the light-lunch reply is an instance) |
| Extraction.EmptyTextNamesNoMeal | app.py:26-27 | `""` gives no meal |
| Extraction.UnterminatedNamesNoMeal | app.py:26-27 | `"[unterminated"` gives no meal |
| Extraction.TwoMealsInOrder | app.py:26-27 | `"[A][B]"` gives `["A", "B"]` in order |
| Extraction.EmptyBracketsNameEmptyMeal | app.py:26 | `"[]"` gives `[""]` |
| Extraction.DuplicatesKept | app.py:26-27 | `"[A] text [A]"` gives `["A", "A"]`: duplicates are kept |
| Extraction.InnerOpenBracketIsInterior | app.py:26 | `"[a[b]"` gives `["a[b"]`: a `[` inside a match is part of its interior |
| Extraction.FirstCloseBracketEndsMatch | app.py:26 | `"[[x]]"` gives `["[x"]`: the first `]` closes the match |
| Extraction.LineFeedBreaksMatch | app.py:26 | `"[a\n[b]"` gives `["b"]`: a line feed before any `]` fails the attempt and the scan retries later |
| Imaging.ImagePrompt | app.py:35 | the prompt is the fixed head, then the meal name unchanged, then the fixed tail |
| Imaging.ImagePromptInjective | app.py:35 | distinct meal names give distinct prompts |
| Imaging.IsTruthy | app.py:115 | `if image:` holds exactly when the value is neither `None` nor `""` |
| Imaging.TruthyExactlyOnSuccess | app.py:43-48 | an image is stored exactly when the download answered 200 with a non-empty encoding |
| Imaging.GenerateImage | app.py:40-52 | the generator returns an image exactly when the download answered 200, and then returns the encoded image; a raised step or another status gives `None` |
| Streaming.Accumulated | app.py:99-101 | the `+=` loop over the chunks fails exactly when some chunk is malformed |
| Streaming.AccumulatedIsConcatenation | app.py:99-101 | the accumulation succeeds exactly when no chunk raises, and then the response is the in-order concatenation of the chunk contents, a missing content counting as `""` |
| Streaming.AccumulatedPrefix | app.py:99-102 | the text after any number of chunks is a prefix of the final response |
| Streaming.AccumulatedStaysFailed | app.py:99-101 | once a chunk has raised, the accumulation fails whatever follows |
| Streaming.Assemble | app.py:83-102 | the loop returns the accumulated response, or `None` when a chunk or the stream raised; it displays one growing value per consumed chunk, stops at the first chunk that raises, and on success every displayed value is a prefix of the final response |
| Sessions.Results | app.py:110-114 | one generator result per extracted occurrence, duplicates included; request `k` carries the prompt of meal `k` |
| Sessions.Record | app.py:110-116 | storing the truthy results adds keys only among the extracted meals |
| Sessions.RecordKeepsOthers | app.py:114-116 | a name none of whose occurrences produced a truthy image keeps its old entry or its absence; a failed generation adds no key |
| Sessions.RecordKeepsLast | app.py:110-116 | a name maps to the truthy image of its last occurrence that produced one |
| Sessions.RecordKeys | app.py:110-116 | the keys afterwards are the old keys plus the names whose generation returned a truthy image |
| Sessions.NotFoundStoresNothing | app.py:43-48 | when every download answers 404, storing the results leaves the image index as it was, while the meals are still logged by `Turn` |
| Sessions.FailedDownloadScenario | app.py:80-122 | in a new session, a reply naming one meal whose download answers 404 logs the meal in `all_meals` and stores no image |
| Sessions.Session.constructor | app.py:14-19 | a new session has all three collections empty and satisfies the session invariant |
| Sessions.Session.Reset | app.py:126-129 | reset leaves `all_meals`, `conversation` and `generated_images` empty |
| Sessions.Session.StoreImages | app.py:110-116 | the loop requests one image per occurrence, in order, with the meal's prompt, and stores exactly what `Record` describes; nothing else changes |
| Sessions.Session.Turn | app.py:80-122 | a turn whose stream raises changes nothing; otherwise `all_meals` becomes its old value followed by the extracted meals (unchanged if none) even when generations fail, `generated_images` becomes `Record` of the old index, the meals and their results, `conversation` is untouched, and the session invariant is preserved |

## Left out

- Streamlit presentation: page configuration, title, sidebar buttons with the
  placeholder nutrition text, chat widgets, columns, spinners, `st.image`,
  `st.success` and `st.error` (app.py:11, 55-79, 107-113, 117, 122, 130). The
  progressively displayed text is kept as the `shown` result of `Assemble`.
- The OpenAI chat and image calls and the `requests.get` download
  (app.py:34-42, 86-96). They are abstract inputs: a `Stream`, and an
  `ImageService` giving a `Delivery` per request.
- PIL decoding and re-encoding and the base64 encoding (app.py:44-47). The
  encoded image is an uninterpreted string inside `Delivery`; a decoding
  failure is the `Raised` outcome.
- The creation of the save folder (app.py:32). It is filesystem I/O, and
  nothing is written there.
- Exceptions as control flow (app.py:50-52, 121-122). Only their effect is
  modelled: a generation failure returns `None`; a failure of the stream or
  of a chunk before the extraction leaves the session unchanged.
- Exceptions raised by the presentation calls inside the image loop. They
  could stop the turn after some images were stored. The model treats those
  calls as not raising.
- Concurrency: a reset racing an in-flight turn. Streamlit reruns the script
  per interaction, so execution is single-threaded and turns are serialised.
- The order of `generated_images`: a Python dict keeps insertion order, and
  the sidebar (app.py:61) lists the names in that order; overwriting a name
  keeps its position. The model's `map` has no order, so only the keys and
  values are modelled.
- Character semantics: Python strings are sequences of code points, and the
  model's `string` is a sequence of Dafny `char`. Only `[`, `]` and the line
  feed matter to the pattern.
