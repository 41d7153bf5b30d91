# translator-rs text pipeline, in Dafny

translator-rs is a command-line tool. It polls the clipboard or the current
selection, sends every new text to Google Translate or DeepL, and prints the
translation. This project models the deterministic part of that program: what
happens to a text between reading it and handing back translation records.
Each part is proved against a specification.

- **Utils** (`src/utils.rs`) covers four pieces:
  - `get_text`'s `filter` closure: trim, strip one `.` and then one `,`, join
    `-\n` hyphenations, percent-encode `%`, `&` and `#`, turn line breaks into
    spaces, and trim again;
  - `convert_language`'s two lookup tables and its panic on an unknown
    provider;
  - `fliter_long` and `fliter_short`.
- **GoogleApi** (`src/google_api.rs`) models:
  - the two request URLs;
  - the long-string loop over `response[0][i]`. It stops at the first `null`
    translation or after index 100, and skips a bare `.`;
  - the short-word loop over `sentences[0]` and
    `alternative_translations[0].alternative`. It skips the first
    alternative, and a missing member makes `unwrap` panic.
- **DeepLApi** (`src/deepl_api.rs`) models the auth-key guard, the text that
  goes out, the `Authorization` header, the content type, the form body, the
  two endpoints, and the `for` loop that maps the reply's `translations` to
  records.
- **Translator** (`src/main.rs`) models two things:
  - `translate`: the provider chosen from `api` and from whether the content
    holds a space;
  - the polling loop of `main`, as the class `Poller`. Its `Step` keeps
    `last_text`, `clear_count` and `index` exactly as the loop does. Its
    invariant ties them to the history of samples read: the last non-empty
    sample, a reference counter, and the number of translated samples.
- **Strings**, **Json**, **Errors** and **Records** are supporting modules:
  - Strings models Rust's `str::replace` and `trim`. Its `Split` is a reference
    only: the program never splits a string, but the proofs use `Split` to read
    the parameters back out of a URL or a form body;
  - Json models `serde_json::Value` with `Index`, `get` and `Display`;
  - Errors holds the error types of `src/errors.rs`, plus `Result`, `Option`
    and an outcome type for panics;
  - Records holds `TranslateResult`.

The network, the clipboard and the terminal are outside the model. Each HTTP
reply is a parameter of the operation that would have received it.

Where a description of the program and its code disagree, the model follows
the code:
- The long-string loop examines up to 101 candidates (indices 0 to 100), not
  100.
- The default target language name `Chinese (Simplified)` (capital S) is in
  neither table of `convert_language`, so `convert_language` maps it to `en`
  for Google and `EN-US` for DeepL. `Utils.DefaultTargetUnmapped` states both.
  `main` itself hands the command-line names to `standardized_lang`
  (src/main.rs:250), which is not part of this model, so the model does not
  claim what `main` sends.

## Model

| member | source | states |
|---|---|---|
| Utils.Filter | src/utils.rs:54-71 | Computes the filter: trim, strip one leading `.` and then one leading `,`, delete every `-\n`, replace `%`, `&` and `#` by `%25`, `%26` and `%23` in that order, turn the remaining line breaks into spaces, trim again |
| Utils.FilterIsEscapedJoin | src/utils.rs:54-71 | The filter's output is the percent-encoding (`%`→`%25`, `&`→`%26`, `#`→`%23`) of the sample made into one trimmed line: the three `replace` calls encode character by character, and the later calls never touch the `%25` the first one wrote |
| Utils.FilterDecodes | src/utils.rs:54-71 | Percent-decoding the filter's output gives back exactly the one-line text (stripped of one leading `.` then `,`, `-\n` joined, line breaks as spaces, trimmed): the encoding loses nothing |
| Utils.FilterClean | src/utils.rs:54-71 | The filter's output is trimmed and contains no line break, no raw `&` and no raw `#` |
| Utils.UnescapeEscape | src/utils.rs:65-67 | Decoding the three triplets undoes the encoding, for every text |
| Utils.GoogleCode | src/utils.rs:136-146 | The Google table: English → en, Chinese → zh-CN, Japanese → ja, French → fr, German → de, any other name → en |
| Utils.DeepLCode | src/utils.rs:150-163 | The DeepL table: English → EN, Chinese → ZH, Japanese → JA, French → FR, German → DE, English (American) → EN-US, English (British) → EN-GB, Chinese (simplified) → ZH, any other name → EN-US |
| Utils.ConvertLanguage | src/utils.rs:129-171 | Panics exactly when `api` is neither `google` nor `deepl` (so also for `deeplpro`); otherwise the chosen table is applied separately to source and target |
| Utils.GoogleTable | src/utils.rs:135-146 | Every Google code is one of en, zh-CN, ja, fr, de; the five listed names map one-to-one (a reverse table recovers them); the result is `en` exactly for names other than Chinese, Japanese, French, German |
| Utils.DeepLTable | src/utils.rs:149-163 | Every DeepL code is one of EN, ZH, JA, FR, DE, EN-US, EN-GB; `ZH` exactly for `Chinese` and `Chinese (simplified)`; `EN-US` exactly for `English (American)` and the names outside the table |
| Utils.CodesArePlain | src/utils.rs:134-165 | No code of either table holds `&` or a space |
| Utils.DefaultTargetUnmapped | src/utils.rs:134-166 | `convert_language` maps the default names `English` and `Chinese (Simplified)` to (`en`, `en`) for Google and (`EN`, `EN-US`) for DeepL; `deeplpro` panics |
| Utils.FliterLong | src/utils.rs:173-175 | `replace("al.", "al")`, through the model of Rust's left-to-right, non-overlapping `str::replace` |
| Utils.FliterLongDropsAlDots | src/utils.rs:173-175 | The left-to-right, non-overlapping `replace("al.", "al")` deletes exactly the dots that close an `al.` and keeps every other character in order |
| Utils.FliterLongUnchanged | src/utils.rs:173-175 | `fliter_long` returns its input unchanged exactly when the input holds no `al.` |
| Utils.FliterLongNotIdempotent | src/utils.rs:173-175 | `fliter_long` is not idempotent: `al..` becomes `al.` and then `al` |
| Utils.FliterShort | src/utils.rs:177-199 | The nineteen `replace(c, "")` calls, one after another, in the source's order (ten ASCII characters, then nine full-width ones) |
| Utils.FliterShortStrips | src/utils.rs:177-199 | The nineteen `replace(c, "")` calls keep exactly the characters outside the nineteen listed ones, in order |
| Utils.FliterShortClean | src/utils.rs:177-199 | No listed character survives, every kept character is from the input, and a second pass changes nothing |
| Utils.FliterShortUnchanged | src/utils.rs:177-199 | `fliter_short` returns its input unchanged exactly when the input holds none of the nineteen characters |
| Utils.ShortAfterLong | src/utils.rs:173-199 | `fliter_short(fliter_long(s)) == fliter_short(s)` for every `s` |
| Json.At | src/google_api.rs:46-47 | serde_json's `Index` with a number: the element of an array, and `Null` past the end or inside a value that is not an array |
| Json.Get | src/google_api.rs:124-141 | `get(key)`: the first member named `key` of an object, `None` when there is none or the value is not an object |
| Json.Render | src/google_api.rs:46-47 | `format!("{}", v)`: compact JSON text (`null`, `true`/`false`, the decimal digits, a string between quotes, arrays and objects with their items separated by commas) |
| Json.Text | src/google_api.rs:51-52 | The display of a value with every `"` removed |
| Json.RenderIsNull | src/google_api.rs:46-49 | A value displays as `null` exactly when it is JSON null, so the loop's string test is a null test |
| Json.TextOfString | src/google_api.rs:51-52 | The displayed string value with quotes removed is its characters without `"` |
| Json.TextUnquoted | src/google_api.rs:51-52 | No kept text contains `"` |
| GoogleApi.LongStringUrl | src/google_api.rs:18-25 | The URL `https://translate.googleapis.com/translate_a/single?client=gtx&sl=…&tl=…&dt=t&q=…`, with `fliter_long` applied to the text |
| GoogleApi.ShortWordUrl | src/google_api.rs:77-102 | The same endpoint with `client=gtx`, `sl`, `tl`, `dj=1`, the nine `dt` parameters, `q` (the text after the nineteen-character strip), `button` and `tk=233819.233819` |
| GoogleApi.LongStringParameters | src/google_api.rs:18-25 | For a text and codes without `&`, splitting the long-string URL at `&` gives exactly the endpoint with `?client=gtx`, then `sl`, `tl`, `dt=t` and `q`, and `q` carries `fliter_long(text)` |
| GoogleApi.ShortWordParameters | src/google_api.rs:77-102 | For a text and codes without `&`, splitting the short-word URL at `&` gives exactly the endpoint with `?client=gtx`, then `sl`, `tl`, the ten fixed `dj`/`dt` parameters, then `q` carrying `fliter_short(text)`, `button` and `tk=233819.233819`, in that order |
| GoogleApi.LongKeepsAmpersandOut | src/google_api.rs:18 | The long-string `fliter_char` brings in no `&` |
| GoogleApi.LongRecords | src/google_api.rs:43-67 | The specification of the long-string loop: from candidate 0 to the first null translation or past index 100, the quote-free `[translation, original]` pair of every candidate whose translation is not `.` |
| GoogleApi.LongCandidate | src/google_api.rs:46-60 | One pass of the loop body: it stops exactly on a null translation and otherwise yields the candidate's quote-free pair, or nothing for a bare `.` |
| GoogleApi.NormaliseLong | src/google_api.rs:43-67 | The loop returns exactly the records of the specification `LongRecords` |
| GoogleApi.ExaminedBounds | src/google_api.rs:43-66 | At most 101 candidates are examined, never past the end of the candidate array; every examined one has a translation; below the cap the scan stops at the first null one |
| GoogleApi.LongRecordsIndexed | src/google_api.rs:43-67 | The records are, in increasing candidate order, the quote-free `[translation, original]` pairs of exactly the examined candidates whose translation is not `.`; a dropped `.` still counts towards the cap |
| GoogleApi.LongRecordsShape | src/google_api.rs:43-67 | At most 101 records; each has two quote-free texts and its first is not `.` |
| GoogleApi.LongSingleCandidate | src/google_api.rs:42-67 | A response with one candidate whose translation is not `.` and whose strings are quote-free gives exactly the one record `[translation, original]` |
| GoogleApi.ShortRecords | src/google_api.rs:120-153 | The specification of the short-word function: a panic when one of the five `unwrap`ped members is missing, otherwise the one record `[trans, orig, alternatives 1..n-1]` with quotes removed |
| GoogleApi.NormaliseShort | src/google_api.rs:120-153 | Returns the specification `ShortRecords`: a panic when one of `sentences`, `trans`, `orig`, `alternative_translations`, `alternative` is missing, else one record |
| GoogleApi.CollectLater | src/google_api.rs:139-151 | The alternatives loop appends the texts of alternatives 1 to n-1, where n is the number of leading alternatives that have `word_postproc` |
| GoogleApi.AltCountBounds | src/google_api.rs:139-151 | The alternatives scan stops within the array, at the first entry without `word_postproc`, and every entry before it has one |
| GoogleApi.ShortRecordShape | src/google_api.rs:120-153 | The one record is `trans`, `orig`, then the `word_postproc` of alternatives 1 to n-1 in order: its length is 2 + (n-1), or 2 when n = 0, and the first alternative never appears |
| GoogleApi.ShortRecordUnquoted | src/google_api.rs:134-148 | Every text of the short-word record is free of `"` |
| DeepLApi.Url | src/deepl_api.rs:81-95 | The two endpoints: `https://api-free.deepl.com/v2/translate` for the free plan and `https://api.deepl.com/v2/translate` for the pro plan |
| DeepLApi.AuthKeyMissing | src/deepl_api.rs:78-80 | The guard of both plans: the key is `null` or empty |
| DeepLApi.Sanitise | src/deepl_api.rs:30-31 | The text sent: `fliter_short(fliter_long(content))` |
| DeepLApi.AuthValue | src/deepl_api.rs:42 | The `Authorization` value: `DeepL-Auth-Key `, then the key |
| DeepLApi.Body | src/deepl_api.rs:43-46 | The form body `text=…&source_lang=…&target_lang=…&split_sentences=1` |
| DeepLApi.RequestFor | src/deepl_api.rs:42-51 | The POST request: the plan's URL, the `Authorization` value, the form content type and the body of the sanitised text |
| DeepLApi.ResultsOf | src/deepl_api.rs:58-67 | The records the result loop should build: entry k becomes (`orig` = the sent text, `trans` = entry k's text, no alternatives) |
| DeepLApi.Answer | src/deepl_api.rs:71-97 | What `translate_free` and `translate_pro` return: the key error for a missing key, otherwise the exchange's error or the records of the reply |
| DeepLApi.SanitiseIsShort | src/deepl_api.rs:30-31 | The text sent, `fliter_short(fliter_long(content))`, is `fliter_short(content)`; it contains no removed character and only characters of the content |
| DeepLApi.AuthValueCarriesKey | src/deepl_api.rs:42 | The `Authorization` value is `DeepL-Auth-Key ` followed by exactly the key, which can be read back from it |
| DeepLApi.BodyLayout | src/deepl_api.rs:43-46 | The body is the three `name=value` fields, each followed by `&`, then `split_sentences=1` |
| DeepLApi.BodyParameters | src/deepl_api.rs:43-46 | For a text and codes without `&`, splitting the body on `&` gives exactly `text=<s>`, `source_lang=<sl>`, `target_lang=<tl>`, `split_sentences=1` |
| DeepLApi.MapTranslations | src/deepl_api.rs:58-67 | One record per `translations` entry, in order: `trans` is the entry's text, `orig` is the sent text, `alter` is empty |
| DeepLApi.TranslateRequest | src/deepl_api.rs:22-69 | With a key, the request is the endpoint, `Authorization`, form content type and body built from the sanitised text; the result is the exchange's error or the mapped records |
| DeepLApi.TranslateWith | src/deepl_api.rs:71-97 | `translate_free`/`translate_pro`: no request is built and `DeepLEmptyAuthKeyError` is returned for a missing key; otherwise the request of its plan is sent |
| DeepLApi.MissingKeyRefused | src/deepl_api.rs:78-80 | The result is `DeepLEmptyAuthKeyError` exactly when the key is `null` or empty, whatever the server would answer |
| DeepLApi.TierUrlsDiffer | src/deepl_api.rs:81-95 | The free and pro endpoints differ |
| DeepLApi.TiersDifferOnlyInUrl | src/deepl_api.rs:71-97 | The free and pro requests differ, only in the URL, and both plans give the same result |
| DeepLApi.ResultsOneToOne | src/deepl_api.rs:58-68 | On a successful exchange, the result count equals the entry count and record k is (`fliter_short(content)`, entry k's text, no alternatives) |
| Translator.ContainsSpace | src/main.rs:74 | The `contains_symbol` closure: the content holds a U+0020 space |
| Translator.Route | src/main.rs:74-110 | No provider exactly for an `api` other than google, deepl and deeplpro; for google, the long-string path exactly when the content holds a U+0020 and the short-word path exactly when it holds none; deepl goes to the free plan and deeplpro to the pro plan, whatever the content |
| Translator.Translate | src/main.rs:64-122 | Calls the provider `Route` selects; it is `Err(UnsupportApi)` exactly when none is called; otherwise `Ok` with the provider's records, or none when the provider failed, and with `index`, `proxy` and `theme` unchanged |
| Translator.OnlySpaceCounts | src/main.rs:74-93 | Tabs and line breaks do not select the long-string path; a space does |
| Translator.DeepLFailureIsEmpty | src/main.rs:95-108 | Through `translate`, a DeepL key or exchange failure still gives `Ok` with no results; otherwise there is one result per translation returned |
| Translator.Fresh | src/main.rs:271-285 | The loop's test: the sample is non-empty and differs from `last_text` |
| Translator.LastNonEmpty | src/main.rs:271-285 | What `last_text` holds after a run of samples: the last non-empty one, or `""` |
| Translator.FreshCount | src/main.rs:271-287 | How many samples of a run were translated: those that were fresh against the `last_text` of the samples before them |
| Translator.CountAfter | src/main.rs:288-297 | The reference for `clear_count` after t translations: unchanged when clear mode is off, otherwise reset from 0 to the setting and then decremented, t times |
| Translator.ClearsAt | src/main.rs:288-295 | Translation number k clears the screen: clear mode is on and the counter is 0 when it starts |
| Translator.CountAfterPositive | src/main.rs:288-297 | For N > 0, after t ≥ 1 translations `clear_count` is N-1-(t-1) mod N |
| Translator.CountAfterNegative | src/main.rs:288-297 | For N < 0, `clear_count` only goes down (N - t) and never returns to 0 |
| Translator.CounterRange | src/main.rs:288-297 | For N > 0, `clear_count` stays in 0..N-1 after each translation |
| Translator.ClearsEveryN | src/main.rs:252-297 | Translation k clears the screen exactly when N > 0, k > 1 and (k-1) mod N = 0, which is translations N+1, 2N+1, …; a zero or negative setting never clears |
| Translator.RepeatSkipped | src/main.rs:271-285 | After a non-empty sample `last_text` is that sample, after an empty one it is unchanged, so the same sample is never translated twice in a row |
| Translator.HistoryStep | src/main.rs:271-287 | One more sample changes `last_text` and the translation count exactly as one pass of the loop does |
| Translator.FreshCountBound | src/main.rs:269-311 | No more samples are translated than were read |
| Translator.Poller.constructor | src/main.rs:252-268 | The loop starts with clear mode iff the setting is not 0, `clear_count` at the setting, `last_text` empty and `index` 1 |
| Translator.Poller.Step | src/main.rs:269-311 | A sample is translated exactly when it is non-empty and differs from `last_text`. `last_text` becomes each non-empty sample. A translation runs with the current index, clears exactly as `ClearsAt` says and dispatches as `Translate`. `index` then grows by one. An unknown `api` ends the loop. The invariant ties all three variables to the samples read |

## Left out

- Clipboard and selection reads, the OS branching of `get_text`, and the `GetText` wrapper: these are I/O through foreign calls. The sampled text is an input.
- HTTP: client and proxy building, `send`, timeouts and JSON decoding. Every reply is a parameter, already decoded; a failed exchange is `Err(RequestFailed)`.
- serde_json `Display` escaping: a string displays as its characters between two quotes. Numbers are integers only; floating-point values are not modelled.
- JSON objects: `Json.Get` takes the first member with a key, and `Json.Render` prints members in sequence order. serde_json's default map holds each key once and displays the keys sorted. The kept text of a `trans`, `orig` or `word_postproc` that is itself an object can therefore differ from the program's.
- Terminal output (`show`, colours, the screen-clear escape), the clock (`start_time`, `end_time`) and the `fast_mode` sleep: presentation, wall-clock time and floating point. A clear is reported as a flag of the step.
- Command-line parsing and the OS check in `main`: their results are the constructor's parameters.
- `translate_longstring`, `translate_shortword`, `standardized_lang` and `utils::Text`: `src/main.rs` imports them, but no shown file defines them. `Translator.Translate` therefore takes the called provider's reply as a parameter and does not link it to the Google or DeepL models. `Translator.DeepLFailureIsEmpty` composes it with the DeepL answer by hand.
- Translator.Poller.Step: the auth key is kept as a field but is not passed on, because `translate`'s provider reply is a parameter.
- Translator.Poller.Step: `index` is unbounded; `usize` overflow is not modelled.
- Translator.CountAfterNegative: `clear_count` is an unbounded integer. The `i32` wrap-around after 2^31 decrements with a negative setting is not modelled.
- The errors of `src/errors.rs` are constructors; their messages (`Display`) are not modelled.
