# Journal archive search core, modelled in Dafny

The archive lets readers search a school magazine's back issues. This project models
three pieces of its logic:

- **The local archive service** (`src/services/magazineService.ts`):
  - parsing "MM/YY" publication dates;
  - filtering the entry list by date range and author;
  - listing the distinct authors;
  - computing the formatted date range of the archive;
  - turning a Google Drive link into an embeddable preview URL.
- **The vector-search client** (`src/services/qdrantService.ts`):
  - checking the payload of each search hit;
  - screening the hit list returned by the search endpoint;
  - normalising "M/YYYY" date bounds to "MM/YY";
  - compiling the user's filters into index conditions.
- **The generation endpoint** (`api/generate.ts`):
  - cleaning a markdown code fence off the model's text;
  - checking the shape of the parsed reply;
  - mapping each request to the reply it gets (405, 400, 500 or 200).

Modules:

- `Wrappers` holds `Option`.
- `JsValues` holds the JavaScript value semantics the code relies on:
  - parsed JSON values;
  - `undefined`, as `None`;
  - `typeof x === 'object'`, which is true for `null`;
  - truthiness;
  - evaluations that throw a TypeError, as `Eval.Thrown`.
- `JsStrings` holds the string built-ins: `trim` with JavaScript's white space, `split`, `padStart`, `slice(-n)`, `parseInt` without a radix, and `String(n)`.
- `Seqs` holds `Array.prototype.filter` and the insertion order of a `Set`.
- `MagazineTypes`, `MagazineService`, `QdrantService` and `Generate` follow the source files.

How the model represents JavaScript:

- A `Date` built by `new Date(year, monthIndex)` is its month count, `fullYear * 12 + monthIndex`, or `None` when an argument is NaN (Invalid Date).
  - `<` and `>` on an Invalid Date are false.
  - Its getters print as "NaN".
  - Years 0 to 99 are read as 1900 to 1999, as `Date` does.
- `getAllAuthors` and `getDateRange` loop over a list and update local variables, so they are methods with loop invariants, proved against fold functions.
- `filterEntries`, `getAllAuthors` and `getDateRange` take the entry list as a parameter. The source reads the module's mock list, which the model keeps as `MagazineService.MockEntries`.
- `buildFilter` pushes onto a local array, so it is a method.
- The rest is pure and is modelled as functions.
- The search endpoint's response body is a `Json` parameter.
- `JSON.parse` and the model call are function-typed parameters of `Generate.Handle`.

Three facts about the code that the model keeps:

- Date bounds are normalised only from "M/YYYY" to "MM/YY". No other date form is produced.
- Two-digit years have no pivot: `parseDate` always adds 2000.
- Search hits are not cut at any score threshold. Every hit with a valid payload is kept, whatever its score.

## Model

| member | source | states |
|---|---|---|
| MagazineService.ParseDate | src/services/magazineService.ts:69-72 | text without '/' is Invalid Date; text whose two parts are decimal numerals is `new Date(2000 + year, month - 1)` on their values |
| MagazineService.ParseDateOfDecimals | src/services/magazineService.ts:69-72 | `parseDate` of two decimal parts "M/Y" is month M of the year 2000+Y |
| MagazineService.FormatDateDigits | src/services/magazineService.ts:138-141 | `FormatDate` prints a month of 2000-2099 as five characters: the month 1-12 in two decimal digits, '/', and the year after 2000 in two decimal digits |
| MagazineService.FormatDateRoundTrip | src/services/magazineService.ts:138-141 | a month of 2000-2099, formatted as `getDateRange` prints it, is read back by `parseDate` as the same month |
| MagazineService.Keeps | src/services/magazineService.ts:78-98 | an entry whose date does not parse passes when no author is required; without a date range, an entry passes exactly when no author list is given or its author is listed |
| MagazineService.FilterEntries | src/services/magazineService.ts:75-99 | no filters return the entries unchanged; otherwise an entry is in the result exactly when it is an entry and passes the date and author checks |
| MagazineService.FilterEntriesSelects | src/services/magazineService.ts:78-98 | the filtered list keeps exactly the positions whose entry passes, unchanged and in their original order |
| MagazineService.UnconstrainedFilterKeepsAll | src/services/magazineService.ts:80-96 | null or empty date bounds and an empty or missing author list keep every entry |
| MagazineService.DateBoundsInclusive | src/services/magazineService.ts:80-95 | with readable bounds and entry date, an entry is kept exactly when its month lies between the bounds, both ends included, and a non-empty author list names its author |
| MagazineService.DateBoundsEachSide | src/services/magazineService.ts:80-95 | for any author list, each bound is tested on its own: a readable start bound drops exactly the entries with a readable date before it, a readable end bound exactly those with a readable date after it, neither drops an entry whose date does not parse, and a non-empty author list must name the entry's author |
| MagazineService.KeepsConjunction | src/services/magazineService.ts:78-98 | the callback keeps an entry exactly when the date range alone and the author list alone both keep it |
| MagazineService.UnreadableBoundIgnored | src/services/magazineService.ts:80-90 | a bound that parses to Invalid Date, on either side, excludes nothing: the filter keeps exactly what it keeps with that bound null, whatever the other bound and the author list hold |
| MagazineService.AuthorsMatchAny | src/services/magazineService.ts:78-98 | with a non-empty author list and any date range, every kept entry's author is listed, and an entry is kept exactly when its author is listed and the date range alone keeps it |
| MagazineService.GetAllAuthors | src/services/magazineService.ts:121-125 | the result is the entries' authors without repeats, each listed author is some entry's author and vice versa, in order of first appearance |
| Seqs.Dedup | src/services/magazineService.ts:122-124 | the contents of a `Set` filled from a list: exactly the list's elements, without repeats |
| Seqs.DedupOrder | src/services/magazineService.ts:122-124 | a `Set` lists its elements in the order of their first insertion |
| Seqs.DedupOfDistinct | src/services/magazineService.ts:122-124 | a `Set` filled from a list without repeats lists exactly that list |
| MagazineService.MockAuthors | src/services/magazineService.ts:5-66 | the mock list names six different authors, so `getAllAuthors` on it returns all six in entry order |
| MagazineService.GetDateRange | src/services/magazineService.ts:128-142 | an empty list throws; otherwise the result is the formatted running minimum and maximum of the entries' dates, both started at the first entry's date |
| MagazineService.Earliest | src/services/magazineService.ts:129-136 | the running minimum is readable exactly when the first entry's date is, and it is that date or one of the entry dates |
| MagazineService.Latest | src/services/magazineService.ts:130-136 | the running maximum is readable exactly when the first entry's date is, and it is that date or one of the entry dates |
| MagazineService.EarliestIsLeast | src/services/magazineService.ts:129-136 | the running minimum is no later than the first date and every readable date, and is one of them; an Invalid Date start stays invalid |
| MagazineService.LatestIsGreatest | src/services/magazineService.ts:130-136 | the running maximum is no earlier than the first date and every readable date, and is one of them; an Invalid Date start stays invalid |
| MagazineService.DateRangeBounds | src/services/magazineService.ts:128-142 | with a readable first date, the range spans every readable entry date and both ends are entry dates |
| MagazineService.DateRangeOfUnreadableFirst | src/services/magazineService.ts:129-141 | an unreadable first date makes both ends print "NaN/NaN" |
| MagazineService.MockDates | src/services/magazineService.ts:5-66 | the mock entries' dates read as January, May and September of 2020 and then of 2021, in entry order |
| MagazineService.AscendingDatesRange | src/services/magazineService.ts:129-136 | over dates that rise with the position, the running minimum stays at the first date and the running maximum ends at the last |
| MagazineService.FormatMonthYear | src/services/magazineService.ts:138-141 | a month from January to September of a year 2010-2099 prints as "0M/YY" |
| MagazineService.MockDateRange | src/services/magazineService.ts:128-142 | on the mock list, `getDateRange` (which does not throw, the list being non-empty) returns "01/20" to "09/21" |
| MagazineService.GetEmbedUrl | src/services/magazineService.ts:167-174 | the result is "" exactly when the link has no "/d/" followed by a character other than '/' |
| MagazineService.EmbedUrlOfMatch | src/services/magazineService.ts:169-173 | the leftmost match with the longest id gives the preview URL of that id |
| MagazineService.EmbedUrlOfDriveLink | src/services/magazineService.ts:167-174 | a Drive file link, followed by nothing or by a path, embeds as its file's preview URL |
| MagazineService.EmbedUrlIdempotent | src/services/magazineService.ts:167-174 | embedding an embed URL gives it back |
| MagazineService.EmbedUrlOfSampleLink | src/services/magazineService.ts:8 | the archive's sample link embeds as the preview URL of its file id |
| QdrantService.IsValidPayload | src/services/qdrantService.ts:12-25 | null throws; otherwise true exactly for an object whose eight listed fields are strings and whose `id`, if present, is a number |
| QdrantService.KeepsHit | src/services/qdrantService.ts:97-98 | the filter callback throws exactly on a null hit or a null payload, and accepts exactly a hit whose payload is an object passing the payload check |
| QdrantService.ToResult | src/services/qdrantService.ts:99-102 | a kept hit keeps its score and its payload unchanged |
| QdrantService.ScreenHits | src/services/qdrantService.ts:97-102 | screening never returns more results than there are hits, and fewer when the last hit is not kept |
| QdrantService.ScreenHitsReference | src/services/qdrantService.ts:97-102 | screening throws exactly when some hit's payload check throws; otherwise it returns, in order, the results of the hits with valid payloads |
| QdrantService.ScreenHitsSelects | src/services/qdrantService.ts:97-102 | when no check throws, the kept positions are exactly those with a valid payload, in increasing order |
| QdrantService.ScreenResults | src/services/qdrantService.ts:94-102 | a screened result comes only from a non-empty hit array |
| QdrantService.ScreenResultsIntended | src/services/qdrantService.ts:97-102 | without the logging read, an empty hit array screens to no results |
| QdrantService.EmptyHitListThrows | src/services/qdrantService.ts:96 | an empty hit array throws as written and gives no results without the logging read |
| QdrantService.ScreenResultsAgreeElsewhere | src/services/qdrantService.ts:96-102 | for every input other than an empty array, both versions give the same outcome |
| QdrantService.ToShortYear | src/services/qdrantService.ts:146-151 | text without '/' is returned unchanged |
| QdrantService.ToShortYearOfParts | src/services/qdrantService.ts:148-150 | "month/year[/rest]" becomes the month padded to two characters, '/', and the year's last two characters; an empty month or year returns the input |
| QdrantService.ToShortYearExample | src/services/qdrantService.ts:147 | "3/2024" becomes "03/24" |
| QdrantService.ToShortYearIdempotent | src/services/qdrantService.ts:146-151 | normalising twice gives what normalising once gives |
| QdrantService.ShortFormIsFixed | src/services/qdrantService.ts:149-150 | an already short "MM/YY" form is left unchanged |
| QdrantService.ToShortYearKeepsDate | src/services/qdrantService.ts:146-151 | a bound "M/20YY" normalises to text that `parseDate` reads as month M of 20YY |
| QdrantService.BuildRangeCondition | src/services/qdrantService.ts:117-128 | the range condition built by assigning each truthy bound in place is exactly `DateCondition` of the date range |
| QdrantService.DateCondition | src/services/qdrantService.ts:116-128 | the range condition is keyed `pub_date`, has `gte` exactly when the start bound is truthy and `lte` exactly when the end bound is, each already in the form `toShortYear` leaves unchanged |
| QdrantService.BuildFilter | src/services/qdrantService.ts:110-144 | `undefined` exactly when there are no filters, or no truthy date bound and no authors; otherwise one range condition on `pub_date` first when a bound is set, then one match-any condition on `author` holding the given authors in order |
| Generate.CleanJsonString | api/generate.ts:16-28 | the result has no outer white space, and is the trimmed text when the text holds no complete fenced block |
| Generate.CleanOfBlock | api/generate.ts:19-22 | with a block, the result is the trimmed text between the first fence's optional `json` tag and the next fence after it |
| Generate.CapturedIsTrim | api/generate.ts:19-21 | the captured group is already trimmed, and equals the trimmed text between tag and closing fence |
| Generate.CleanHasNoBlock | api/generate.ts:16-28 | the result never holds a complete fenced block, and holds no fence at all when the input had a block |
| Generate.CleanIdempotent | api/generate.ts:16-28 | cleaning twice is cleaning once |
| Generate.CleanJsonWrapped | api/generate.ts:19-23 | a fence-free body wrapped in a `json` fence cleans to what the bare body cleans to, its trim |
| Generate.CitationCheck | api/generate.ts:38-43 | the per-citation callback throws exactly on null and accepts exactly an object holding the three keys |
| Generate.Every | api/generate.ts:38-43 | the check passes exactly when every citation is an object with the three keys, and throws exactly when a null citation comes before any failing one |
| Generate.ValidateResponseFormat | api/generate.ts:31-45 | true exactly for an object with a string `answer` and an array `citations` of objects holding the three keys; throws exactly on null or on a null citation the check reaches |
| Generate.ValidationIgnoresCitationValues | api/generate.ts:38-43 | an empty citation list passes, and the citation fields' values are not checked |
| Generate.NullCitationThrows | api/generate.ts:38-43 | a null citation after passing ones throws, and a failing citation before it stops the check first |
| Generate.Handle | api/generate.ts:47-122 | 405 exactly for a method other than POST, 400 exactly for a POST whose prompt is falsy, and a reply past the model call only for an admitted request; an admitted request gets `Classify`'s reply on the model's text, or 500 when the model call fails |
| Generate.Status | api/generate.ts:51-121 | status 200 is sent exactly for a successful reply |
| Generate.EarlyReplies | api/generate.ts:51-60 | a request refused before the model call gets the same reply whatever the model and the parser do: 405 for a method other than POST, 400 for a falsy prompt, 500 for a body that cannot be destructured |
| Generate.MissingPromptRefused | api/generate.ts:56-60 | a missing or empty prompt gets 400 |
| Generate.Classify | api/generate.ts:80-105 | once the model has answered, the reply is a success, an invalid format or a JSON parsing error; a success's text has no outer white space and parses to a well-formed reply |
| Generate.ClassifyOutcomes | api/generate.ts:80-105 | unparsable cleaned text or a throwing check is a JSON parsing error, a failing check an invalid format, and success happens exactly for a well-formed reply and sends the cleaned text |
| Generate.SuccessReply | api/generate.ts:51-96 | a successful reply comes from an admitted request, and its text is the cleaned model text: trimmed, free of fenced blocks, parsing to a well-formed reply |
| Generate.NullReplyIsParseError | api/generate.ts:83-105 | a model reply of `null` is reported as a JSON parsing error, not as an invalid format |

## Left out

- The network calls are not modelled: the embedding request, the `/search` request, the Gemini client and its generation settings. The search response body, the model's text and `JSON.parse` are inputs instead.
- The server-side search, filter and embedding endpoints are not part of this model. One consequence: the client posts its filter under the key `filters` while the search endpoint reads `filter`, so nothing here claims that a built filter reaches the index.
- `searchByFilters` and `performRagSearch` are not modelled: they are a timer delay before returning `filterEntries`' result or a fixed mock response.
- The mock RAG response and the UI components are not modelled.
- `Date` is reduced to a month count. Dates outside the range `Date` supports and the day and time parts are not modelled.
- Strings are sequences of Unicode scalar values. In JavaScript, `length`, `padStart` and `slice(-n)` count UTF-16 code units, so a character outside the Basic Multilingual Plane counts as two there and as one here. `QdrantService.ToShortYear` therefore differs from the source on years or months holding such characters.
- JSON numbers are reals, not doubles; `parseInt` results are not rounded to doubles.
- Logging (`console.log`, `console.error`) and the error objects' `message`, `stack` and constructor name in the 500 replies are not modelled; the replies keep only their kind and the raw and cleaned texts.
- `isValidPayload` checks that `volume`, `issue` and `page` are strings and that `id` is a number, while the entry type declares numbers and a string. The model follows the check as written.
- The `try`/`catch` around `cleanJsonString`'s body is not modelled: matching and trimming a string cannot throw.
- Generate.CleanHasNoBlock: when the text has no complete fenced block, the cleaned text may still hold one lone "```", so the model proves only that no complete block remains.

## Findings

| source | as written | input that shows it | evidently intended | confidence | as-written member | corrected member |
|---|---|---|---|---|---|---|
| src/services/qdrantService.ts:96 | the logging line reads `searchResults[0].score` before filtering, so a search that finds nothing throws a TypeError | a search response body of `[]` | an empty hit list screens to an empty result list | not executed | QdrantService.EmptyHitListThrows | QdrantService.ScreenResultsIntended |
