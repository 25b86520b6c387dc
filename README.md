# GetPass request: a verified model

GetPass is a small web application. Staff enter one or more visitors in a form:
name, nationality and ID number, where the name and nationality must be in Arabic
script. They pick one or more weekdays in a date picker. The page posts the
visitors and the dates to a document-generation service and saves the document
or documents that come back. A serverless proxy function sits between the page
and the service. It rewrites the request path, forwards the request to the
service's fixed origin, and turns the answer into a function response. Binary
documents come back Base64-encoded, JSON as JSON text, and anything else as
plain text.

This project models three parts of it in Dafny:

- **`Proxy`** (`proxy.dfy`) is the proxy handler as pure functions.
  - Path derivation is a first-occurrence `replace`, and the upstream URL is built from it.
  - A download route selects the `arraybuffer` response type.
  - The outgoing request is built with a body that is parsed JSON or else the raw text.
  - The three response branches are tried in order: binary, JSON, everything else.
  - `Buffer.from` is modelled on bytes, text, arrays, array-like objects and
    printed buffers, with Node's `TypeError` (message and stack) for anything
    else. On download routes the client delivers a Node `Buffer`, which
    `JSON.stringify` prints through `toJSON` as `{"type":"Buffer","data":[...]}`.
    Every thrown error becomes a 500 response.
  - It relies on:
    - `Base64` (`base64.dfy`): section 4 of RFC 4648, encoding and decoding;
    - `Utf8` (`utf8.dfy`): the UTF-8 encoding `Buffer.from` applies to text;
    - `Text` (`text.dfy`): `includes`, `indexOf`, first-occurrence `replace`,
      `String(n)` and reading a number back;
    - `Json` (`json.dfy`): a parsed JSON value, `typeof`, and member lookup
      where the last of duplicate keys wins.
- **`EnterDate`** (`enter_date.dfy`) is the date picker.
  - `formatDateForAPI` produces the `YYYY-MM-DD` text.
  - The selection list is kept sorted by time with each calendar day once.
    Adding uses a stable sort of the old list plus the new entry.
  - Removal by index uses `Lists.RemoveAt` (`lists.dfy`), the
    `filter((_, i) => i !== index)` edit.
  - The component is the class `DatePicker`, whose methods update
    `selectedDates` and return what the parent is told.
- **`UserForm`** (`user_form.dfy`) is the visitor form.
  - The Arabic-only test is `^[\u0600-\u06FF\s]+$`.
  - Per-field messages are set while typing, and whole-form validation runs on submit.
  - The posted payload is built from the rows and the dates.
  - The submission's error messages are modelled.
  - The `Content-Disposition` file-name regular expression is modelled, then
    quote stripping, then the name synthesized from the content type and the
    first date.
  - The JSON manifest of several documents leads to one download per entry, in
    array order. The form resets only when every download succeeded.
  - The component is the class `VisitorForm`, holding `forms`, `inputErrors`,
    `error` and `successMessage`.

The HTTP client, `JSON.parse`, `JSON.stringify`, the document fetches and the
browser's storage are parameters. Each is a function value, or a map for
storage.

The source and the repository's own description disagree in a few places. The
model follows the source:

- The derived path need not start with `/`. `replace('/api', '')` removes the
  first `/api` anywhere in the path, so `/apidocs/api/x` becomes `docs/api/x`.
  The URL then runs into the origin's host name (`Proxy.DerivedPathMayLoseSlash`).
- A Base64 body decodes to the upstream bytes only when the client fetched raw
  bytes, which happens on `/download-file/` routes. On other routes the client
  delivers text, and the body is the Base64 of that text's UTF-8 encoding
  (`Proxy.BinaryTextRoundTrip`). In the binary branch `null`, a number, a
  boolean, or an object with neither a `length` member nor the shape of a
  printed buffer makes `Buffer.from` throw, and the answer is a 500.
- The binary family is OOXML, `application/octet-stream` and `application/pdf`.
  ZIP is not in it and falls through to the plain-text branch.
- The fallback disposition is always `attachment; filename="document.docx"`.
- No `Access-Control-Allow-Origin` header is set.
- A successful submission resets the rows but not the error rows. The form's
  invariant is therefore `1 <= |forms| <= |inputErrors|`, not equal lengths.

## Model

| member | source | states |
|---|---|---|
| Text.IndexOf | netlify/functions/proxy.js:182-185 | the first index at which the pattern occurs, None exactly when it occurs nowhere |
| Text.Includes | netlify/functions/proxy.js:182 | true exactly when the pattern occurs somewhere |
| Text.RemoveFirstFound | netlify/functions/proxy.js:183 | replacing the first occurrence by nothing removes exactly that occurrence and shortens the text by the pattern's length |
| Text.ReplaceFirst | netlify/functions/proxy.js:183-185 | the text before the first occurrence is kept, the replacement follows, then the text after the occurrence; a text without the pattern is unchanged |
| Text.ReplaceAbsent | netlify/functions/proxy.js:185 | replacing a pattern that does not occur leaves the text unchanged |
| Text.IntToString | src/UserForm.js:328 | `String(n)` is non-empty and starts with a minus sign exactly for negative numbers |
| Text.IntToStringRoundTrip | src/UserForm.js:328 | the decimal text of any integer reads back as that integer |
| Json.TypeOf | netlify/functions/proxy.js:253-254 | `typeof` is `'object'` exactly for null, arrays and objects, and `'string'` exactly for strings |
| Json.Member | src/UserForm.js:243-244 | the member found is the last one with that key; None when no member has it |
| Json.MemberAppend | src/UserForm.js:243 | a member added last is found under its key and leaves every other key's lookup as it was |
| Base64.Encode | netlify/functions/proxy.js:241 | the text's length is a multiple of four, and only no bytes give the empty text |
| Base64.EncodeShape | netlify/functions/proxy.js:241 | the Base64 text has four characters per started group of three bytes, all from the alphabet, with padding only in the last two places |
| Base64.DecodeEncode | netlify/functions/proxy.js:241 | decoding the Base64 text of any byte sequence gives back exactly those bytes |
| Base64.EncodeInjective | netlify/functions/proxy.js:241 | different byte sequences get different Base64 texts |
| Base64.CharIndexOfIndexChar | netlify/functions/proxy.js:241 | every 6-bit value's alphabet character reads back as that value |
| Utf8.Encode | netlify/functions/proxy.js:241 | a string becomes between one and four bytes per character |
| Utf8.DecodeEncode | netlify/functions/proxy.js:241 | the UTF-8 bytes `Buffer.from` makes of a string decode back to the string |
| Utf8.EncodeAscii | netlify/functions/proxy.js:241 | ASCII text becomes one byte per character, each equal to its code |
| Proxy.DerivePath | netlify/functions/proxy.js:182-186 | a path holding `/api/` loses its first `/api`; otherwise it loses its first occurrence of the function path, if any, and is otherwise unchanged |
| Proxy.DerivedPathMayLoseSlash | netlify/functions/proxy.js:182-192 | a path starting with `/api` plus a non-slash that holds `/api/` loses its leading `/api`, so the derived path does not start with `/` |
| Proxy.ApiInApiSlash | netlify/functions/proxy.js:182-183 | a path holding `/api/` holds `/api` no later than that, so the first branch always removes something |
| Proxy.UpstreamUrl | netlify/functions/proxy.js:191-192 | the URL is the fixed origin followed by the derived path |
| Proxy.ResponseTypeFor | netlify/functions/proxy.js:223 | raw bytes are requested exactly when the derived path holds `/download-file/` |
| Proxy.LowerAscii | netlify/functions/proxy.js:188 | the method name with ASCII capitals lowered and every other character kept, same length |
| Proxy.RequestBody | netlify/functions/proxy.js:199-209 | no data exactly for a missing or empty body; parsed JSON when the text parses; otherwise the text itself |
| Proxy.BuildRequest | netlify/functions/proxy.js:199-224 | the request carries the lowered method, the upstream URL, the parsed-or-raw body, the two fixed headers, the 60-second timeout and the route's response type |
| Proxy.ElementByte | netlify/functions/proxy.js:241 | an array number is stored modulo 256 |
| Proxy.BufferFrom | netlify/functions/proxy.js:241 | bytes are kept, text is UTF-8 encoded, arrays go element by element, an object with `length` gives that many bytes (none for a non-number), a printed buffer gives its data; it throws exactly for `null`, numbers, booleans and other objects, with Node's message naming what it received (`null`, the number, `true` or `false`, an instance of `Object`) and a stack starting with that message |
| Proxy.BufferJson | netlify/functions/proxy.js:253-254 | a Node `Buffer` prints as an object whose `type` is `Buffer` and whose `data` is its bytes as numbers, in order |
| Proxy.BufferJsonReadBack | netlify/functions/proxy.js:241-254 | a printed buffer is an object to `typeof`, and `Buffer.from` turns it back into the same bytes |
| Proxy.ErrorResponse | netlify/functions/proxy.js:279-286 | a thrown error becomes status 500 with no headers and the printed error object as body |
| Proxy.ErrorObject | netlify/functions/proxy.js:281-285 | the error object carries the fixed error text, the message, and the stack only when there is one |
| Proxy.Translate | netlify/functions/proxy.js:229-267 | Base64 exactly in the binary branch when `Buffer.from` succeeds; the upstream status except on a `Buffer.from` failure; a Base64 body decodes to the bytes and carries exactly the upstream content type and the upstream or default disposition; every answer has a content type except the header-less 500 |
| Proxy.Handle | netlify/functions/proxy.js:173-288 | a Base64 body only answers an upstream binary reply, with its status, and decodes to the bytes `Buffer.from` made; every answer names its content type except the header-less 500 |
| Proxy.BinaryBytesRoundTrip | netlify/functions/proxy.js:230-243 | raw binary bytes come back Base64-encoded with the upstream status and content type, decode to exactly those bytes, and get the upstream disposition or the default one |
| Proxy.BinaryTextRoundTrip | netlify/functions/proxy.js:223-243 | binary content delivered as text comes back as the Base64 of its UTF-8 bytes, which decode back to the text |
| Proxy.BufferFailureReported | netlify/functions/proxy.js:241-286 | binary data `Buffer.from` refuses gives a header-less 500 whose printed error object holds Node's argument-type message and a stack that starts with it |
| Proxy.BinaryBeforeJson | netlify/functions/proxy.js:230-247 | a content type that is both binary and JSON is never handled as JSON |
| Proxy.JsonBranchBody | netlify/functions/proxy.js:247-256 | the JSON branch keeps the status, sets exactly `application/json` and never Base64; a string passes unchanged, a number or boolean is not text, objects and null are printed, and a buffer prints as its `{type, data}` object |
| Proxy.DefaultBranchBody | netlify/functions/proxy.js:258-267 | other answers keep their content type or get `text/plain` and always have a text body: a string passes unchanged, objects and `null` are printed, numbers and booleans give an empty body, and a buffer prints as its `{type, data}` object |
| Proxy.HandleStatus | netlify/functions/proxy.js:177-288 | status 500 with the error body when the HTTP client throws; otherwise the upstream status, except 500 on a `Buffer.from` failure |
| Lists.RemoveAt | src/EnterDate.js:60 | the entry at an index inside the list goes and the rest keep their order; any other index removes nothing |
| Lists.InsertedAt | src/EnterDate.js:50 | the positions of a list with one entry inserted |
| Lists.RemovedAt | src/UserForm.js:81-82 | the positions of a list with one entry left out |
| EnterDate.Pad2 | src/EnterDate.js:12-13 | at least two digits, exactly two below 100, reading back as the number |
| EnterDate.FormatDateForAPI | src/EnterDate.js:9-15 | the year's numeral, a dash, the 1-based month in two digits, a dash, the day in two digits |
| EnterDate.FormatParses | src/EnterDate.js:9-15 | the text of a date reads back as its year, 1-based month and day |
| EnterDate.FormatKeysDay | src/EnterDate.js:35-47 | two dates have the same text exactly when they fall on the same calendar day |
| EnterDate.InsertPosition | src/EnterDate.js:50-52 | the stable sort places the new entry after every entry not later than it and before the first later one |
| EnterDate.InsertByTime | src/EnterDate.js:50-52 | the new entry sits at the stable-sort position, and taking it out gives back the old list |
| EnterDate.InsertByTimeSorts | src/EnterDate.js:50-52 | adding to a sorted list gives a sorted permutation of the old entries plus the new one |
| EnterDate.InsertKeepsDistinct | src/EnterDate.js:35-52 | inserting a day not yet selected keeps every day once |
| EnterDate.InsertKeepsFormatted | src/EnterDate.js:43-47 | inserting a formatted entry keeps every entry's text that of its own date |
| EnterDate.AddDate | src/EnterDate.js:32-57 | a missing or already selected day changes nothing; a new day's entry is placed so that taking it out gives back the old list |
| EnterDate.AddDateKeepsWellFormed | src/EnterDate.js:32-57 | choosing a date keeps the list sorted, one entry per day, with matching texts; a missing or already selected date changes nothing; a new day adds exactly its own entry |
| EnterDate.RemoveKeepsWellFormed | src/EnterDate.js:59-62 | removing by any index keeps the list's invariant |
| EnterDate.RemoveKeepsOrder | src/EnterDate.js:59-62 | removing an entry keeps the rest sorted by time |
| EnterDate.RemoveKeepsDistinct | src/EnterDate.js:59-62 | removing an entry keeps the remaining days distinct |
| EnterDate.Projection | src/EnterDate.js:25-27 | the parent is told the texts of the entries, in order |
| EnterDate.ProjectionDistinct | src/EnterDate.js:25-29 | the texts told to the parent are all different |
| EnterDate.SelectionAvoidsWeekend | src/EnterDate.js:68-91 | when the picker hands over only days `isWeekend` accepts as weekdays, adding or removing keeps every selected day off Friday and Saturday |
| EnterDate.DatePicker.constructor | src/EnterDate.js:18 | the selection starts empty |
| EnterDate.DatePicker.UpdateDates | src/EnterDate.js:21-30 | the list is replaced and the parent is told its texts |
| EnterDate.DatePicker.HandleDateChange | src/EnterDate.js:32-57 | the list becomes the added-date list and keeps its invariant; the parent is told exactly when a new day was added |
| EnterDate.DatePicker.RemoveDate | src/EnterDate.js:59-62 | the entry at the index goes, the invariant holds, and the parent is told the new texts |
| EnterDate.DatePicker.ClearAllDates | src/EnterDate.js:64-66 | the list and the parent's dates become empty |
| UserForm.AllArabic | src/UserForm.js:23-26 | true exactly when every character is in the Arabic block or is white space |
| UserForm.IsArabicOnly | src/UserForm.js:23-26 | true exactly for non-empty text made only of Arabic-block and white-space characters |
| UserForm.WithField | src/UserForm.js:63-66 | the edited field takes the new value and the others keep theirs |
| UserForm.ErrorFor | src/UserForm.js:43-61 | the Arabic-only message exactly for a non-empty name or nationality that fails the test; otherwise the empty message |
| UserForm.CheckRow | src/UserForm.js:104-112 | a row's check keeps every existing key and adds only name and nationality |
| UserForm.ValidatedErrors | src/UserForm.js:99-117 | validation keeps the number of error rows, and error rows past the last visitor are left as they were |
| UserForm.CheckAllRows | src/UserForm.js:100-116 | the validation loop produces exactly the validated error rows, and its answer is true exactly when no name or nationality is flagged |
| UserForm.ValidationMarksFlagged | src/UserForm.js:103-113 | a flagged field gets the Arabic-only message, an unflagged one keeps its message, an empty name is never marked, and no message is cleared |
| UserForm.ValidFormsKeepErrors | src/UserForm.js:99-117 | with no flagged field, validation leaves every error row as it was |
| UserForm.BuildPayload | src/UserForm.js:214-223 | one person per row with the ID number sent as `id_number`, and one date per selected date, in order |
| UserForm.PeopleToVisitors | src/UserForm.js:215-219 | one visitor per posted person |
| UserForm.PayloadKeepsVisitors | src/UserForm.js:214-223 | the posted people read back as exactly the rows, and the posted dates are exactly the selected ones |
| UserForm.PayloadDatesFromPicker | src/UserForm.js:220-222 | dates taken from a well-formed selection are posted in order, one per calendar day |
| UserForm.ErrorMessage | src/UserForm.js:325-334 | every message starts with the fixed sentence; then the server status, the no-response text, or the error's own message |
| UserForm.StatusMessageRoundTrip | src/UserForm.js:328 | the status named in a "Server returned" message reads back as the status |
| UserForm.SkipKey | src/UserForm.js:286 | the run `[^;=\n]*` ends at the first `;`, `=` or line feed |
| UserForm.SkipValue | src/UserForm.js:286 | the run `[^;\n]*` ends at the first `;` or line feed |
| UserForm.ClosingQuote | src/UserForm.js:286 | the lazy quoted value ends at the first matching quote on the same line |
| UserForm.StripQuotes | src/UserForm.js:289 | no quote is left, the text does not grow, and text without quotes is unchanged |
| UserForm.StripQuotesKeepsOthers | src/UserForm.js:289 | only quotes are removed: every other character occurs as often as before |
| UserForm.StripQuotesIdempotent | src/UserForm.js:289 | removing quotes twice is removing them once |
| UserForm.StripQuotesAppend | src/UserForm.js:289 | quote removal works piece by piece |
| UserForm.NameFromDisposition | src/UserForm.js:284-291 | a name is found only in a header holding `filename=`, and it holds no quote |
| UserForm.SynthesizedName | src/UserForm.js:294-305 | the name starts with `getpass_`, the first date follows, and it ends in `.pdf` exactly for a PDF and in `.docx` exactly otherwise |
| UserForm.DownloadName | src/UserForm.js:280-305 | the header's non-empty name when there is one, otherwise the synthesized name; never empty |
| UserForm.QuotedNameExtracted | src/UserForm.js:284-291 | a header such as `attachment; filename="x"` gives exactly the quoted name back |
| UserForm.MatchNeedsKey | src/UserForm.js:286-287 | a start position matches exactly when `filename` is there and a `=` follows it with no `;`, `=` or line feed in between |
| UserForm.ExecFirstMatch | src/UserForm.js:286-287 | `exec` answers with the capture of the first start position that matches, and with nothing when no position matches |
| UserForm.QuotedCapture | src/UserForm.js:286-287 | at the key, the regular expression captures the quoted name with its quotes |
| UserForm.ExecSkipsPrefix | src/UserForm.js:286-287 | no match starts inside a prefix without an `f` |
| UserForm.ClosingQuoteFirst | src/UserForm.js:286 | the lazy match stops at the first quote of its kind |
| UserForm.EntryRefReads | src/UserForm.js:250-258 | an entry's `url` and `filename` are its string members of those names, a missing `url` reads as `undefined`, and only a `null` entry yields none |
| UserForm.FileRequestUrl | src/UserForm.js:254 | each manifest file is fetched at `/api` followed by its URL |
| UserForm.ManifestSaves | src/UserForm.js:250-262 | the downloads of a manifest save at most one document per entry |
| UserForm.ManifestSavesStep | src/UserForm.js:249-273 | one more entry adds its own save, if its fetch succeeds, after those of the entries before it: a failed entry does not stop later ones |
| UserForm.ManifestSavesAll | src/UserForm.js:249-273 | at most one save per entry; every entry is saved, in order and under its own name, exactly when every fetch succeeds |
| UserForm.DownloadAll | src/UserForm.js:249-273 | the downloads save what the manifest specification gives and count exactly the completed ones |
| UserForm.ManifestFiles | src/UserForm.js:241-244 | the files are exactly the manifest's `files` array; a null manifest throws; a missing or non-array `files` is the unexpected-JSON case |
| UserForm.ReplyOutcome | src/UserForm.js:233-317 | a non-blob reply is the invalid-response error; a manifest that does not parse, or that is `null`, fails with the thrown message, and one without a `files` array gives the unexpected-JSON error; a single document is saved under its download name and resets the form; a reset never comes with an error |
| UserForm.HandleReply | src/UserForm.js:233-317 | handling the reply step by step, downloads included, gives exactly the submission outcome the reply specifies |
| UserForm.ManifestOutcome | src/UserForm.js:238-273 | a manifest announces its file count, saves its files in order, and resets the form exactly when it is non-empty and every fetch succeeded |
| UserForm.FilesOutcome | src/UserForm.js:244-273 | a manifest announces its file count and saves its files in order; the form resets exactly when there was a file and every fetch succeeded, and then every entry is saved under its own name |
| UserForm.SubmitOutcome | src/UserForm.js:205-334 | nothing is posted exactly when no date is selected; otherwise the payload of the rows and dates is posted, a failed post shows its error message, and a reply is handled with the first date |
| UserForm.StoredDates | src/UserForm.js:29-35 | no stored dates when the storage key is absent; a parse failure only for stored text |
| UserForm.VisitorForm.constructor | src/UserForm.js:8-20 | one empty row, one error row with empty name and nationality messages, no messages |
| UserForm.VisitorForm.HandleChanges | src/UserForm.js:38-70 | only the edited field of that row and its message change, and the form invariant holds |
| UserForm.VisitorForm.AddForm | src/UserForm.js:73-76 | an empty row and an empty error row are appended |
| UserForm.VisitorForm.RemoveForm | src/UserForm.js:79-84 | once confirmed, the row and its error row go together; otherwise nothing changes |
| UserForm.VisitorForm.ValidateArabicInputs | src/UserForm.js:99-117 | the error rows become the validated ones, and the answer is true exactly when no field is flagged |
| UserForm.VisitorForm.HandleSubmit | src/UserForm.js:191-336 | invalid rows are refused with the correction message and nothing is posted; otherwise the posted payload, the saves, the messages and the reset are those of the submission outcome |
| UserForm.PickThenSubmitAsWritten | src/UserForm.js:28-35 | as written, a day picked in the picker is never submitted: with nothing stored, valid rows are refused for want of dates |
| UserForm.PickThenSubmit | src/UserForm.js:205-223 | with the picker's days submitted, valid rows are posted with the picked days, one per calendar day |

## Findings

| source | as written | input that shows it | evidently intended | confidence | as-written member | corrected member |
|---|---|---|---|---|---|---|
| src/UserForm.js:28-35 | The form reads the dates from the `selectedDates` storage key, which no component writes. It renders the picker without the `onDatesChange` callback (src/UserForm.js:410), so the picker's report throws a `TypeError` instead of reaching the form. | Pick any weekday, fill in one row in Arabic, submit: the answer is "Please select at least one date before submitting." and nothing is posted | the form submits the days the picker holds | high, not executed | UserForm.PickThenSubmitAsWritten | UserForm.PickThenSubmit |

`VisitorForm.HandleSubmit` takes the selected dates as its argument, which is the
corrected wiring.

## Left out

- The network is not modelled: the HTTP client of the proxy and of the page, the
  document fetches, timeouts and the 60-second limit. Each is a parameter, or a
  field of the modelled request.
- `JSON.parse`, `JSON.stringify` and the client's own response decoding are
  parameters. JSON numbers are integers here, and floating point is not modelled.
- Logging (`console.log`, `console.error`) is not modelled, because it has no
  effect on the results.
- The DOM side of saving a file (object URLs, the temporary link, the click) is
  not modelled. A save is the pair of name and bytes.
- The `loading` flag, the disabled state of the submit button and the rendering
  (JSX, CSS, the Arabic locale of the picker) are not modelled, because they only
  drive the view.
- The `setTimeout` staggering of manifest downloads is not modelled. The model
  saves in array order. The timers start one second apart but do not wait for
  each other, so a slow fetch could finish after a later one.
- `Proxy.LowerAscii`: lower-cases ASCII letters only. `toLowerCase` also folds
  other scripts, but HTTP method names are ASCII.
- `Proxy.ElementByte`: an array element is a number modulo 256, a boolean is 0 or
  1, and everything else is 0. Numeric strings, one-element arrays, fractions and
  `NaN` are not converted as `ToNumber` would, because numbers are integers here.
- `Proxy.BufferFrom`: a parsed object with its own `valueOf` member, which Node
  calls before anything else, is not modelled. A number in the error message is
  its decimal text: the exponent form and the 28-character cut Node applies to
  very large numbers are not modelled. The stack's call-site lines are the
  `frames` parameter. An object whose numeric `length` exceeds the largest
  buffer Node can allocate makes Node throw a `RangeError`, which becomes a
  500; the model gives that many bytes, because Node's size limit depends on
  the platform.
- `Proxy.Translate`: a number or boolean body in the JSON branch is returned
  unconverted (`ValueBody`). The platform's handling of a non-string body is not
  modelled.
- Strings are sequences of Unicode scalar values. Lone UTF-16 surrogates, which
  `Buffer.from` would replace, cannot occur here.
- `EnterDate.CalendarDate` carries the local calendar fields of a `Date` and its
  time value as given by the picker. Time zones and the picker's `minDate` are not
  modelled.
- `EnterDate.SelectionAvoidsWeekend`: the picker's `filterDate` is a
  precondition on the day handed over. How the third-party picker applies the
  filter is not modelled.
- `UserForm.StoredDates`: reading from browser storage is a map lookup. A value
  is parsed by the `parseDates` parameter, so stored text of another shape is
  the parameter's concern.
- `UserForm.VisitorForm.RemoveForm`: requires `0 < index`, because the page
  offers removal for every row but the first. `removeForm` itself accepts any
  index, and `Lists.RemoveAt` models that for out-of-range indices.
