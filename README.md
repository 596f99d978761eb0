# Product-extraction pipeline: repair, normalisation and field extraction

A Dafny model of the decision logic of the ProBoutik extraction helpers
(`Api_Functions.py` and the older `Extraction_api.py`). These helpers turn
the free-text reply of a generative model into a product or sale record:

- **Repair** (`clean_json_response`). The reply is trimmed of whitespace
  and Markdown backtick fences. The candidate is then the greedy `{ … }`
  span, or `"{}"` when there is none. See module `ApiFunctions`, with
  trimming in `Text`.
- **Normalisation** (the tail of `extract_products`). Starts from the
  outcome of `json.loads`.
  - A parse failure becomes `{person_name: None, products: []}`.
  - A falsy or missing `person_name` becomes None.
  - A missing or non-list `products` becomes `[]`.
  - Otherwise every product gets its five line-item keys through
    `setdefault`, in list order.
  - A product that is not a dict stops the loop with the AttributeError
    that `setdefault` raises.
  - See module `ApiFunctions`; JSON values are in `Json`.
- **Field extraction** (`extract_image_product_info`, `extract_product_info`).
  - The four patterns `"key":\s*"([^"]+)"` are searched leftmost in the
    reply. Module `FieldPattern` holds the matcher and the shared loop.
  - The newer revision clears a field on a miss and derives
    `days_before_expire` from the two `%d-%m-%y` dates. The count is
    `(end - start).days`, the end minus the start in days, so two equal
    dates give 0 and 1 June to 1 July gives 30 (module `Calendar`, after
    Python's `strptime` and `date.toordinal`).
  - The older revision leaves a field untouched on a miss (module
    `ExtractionApi`).
- **Sanitising** (`sanitize_message`). Performs `re.sub(r"<.*?>", "", message)`.
  A tag runs from `<` to the first `>` on the same line. See module
  `Sanitize`.

Each `for` loop of the source is a `method` with a `while` loop, proved
equal to a specification function (`RunPatterns`, `CompleteEachItem`).
The methods that run those loops in sequence (`NormaliseSaleRecord`,
`ExtractImageProductInfo`, `ExtractProductInfo`) are proved equal to
their specification functions too. The date step is a loop-free `method`
(`StoreExpiryDays`) whose contract gives the whole new record. The five
`setdefault` calls on one product are the function `CompleteLineItem`.
The source's promises are proved as lemmas about the specification
functions.

## Model

| member | source | states |
|---|---|---|
| `ApiFunctions.CleanJsonResponse` | Api_Functions.py:144-149 | The candidate always starts with `{` and ends with `}`. It is `"{}"` when the trimmed reply has no `{` before a `}`. Otherwise it is the trimmed reply from its first `{` to its last `}`. |
| `ApiFunctions.CleanJsonIdempotent` | Api_Functions.py:144-149 | Repairing a repaired candidate changes nothing. |
| `ApiFunctions.CleanJsonFixed` | Api_Functions.py:145-148 | Text that already starts with `{` and ends with `}` is its own candidate: trimming leaves it alone and the greedy span is all of it. |
| `ApiFunctions.CleanJsonIgnoresOuterWhitespace` | Api_Functions.py:201-202 | Stripping the reply before repair (`.content.strip()`) does not change the candidate. |
| `ApiFunctions.BraceSpanByIndices` | Api_Functions.py:146-149 | `\{.*\}` with DOTALL matches exactly when the first `{` comes before the last `}`. |
| `Text.StripIsInfix` | Api_Functions.py:145 | `str.strip` removes stripped characters only, from the two ends only, and leaves a contiguous infix. |
| `Text.StripIdempotent` | Api_Functions.py:145 | Stripping twice is stripping once. |
| `ApiFunctions.SetDefault` | Api_Functions.py:220 | `setdefault(key, None)` adds `key` as None when it is missing and changes no other entry. |
| `ApiFunctions.CompleteLineItem` | Api_Functions.py:220-224 | After the five `setdefault` calls, the item has exactly its own keys plus the five line-item keys. Its own values are kept and the added keys are None. |
| `ApiFunctions.CompleteLineItemIdempotent` | Api_Functions.py:220-224 | Completing an already completed item changes nothing. |
| `ApiFunctions.FirstNonObject` | Api_Functions.py:219-220 | The first product that is not a dict, where `setdefault` raises; None when every product is a dict. |
| `ApiFunctions.CompleteItems` | Api_Functions.py:219-224 | The product loop succeeds exactly when every product is a dict, and then completes each one in order with the length kept. Otherwise it fails at the first product that is not a dict. |
| `ApiFunctions.CompleteEachItem` | Api_Functions.py:219-224 | The loop as written, patching products one at a time, equals `CompleteItems`. |
| `ApiFunctions.Normalised` | Api_Functions.py:204-224 | The whole normalisation. A parse failure gives `EmptySale`. It fails exactly when `products` is a list holding a non-dict, at the least such index. On success the keys are the parsed keys plus `person_name` and `products`, and `person_name` is kept only when it is present and truthy. Other entries are untouched. `products` becomes `[]` unless it is a list, in which case each item is completed in place, in order. |
| `ApiFunctions.NormaliseSaleRecord` | Api_Functions.py:204-224 | The imperative sequence of in-place patches equals `Normalised`. |
| `ApiFunctions.PersonNameKept` | Api_Functions.py:212-214 | `person_name` is non-null after normalisation exactly when it was present and truthy in the parsed object. |
| `ApiFunctions.ParseFailureIsEmptyObject` | Api_Functions.py:204-210 | A reply that is not JSON normalises exactly like the empty object `{}`. |
| `ApiFunctions.CompletedItemsHaveAllKeys` | Api_Functions.py:215-224 | Every product of a normalised record is a dict holding all five line-item keys. |
| `ApiFunctions.ImageKeys` | Api_Functions.py:84-98 | The image record's keys are the four pattern keys plus `days_before_expire`, and no pattern writes `days_before_expire`. |
| `ApiFunctions.ExpiryDays` | Api_Functions.py:107-115 | The day count exists exactly when both captures are non-empty and both parse as `%d-%m-%y`. It is then the end's ordinal minus the start's. It is negative exactly when the end date comes first, and zero exactly when the dates are equal. |
| `ApiFunctions.ExpiryDaysOfFields` | Api_Functions.py:108-115 | The truthiness test on the two stored dates decides the same thing as `ExpiryDays` on the captures. |
| `ApiFunctions.StoreExpiryDays` | Api_Functions.py:107-115 | The date step touches only `days_before_expire`. When both dates are truthy it stores the day difference, or None on a ValueError. Otherwise it leaves the entry alone. |
| `ApiFunctions.ImageRecordContents` | Api_Functions.py:84-115 | The image record has exactly the five initial keys. Each field is its pattern's capture or None. The day count is `ExpiryDays` of the two captures, stored as a JSON integer, or None when there is no count. |
| `ApiFunctions.ImageDaysValue` | Api_Functions.py:107-115 | A non-null day count in the image record (`info`, the record built from `reply`) comes from two captured dates that both parse. It is the end date's ordinal minus the start date's. |
| `ApiFunctions.ExtractImageProductInfo` | Api_Functions.py:84-115 | The pattern loop followed by the date step yields the image record. |
| `FieldPattern.MatchHereIsOccurs` | Api_Functions.py:94-97 | The pattern matches at a position with capture `v` exactly when the text there is `"key":`, whitespace, `"`, a non-empty quote-free `v`, and `"`. |
| `FieldPattern.FindField` | Api_Functions.py:101-103 | `re.search` then `group(1)`: the capture at the leftmost matching position, with no match before it. The capture is non-empty and contains no `"`. None means no position matches. |
| `FieldPattern.FoundIsOccurrence` | Extraction_api.py:67-70 | Every capture is an actual occurrence of `"key": "value"` in the reply. |
| `FieldPattern.ApplyPatterns` | Extraction_api.py:67-70 | The loop keeps the record's key set. |
| `FieldPattern.ApplyPatternsIsOverlay` | Extraction_api.py:67-70 | Running the loop over a key list updates exactly the listed keys, each from the reply alone. |
| `FieldPattern.ApplyPatternsEffect` | Api_Functions.py:100-105 | After the loop each listed key holds its pattern's capture when the pattern matches. On a miss it holds None when the loop has an `else` that clears it, and otherwise its old value. Every other entry is unchanged. |
| `FieldPattern.RunPatterns` | Api_Functions.py:100-105 | The imperative loop equals `ApplyPatterns`, in both revisions (with or without the clearing `else`). |
| `FieldPattern.PatternOrderIrrelevant` | Extraction_api.py:59-70 | The order in which the patterns are visited does not change the record. |
| `FieldPattern.ClearOnMissIrrelevantFromNull` | Extraction_api.py:51-70 | Starting from all-None fields, clearing on a miss and leaving the field alone give the same record. |
| `ExtractionApi.ExtractProductInfo` | Extraction_api.py:50-72 | The older extractor's loop yields `ProductRecord`. |
| `ExtractionApi.ProductRecordContents` | Extraction_api.py:51-72 | The older record has exactly the four field keys. Each holds its pattern's capture, or None when the pattern does not match. |
| `ExtractionApi.ProductRecordOrderIrrelevant` | Extraction_api.py:59-70 | Any visiting order of the four patterns gives the same older record. |
| `ExtractionApi.RevisionsAgree` | Extraction_api.py:51-72 | The two revisions agree on the four fields: the newer record minus `days_before_expire` is the older record. |
| `Calendar.ParseDate` | Api_Functions.py:110-111 | `strptime(s, "%d-%m-%y")` yields only real dates, with years 1969 to 2068. |
| `Calendar.ParseDateSpells` | Api_Functions.py:110-111 | `strptime(s, "%d-%m-%y")` yields date `d` exactly when `s` spells `d`. The day is two digits, or below 10 also one digit or a space and a digit. The month is two digits, or below 10 also one digit. The year is two digits. `d` must exist and lie in 1969 to 2068. Every other text is rejected. |
| `Calendar.DayFieldSpelling` | Api_Functions.py:110-111 | `%d` reads day `n` from exactly the day spellings of `n`. |
| `Calendar.MonthFieldSpelling` | Api_Functions.py:110-111 | `%m` reads month `m` from exactly the month spellings of `m`. |
| `Calendar.YearFieldSpelling` | Api_Functions.py:110-111 | `%y` reads year `y` exactly from the two-digit form of a `y` between 1969 and 2068. |
| `Calendar.ParseFormatRoundTrip` | Api_Functions.py:110-111 | Every date in that range is read back from its `DD-MM-YY` text. |
| `Calendar.DaysBetween` | Api_Functions.py:110-113 | `(end - start).days` exists exactly when both strings parse, and it equals the difference of the ordinals. It is positive exactly when the end date is later, zero exactly when the two dates are the same day, and negative exactly when the end comes first. |
| `Calendar.NextDayOrdinal` | Api_Functions.py:112-113 | The day count agrees with the calendar: the next day has the next ordinal. |
| `Calendar.DeltaSign` | Api_Functions.py:112-113 | The difference of ordinals is positive, zero or negative exactly when the first date is before, equal to or after the second. |
| `Calendar.DaysBeforeYearStep` | Api_Functions.py:112-113 | The leap-year rule and the year-length count agree. |
| `Calendar.JuneSpan` | Api_Functions.py:110-113 | From `01-06-24` to `01-07-24` is 30 days, the end minus the start. |
| `Calendar.MonthSpan` | Api_Functions.py:110-113 | For every year `%y` can name and every month from January to November, the first of the month to the first of the next month is that month's length. |
| `Calendar.FormatSpan` | Api_Functions.py:110-113 | For two dates strptime can produce, `(end - start).days` on their `DD-MM-YY` texts is the difference of their ordinals. |
| `Calendar.YearEndSpan` | Api_Functions.py:110-113 | From 1 December to 1 January of the next year is 31 days. |
| `Sanitize.SanitizeMessage` | Api_Functions.py:25-27 | The sanitised message is never longer than the message. |
| `Sanitize.SanitizeIsSubsequence` | Api_Functions.py:25-27 | Sanitising only deletes: the output is a subsequence of the input. |
| `Sanitize.SanitizeLeavesNoTag` | Api_Functions.py:25-27 | No `<` in the output is followed by a `>` on the same line. |
| `Sanitize.NoOpenUnchanged` | Extraction_api.py:21-24 | A message without `<` is returned unchanged. |
| `Sanitize.NoCloseUnchanged` | Extraction_api.py:21-24 | A message without `>` is returned unchanged. |
| `Sanitize.LineKept` | Extraction_api.py:21-24 | A line without `>` is kept whole: `.*?` does not cross a newline. |
| `Sanitize.NoTagUnchanged` | Extraction_api.py:21-24 | A message holding no tag is its own sanitised form. |
| `Sanitize.TagRemoved` | Api_Functions.py:25-27 | A tag, a `<` with the first `>` after it on the same line, is removed. The text before it is kept whole and the rest is sanitised on its own. |
| `Sanitize.KeptBeforeOpen` | Api_Functions.py:25-27 | Text with no `<` in it is kept whole, even when it holds `>`. Substitution then goes on in the text after it. |
| `Sanitize.OpenKept` | Api_Functions.py:25-27 | A `<` that opens no tag, because no `>` follows it on its line, is kept. Substitution goes on from the next character. |
| `Sanitize.SanitizeIdempotent` | Extraction_api.py:21-24 | Sanitising twice is sanitising once. |

## Left out

- The model and network calls are not modelled: the OpenAI chat completions, the transcription service and the secrets client. Each reply enters the model as a string.
- Image encoding (base64) and `transcribe_audio_file` are not modelled.
- `json.loads` enters as its outcome: the parsed object or a decode failure. The candidate always starts with `{`, so a successful parse is an object. The JSON grammar itself is not modelled.
- The final `json.dumps` is not modelled, so neither are its formatting and escaping.
- Dict insertion order is not modelled: records are maps. The key order that `json.dumps` writes is therefore not captured.
- Aliasing is not modelled. The source patches the parsed product dicts in place; the model rebuilds them as values. No other reference to them exists in the code.
- JSON numbers are `mantissa × 10^exponent`. Float rounding and underflow, which could turn a tiny non-zero float falsy, are not modelled. Nor are `NaN`, `Infinity` and `-Infinity`, which `json.loads` accepts by default as truthy floats; `Json` has no value for them.
- `Calendar.ParseDate`: Python's `\d` in `strptime` also accepts non-ASCII decimal digits. The model accepts ASCII digits only.
- Python strings may hold lone surrogates; Dafny's `char` cannot.
- A failed or empty model reply raises out of `extract_products`: nothing catches an exception from the completion call, and a None content fails at `.strip()`. These exceptions are not modelled. The `"Error: …"` text of a failed transcription reaches `extract_products` as an ordinary input string.
