# File and API-key utilities of a browser chat client

This project models, in Dafny, the two pure-logic helper files of a browser
chat client that forwards user messages and attached text files to a
chat-completion API:

- `src/lib/fileUtils.ts`: `getFileExtension` (the extension of a file
  name, computed with one `slice` over an unsigned right shift),
  `isSupportedFile` (a case-insensitive test against an allow-list of ten
  text-file extensions) and `truncateContent` (cuts text to a character
  budget, 10000 by default, and appends a marker stating how many
  characters were omitted).
- `src/lib/apiKeyUtils.ts`: `isValidApiKey` (a format check for keys) and
  the key store, made of the persisted `openai_api_key` entry and the
  page-global `openai_key` property, with `getApiKey`, `saveApiKey`,
  `clearApiKey` and `setupOpenAIKey`.

Files:

- `Wrappers.dfy`: the `Option` datatype.
- `JsString.dfy`: the JavaScript string built-ins these helpers use,
  written out: `lastIndexOf`, `>>> 0` (ToUint32, an explicit wrap modulo
  2^32), one-argument `slice`, `substring` with its clamping and swapping,
  ASCII `toLowerCase`, `trim` with the JavaScript whitespace
  set, and the decimal text of a number, with its reading back. It also
  defines an ASCII upper-casing, `ToUpperAscii`, which the code never
  calls; it exists only to state `FileUtils.IsSupportedFileUpperCase`.
- `FileUtils.dfy`: the three file helpers as functions, with a reference
  definition of "the extension" and the lemmas relating the two.
- `ApiKeyUtils.dfy`: `isValidApiKey` as a predicate, and the key store as
  the class `ApiKeyStore` whose fields `stored` (the persisted entry, `None`
  when absent) and `globalKey` (the global property, `None` while undefined)
  the methods update.

Facts about the code that the model makes explicit:

- The code appends the marker on top of the kept `maxLength` characters, so
  a truncated result is always longer than the budget
  (`FileUtils.TruncateContentOverBudget`,
  `FileUtils.TruncateContentDefaultExceedsBudget`).
- `getFileExtension` returns the empty string when the name has no dot or
  its only dot is the first character, as in `.bashrc` or `.txt`
  (`FileUtils.GetFileExtensionCases`).
- In `isValidApiKey` the trimmed-non-empty test is implied by the `sk-`
  prefix test (`ApiKeyUtils.IsValidApiKey`); `"sk-12345678"`, of 11
  characters, is accepted.

## Model

| member | source | states |
|---|---|---|
| JsString.ToUint32 | src/lib/fileUtils.ts:26 | `>>> 0` lands in [0, 2^32), keeps values already in range and adds 2^32 to small negatives such as -1 and -2 |
| JsString.ToUint32Congruent | src/lib/fileUtils.ts:26 | `>>> 0` changes its operand by a multiple of 2^32 only |
| JsString.LastIndexOf | src/lib/fileUtils.ts:26 | `lastIndexOf` gives -1 exactly when the character is absent; otherwise an index holding it with no occurrence after it |
| JsString.Slice | src/lib/fileUtils.ts:26 | one-argument `slice` always yields a suffix of the string; from an in-range start it is the text from that start, from a start at or past the end it is empty |
| JsString.Substring | src/lib/fileUtils.ts:44 | `substring(0, m)` is the first `m` characters when `m` is in range and empty when `m` is not positive |
| JsString.ToLowerAscii | src/lib/fileUtils.ts:34 | lower-casing keeps the length and folds each character on its own, so (by `EqualIgnoringCaseIff`) two names lower-case alike exactly when they agree position by position up to ASCII case |
| JsString.Trim | src/lib/apiKeyUtils.ts:22 | `trim()` is no longer than its input, starts and ends with non-whitespace, and is empty exactly when every character is JavaScript whitespace |
| JsString.TrimIsInfix | src/lib/apiKeyUtils.ts:22 | `trim()` returns the input itself with its leading and trailing whitespace removed: a contiguous piece of the key with only whitespace before and after it |
| JsString.NatToString | src/lib/fileUtils.ts:45 | the interpolated count is a non-empty string of decimal digits without a leading zero |
| JsString.DecimalRoundTrip | src/lib/fileUtils.ts:45 | reading the decimal text of n back gives n |
| JsString.CanonicalDecimalRoundTrip | src/lib/fileUtils.ts:45 | every digit string without a leading zero is the decimal text of its value, so a count's text is unique |
| FileUtils.GetFileExtension | src/lib/fileUtils.ts:25-27 | the extension is always a suffix of the file name |
| FileUtils.DotFreeSuffix | src/lib/fileUtils.ts:26 | reference notion: the longest dot-free suffix, preceded by a dot whenever it is not the whole name |
| FileUtils.GetFileExtensionIsAfterLastDot | src/lib/fileUtils.ts:25-27 | for names up to 2^32 characters, the `slice`/`>>> 0` expression equals the reference definition: the text after the last dot when that dot is not the first character, else empty |
| FileUtils.GetFileExtensionCases | src/lib/fileUtils.ts:26 | last dot at index i >= 1: the extension is everything after it; no dot, or the last dot at index 0: the extension is empty |
| FileUtils.GetFileExtensionHasNoDot | src/lib/fileUtils.ts:26 | the extension contains no dot, and a name ending in a dot has an empty extension |
| FileUtils.GetFileExtensionExamples | src/lib/fileUtils.ts:26 | `a.b.tsx` gives `tsx`; `.bashrc` and `README` give the empty string |
| FileUtils.GetFileExtensionIgnoresCase | src/lib/fileUtils.ts:26 | names that lower-case alike have extensions that lower-case alike, for names of any length |
| FileUtils.IsSupportedFile | src/lib/fileUtils.ts:32-36 | an accepted name's lower-cased extension is on the list, so its extension has two to four characters |
| FileUtils.SupportedExtensionShape | src/lib/fileUtils.ts:33 | every allowed extension is non-empty and free of dots |
| FileUtils.IsSupportedFileIff | src/lib/fileUtils.ts:32-36 | a name is accepted if and only if it ends in a dot and one of the ten extensions `txt, md, js, jsx, ts, tsx, json, html, css, csv` in any ASCII case, with at least one character before the dot |
| FileUtils.IsSupportedFileIgnoresCase | src/lib/fileUtils.ts:34 | names that lower-case alike are accepted or rejected alike |
| FileUtils.IsSupportedFileUpperCase | src/lib/fileUtils.ts:34 | upper-casing a name does not change the verdict |
| FileUtils.MarkdownNameSupported | src/lib/fileUtils.ts:32-36 | `notes.md` is accepted |
| FileUtils.IsSupportedFileAccepts | src/lib/fileUtils.ts:32-36 | `notes.md` and `NOTES.MD` are accepted |
| FileUtils.IsSupportedFileRejectsForeign | src/lib/fileUtils.ts:32-36 | `malware.exe` is rejected |
| FileUtils.IsSupportedFileRejectsNoExtension | src/lib/fileUtils.ts:32-36 | `README` and `.txt` are rejected, the latter because its extension is empty |
| FileUtils.TruncationMarker | src/lib/fileUtils.ts:45 | the marker is the fixed opening text, the omitted count in decimal without a leading zero, and the fixed closing text |
| FileUtils.ParseTruncationMarker | src/lib/fileUtils.ts:45 | whatever it reads as a count n, the string is exactly the marker for n |
| FileUtils.TruncationMarkerRoundTrip | src/lib/fileUtils.ts:45 | the marker for n reads back as n, so the omitted count is stated exactly in decimal |
| FileUtils.ParseTruncationMarkerRefusesPadding | src/lib/fileUtils.ts:45 | a zero-padded count such as `05`, which the code never writes, is not read as a marker |
| FileUtils.TruncateContent | src/lib/fileUtils.ts:41-46 | text no longer than the budget is returned unchanged |
| FileUtils.TruncateContentOverBudget | src/lib/fileUtils.ts:44-45 | over a non-negative budget m, the result keeps the first m characters, has exactly m plus the marker's length characters, so more than m, and what follows the kept text is a marker reading back as the number of characters cut off |
| FileUtils.TruncateContentNegativeBudget | src/lib/fileUtils.ts:44-45 | with a negative budget nothing of the text is kept and the marker counts the whole length plus the deficit |
| FileUtils.TruncateContentDefaultExceedsBudget | src/lib/fileUtils.ts:41-46 | with the default budget of 10000, any longer text yields a result of at least 10000 plus the marker's fixed text plus one digit |
| ApiKeyUtils.IsValidApiKey | src/lib/apiKeyUtils.ts:20-23 | a key is accepted if and only if it starts with `sk-` and has more than 10 characters; the non-empty and non-blank tests add nothing |
| ApiKeyUtils.LeadingWhitespaceRejected | src/lib/apiKeyUtils.ts:22 | a key starting with whitespace is rejected, since the prefix test uses the untrimmed key |
| ApiKeyUtils.TrailingWhitespaceCounts | src/lib/apiKeyUtils.ts:22 | trailing whitespace counts toward the length: `sk-` plus padding past 10 characters is accepted |
| ApiKeyUtils.IsValidApiKeyBoundaries | src/lib/apiKeyUtils.ts:22 | `sk-1234567` (10 characters) and the empty key are rejected, `sk-12345678` (11) is accepted |
| ApiKeyUtils.ApiKeyStore.constructor | src/lib/apiKeyUtils.ts:4-7 | a page load starts from whatever entry persisted from earlier sessions, with the global property still undefined |
| ApiKeyUtils.ApiKeyStore.GetApiKey | src/lib/apiKeyUtils.ts:4-7 | reports the persisted entry, or the empty string when it is absent, and changes neither field |
| ApiKeyUtils.ApiKeyStore.SetupOpenAIKey | src/lib/apiKeyUtils.ts:26-29 | sets the global copy to the key and leaves the persisted entry alone |
| ApiKeyUtils.ApiKeyStore.SaveApiKey | src/lib/apiKeyUtils.ts:9-13 | stores any key verbatim, without validation, sets the global copy to it, and afterwards `getApiKey` reports it |
| ApiKeyUtils.ApiKeyStore.ClearApiKey | src/lib/apiKeyUtils.ts:15-17 | removes the persisted entry so `getApiKey` reports the empty string, and leaves the global copy unchanged |

## Left out

- `readFileAsText` (src/lib/fileUtils.ts:7-20): asynchronous browser file reading through callbacks; it is I/O, including its rejection of an empty file's falsy `""` result.
- `src/services/openai.ts`: a single network call through the vendor SDK, rethrowing one generic error on failure; it is I/O, and its defaults and fallback text are not modelled.
- All React components (chat window, input box, message, header, typing indicator, attachment chip, upload button, page): rendering, hooks state, timers, DOM and toasts. The attachment chip's size formatting uses floating point.
- Message ids built from the clock and a random number: nondeterministic.
- `isSupportedFile` receives a browser `File`; the model takes its name, the only field it reads.
- JsString.ToLowerAscii: folds ASCII letters only and keeps every other character, whereas `toLowerCase` applies full Unicode case mapping (which can change the length). This cannot change `isSupportedFile`'s verdict: the only non-ASCII characters whose lower case contains an ASCII letter are U+0130 (lower-cased to `i` followed by the non-ASCII U+0307) and U+212A (lower-cased to `k`), and none of the ten allowed extensions contains `i` or `k`; this argument rests on the Unicode case tables and is not stated in Dafny.
- Strings are sequences of Dafny chars, which are Unicode scalar values, whereas JavaScript strings are sequences of UTF-16 code units. The model agrees with JavaScript lengths and positions only on text inside the Basic Multilingual Plane. Outside it, `isValidApiKey`'s length test counts a character such as an emoji once where JavaScript counts two, and `truncateContent` cuts after m scalar values (JavaScript cuts after m code units and may split a surrogate pair) and reports the omitted count in scalar values rather than code units.
- FileUtils.GetFileExtensionIsAfterLastDot, FileUtils.GetFileExtensionCases, FileUtils.GetFileExtensionHasNoDot and FileUtils.IsSupportedFileIff: hold for names of at most 2^32 characters; on longer names the modelled `>>> 0` wraps into the name and these statements may fail.
- FileUtils.TruncateContent: `maxLength` is an integer; fractional and NaN budgets are not modelled.
- JsString.NatToString: plain decimal digits for every count, whereas JavaScript switches to exponent notation from 10^21 on.
- ApiKeyUtils.IsValidApiKey: a `bool`; the source's `key && …` yields the falsy string `""` rather than `false` for an empty key.
- ApiKeyUtils.ApiKeyStore.SaveApiKey: a failing write to the persisted store (a browser quota error) is not modelled.
- Sharing the persisted entry across tabs and page reloads is modelled only by the constructor taking the entry that survives from earlier sessions.
