# Spreadsheet lookup bot — a Dafny model

The system is a Telegram bot in front of one Google spreadsheet. It has two
parts:

- **The data adapter** (`googleSheet.js`). It reads the first worksheet and
  exposes three operations:
  - the distinct, trimmed, non-empty values of a column, in first-seen order;
  - the first row whose trimmed cell in a column equals a value, turned into
    a `{header: cell}` object;
  - the header row, which is kept in a module-level cache.
- **The chat front end** (`bot.js`). It turns the adapter's answers into
  screens: a message plus inline buttons, each button carrying a callback
  token. The screens are:
  - `/columns` shows one button per header, with token `column_<header>`;
  - pressing a column shows one button per value, with token
    `value_<column>_<encodeURIComponent(value)>`. A button is dropped when
    its token is more than 64 UTF-8 bytes, and a label longer than 30
    characters is cut to 27 characters plus `...`;
  - pressing a value shows the found row, one `*header:* cell` line per
    header, with a single back button.

  The two regular expressions `/^column_(.+)/` and `/^value_(.+)_(.+)/`
  route a pressed button's token back to its handler.

The model is split into six files:

| file | contents |
|---|---|
| `wrappers.dfy` | `Option` and `Result` |
| `text.dfy` | the ECMAScript whitespace and line-terminator classes, and `String.prototype.trim` |
| `utf8.dfy` | UTF-8 encoding and decoding of scalar values (RFC 3629); `Buffer.byteLength` is the length of `Encode` |
| `uri.dfy` | `encodeURIComponent` and `decodeURIComponent` (sections 18.2.6.1 to 18.2.6.5 of ECMAScript 2015), including every `URIError` case of the decoder |
| `google_sheet.dfy` | the adapter, in two layers (described below) |
| `bot.dfy` | the screens, the token builders, the regular-expression parser, and the handlers |

`google_sheet.dfy` has two layers:

- Functions on a loaded `Table`: its header row, and its rows as header-to-cell
  maps.
- The class `SheetService`, whose field `headersCache` those methods update.
  The remote spreadsheet is an input of type `Result<Table>`. `Failed` stands
  for a remote call that throws.

The loops of the source become methods with loop invariants, each proved
equal to a specification function:

| source loop | method | proved equal to |
|---|---|---|
| the `forEach` collecting into a `Set` | `CollectUniqueValues` | `UniqueColumnValues` |
| the `forEach` filling `rowData` | `ProjectRow` | `Project` |
| the `+=` loop building the detail message | `RenderDetails` | `Details` |

The handlers themselves are methods over a `SheetService` object.

Two behaviours of the token parser limit what comes back from a token:

- **Values containing `_`.** A value token does not always come back intact:
  the greedy `/^value_(.+)_(.+)/` splits at the last underscore, and
  `encodeURIComponent` leaves `_` as it is. So (column, value) comes back
  exactly only for values without `_`:
  - `Bot.ValueTokenRoundTrip` proves the round trip for those values;
  - `Bot.UnderscoreValueMisparsed` shows `value_c_a_b` reaching the handler
    as column `c_a` and value `b`.
- **Line terminators.** A regular-expression `.` does not match a line
  terminator. So a capture stops at the first `\n`, `\r`, U+2028 or U+2029,
  and the column round trip holds for single-line headers only.

## Model

| member | source | states |
|---|---|---|
| GoogleSheet.TrimmedCell | googleSheet.js:49-51 | the cell's trim, which is non-empty and trimmed; nothing exactly when the cell is missing or trims to empty |
| GoogleSheet.Insert | googleSheet.js:51 | adding to an insertion-ordered set: the element is present afterwards, nothing else is added, and distinctness is kept |
| GoogleSheet.CollectUniqueValues | googleSheet.js:46-55 | the row-by-row loop yields exactly the ordered set of trimmed, non-blank cells of the column |
| GoogleSheet.UniqueValuesDistinctTrimmed | googleSheet.js:46-55 | the unique values have no duplicates, and each is non-empty and equal to its own trim |
| GoogleSheet.UniqueValuesMembers | googleSheet.js:48-53 | a value is listed exactly when it is non-empty and some row's cell in the column trims to it |
| GoogleSheet.AbsentColumnHasNoValues | googleSheet.js:49-50 | a column that no row has yields the empty list |
| GoogleSheet.UniqueValuesFirstSeenOrder | googleSheet.js:46-55 | an earlier listed value first occurs in an earlier row than a later listed value |
| GoogleSheet.UniqueValueIsFound | googleSheet.js:50-71 | every listed value is found by the row lookup on the same column |
| GoogleSheet.FirstMatch | googleSheet.js:68-73 | the index of the first row whose trimmed cell equals the value, and none exactly when no row matches |
| GoogleSheet.FirstMatchAppend | googleSheet.js:68-71 | appending a row keeps an existing first match, and otherwise matches the new row exactly when it matches |
| GoogleSheet.FoundRowIsFirstMatch | googleSheet.js:64-82 | null exactly when no row matches; otherwise the object is built from the first matching row |
| GoogleSheet.CellOrPlaceholder | googleSheet.js:78 | the raw, untrimmed cell when it is present and non-empty, otherwise `—` |
| GoogleSheet.Assign | googleSheet.js:78 | object key assignment: an existing key keeps its place and takes the new value, a new key goes last, other entries are untouched |
| GoogleSheet.ProjectRow | googleSheet.js:76-79 | the header loop builds exactly the projection of the row onto the headers |
| GoogleSheet.ProjectShape | googleSheet.js:76-79 | the object's keys are the headers, each once, in first-occurrence order, and each key holds its cell or `—` |
| GoogleSheet.ProjectDistinct | googleSheet.js:76-79 | with distinct headers, entry i is (header i, its cell or `—`) |
| GoogleSheet.SheetService.constructor | googleSheet.js:24 | the cache starts empty |
| GoogleSheet.SheetService.LoadSheetAndHeaders | googleSheet.js:30-36 | a successful load sets the cache to the sheet's header row; a failed one leaves it as it was |
| GoogleSheet.SheetService.GetHeaders | googleSheet.js:88-93 | a non-empty cache is returned without loading and stays as it is; an empty cache is reloaded first |
| GoogleSheet.SheetService.GetUniqueColumnValues | googleSheet.js:43-56 | reloads (refreshing the cache), then returns the column's unique values; a failed load fails |
| GoogleSheet.SheetService.FindRowByValue | googleSheet.js:64-82 | reloads (refreshing the cache), then returns the first matching row projected onto the loaded headers, or null |
| GoogleSheet.HeadersServedFromCache | googleSheet.js:88-93 | after a load with a non-empty header row, a second request returns the cached headers whatever the remote side would answer |
| Text.TrimStartShape | googleSheet.js:50 | trimStart removes exactly the leading whitespace |
| Text.TrimEndShape | googleSheet.js:50 | trimEnd removes exactly the trailing whitespace |
| Text.TrimIsTrimmed | googleSheet.js:50 | a trimmed string has no whitespace at either end |
| Text.TrimOfTrimmed | googleSheet.js:50 | a string with no whitespace at either end is its own trim |
| Text.TrimIdempotent | googleSheet.js:50 | trimming twice equals trimming once |
| Text.TrimEmptyIff | googleSheet.js:50 | a cell trims to `''` exactly when it is all whitespace |
| Utf8.EncodeScalar | bot.js:59 | one to four bytes by code-point range, with a lead byte announcing the length and continuation bytes after it |
| Utf8.DecodeScalar | bot.js:84 | a decoded sequence denotes a Unicode scalar value |
| Utf8.DecodeEncodeScalar | bot.js:84 | decoding the encoding of a scalar value gives it back |
| Utf8.EncodeDecodeScalar | bot.js:84 | a byte sequence that decodes is the encoding of what it decodes to, so overlong forms are rejected |
| Utf8.Encode | bot.js:59 | a string's UTF-8 size lies between its length and four times its length |
| Utf8.EncodeConcat | bot.js:59 | the UTF-8 encoding of a concatenation is the concatenation of the encodings |
| Utf8.AsciiLength | bot.js:59 | the byte length equals the character count exactly when the string is ASCII |
| Uri.HexDigit | bot.js:57 | the hexadecimal digits of an escape are unreserved and never `_` |
| Uri.EscapeBytes | bot.js:57 | each byte becomes three characters, `%` or hexadecimal digits |
| Uri.EncodeChar | bot.js:57 | a character's encoding is non-empty, uses only unreserved characters and `%`, and holds `_` only when the character is `_` |
| Uri.EncodeUriComponent | bot.js:57 | encoding never shortens, and is empty exactly for the empty string |
| Uri.EncodedChars | bot.js:57 | an encoded component holds only unreserved characters and `%`, and an underscore only where the input had one |
| Uri.ReadContinuations | bot.js:84 | a successful read yields exactly the requested number of bytes from three characters each |
| Uri.DecodeEncode | bot.js:84 | decodeURIComponent undoes encodeURIComponent on every string without throwing |
| Uri.EncodeInjective | bot.js:57 | different values have different encodings |
| Uri.EncodeUnreserved | bot.js:57 | a value of unreserved characters encodes to itself |
| Uri.EncodedIsAscii | bot.js:57-59 | an encoded component is ASCII and has no line terminator, so its byte length is its length |
| Bot.ColumnsScreen | bot.js:29-38 | one button per header in header order, labelled with the header and sending `column_<header>`; no headers or a failed load give the two messages with no buttons |
| Bot.Label | bot.js:56 | a label is at most 30 characters: the value itself up to 30, otherwise its first 27 and `...` |
| Bot.ValueScreen | bot.js:54-77 | the outcomes: no filled cells, no button fits, the kept buttons, or the internal error |
| Bot.Present | bot.js:64 | dropping the nulls never lengthens the list |
| Bot.PresentConcat | bot.js:64 | dropping the nulls of a concatenation concatenates the results |
| Bot.PresentMembers | bot.js:64 | a button survives exactly when it was among the candidates |
| Bot.ValueButtonsConcat | bot.js:55-64 | the filter keeps the input order |
| Bot.ValueButtonsFit | bot.js:55-64 | every kept button's token is at most 64 UTF-8 bytes, and its label is at most 30 characters |
| Bot.ValueButtonsMembers | bot.js:55-64 | a value has a button exactly when it is listed and its full-value token fits in 64 bytes |
| Bot.ValueTokenInjective | bot.js:57 | tokens are built from the full value: different values give different tokens even when their labels agree |
| Bot.TokenByteLength | bot.js:57-59 | a token's byte length is 7, plus the column's UTF-8 bytes, plus the encoded value's length |
| Bot.TokenFitsBoundary | bot.js:57-59 | for an ASCII column and an unreserved value, the button is kept exactly when 7 + column length + value length is at most 64 |
| Bot.TokenOf64BytesKept | bot.js:59 | a 64-byte token keeps its button |
| Bot.TokenOf65BytesDropped | bot.js:59 | a 65-byte token drops its button |
| Bot.LineSpan | bot.js:45 | `.+` reaches up to the first line terminator |
| Bot.LastUnderscoreBelow | bot.js:82 | the last underscore in a range, or none when the range has no underscore |
| Bot.LastSeparator | bot.js:82 | the greedy split point: the last underscore with a character on either side |
| Bot.MatchColumn | bot.js:45-46 | a match captures a non-empty single-line text that follows `column_` |
| Bot.SplitLineFacts | bot.js:82-83 | the two halves around a split underscore are single lines and rebuild a prefix of the token's remainder |
| Bot.MatchValue | bot.js:82-83 | a match captures two non-empty single-line texts that, joined by `_`, are the whole first line after `value_`; the split is greedy, so the second capture has no `_` before its last character |
| Bot.ParseAction | bot.js:45-112 | a token reaching the column handler holds `column_<c>`, and one reaching the value handler holds `value_<c>_<e>`, with each capture a non-empty single line; back exactly for `back_to_columns` |
| Bot.LineOfSingleLine | bot.js:45 | on a single-line string the capture takes the whole string |
| Bot.ColumnTokenParse | bot.js:30-46 | a column token reaches the column handler with the header's first line, or no handler when that line is empty |
| Bot.ColumnTokenRoundTrip | bot.js:30-46 | a non-empty single-line header comes back exactly |
| Bot.ColumnButtonSelectsHeader | bot.js:30-46 | pressing button i of the column screen selects header i |
| Bot.LastSeparatorAfterColumn | bot.js:82 | for an encoded value without `_`, the split falls right after the column |
| Bot.MatchValueToken | bot.js:82-83 | the value regular expression applied to a value token captures (column, encoded value) |
| Bot.ParseValueToken | bot.js:82-83 | such a token reaches the value handler, not the column handler |
| Bot.ValueTokenRoundTrip | bot.js:57-84 | for a single-line column and a value without `_`, the handler receives the column and, once decoded, the value itself |
| Bot.UnderscoreValueMisparsed | bot.js:57-84 | value `a_b` under column `c` reaches the handler as column `c_a` and value `b` |
| Bot.ParseUnderscoreToken | bot.js:82-83 | `value_c_a_b` is split at its last underscore |
| Bot.RenderDetails | bot.js:93-96 | the `+=` loop builds exactly one `*header:* cell` line per entry, in entry order |
| Bot.DetailsConcat | bot.js:94-96 | the detail text of a concatenation is the concatenation of the detail texts |
| Bot.RowScreen | bot.js:92-107 | a found row shows its lines and exactly one back button; null shows the not-found message and no buttons |
| Bot.ListedValueLeadsToRow | bot.js:54-92 | every listed value without `_` has a token that leads back to a found row |
| Bot.TextReply | bot.js:127-131 | free text is answered with the /columns prompt exactly when it does not start with `/` |
| Bot.ColumnsCommand | bot.js:24-40 | /columns shows the column screen for the headers the adapter serves; the cache is kept when non-empty, otherwise it is what the reload leaves |
| Bot.HandleCallback | bot.js:45-123 | per handler: the value screen for the column's values; the row screen for the decoded value, or an uncaught error when decoding throws; the column screen for back; nothing for an unmatched token. The cache afterwards follows the reload of the column and value handlers, the /columns rule for back, and is unchanged for a failed decode or an unmatched token |
| Bot.ColumnsTwice | googleSheet.js:88-93 | a second /columns after one that loaded a non-empty header row shows the same screen, whatever the remote side would answer |
| Bot.BackAfterColumnShowsReloadedHeaders | bot.js:52-118 | after a column is chosen, the back button shows the header row of the reload that choice made |

## Left out

- Process start-up (`dotenv`, the environment-variable checks, JWT authentication, `bot.launch`, the signal handlers): configuration and I/O, outside the logic.
- The remote call sequence (`loadInfo`, `sheetsByIndex[0]`, `loadHeaderRow`, `getRows`): one input value stands for all of it. A failure at any of these steps is the same `Failed`, which leaves the cache as it was. In the source, `loadSheetAndHeaders` has already overwritten `headersCache` (googleSheet.js:34) before `getRows` throws (googleSheet.js:45, googleSheet.js:66). So after such a failure the next /columns can show a different header row in the source than in the model.
- `ctx.answerCbQuery`, the "loading..." messages, and reply versus edit: these are Telegram I/O, and their failures are not modelled.
- Bot.HandleCallback: a failed final send after a successful load is not modelled. In the source, the `editMessageText` that shows the value or row screen can fail, and the catch blocks (bot.js:75-77, bot.js:105-107) then show the internal-error message after the cache has been refreshed. One plausible cause is Telegram rejecting the Markdown of the row message (bot.js:101): cells are not escaped, so a cell with an unpaired `_` or `*` can make the message invalid. The model shows the value or row screen in these cases.
- `console.warn` and `console.error` logging: output only.
- Message wording: each message is a kind in `Bot.Message`. The Russian texts and the Markdown heading of the row message are not modelled. The back button's label `Bot.BackLabel` is kept, as it is part of the button.
- The two-column keyboard layout (`Markup.inlineKeyboard` with `columns: 2`): a library concern. A screen keeps its buttons as a flat list in order.
- /start: modelled as the constant `Bot.StartScreen`, which has no contract.
- Bot.HandleCallback: the back handler deletes the message and passes the same callback-query update to `bot.handleUpdate` (bot.js:115-118). Telegraf's `command('columns')` matches message updates only, and setting `ctx.command` does not change routing, so that update plausibly reaches the back handler again rather than /columns. The model shows the column screen, which is what the back button was evidently meant to show; the re-dispatch and what it would produce are not modelled.
- Telegraf's command routing and its handling of errors thrown outside a handler's `try`: a throw is the single outcome `UncaughtError`.
- Concurrency: interleaved handlers sharing `headersCache` are not modelled; each call runs to completion.
- Cells are strings. The `toString()` of non-string cell values is not modelled, and neither are the `null` checks, which only differ for non-string values.
- GoogleSheet.Assign: a header named `__proto__` makes `rowData['__proto__'] = …` (googleSheet.js:78) set the object's prototype instead of adding an own key, so `Object.entries` (bot.js:94) would omit it. `Assign` keeps it as an ordinary key.
- Object key ordering: `Object.entries` lists integer-like keys (e.g. a header `"2"`) first in numeric order. The model keeps insertion order for all keys.
- Bot.Label: counts Unicode scalar values, while JavaScript's `length` and `substring` count UTF-16 code units. A label that cuts a surrogate pair is not modelled.
- Uri.EncodeUriComponent: characters are scalar values, so the `URIError` that `encodeURIComponent` raises on a lone surrogate cannot arise.
- Bot.ValueTokenRoundTrip: holds only for values without `_` and for single-line columns. `Bot.UnderscoreValueMisparsed` shows why.
- Text.IsWhitespace: the space-separator class is written out as of Unicode 8. Later changes to that class are not followed.
