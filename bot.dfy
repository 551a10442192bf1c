/** The chat front end: each handler computes the screen it shows (a message
    and its inline buttons), callback tokens are built and parsed, and the
    handlers call the adapter. */
module Bot {
  import opened Wrappers
  import opened Text
  import Utf8
  import opened Uri
  import opened GoogleSheet

  const ColumnPrefix: string := "column_"
  const ValuePrefix: string := "value_"
  const BackToken: string := "back_to_columns"
  /** Telegram's ceiling on callback data, in UTF-8 bytes. */
  const MaxCallbackBytes: nat := 64
  const MaxLabelLength: nat := 30
  const KeptLabelLength: nat := 27
  const Ellipsis: string := "..."
  const BackLabel: string := "‹ Назад к выбору столбца"

  /** The messages the bot shows, by kind; the wording is not modelled. */
  datatype Message =
    | Welcome
    | ChooseColumn | NoColumns | ColumnsAccessError
    | ChooseValue(column: string) | NoFilledCells(column: string) | ButtonsTooLong | ColumnInternalError
    | RowFound(value: string, details: string) | RowNotFound(value: string) | SearchInternalError
    | UseColumnsCommand

  /** An inline button: its label and the callback token it sends back. */
  datatype Button = Button(text: string, token: string)

  datatype Screen = Screen(message: Message, buttons: seq<Button>)

  /** What a handler does with an update: show a screen, stay silent, or
      throw outside its try block. */
  datatype Reply = Show(screen: Screen) | NoReply | UncaughtError

  /** The action handler a callback token reaches. */
  datatype Action =
    | SelectColumn(column: string)
    | SelectValue(column: string, encoded: string)
    | Back
    | Unmatched

  /** /start. */
  const StartScreen: Screen := Screen(Welcome, [])

  // ---------------------------------------------------------------------------
  // /columns

  function ColumnToken(header: string): string {
    ColumnPrefix + header
  }

  /** The column screen: one button per header, in header order, labelled with
      the header and sending `column_<header>`. */
  function ColumnsScreen(headers: Result<seq<string>>): (s: Screen)
    ensures headers.Failed? ==> s == Screen(ColumnsAccessError, [])
    ensures headers.Ok? && headers.value == [] ==> s == Screen(NoColumns, [])
    ensures headers.Ok? && headers.value != [] ==>
              s.message == ChooseColumn && |s.buttons| == |headers.value|
              && forall i :: 0 <= i < |s.buttons| ==>
                   s.buttons[i] == Button(headers.value[i], ColumnToken(headers.value[i]))
  {
    match headers
    case Failed => Screen(ColumnsAccessError, [])
    case Ok(hs) =>
      if |hs| > 0 then
        Screen(ChooseColumn, seq(|hs|, i requires 0 <= i < |hs| => Button(hs[i], ColumnToken(hs[i]))))
      else Screen(NoColumns, [])
  }

  // ---------------------------------------------------------------------------
  // column_<C>: the value screen

  /** A value's label: the value itself up to 30 characters, otherwise its
      first 27 characters and an ellipsis. */
  function Label(value: string): (shown: string)
    ensures |shown| <= MaxLabelLength
    ensures |value| <= MaxLabelLength ==> shown == value
    ensures |value| > MaxLabelLength ==>
              |shown| == MaxLabelLength && shown == value[..KeptLabelLength] + Ellipsis
  {
    if |value| > MaxLabelLength then value[..KeptLabelLength] + Ellipsis else value
  }

  /** `value_<C>_<encodeURIComponent(V)>`, built from the full value. */
  function ValueToken(column: string, value: string): string {
    ValuePrefix + column + "_" + EncodeUriComponent(value)
  }

  /** Buffer.byteLength(token, 'utf8') <= 64. */
  predicate TokenFits(token: string) {
    |Utf8.Encode(token)| <= MaxCallbackBytes
  }

  function ValueButton(column: string, value: string): Button {
    Button(Label(value), ValueToken(column, value))
  }

  /** The map callback: a value's button, or null when its token does not fit. */
  function ButtonOrNull(column: string, value: string): Option<Button> {
    if TokenFits(ValueToken(column, value)) then Some(ValueButton(column, value)) else None
  }

  /** `.filter(Boolean)`: the buttons that are there, in order. */
  function Present(candidates: seq<Option<Button>>): (r: seq<Button>)
    ensures |r| <= |candidates|
  {
    if candidates == [] then []
    else (match candidates[0] case Some(b) => [b] case None => []) + Present(candidates[1..])
  }

  /** `values.map(...)`: one button-or-null per value, in order. */
  function Candidates(column: string, values: seq<string>): (r: seq<Option<Button>>)
    ensures |r| == |values|
  {
    seq(|values|, i requires 0 <= i < |values| => ButtonOrNull(column, values[i]))
  }

  /** The value buttons: each value mapped to its button or null, nulls dropped. */
  function ValueButtons(column: string, values: seq<string>): (r: seq<Button>)
    ensures |r| <= |values|
  {
    Present(Candidates(column, values))
  }

  /** The value screen's three outcomes: no values, no value that fits, or a
      keyboard of the kept buttons. */
  function ValueScreen(column: string, values: Result<seq<string>>): (s: Screen)
    ensures values.Failed? ==> s == Screen(ColumnInternalError, [])
    ensures values.Ok? && values.value == [] ==> s == Screen(NoFilledCells(column), [])
    ensures values.Ok? && values.value != [] && ValueButtons(column, values.value) == [] ==>
              s == Screen(ButtonsTooLong, [])
    ensures values.Ok? && ValueButtons(column, values.value) != [] ==>
              s == Screen(ChooseValue(column), ValueButtons(column, values.value))
  {
    match values
    case Failed => Screen(ColumnInternalError, [])
    case Ok(vs) =>
      if |vs| > 0 then
        var buttons := ValueButtons(column, vs);
        if |buttons| > 0 then Screen(ChooseValue(column), buttons) else Screen(ButtonsTooLong, [])
      else Screen(NoFilledCells(column), [])
  }

  // ---------------------------------------------------------------------------
  // Parsing callback tokens: /^column_(.+)/ and /^value_(.+)_(.+)/

  /** How far a regular-expression `.` reaches: up to the first line terminator. */
  function LineSpan(s: string): (n: nat)
    ensures n <= |s|
    ensures forall i :: 0 <= i < n ==> !IsLineTerminator(s[i])
    ensures n < |s| ==> IsLineTerminator(s[n])
  {
    if s == [] || IsLineTerminator(s[0]) then 0 else 1 + LineSpan(s[1..])
  }

  function Line(s: string): string {
    s[..LineSpan(s)]
  }

  /** The last underscore of `s` at an index in [1, hi). */
  function LastUnderscoreBelow(s: string, hi: nat): (r: Option<nat>)
    requires hi <= |s|
    ensures r.Some? ==> 1 <= r.value < hi && s[r.value] == '_'
    ensures r.Some? ==> forall j :: r.value < j < hi ==> s[j] != '_'
    ensures r.None? ==> forall j :: 1 <= j < hi ==> s[j] != '_'
    decreases hi
  {
    if hi <= 1 then None
    else if s[hi - 1] == '_' then Some(hi - 1)
    else LastUnderscoreBelow(s, hi - 1)
  }

  /** Where the greedy `(.+)_(.+)` splits `s`: the last underscore that has at
      least one character on either side. */
  function LastSeparator(s: string): (r: Option<nat>)
    ensures r.Some? ==> 1 <= r.value && r.value + 1 < |s| && s[r.value] == '_'
    ensures r.Some? ==> forall j :: r.value < j < |s| - 1 ==> s[j] != '_'
    ensures r.None? ==> forall j :: 1 <= j < |s| - 1 ==> s[j] != '_'
  {
    if |s| < 2 then None else LastUnderscoreBelow(s, |s| - 1)
  }

  /** /^column_(.+)/: the capture is the rest of the line after the prefix. */
  function MatchColumn(data: string): (r: Option<string>)
    ensures r.Some? ==> ColumnPrefix + r.value <= data && r.value != [] && NoLineTerminator(r.value)
    ensures r.Some? ==> data[0] == 'c'
  {
    if ColumnPrefix <= data && LineSpan(data[|ColumnPrefix|..]) > 0 then
      var rest := data[|ColumnPrefix|..];
      assert data == ColumnPrefix + rest;
      Some(Line(rest))
    else None
  }

  /** Splitting a line that starts `rest` at an underscore. */
  lemma SplitLineFacts(rest: string, k: nat)
    requires 1 <= k && k + 1 < |Line(rest)| && Line(rest)[k] == '_'
    requires forall j :: k < j < |Line(rest)| - 1 ==> Line(rest)[j] != '_'
    ensures var line := Line(rest);
            line[..k] + "_" + line[k + 1..] == line
            && line[..k] + "_" + line[k + 1..] <= rest
            && NoLineTerminator(line[..k]) && NoLineTerminator(line[k + 1..])
    ensures '_' !in Line(rest)[k + 1..][..|Line(rest)| - k - 2]
  {
    var line := Line(rest);
    assert line[..k] + "_" + line[k + 1..] == line;
    assert forall i :: 0 <= i < |line| ==> line[i] == rest[i];
    var inner := line[k + 1..][..|line| - k - 2];
    assert forall j :: 0 <= j < |inner| ==> inner[j] == line[k + 1 + j];
  }

  /** /^value_(.+)_(.+)/: the line after the prefix, split at its last
      underscore that has a character on either side. */
  function MatchValue(data: string): (r: Option<(string, string)>)
    ensures r.Some? ==>
              ValuePrefix + r.value.0 + "_" + r.value.1 <= data && r.value.0 != [] && r.value.1 != []
              && NoLineTerminator(r.value.0) && NoLineTerminator(r.value.1)
    ensures r.Some? ==> data[0] == 'v'
    ensures r.Some? ==> r.value.0 + "_" + r.value.1 == Line(data[|ValuePrefix|..])
    ensures r.Some? ==> '_' !in r.value.1[..|r.value.1| - 1]
  {
    if ValuePrefix <= data then
      var rest := data[|ValuePrefix|..];
      var line := Line(rest);
      match LastSeparator(line)
      case Some(k) =>
        SplitLineFacts(rest, k);
        assert data == ValuePrefix + rest;
        Some((line[..k], line[k + 1..]))
      case None => None
    else None
  }

  /** Which action handler a callback token reaches, in registration order,
      and what its regular expression captures. */
  function ParseAction(data: string): (a: Action)
    ensures a.SelectColumn? ==>
              ColumnPrefix + a.column <= data && a.column != [] && NoLineTerminator(a.column)
    ensures a.SelectValue? ==>
              ValuePrefix + a.column + "_" + a.encoded <= data && a.column != [] && a.encoded != []
              && NoLineTerminator(a.column) && NoLineTerminator(a.encoded)
    ensures a.Back? <==> data == BackToken
  {
    match MatchColumn(data)
    case Some(column) => SelectColumn(column)
    case None =>
      match MatchValue(data)
      case Some((column, encoded)) => SelectValue(column, encoded)
      case None => if data == BackToken then Back else Unmatched
  }

  // ---------------------------------------------------------------------------
  // value_<C>_<V>: the row-detail screen

  /** `*<header>:* <value>` and a line break. */
  function DetailLine(entry: (string, string)): string {
    "*" + entry.0 + ":* " + entry.1 + "\n"
  }

  /** The lines of a found row, one per entry, in entry order. */
  function Details(entries: RowData): string {
    if entries == [] then [] else Details(entries[..|entries| - 1]) + DetailLine(entries[|entries| - 1])
  }

  /** The message text accumulated line by line. */
  method RenderDetails(entries: RowData) returns (text: string)
    ensures text == Details(entries)
  {
    text := [];
    for i := 0 to |entries|
      invariant text == Details(entries[..i])
    {
      assert entries[..i + 1][..i] == entries[..i];
      var (header, cellValue) := entries[i];
      text := text + "*" + header + ":* " + cellValue + "\n";
    }
    assert entries[..|entries|] == entries;
  }

  const BackButton: Button := Button(BackLabel, BackToken)

  /** The row screen: the found row's lines and a single back button, or the
      not-found message and no buttons. */
  function RowScreen(value: string, found: Result<Option<RowData>>): (s: Screen)
    ensures found == Ok(None) ==> s == Screen(RowNotFound(value), [])
    ensures found.Failed? ==> s == Screen(SearchInternalError, [])
    ensures found.Ok? && found.value.Some? ==>
              s == Screen(RowFound(value, Details(found.value.value)), [BackButton])
  {
    match found
    case Failed => Screen(SearchInternalError, [])
    case Ok(None) => Screen(RowNotFound(value), [])
    case Ok(Some(entries)) => Screen(RowFound(value, Details(entries)), [BackButton])
  }

  // ---------------------------------------------------------------------------
  // Free text

  /** Text not starting with `/` is answered with the /columns prompt; text
      starting with `/` gets nothing from this handler. */
  function TextReply(text: string): (r: Reply)
    ensures r != UncaughtError
    ensures r.Show? <==> !("/" <= text)
    ensures r.Show? ==> r.screen == Screen(UseColumnsCommand, [])
  {
    if !("/" <= text) then Show(Screen(UseColumnsCommand, [])) else NoReply
  }

  // ---------------------------------------------------------------------------
  // Properties of tokens and screens

  lemma LineOfSingleLine(s: string)
    requires NoLineTerminator(s)
    ensures Line(s) == s
  {
  }

  /** A header button's token reaches the column handler with the header's
      first line; an empty first line matches no handler. */
  lemma ColumnTokenParse(header: string)
    ensures ParseAction(ColumnToken(header)) ==
            if LineSpan(header) > 0 then SelectColumn(Line(header)) else Unmatched
  {
    var data := ColumnToken(header);
    assert data[..|ColumnPrefix|] == ColumnPrefix && data[|ColumnPrefix|..] == header;
    assert data[0] == 'c';
  }

  /** Parsing `column_<h>` recovers h for any non-empty single-line header. */
  lemma ColumnTokenRoundTrip(header: string)
    requires header != [] && NoLineTerminator(header)
    ensures ParseAction(ColumnToken(header)) == SelectColumn(header)
  {
    ColumnTokenParse(header);
  }

  /** Pressing a button of the column screen selects that button's header. */
  lemma ColumnButtonSelectsHeader(headers: seq<string>, i: nat)
    requires i < |headers| && headers[i] != [] && NoLineTerminator(headers[i])
    ensures i < |ColumnsScreen(Ok(headers)).buttons|
    ensures ParseAction(ColumnsScreen(Ok(headers)).buttons[i].token) == SelectColumn(headers[i])
  {
    ColumnTokenRoundTrip(headers[i]);
  }

  /** The last separator of `C_E` is the one after C when E has no underscore. */
  lemma LastSeparatorAfterColumn(column: string, e: string)
    requires column != [] && e != [] && '_' !in e
    ensures LastSeparator(column + "_" + e) == Some(|column|)
  {
    var rest := column + "_" + e;
    var k := |column|;
    assert rest[k] == '_' && k + 1 < |rest|;
    assert forall j :: k < j < |rest| ==> rest[j] == e[j - k - 1];
  }

  /** /^value_(.+)_(.+)/ applied to `value_C_E`. */
  lemma MatchValueToken(column: string, e: string)
    requires column != [] && NoLineTerminator(column)
    requires e != [] && NoLineTerminator(e) && '_' !in e
    ensures MatchValue(ValuePrefix + column + "_" + e) == Some((column, e))
  {
    var rest := column + "_" + e;
    var data := ValuePrefix + rest;
    assert data == ValuePrefix + column + "_" + e;
    assert data[..|ValuePrefix|] == ValuePrefix && data[|ValuePrefix|..] == rest;
    assert NoLineTerminator(rest) by {
      forall i | 0 <= i < |rest| ensures !IsLineTerminator(rest[i]) {
        if i > |column| { assert rest[i] == e[i - |column| - 1]; }
      }
    }
    LineOfSingleLine(rest);
    LastSeparatorAfterColumn(column, e);
    assert rest[..|column|] == column && rest[|column| + 1..] == e;
  }

  /** `value_C_E` reaches the value handler with (C, E). */
  lemma ParseValueToken(column: string, e: string)
    requires column != [] && NoLineTerminator(column)
    requires e != [] && NoLineTerminator(e) && '_' !in e
    ensures ParseAction(ValuePrefix + column + "_" + e) == SelectValue(column, e)
  {
    var data := ValuePrefix + column + "_" + e;
    assert data[0] == 'v';
    MatchValueToken(column, e);
  }

  /** A value token reaches the value handler with exactly (C, V) when C is a
      non-empty single line and V is non-empty and has no underscore. */
  lemma ValueTokenRoundTrip(column: string, value: string)
    requires column != [] && NoLineTerminator(column)
    requires value != [] && '_' !in value
    ensures ParseAction(ValueToken(column, value)) == SelectValue(column, EncodeUriComponent(value))
    ensures DecodeUriComponent(EncodeUriComponent(value)) == Some(value)
  {
    EncodedIsAscii(value);
    EncodedChars(value);
    ParseValueToken(column, EncodeUriComponent(value));
    DecodeEncode(value);
  }

  /** Values with underscores do not survive the round trip: the split falls
      at the last underscore, inside the value. */
  lemma UnderscoreValueMisparsed()
    ensures ParseAction(ValueToken("c", "a_b")) == SelectValue("c_a", "b")
  {
    EncodeUnreserved("a_b");
    assert ValueToken("c", "a_b") == "value_c_a_b";
    ParseUnderscoreToken();
  }

  lemma ParseUnderscoreToken()
    ensures ParseAction("value_c_a_b") == SelectValue("c_a", "b")
  {
    var rest := "c_a_b";
    var data := "value_c_a_b";
    assert data == ValuePrefix + rest;
    assert data[0] == 'v' && data[|ValuePrefix|..] == rest;
    assert MatchColumn(data) == None;
    LineOfSingleLine(rest);
    assert rest[3] == '_' && rest[..3] == "c_a" && rest[4..] == "b";
    assert LastSeparator(rest) == Some(3);
  }

  /** Tokens are built from the full value: different values give different
      tokens, even where their labels agree. */
  lemma ValueTokenInjective(column: string, v: string, w: string)
    requires ValueToken(column, v) == ValueToken(column, w)
    ensures v == w
  {
    var prefix := ValuePrefix + column + "_";
    assert ValueToken(column, v) == prefix + EncodeUriComponent(v);
    assert ValueToken(column, w) == prefix + EncodeUriComponent(w);
    assert EncodeUriComponent(v) == ValueToken(column, v)[|prefix|..];
    assert EncodeUriComponent(w) == ValueToken(column, w)[|prefix|..];
    EncodeInjective(v, w);
  }

  /** The UTF-8 size of a value token: the prefix and separator, the column's
      UTF-8 bytes, and one byte per character of the encoded value. */
  lemma TokenByteLength(column: string, value: string)
    ensures |Utf8.Encode(ValueToken(column, value))|
            == |ValuePrefix| + |Utf8.Encode(column)| + 1 + |EncodeUriComponent(value)|
  {
    var e := EncodeUriComponent(value);
    Utf8.EncodeConcat(ValuePrefix, column);
    Utf8.EncodeConcat(ValuePrefix + column, "_");
    Utf8.EncodeConcat(ValuePrefix + column + "_", e);
    Utf8.AsciiLength(ValuePrefix);
    Utf8.AsciiLength("_");
    EncodedIsAscii(value);
  }

  lemma {:induction false} PresentConcat(a: seq<Option<Button>>, b: seq<Option<Button>>)
    ensures Present(a + b) == Present(a) + Present(b)
  {
    if a == [] {
      assert a + b == b;
    } else {
      assert (a + b)[0] == a[0] && (a + b)[1..] == a[1..] + b;
      PresentConcat(a[1..], b);
    }
  }

  lemma {:induction false} PresentMembers(candidates: seq<Option<Button>>, b: Button)
    ensures b in Present(candidates) <==> Some(b) in candidates
  {
    if candidates != [] {
      PresentMembers(candidates[1..], b);
      assert candidates == [candidates[0]] + candidates[1..];
    }
  }

  /** The filter keeps the input order: filtering a concatenation
      concatenates the filtered parts. */
  lemma ValueButtonsConcat(column: string, a: seq<string>, b: seq<string>)
    ensures ValueButtons(column, a + b) == ValueButtons(column, a) + ValueButtons(column, b)
  {
    assert Candidates(column, a + b) == Candidates(column, a) + Candidates(column, b);
    PresentConcat(Candidates(column, a), Candidates(column, b));
  }

  /** Every kept button's token fits, and its label is at most 30 characters. */
  lemma ValueButtonsFit(column: string, values: seq<string>)
    ensures forall b :: b in ValueButtons(column, values) ==>
              TokenFits(b.token) && |b.text| <= MaxLabelLength
  {
    forall b | b in ValueButtons(column, values)
      ensures TokenFits(b.token) && |b.text| <= MaxLabelLength
    {
      PresentMembers(Candidates(column, values), b);
    }
  }

  /** A value has a button exactly when it is among the values and its token
      fits in 64 bytes. */
  lemma ValueButtonsMembers(column: string, values: seq<string>, v: string)
    ensures ValueButton(column, v) in ValueButtons(column, values) <==>
            v in values && TokenFits(ValueToken(column, v))
  {
    var cs := Candidates(column, values);
    PresentMembers(cs, ValueButton(column, v));
    if Some(ValueButton(column, v)) in cs {
      var i :| 0 <= i < |cs| && cs[i] == Some(ValueButton(column, v));
      ValueTokenInjective(column, v, values[i]);
    }
    if v in values && TokenFits(ValueToken(column, v)) {
      var i :| 0 <= i < |values| && values[i] == v;
      assert cs[i] == Some(ValueButton(column, v));
    }
  }

  /** With an ASCII column and a value of unreserved characters the token
      keeps its button exactly when 7 + |C| + |V| <= 64. */
  lemma TokenFitsBoundary(column: string, value: string)
    requires Utf8.IsAscii(column)
    requires forall i :: 0 <= i < |value| ==> IsUnreserved(value[i])
    ensures TokenFits(ValueToken(column, value)) <==> 7 + |column| + |value| <= MaxCallbackBytes
  {
    TokenByteLength(column, value);
    Utf8.AsciiLength(column);
    EncodeUnreserved(value);
  }

  /** The exact boundary: a 64-byte token keeps its button, a 65-byte one drops it. */
  lemma TokenOf64BytesKept()
    ensures var v := seq(56, _ => 'a');
            |Utf8.Encode(ValueToken("c", v))| == 64 && ValueButtons("c", [v]) == [ValueButton("c", v)]
  {
    var v := seq(56, _ => 'a');
    Utf8.AsciiLength("c");
    TokenFitsBoundary("c", v);
    TokenByteLength("c", v);
    EncodeUnreserved(v);
  }

  lemma TokenOf65BytesDropped()
    ensures var v := seq(57, _ => 'a');
            |Utf8.Encode(ValueToken("c", v))| == 65 && ValueButtons("c", [v]) == []
  {
    var v := seq(57, _ => 'a');
    Utf8.AsciiLength("c");
    TokenFitsBoundary("c", v);
    TokenByteLength("c", v);
    EncodeUnreserved(v);
  }

  /** The detail text of a concatenation is the concatenation of the detail
      texts: one line per entry, in entry order. */
  lemma {:induction false} DetailsConcat(a: RowData, b: RowData)
    ensures Details(a + b) == Details(a) + Details(b)
  {
    if b == [] {
      assert a + b == a;
    } else {
      var b' := b[..|b| - 1];
      assert (a + b)[..|a + b| - 1] == a + b' && (a + b)[|a + b| - 1] == b[|b| - 1];
      DetailsConcat(a, b');
    }
  }

  /** Every value the value screen lists, if it has no underscore, leads back
      through its token to a found row (when the column is a single line). */
  lemma ListedValueLeadsToRow(table: Table, column: string, value: string)
    requires value in UniqueColumnValues(table.rows, column)
    requires column != [] && NoLineTerminator(column) && '_' !in value
    ensures ParseAction(ValueToken(column, value)) == SelectValue(column, EncodeUriComponent(value))
    ensures DecodeUriComponent(EncodeUriComponent(value)) == Some(value)
    ensures RowScreen(value, LoadedRow(Ok(table), column, value)).message.RowFound?
  {
    UniqueValuesDistinctTrimmed(table.rows, column);
    ValueTokenRoundTrip(column, value);
    UniqueValueIsFound(table, column, value);
  }

  // ---------------------------------------------------------------------------
  // The handlers, calling the adapter

  /** /columns (and the back button, which shows the same screen). */
  method ColumnsCommand(service: SheetService, remote: Result<Table>) returns (screen: Screen)
    modifies service
    ensures screen == ColumnsScreen(CachedHeaders(old(service.headersCache), remote))
    ensures service.headersCache ==
              if old(service.headersCache) == [] then CacheAfterLoad([], remote) else old(service.headersCache)
  {
    var headers := service.GetHeaders(remote);
    screen := ColumnsScreen(headers);
  }

  /** A button press. */
  method HandleCallback(service: SheetService, remote: Result<Table>, data: string) returns (reply: Reply)
    modifies service
    ensures var a := ParseAction(data);
            a.SelectColumn? ==> reply == Show(ValueScreen(a.column, LoadedUniqueValues(remote, a.column)))
    ensures var a := ParseAction(data);
            a.SelectValue? && DecodeUriComponent(a.encoded).None? ==> reply == UncaughtError
    ensures var a := ParseAction(data);
            a.SelectValue? && DecodeUriComponent(a.encoded).Some? ==>
              var v := DecodeUriComponent(a.encoded).value;
              reply == Show(RowScreen(v, LoadedRow(remote, a.column, v)))
    ensures ParseAction(data).Back? ==>
              reply == Show(ColumnsScreen(CachedHeaders(old(service.headersCache), remote)))
    ensures ParseAction(data).Unmatched? ==> reply == NoReply
    ensures var a := ParseAction(data);
            a.SelectColumn? || (a.SelectValue? && DecodeUriComponent(a.encoded).Some?) ==>
              service.headersCache == CacheAfterLoad(old(service.headersCache), remote)
    ensures var a := ParseAction(data);
            (a.SelectValue? && DecodeUriComponent(a.encoded).None?) || a.Unmatched? ==>
              service.headersCache == old(service.headersCache)
    ensures ParseAction(data).Back? ==>
              service.headersCache ==
                if old(service.headersCache) == [] then CacheAfterLoad([], remote) else old(service.headersCache)
  {
    match ParseAction(data)
    case SelectColumn(column) =>
      var values := service.GetUniqueColumnValues(remote, column);
      reply := Show(ValueScreen(column, values));
    case SelectValue(column, encoded) =>
      var decoded := DecodeUriComponent(encoded);
      if decoded.None? {
        return UncaughtError;
      }
      var value := decoded.value;
      var found := service.FindRowByValue(remote, column, value);
      match found {
        case Failed =>
          reply := Show(Screen(SearchInternalError, []));
        case Ok(None) =>
          reply := Show(Screen(RowNotFound(value), []));
        case Ok(Some(entries)) =>
          var text := RenderDetails(entries);
          reply := Show(Screen(RowFound(value, text), [BackButton]));
      }
    case Back() =>
      var screen := ColumnsCommand(service, remote);
      reply := Show(screen);
    case Unmatched() =>
      reply := NoReply;
  }

  /** Two /columns commands against one adapter: once the first has loaded a
      non-empty header row, the second shows the same screen from the cache,
      whatever the remote side would answer. */
  method ColumnsTwice(first: Table, second: Result<Table>) returns (s1: Screen, s2: Screen)
    ensures s1 == ColumnsScreen(Ok(first.headers))
    ensures first.headers != [] ==> s2 == s1
    ensures first.headers == [] ==> s2 == ColumnsScreen(LoadedHeaders(second))
  {
    var service := new SheetService();
    s1 := ColumnsCommand(service, Ok(first));
    s2 := ColumnsCommand(service, second);
  }

  /** Choosing a column reloads the sheet, so the back button afterwards shows
      the headers of that reload, not those the first /columns loaded. */
  method BackAfterColumnShowsReloadedHeaders(first: Table, reloaded: Table, header: string, later: Result<Table>)
    returns (back: Reply)
    requires header != [] && NoLineTerminator(header)
    requires reloaded.headers != []
    ensures back == Show(ColumnsScreen(Ok(reloaded.headers)))
  {
    var service := new SheetService();
    var columns := ColumnsCommand(service, Ok(first));
    ColumnTokenRoundTrip(header);
    var values := HandleCallback(service, Ok(reloaded), ColumnToken(header));
    back := HandleCallback(service, later, BackToken);
  }
}
