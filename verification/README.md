# Address lookup control — verified model

A Dafny model of the logic inside `AddressLookupControl`, an address
autocomplete widget hosted by a low-code platform's component framework. The
user types into a search box. The control turns the text into a `where`
clause for a remote address feature service and issues one query per
keystroke. It renders one row per returned address. A click reports that
row's text to the host as the bound `address` output.

Three pieces are modelled:

- **Query construction** (`query.dfy`, built on the JavaScript string
  primitives in `text.dfy`). The search text falls into one of four cases:
  - empty;
  - only ASCII digits (`/^\d+$/` on the untrimmed text);
  - a digit plus something else;
  - no digit at all.

  Each case gives a fixed-shape clause. The user's text is spliced into it
  unescaped. The clause sits between a constant base URL and the constant
  suffix `&outFields=*&outSR=4326&f=json`. `trim`, `split(" ")`,
  `join(" ")` and `concat(...spread)` are defined as JavaScript defines
  them. The split/join and spread/concat round trips are proved, and `trim`
  is characterised exactly.
- **Row text** (`rows.dfy`). The address record has nullable unit and
  settlement, and a row reads `[unit - ]number street [settlement] community`.
- **Control state** (`control.dfy`). An immutable record holds:
  - the reported value;
  - the search box;
  - the result list;
  - the label;
  - the last bound property;
  - the URLs issued so far;
  - how often the host was told that outputs changed.

  `init`, `refreshData`, the response handler, `selectAddress`,
  `updateView` and `getOutputs` are functions on this record. The input
  event, the response, a click and the two host calls are events, and any
  sequence of them can be run from `init`.

Four consequences of the code are worth stating up front:

- `getOutputs` and `updateView` do not clear text the user typed. They call
  `setAttribute("value", "")`. Under the HTML Living Standard's dirty value
  flag, that no longer changes a box the user has edited. Only
  `selectAddress` clears the box: it assigns the `value` property.
- The box is a text input, so a value set by script has line feeds and
  carriage returns removed. This applies to the formatted property `init`
  puts in the attribute and to the text `selectAddress` assigns. What the
  user's edit leaves in the box is taken as given, and `refreshData` reads
  back exactly that text.
- The mixed case is any text with a digit that is not all digits, such as
  `"12-3"` or `"123 "`.
- In the mixed case only the number token is trimmed. The street is
  everything after the first space, exactly as typed.

## Model

| member | source | states |
|---|---|---|
| Text.Trim | AddressLookupControl/index.ts:121 | `trim` returns a contiguous slice of its input. Everything cut from either end is ECMAScript whitespace, and a non-empty result starts and ends with a non-whitespace character |
| Text.TrimFixpoint | AddressLookupControl/index.ts:100 | `trim` leaves a string unchanged exactly when it is empty or neither end is whitespace (both directions) |
| Text.TrimIdempotent | AddressLookupControl/index.ts:121 | trimming an already trimmed text changes nothing |
| Text.TrimAllWhitespace | AddressLookupControl/index.ts:121 | text made only of whitespace trims to the empty string |
| Text.TrimKeeps | AddressLookupControl/index.ts:121 | `trim` keeps every non-whitespace character with its multiplicity, so it never removes a quote or a digit |
| Text.Split | AddressLookupControl/index.ts:107 | `split(" ")` returns at least one part, and no part contains the separator. There is exactly one part when the text has no separator |
| Text.JoinSplit | AddressLookupControl/index.ts:107-109 | joining with `" "` what `split(" ")` produced gives back the original text |
| Text.SplitJoin | AddressLookupControl/index.ts:107-109 | splitting a join gives back the parts, provided no part contains the separator |
| Text.SplitHeadTail | AddressLookupControl/index.ts:107-109 | the first split part is the text before the first space. `slice(1).join(" ")` is the text after that space, or empty when there is no space |
| Text.Join | AddressLookupControl/index.ts:109 | `join(sep)` of no parts is `""`. Otherwise the text starts with the first part, and the separator follows it when there is more than one part |
| Text.Spread | AddressLookupControl/index.ts:109 | spreading a string yields its one-character strings, in order |
| Text.ConcatAll | AddressLookupControl/index.ts:108-110 | `acc.concat(...pieces)` starts with `acc`, followed directly by the first piece |
| Text.ConcatSpread | AddressLookupControl/index.ts:108-110 | `acc.concat(...s)` equals `acc` followed by `s` |
| Query.ContainsDigit | AddressLookupControl/index.ts:91 | `/\d/.test(s)` holds exactly when some character of `s` is `0`-`9` |
| Query.AllDigits | AddressLookupControl/index.ts:99 | `/^\d+$/.test(s)` holds exactly when `s` is non-empty and every character is `0`-`9` |
| Query.Classify | AddressLookupControl/index.ts:94-99 | each of the four cases is characterised by an if-and-only-if over the characters: empty; all digits; some digit and some non-digit; non-empty with no digit |
| Query.BuildFilter | AddressLookupControl/index.ts:94-97 | no filter is built exactly when the search text is empty |
| Query.NumericFilter | AddressLookupControl/index.ts:99-105 | all-digit text gives a number-prefix filter on the text as typed, with no street constraint. The clause is `NUMBER_COMPLETE like '<text>%'` |
| Query.DigitsTrimmed | AddressLookupControl/index.ts:100 | text made only of digits is unchanged by `trim` |
| Query.MixedTokens | AddressLookupControl/index.ts:107-110 | the mixed case's number expression is the trimmed text before the first space. Its street expression is the text after that space, or empty without a space |
| Query.MixedFilter | AddressLookupControl/index.ts:106-118 | mixed text with a space at first position `k` gives number `trim(s[..k])` and street `s[k+1..]`. The clause is `NUMBER_COMPLETE like '<n>' and FULL_STREET_NAME like '<s>%'` |
| Query.MixedFilterNoSpace | AddressLookupControl/index.ts:106-118 | mixed text without a space gives the whole trimmed text as number and an empty street prefix |
| Query.StreetFilter | AddressLookupControl/index.ts:120-123 | text without a digit gives a street-prefix filter on the trimmed text, with no number constraint. The clause is `FULL_STREET_NAME like '<trim(text)>%'` |
| Query.MixedRoundTrip | AddressLookupControl/index.ts:107-109 | in the mixed case, number + `" "` + street is the original text when the part before the first space has no whitespace at its ends. Without a space the street is empty |
| Query.NumberThenStreet | AddressLookupControl/index.ts:106-118 | `"<digits> <rest>"` requires number exactly `<digits>` and street prefix `<rest>`. `"123 "` therefore gives an empty street prefix |
| Query.LeadingSpace | AddressLookupControl/index.ts:107 | a leading space followed by text with a digit gives an empty number token and the rest as street |
| Query.WhitespaceIsStreet | AddressLookupControl/index.ts:91-98 | non-empty whitespace-only text has no digit, so it takes the street branch |
| Query.WhitespaceOnly | AddressLookupControl/index.ts:120-123 | whitespace-only text gives the street prefix `""`, that is the clause `FULL_STREET_NAME like '%'` |
| Query.WhereClause | AddressLookupControl/index.ts:101-122 | every clause ends in `%'` |
| Query.QueryUrl | AddressLookupControl/index.ts:92-124 | no URL is issued exactly for empty text. An issued URL is the fixed base URL, then the where clause of the text's filter, then the fixed suffix. So it starts with the base and ends with `%'` and the suffix |
| Query.UrlClause | AddressLookupControl/index.ts:92-124 | the where clause can be read back from an issued URL, as what lies between the base and the suffix |
| Query.NumericUrl | AddressLookupControl/index.ts:92-124 | all-digit text is queried with exactly the base, `NUMBER_COMPLETE like '<text>%'` and the suffix |
| Query.MixedUrl | AddressLookupControl/index.ts:92-124 | mixed text whose first space is at `k` is queried with exactly the base, `NUMBER_COMPLETE like '<trim(s[..k])>' and FULL_STREET_NAME like '<s[k+1..]>%'` and the suffix |
| Query.StreetUrl | AddressLookupControl/index.ts:92-124 | text without a digit is queried with exactly the base, `FULL_STREET_NAME like '<trim(text)>%'` and the suffix |
| Rows.UnitPrefix | AddressLookupControl/index.ts:138-140 | a null unit gives no prefix, and only a null unit does. A unit `u` gives `u` followed by `" - "` |
| Rows.FormatRow | AddressLookupControl/index.ts:137-149 | a row always ends with the community. With a unit it starts with `"<unit> - "`; without one it starts with the number and a space |
| Rows.RowFields | AddressLookupControl/index.ts:137-149 | a row has six space-separated slots with a unit and four without, and the last slot is the community |
| Rows.FormatRowIsJoin | AddressLookupControl/index.ts:137-149 | a row is its slots (unit and dash, number, street, settlement or empty, community) joined by single spaces |
| Rows.RowSplitsIntoFields | AddressLookupControl/index.ts:137-149 | when no field contains a space, splitting a row on spaces recovers exactly its slots |
| Rows.NullSettlementDoubleSpace | AddressLookupControl/index.ts:145-149 | a null settlement leaves an empty slot, so street and community are separated by two spaces. The row equals the one an empty settlement gives |
| Rows.NullUnitDropsPrefix | AddressLookupControl/index.ts:138-141 | the row with a unit is `"<unit> - "` followed by the row the same record gives with a null unit |
| Rows.RenderRows | AddressLookupControl/index.ts:134-154 | one row per record, in response order, each the record's formatted text |
| AddressLookup.DisplayText | AddressLookupControl/index.ts:67-73 | the shown form of the property is `""` when the formatted value is null, and the formatted value otherwise |
| AddressLookup.StripNewlines | AddressLookupControl/index.ts:47 | a text input's sanitized value has no line feed or carriage return. A single character is dropped exactly when it is one of them, and text without either is unchanged |
| AddressLookup.StripNewlinesAppend | AddressLookupControl/index.ts:47 | sanitizing a concatenation sanitizes each piece, so the kept characters stay in their original order |
| AddressLookup.StripNewlinesIdempotent | AddressLookupControl/index.ts:47 | sanitizing an already sanitized value changes nothing |
| AddressLookup.SetValueAttribute | AddressLookupControl/index.ts:184 | setting the `value` attribute stores it as given. It changes the shown text, to the sanitized value, only while the box is not dirty |
| AddressLookup.SetText | AddressLookupControl/index.ts:160 | a script assigning the box's text shows that text sanitized and marks the box dirty |
| AddressLookup.Edit | AddressLookupControl/index.ts:83-84 | the user's edit shows exactly the edited text and marks the box dirty |
| AddressLookup.Init | AddressLookupControl/index.ts:63-73 | `init` takes the value from the raw property, shows the formatted property (or `""`) in the label and, sanitized, in the box, and starts with an empty list, no request and no notification |
| AddressLookup.FetchAddresses | AddressLookupControl/index.ts:94-97 | empty text puts exactly the placeholder in the list and issues nothing. Other text appends exactly its query URL and changes nothing else |
| AddressLookup.RefreshData | AddressLookupControl/index.ts:83-86 | the value becomes exactly the text the box holds after the edit. A request for that text is issued exactly when it is non-empty, and empty text shows the placeholder |
| AddressLookup.ShowResults | AddressLookupControl/index.ts:132-155 | a response replaces the list by one row per record, each the record's row text, and changes nothing else |
| AddressLookup.SelectAddress | AddressLookupControl/index.ts:158-162 | selecting sets the value to the selected text, empties the box and notifies the host exactly once. List, label, property and requests stay as they were |
| AddressLookup.ClickRow | AddressLookupControl/index.ts:150-152 | clicking row `i` sets the value to that row's text and notifies the host once |
| AddressLookup.UpdateView | AddressLookupControl/index.ts:167-174 | `updateView` reloads the value from the raw property, keeps the new property, shows its formatted form in the label and sets the box's attribute to `""` |
| AddressLookup.GetOutputs | AddressLookupControl/index.ts:180-189 | `getOutputs` reports the current value and resets the list to the placeholder. It refreshes the label from the kept property and changes neither value nor requests |
| AddressLookup.SelectThenGetOutputs | AddressLookupControl/index.ts:158-189 | after a selection, `getOutputs` reports exactly the selected text, the box is empty, the list shows the placeholder and the host was notified once |
| AddressLookup.ClickReportsRecord | AddressLookupControl/index.ts:134-162 | clicking row `i` of a response and then being asked for outputs reports the formatted text of record `i` |
| AddressLookup.GetOutputsIdempotent | AddressLookupControl/index.ts:180-189 | a second `getOutputs` reports the same value and leaves the same state |
| AddressLookup.TypedTextSurvivesReset | AddressLookupControl/index.ts:170-184 | text the user typed still shows after `getOutputs` or `updateView`, because both only set the attribute |
| AddressLookup.Step | AddressLookupControl/index.ts:83-189 | one event issues at most one URL and keeps the earlier ones. Only a click on a shown row notifies the host, exactly once. Typing sets the value to the edited text |
| AddressLookup.Run | AddressLookupControl/index.ts:83-189 | over a sequence of events, issued URLs are never withdrawn. Each event adds at most one URL and at most one notification |
| AddressLookup.StepConsistent | AddressLookupControl/index.ts:83-189 | every event keeps the invariant: the label shows the formatted property, a message in the list is the placeholder, and every issued URL has the query shape |
| AddressLookup.RunConsistent | AddressLookupControl/index.ts:83-189 | any sequence of events from a consistent state ends in a consistent state |
| AddressLookup.SessionConsistent | AddressLookupControl/index.ts:30-189 | every state reached from `init` by any events is consistent |

## Left out

- `fetch` is left out: the HTTP status check, the thrown error, JSON parsing and the `.then` chain (index.ts:124-135) are network I/O. Issuing a query is modelled as appending its URL to `requests`. A response is the separate event `ShowResults`, applied to already parsed records.
- Responses arriving out of order is concurrency. Any interleaving of `Response` events is allowed, but no ordering property is stated.
- DOM construction is left out: element creation, ids, classes, the placeholder attribute and appending to the container (index.ts:37-62, 75-80). `innerHTML` and `textContent` are modelled as plain strings.
- `destroy` and the listener add/remove (index.ts:49, 195-198) are left out. They only detach the input handler.
- The host's `Context` and manifest types are not part of this model. The bound property is reduced to its `raw` and `formatted` strings, either possibly null. `raw!` is only a type assertion, so a null raw value stays null in `value`.
- Feature geometry and the record fields no row reads (`OBJECTID`, street name and suffix parts, municipality, province, country, postal code) are left out.
- Strings are sequences of Unicode scalar values, while JavaScript strings are UTF-16 code units. Spreading a string iterates code points, so below the engine's argument limit `concat(...s)` is still `s`. Lengths are compared only against zero.
- AddressLookup.RefreshData: the engine's limit on the number of call arguments is not modelled. `concat(...s)` passes one argument per character, so a street part past that limit (of the order of 10^5 characters) throws a `RangeError` in the source. `fetchAddresses` then ends before `fetch` (index.ts:108-124), after `refreshData` has already set the value (index.ts:84). `RefreshData` still appends a URL in that case.
- How a browser turns line breaks in a paste into spaces or drops them is not modelled. The text of the `Typed` event is what the box holds after the edit.
- Query.WhereClause: states only the common `%'` ending. The exact clause of each case is stated by NumericFilter, MixedFilter, MixedFilterNoSpace and StreetFilter.
