# IDNML config UI: parameter codec, option lists and list filters

The configuration UI edits a per-cell parameter mapping (a JSON object of
string or integer values) as a plain-text block of `key: value` lines, and
offers list pages for configuration profiles and bidders with drop-down
filters. This project models the logic underneath:

- `Params` (`params.dfy`): the cell parameter codec of `lib/params.ts`.
  `parseCellTextToParams` turns the edited text into a mapping, or into
  `null` (delete the mapping) when the text is blank. `paramsToCellText`
  writes a stored mapping back out as text. Both are loops. They are modelled
  as methods proved equal to the specification functions `ParsedParams` and
  `CellText`. The round trip and the edge cases are proved about those
  functions.
- `OptionLists` (`options.dfy`): the option list that both list pages build
  for each filter drop-down. It takes every truthy value of one field across
  the rows, adds it to a `Set` in row order, and sorts the result. The module
  also holds the `'All'`-or-exact-equality filter test.
- `Profiles` (`profiles.dfy`): the profile page (`app/profiles/page.tsx`).
  It covers the flattening of the joined query rows, the four option lists,
  the `filtered` rows and the label shown for a profile.
- `Bidders` (`bidders.dfy`): the bidder page (`app/bidders/page.tsx`). It
  covers the three option lists and `filteredBidders`: codes that pass three
  filters and a trimmed, case-insensitive search, de-duplicated and sorted.
- `Text` (`text.dfy`) and `StringOrder` (`order.dfy`) model the JavaScript
  string operations these use:
  - `trim`, `split`, `join`, `toLowerCase`, `includes`;
  - the `/^-?\d+$/` test, `parseInt` and `String(n)`;
  - `Array.prototype.sort()` on strings.
- `Wrappers` (`wrappers.dfy`): `Option`. `None` stands for JavaScript
  `null`/`undefined`.

Behaviour of the code worth knowing, all of it modelled as written:

- The comment at lib/params.ts:16 says the line is split once, but
  `line.split(':', 2)` keeps only the first two colon-separated pieces. So
  everything after a second colon is dropped, and `url: http://x` stores
  `http` under `url` (`Params.SecondColonTruncates`).
- A line whose key is `__proto__` stores nothing. `params['__proto__'] = value`
  on a plain object runs the prototype setter, which ignores strings and
  numbers (`Params.SetProperty`, `Params.ProtoNeverStored`). A stored
  mapping with that key therefore does not survive encoding and decoding
  (`Params.ProtoNotRoundTripped`). The round trip holds for every other
  valid key (`Params.RoundTrip`).
- A string value survives the round trip only when it is trimmed, holds no
  colon or line feed, and does not look like an integer (`Params.ValidValue`).
- Option values are not trimmed. Every non-empty value is offered as it is,
  including one made only of spaces (`OptionLists.OptionListSpec`).
- Lines are split on `\n` and `\r\n` only. A lone carriage return does not
  end a line (`Text.SplitLinesOne`, `Text.CrLfSeparates`).

## Model

| member | source | states |
|---|---|---|
| Params.ParseCellTextToParams | lib/params.ts:5-37 | The loop over the lines, with its `continue`s, returns exactly `ParsedParams(text)`. That is `null` for blank text, and otherwise the object its assignments build, where an assignment to `__proto__` stores nothing. |
| Params.ReadLine | lib/params.ts:13-33 | The loop body for one line skips it (`None`) or yields the key and the coerced value, exactly as `LineEntry` says. |
| Params.ParsedParams | lib/params.ts:5-37 | The result is `null` exactly when the text is empty or whitespace only. |
| Params.BlankIsNull | lib/params.ts:6-7 | Both `""` and `"   \n  "` decode to `null`. |
| Params.NonBlankWithoutPairs | lib/params.ts:11-36 | Non-blank text where no line yields a pair decodes to the empty object `{}`, not to `null`. |
| Params.JunkIsEmpty | lib/params.ts:11-36 | Non-blank one-line text without a colon (such as `junk`) decodes to `{}`. |
| Params.OneLineWithoutPair | lib/params.ts:11-36 | Non-blank text that is a single line yielding no pair decodes to `{}`. |
| Params.SkippedLine | lib/params.ts:13-14 | A blank line, or a line without a colon, assigns nothing. |
| Params.LineEntry | lib/params.ts:13-33 | A line that yields a pair has a non-empty key that is not `mediatypes` in any letter case. |
| Params.LineEntryPieces | lib/params.ts:16-33 | The key is the trimmed first colon-separated piece of the trimmed line. The value is the trimmed second piece, coerced. Empty and `mediatypes` keys are skipped. |
| Params.SecondColonTruncates | lib/params.ts:13-18 | For a line `key:value:more` whose key is trimmed, non-empty, colon-free and not `mediatypes`, and whose value is colon-free, the line yields the trimmed `value` under `key`. Everything from the second colon on is discarded, trailing whitespace included. Whether the pair is then stored is up to `SetProperty`, which stores nothing for `__proto__`. |
| Params.MediaTypesLineDropped | lib/params.ts:22-26 | A line whose key lower-cases to `mediatypes` is never stored. |
| Params.IntegerValueCoerced | lib/params.ts:29-30 | An integer-shaped value becomes its base-10 number: `007` is 7 and `-12` is -12. |
| Params.NonIntegerValueKept | lib/params.ts:29-33 | Values that are not wholly `-?digits` stay strings: `15a`, `1.5` and `-`. |
| Params.Coerce | lib/params.ts:29-33 | A value becomes a number exactly when it matches `/^-?\d+$/`; otherwise it is kept as the same string. `IntegerValueCoerced` and `Text.IntToStringParses` pin down the number. |
| Params.Render | lib/params.ts:46-49 | `String(value)`: a string as it is, a number in base 10. It has no contract of its own; `RenderChars` and `Text.IntToStringParses` state it. |
| Params.IsMediaTypesKey | lib/params.ts:23 | `key.toLowerCase() === 'mediatypes'`, tested here and again at line 44. It has no contract of its own; `MediaTypesLineDropped` and `MediaTypesKeyWrittenLowercase` state its effect on both sides. |
| Params.LineKey | lib/params.ts:13-26 | The shape of a key a line can yield: non-empty, trimmed, free of colons and line feeds, not `mediatypes`. It is a definition; `LineEntryValid` proves every yielded key has it. |
| Params.ValidKey | lib/params.ts:13-33 | A key the parser stores: line-key shape and not `__proto__`. It is a definition; `ParsedIsEncodable` proves every decoded key has it. |
| Params.ValidValue | lib/params.ts:18-33 | A value the parser can store: any number, or a trimmed string free of colons and line feeds that is not integer-shaped. It is a definition; `LineEntryValid` proves every yielded value has it. |
| Params.Encodable | lib/params.ts:5-37 | Every key and value of a mapping meets the two conditions above. It is a definition; `ParsedIsEncodable` and `RoundTrip` use it. |
| Params.RenderChars | lib/params.ts:46-49 | `String(v)` of a valid value holds no colon or line feed, has no whitespace at either end, and coerces back to `v`. |
| Params.LineEntryValid | lib/params.ts:13-33 | Every pair a line yields has a trimmed, non-empty, colon-free key that is not `mediatypes`, so the encoder writes it back as a line yielding the same pair. A string value is trimmed, colon-free and not integer-shaped. |
| Params.ParsedIsEncodable | lib/params.ts:5-37 | Every key and value of a decoded object meets the round-trip conditions. No stored key is empty, `mediatypes` or `__proto__`. |
| Params.AssignStep | lib/params.ts:29-33 | One more line performs one more `params[key] = value`, as `SetProperty` does, or nothing for a skipped line. |
| Params.LineEntries | lib/params.ts:12-33 | What each line of the text contributes, in line order: the pair it assigns or nothing. It has no contract of its own; `KeysComeFromLines`, `LastLineWins` and `AssignStep` state what the fold over it builds. |
| Params.Stores | lib/params.ts:29-33 | A line's assignment to key `k` takes effect, which needs `k` not to be `__proto__`. It is a definition; `AssignKeys` and `KeysComeFromLines` are stated with it. |
| Params.SetProperty | lib/params.ts:29-33 | `params[key] = value` on a plain object. The key then holds the value and no other key changes. For `__proto__` the prototype setter ignores a string or number, so the object is unchanged. |
| Params.Apply | lib/params.ts:29-33 | One line's effect: nothing for a skipped line, otherwise `SetProperty`. It has no contract of its own; `AssignStep` and `SetProperty` state it. |
| Params.Assign | lib/params.ts:9-34 | The object built by the assignments, in line order, never holds `__proto__`. |
| Params.ProtoNeverStored | lib/params.ts:29-33 | No decoded object holds `__proto__`, whatever the text says. |
| Params.ProtoNotRoundTripped | lib/params.ts:5-52 | The mapping holding only `__proto__`, with a valid value, is written as one line that decodes to `{}`. |
| Params.OneEntryDecodes | lib/params.ts:5-52 | A single entry whose key has line-key shape and whose value is valid is written as one line that decodes to the assignment of that entry alone. |
| Params.AssignKeys | lib/params.ts:12-34 | After the assignments, a key is present exactly when some assignment names it and the key is not `__proto__`. |
| Params.AssignLastWins | lib/params.ts:29-33 | When a key other than `__proto__` is assigned several times, the last assignment decides its value. |
| Params.AssignNothing | lib/params.ts:12-34 | If no line assigns anything, the object stays empty. |
| Params.KeysComeFromLines | lib/params.ts:11-34 | The decoded object holds a key exactly when some line of the trimmed text assigns it and the key is not `__proto__`. |
| Params.LastLineWins | lib/params.ts:29-33 | When several lines assign a key other than `__proto__`, the last of those lines decides the decoded value. |
| Params.ParamsToCellText | lib/params.ts:39-52 | The loop pushing one line per entry and joining them returns exactly `CellText(p)`. |
| Params.CellText | lib/params.ts:39-52 | The text is empty exactly when the input is not an object or has no entries. |
| Params.EntryLine | lib/params.ts:44-49 | The line for one entry: `key: String(value)`, with `mediatypes` as the key for a key like it. It has no contract of its own; `MediaTypesKeyWrittenLowercase` and `EntryLineDecodes` state its properties. |
| Params.EmptyEncodesToNull | lib/params.ts:39-52 | A non-object and the empty object both encode to `""`, which decodes to `null`. |
| Params.MediaTypesKeyWrittenLowercase | lib/params.ts:44-47 | A key that lower-cases to `mediatypes` is written with the literal name `mediatypes`. |
| Params.OneLinePerEntry | lib/params.ts:42-52 | A non-empty object whose keys and written values hold no line feed is written as exactly one line per entry, in entry order, joined by line feeds, with no trailing line feed. |
| Params.EntryLines | lib/params.ts:42-50 | The lines the loop pushes, one per entry, in entry order. It has no contract of its own; `OneLinePerEntry`, `CellText` and `EntryLineDecodes` state it. |
| Params.EntryLinesJoin | lib/params.ts:42-52 | Every pushed line holds `: `, so the joined text is empty exactly when there are no entries. |
| Params.EntryLineDecodes | lib/params.ts:39-52 | The line written for a valid entry decodes back to that entry, whether trimmed or not. |
| Params.ToMapOfEnumeration | lib/params.ts:43 | Any listing of a mapping's entries, in any order, denotes that mapping. |
| Params.ToMap | lib/params.ts:43 | The mapping an entry listing denotes, a later entry overriding an earlier one. It has no contract of its own; `ToMapOfEnumeration` proves an enumeration of a mapping denotes it. |
| Params.RoundTripEntries | lib/params.ts:5-52 | Encoding a non-empty list of valid entries, none keyed `__proto__`, and then decoding gives the mapping they denote. |
| Params.RoundTrip | lib/params.ts:5-52 | `parse(toText(m)) == m` for every non-empty `m` with valid keys and values, whatever its entry order. Valid keys exclude `__proto__`. |
| Params.ReparseIsStable | lib/params.ts:5-52 | Re-encoding a decoded non-empty mapping and decoding again gives the same mapping. |
| Text.Trim | lib/params.ts:6 | The trimmed text is empty exactly when the input is blank. Otherwise it neither starts nor ends with whitespace. |
| Text.TrimIdempotent | lib/params.ts:13 | Trimming twice is trimming once. |
| Text.IsWhitespace | lib/params.ts:6 | The code points `trim` removes. It is a definition; its limits are listed under "Left out". |
| Text.IsBlank | lib/params.ts:6-7 | Text made only of whitespace, which `!text.trim()` tests. It is a definition; `Trim` proves it is exactly the text that trims to nothing. |
| Text.TrimStart | lib/params.ts:6 | Only leading whitespace is dropped, and the result does not start with whitespace. |
| Text.TrimEnd | lib/params.ts:6 | Only trailing whitespace is dropped, and the result does not end with whitespace. |
| Text.SplitLines | lib/params.ts:11 | `split(/\r?\n/)` gives at least one line, and no line holds a line feed. |
| Text.SplitLinesJoin | lib/params.ts:11 | Lines joined with line feeds split back into the same lines, provided none holds a line feed and none but the last ends in a carriage return. |
| Text.CrLfSeparates | lib/params.ts:11 | `\r\n` separates two lines like `\n`, and the `\r` belongs to neither line. |
| Text.SplitLinesOne | lib/params.ts:11 | Text without a line feed is a single line, even if it holds a carriage return. |
| Text.JoinSplit | lib/params.ts:52 | Joining the pieces of a split with the separator gives back the text. |
| Text.SplitOn | lib/params.ts:16 | The unlimited `split(':')`: at least one piece, no piece holds the separator, and there are two or more pieces exactly when the text holds it. |
| Text.SplitFirstTwoPieces | lib/params.ts:16 | For a line holding a colon, `split(':', 2)` gives the first two pieces of the unlimited split. The second piece is empty when nothing follows the colon. Lines without a colon never reach the split, because line 14 skips them. |
| Text.SplitFirstTwoOf | lib/params.ts:16 | For `a:b` followed by nothing or by another colon, `split(':', 2)` gives `a` and `b`. |
| Text.SplitFirstTwo | lib/params.ts:16 | `split(':', 2)` of a line holding a colon: neither piece holds the separator. `SplitFirstTwoPieces` ties it to the unlimited split. |
| Text.IsIntShaped | lib/params.ts:29 | The `/^-?\d+$/` test. It has no contract of its own; `IntToStringParses` shows every `String(n)` passes it. |
| Text.IsDigit | lib/params.ts:29 | `\d`: an ASCII digit. It is a definition used by `IsIntShaped`. |
| Text.AllDigits | lib/params.ts:29 | `\d*`: every character is a digit. It is a definition used by `IsIntShaped`. |
| Text.DecimalValue | lib/params.ts:30 | The base-10 value `parseInt` reads from a digit string. It has no contract of its own; `NatToStringDigits` and `IntToStringParses` state it. |
| Text.ParseInt | lib/params.ts:30 | `parseInt(value, 10)` on an integer-shaped value: the sign, then the decimal value of the digits. It has no contract of its own; `IntToStringParses` makes it the inverse of `String(n)`. |
| Text.IntToString | lib/params.ts:49 | `String(n)` for an integer. It has no contract of its own; `IntToStringParses` states it is integer-shaped and parses back to `n`. |
| Text.NatToString | lib/params.ts:49 | `String(n)` for a natural number: its digits without leading zeros. It has no contract of its own; `NatToStringDigits` states it. |
| Text.NatToStringDigits | lib/params.ts:49 | `String(n)` of a natural number is a non-empty digit string whose base-10 value is `n`. |
| Text.IntToStringChars | lib/params.ts:49 | `String(n)` is non-empty and holds only digits and, first, an optional minus sign. |
| Text.Join | lib/params.ts:52 | `lines.join(sep)`. It has no contract of its own; `JoinSplit` and `SplitLinesJoin` make it the inverse of splitting. |
| Text.IntToStringParses | lib/params.ts:29-30 | `String(n)` is integer-shaped, and `parseInt` reads it back as `n`. |
| Text.Contains | app/bidders/page.tsx:88 | `includes` holds exactly when the query occurs at some position. |
| Text.TrimLower | app/bidders/page.tsx:86-87 | Trimming and lower-casing commute. |
| Text.LowerIdempotent | app/bidders/page.tsx:87-88 | Lower-casing twice is lower-casing once. |
| Text.Lower | app/bidders/page.tsx:87-88 | `toLowerCase()` keeps the length. `LowerSpec` states, character by character, what it becomes. |
| Text.LowerChar | app/bidders/page.tsx:87-88 | `toLowerCase()` on one character. It has no contract of its own; `LowerSpec` states it. |
| Text.LowerSpec | app/bidders/page.tsx:87-88 | Each capital `A`-`Z` becomes the small letter 32 code points on, so no upper-case ASCII letter is left. Every other character is unchanged. |
| StringOrder.Sort | app/profiles/page.tsx:85 | `sort()` returns an ascending permutation of its input. |
| StringOrder.SortDistinct | app/bidders/page.tsx:94-95 | Sorting a list without repeats gives a strictly ascending list with the same members. |
| StringOrder.StrictlySortedUnique | app/bidders/page.tsx:94-95 | Two strictly ascending lists with the same members are equal. |
| StringOrder.BelowTotal | app/profiles/page.tsx:85 | The string order is total. |
| StringOrder.Below | app/profiles/page.tsx:85 | The comparison `sort()` uses: character by character, with a proper prefix first. It has no contract of its own; `BelowIrreflexive`, `BelowTransitive`, `BelowAsymmetric` and `BelowTotal` make it a strict total order. |
| StringOrder.BelowIrreflexive | app/profiles/page.tsx:85 | No string sorts before itself. |
| StringOrder.BelowTransitive | app/profiles/page.tsx:85 | The string order is transitive. |
| StringOrder.BelowAsymmetric | app/profiles/page.tsx:85 | Two strings never each sort before the other. |
| StringOrder.AtMost | app/profiles/page.tsx:85 | The non-strict order: `a` does not sort after `b`. It is a definition used by `Sorted`. |
| StringOrder.Sorted | app/profiles/page.tsx:85 | What `sort()` produces: ascending, repeats allowed. It is a definition; `Sort` ensures it. |
| StringOrder.StrictlySorted | app/bidders/page.tsx:94-95 | Ascending with no repeats. It is a definition; `SortDistinct` ensures it of a sorted `Set`. |
| StringOrder.Distinct | app/bidders/page.tsx:76-91 | No element twice, as in a `Set`. It is a definition; `OptionLists.CollectDistinct` ensures it. |
| StringOrder.InsertSorted | app/profiles/page.tsx:85 | One step of the sort: inserting an element adds exactly it to the multiset of elements. |
| OptionLists.CollectOptions | app/profiles/page.tsx:82-86 | The `forEach` adding each truthy field to a `Set`, then `Array.from(s).sort()`, returns exactly `OptionList(fields)`. |
| OptionLists.AddMembers | app/profiles/page.tsx:84 | `s.add(v)` puts in exactly `v`. |
| OptionLists.AddDistinct | app/profiles/page.tsx:84 | `s.add(v)` never creates a repeat. |
| OptionLists.Add | app/profiles/page.tsx:84 | `s.add(v)` on a `Set` kept in insertion order. It has no contract of its own; `AddMembers` and `AddDistinct` state it. |
| OptionLists.Truthy | app/profiles/page.tsx:84 | The `r.f && ...` guard, also `if (!code) return` in app/bidders/page.tsx:84: a field that is present and not empty. It is a definition; `CollectMembers`, `ContributionsPresent` and `InitialSelects` state its effect. |
| OptionLists.Present | app/profiles/page.tsx:83-84 | Some row holds the non-empty value. It is a definition used by `OptionListSpec` and `CollectMembers`. |
| OptionLists.CollectDistinct | app/profiles/page.tsx:83-84 | The collected set holds no value twice. |
| OptionLists.CollectMembers | app/profiles/page.tsx:83-84 | The collected set holds exactly the non-null, non-empty field values. |
| OptionLists.OptionListSpec | app/profiles/page.tsx:82-104 | An option list is strictly ascending, so it has no repeats. It holds a value exactly when some row has that non-empty value, untrimmed. |
| OptionLists.OptionListNoEmpty | app/profiles/page.tsx:82-104 | The empty string is never offered. |
| OptionLists.OptionListByValues | app/profiles/page.tsx:82-104 | An option list depends only on which values occur, not on row order or repeats. |
| OptionLists.Passes | app/profiles/page.tsx:108-111 | The test `filter !== 'All' && field !== filter` negated: the filter is `'All'` or equals the field exactly. It has no contract of its own; `Profiles.FilteredMembers` and `Bidders.FilteredBiddersSpec` state its effect. |
| OptionLists.Collect | app/profiles/page.tsx:83-84 | The `Set` after the `forEach`, in insertion order. It has no contract of its own; `CollectMembers` and `CollectDistinct` state its contents. |
| OptionLists.OptionList | app/profiles/page.tsx:82-104 | `Array.from(set).sort()`. It has no contract of its own; `OptionListSpec` states it. |
| Profiles.CodeOfSpec | app/profiles/page.tsx:67-70 | `j?.code ?? null` is null exactly when the join or its code is missing, and otherwise is the code. |
| Profiles.CodeOf | app/profiles/page.tsx:67-70 | `j?.code ?? null`. It has no contract of its own; `CodeOfSpec` states it. |
| Profiles.FlattenRows | app/profiles/page.tsx:59-71 | No data gives no rows. Otherwise there is one flattened row per returned row, in order. |
| Profiles.FlattenSame | app/profiles/page.tsx:60-71 | Flattening copies the ids and name unchanged. Two raw rows flatten alike exactly when they agree on those and on their four codes. |
| Profiles.FlattenUnflatten | app/profiles/page.tsx:59-71 | Every flattened row comes from a raw row that joins its codes, so flattening loses nothing a row shows. |
| Profiles.Flatten | app/profiles/page.tsx:60-71 | The object literal built for one row. It has no contract of its own; `FlattenSame`, `FlattenUnflatten` and `CodeOfSpec` state it. |
| Profiles.Field | app/profiles/page.tsx:82-104 | The field one option list reads: environment, geo, device or page type. It is a definition used by `Fields`. |
| Profiles.Fields | app/profiles/page.tsx:82-104 | The field of every row, in row order, which the `forEach` visits. Its contract gives one field per row; `OptionsSpec` states what the option list takes from them. |
| Profiles.Options | app/profiles/page.tsx:82-104 | Each of the four option lists is computed from the rows alone, as `OptionList` of that field. The filters are not an input. |
| Profiles.OptionsSpec | app/profiles/page.tsx:82-104 | Each option list is strictly ascending and offers exactly the non-empty values some row holds in that field. |
| Profiles.FilteredMembers | app/profiles/page.tsx:106-114 | A row is shown exactly when it is a row and each of the four filters is `'All'` or equals the row's field. A null field is hidden once that dimension is filtered. |
| Profiles.FilteredCount | app/profiles/page.tsx:107-113 | A kept row appears as often as in `rows`, and a dropped row not at all. |
| Profiles.FilteredSubsequence | app/profiles/page.tsx:106-114 | `filtered` is an order-preserving subsequence of `rows`. |
| Profiles.FilteredInitial | app/profiles/page.tsx:106-114 | With every filter at its initial `'All'`, `filtered` is `rows`. |
| Profiles.Keep | app/profiles/page.tsx:107-112 | The predicate passed to `rows.filter`: all four `'All'`-or-equal tests. It has no contract of its own; `FilteredMembers` states its effect. |
| Profiles.Filtered | app/profiles/page.tsx:106-114 | `rows.filter(...)`. It has no contract of its own; `FilteredMembers`, `FilteredCount` and `FilteredSubsequence` state it. |
| Profiles.Label | app/profiles/page.tsx:207 | A profile with a non-empty name is labelled by that name, and no label is empty. |
| Profiles.LabelFallback | app/profiles/page.tsx:207 | A profile with a null or empty name is labelled by its four codes, each pair separated by a space, a vertical bar and a space. |
| Profiles.LabelShowsNull | app/profiles/page.tsx:207 | In the fallback label, each of the four codes is shown as `null` when null and as its value otherwise. A null environment makes the label start with `null` and its separator, and a null page type makes it end with the separator and `null`. |
| Profiles.Show | app/profiles/page.tsx:207 | A field inside the template literal, with null shown as `null`. It has no contract of its own; `LabelShowsNull` states it. |
| Profiles.Shown | app/profiles/page.tsx:207 | The four fields the fallback label shows, in order. It has no contract of its own; `LabelFallback` and `LabelShowsNull` state it. |
| Bidders.Options | app/bidders/page.tsx:51-73 | Each of the three option lists is `OptionList` of that field across the rows. |
| Bidders.Field | app/bidders/page.tsx:51-73 | The field one option list reads: geo, device or page type. It is a definition used by `Fields`. |
| Bidders.Fields | app/bidders/page.tsx:51-73 | The field of every row, in row order, which the `forEach` visits. Its contract gives one field per row; `OptionsSpec` states what the option list takes from them. |
| Bidders.OptionsSpec | app/bidders/page.tsx:51-73 | Each option list is strictly ascending and offers exactly the non-empty values some row holds in that field. |
| Bidders.SearchSpec | app/bidders/page.tsx:86-89 | A blank query matches every code. Any other query matches exactly when the lower-cased code contains the lower-cased trimmed query. |
| Bidders.SearchIgnoresCase | app/bidders/page.tsx:86-88 | Matching ignores letter case in both the query and the code. |
| Bidders.SearchIgnoresPadding | app/bidders/page.tsx:86-87 | Matching ignores whitespace around the query. |
| Bidders.Matches | app/bidders/page.tsx:86-89 | The search test. It has no contract of its own; `SearchSpec` states it. |
| Bidders.Selected | app/bidders/page.tsx:79-91 | A row reaches `seen.add(code)`. It has no contract of its own; `Visit` and `FilteredBiddersSpec` state its effect. |
| Bidders.InFilters | app/bidders/page.tsx:79-81 | A row passes the geo, device and page-type filters. It has no contract of its own; `FilteredBiddersSpec` and `InitialInFilters` state its effect. |
| Bidders.InitialInFilters | app/bidders/page.tsx:79-81 | With every filter at `'All'`, every row passes the three filters. |
| Bidders.MatchesEmpty | app/bidders/page.tsx:86 | The empty search matches every code. |
| Bidders.Contributions | app/bidders/page.tsx:78-92 | What each row offers to `seen`: its code when it is selected, else nothing. Its contract gives one entry per row; `ContributionsPresent` states which codes reach `seen`. |
| Bidders.Visit | app/bidders/page.tsx:78-92 | The `forEach` callback, with its early `return`s, adds the row's code exactly when the row is selected. |
| Bidders.FilteredBidders | app/bidders/page.tsx:75-97 | The loop, the sort and the `map` return exactly the summaries of the sorted distinct selected codes. |
| Bidders.FilteredCodes | app/bidders/page.tsx:94-95 | `Array.from(seen).sort()`. It has no contract of its own; `FilteredBiddersSpec`, `FilteredByRowSet` and `FilteredInitial` state it. |
| Bidders.Summaries | app/bidders/page.tsx:96 | There is one summary per code, in order, carrying that code. |
| Bidders.ContributionsPresent | app/bidders/page.tsx:78-92 | A code reaches `seen` exactly when some selected row carries it. |
| Bidders.FilteredBiddersSpec | app/bidders/page.tsx:75-97 | The list is strictly ascending by code, so no code appears twice. It holds a code exactly when some row carries that non-empty code, passes the three filters and matches the search. |
| Bidders.FilteredByRowSet | app/bidders/page.tsx:76-96 | The list depends only on which rows occur, not on their order or repetition. |
| Bidders.InitialSelects | app/bidders/page.tsx:79-89 | With every filter at `'All'` and an empty search, a row is selected exactly when its code is non-empty. |
| Bidders.Codes | app/bidders/page.tsx:83 | The bidder code of every row, in row order. Its contract gives one code per row; `FilteredInitial` states what the list takes from them. |
| Bidders.InitialPresent | app/bidders/page.tsx:75-92 | With the initial filters, a code reaches `seen` exactly when some row carries it, non-empty. |
| Bidders.FilteredInitial | app/bidders/page.tsx:75-97 | With the initial filters, the list is every distinct non-empty bidder code, sorted ascending. |

## Left out

- Data fetching is not modelled. This covers the Supabase queries, the loading and error state and `console.error`. It is network I/O through a client library. The rows a query returns are parameters here.
- React is not modelled. This covers state hooks, `useMemo` dependencies, JSX rendering, `<select>` wiring, links and `encodeURIComponent`. The memoised bodies are modelled as functions of the rows and filter values they read.
- `components/ParamCellEditor.tsx` is not part of this model. Its "empty and save deletes the mapping" behaviour is `parseCellTextToParams` returning `null` (`Params.BlankIsNull`).
- `app/layout.tsx` and `components/MainNav.tsx` are not part of this model.
- Numbers are mathematical integers. `parseInt`'s loss of precision on long digit strings and `-0` are not modelled.
- Numbers that are not integers cannot occur, because stored numbers are integers here. `String` of a fraction or of an exponent form is not modelled.
- Non-string, non-number stored values are not modelled, for example a nested object whose `String` is `[object Object]`.
- `Text.Lower` lower-cases ASCII letters only. JavaScript's full Unicode case mapping is not modelled.
- `Text.IsWhitespace` is the fixed set of code points that `trim` removes.
- Strings are sequences of Unicode scalar values, not UTF-16 code units. `StringOrder.Sort` uses lexicographic order on characters. This agrees with `sort()` except where surrogate pairs order differently from their scalar values.
- Object key enumeration order is not modelled. JavaScript lists integer-like keys first. The encoder takes the entries as a list in any order, and `Params.RoundTrip` holds for every order.
- A JavaScript `Set` is modelled as a list without repeats, kept in insertion order.
- `Params.ReadLine` and `Bidders.Visit` are not named functions in the source. The first is the body of the `for` loop over the lines, and the second is the `forEach` callback. They are split out so each can be given its own contract.
