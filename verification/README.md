# Country picker model

A Dafny model of the data-level core of `react-native-country-picker-modal`'s
`CountryPicker` component (`src/CountryPicker.js`):

- **Catalog construction** (module `Catalog`): the bundled country table is
  filtered once at load time to the entries with a truthy `callingCode`;
  `cca2List` is the filtered object's key list and `getAllCountries()` returns
  every kept entry with its own `cca2` attached. JavaScript objects are
  modelled by `JsObject.Obj`: a key sequence in `Object.keys` order plus a map,
  where assigning a new non-index key appends it.
- **Display-name resolution** (module `Naming`): `getCountryName` picks the
  translation key from the override, then the `translation` prop, then
  `'eng'`, and returns `name[key]` when it is a non-empty string, else
  `name.common`.
- **Alphabet rail** (modules `Alphabet`, `Scroll`, `Picker`): the 26 letters
  `A`..`Z` as one-character strings; `scrollTo(letter)` finds the first row
  whose common name starts with the letter and scrolls to
  `index * itemHeight`; lines 107-110 clamp that offset so the last row does
  not leave the viewport, a test that the NaN list height of line 92
  disables (see Findings).
- **Visibility machine and selection** (module `Picker`): the modal starts
  hidden; the trigger and `openModal` show it; the host's close request and
  the close button hide it; selecting a row hides it and calls `onChange`
  exactly once with `cca2`, the entry's other fields, `flag: undefined` and
  the resolved name. Host events are `Picker.Event`s, and what the component
  does outward (calling `onChange`, scrolling the list, throwing) is a
  `Picker.Effect`. `Picker.Run` folds a sequence of events.

`undefined` is `Wrappers.Option.None`. JavaScript string truthiness is
"non-empty". Screen geometry (`getHeightPercent(7)` for the row height,
`getHeightPercent(100)` for the screen, the list's layout offset) enters as
integer parameters.

Two behaviours of the code are easy to miss: the name falls back to
`name.common` also when the translated name is the empty string, and the
`onChange` payload carries every other field of the dataset entry besides
`cca2`, `callingCode`, `flag` and `name`. The list height is a parameter of
`Picker.Init`. The code computes it as `NaN`
(`Scroll.ListHeightAsWritten`), and with that height the end-of-list clamp
never takes effect (`Picker.AsWrittenPickerNeverClamps`). The evidently
intended height `Scroll.ListHeight` makes the clamp work
(`Picker.CorrectedPickerShowsTargetRow`); see Findings.

## Model

| member | source | states |
|---|---|---|
| JsObject.Obj.Put | src/CountryPicker.js:26 | assigning a property keeps the key list duplicate-free and in agreement with the properties, appends a new key at the end, keeps an existing key's place, and changes no other property |
| Catalog.Visit | src/CountryPicker.js:23-27 | the `forEach` callback keeps the `countries` object well-formed |
| Catalog.VisitExtends | src/CountryPicker.js:23-27 | one more visited dataset key extends the loop's guarantee: exactly the kept codes so far, entries unchanged, in dataset order |
| Catalog.FilterPrefix | src/CountryPicker.js:22-28 | after the loop has seen the first n dataset keys, the object holds exactly those of them with a non-empty calling code, each entry unchanged, keys in dataset order |
| Catalog.Countries | src/CountryPicker.js:22-28 | the filtered `countries` object is a well-formed object: its key list names each property exactly once |
| Catalog.Cca2List | src/CountryPicker.js:30 | `Object.keys(countries)` has no duplicates |
| Catalog.CatalogMembership | src/CountryPicker.js:22-28 | a code is in `countries` iff the dataset has it with a non-empty calling code; kept entries are the dataset's entries unchanged |
| Catalog.Cca2ListIsCatalogOrder | src/CountryPicker.js:30 | `cca2List` has no duplicates, contains exactly the codes with a calling code, and lists them in the dataset's key order |
| Catalog.ListPrefix | src/CountryPicker.js:34-41 | after the loop has seen the first n codes, the result's keys are exactly those codes in order, each holding its catalog entry tagged with its own code |
| Catalog.GetAllCountries | src/CountryPicker.js:33-42 | the result has the catalog's keys in the same order, and each value is the catalog entry with `cca2` equal to its own key |
| Catalog.AllCountriesMatchesCca2List | src/CountryPicker.js:30-42 | over the dataset, `getAllCountries()` has exactly `cca2List` as keys and holds the kept dataset entry tagged with its code |
| Naming.Lookup | src/CountryPicker.js:78 | `name[key]` is the common name for key `common`, a localized name when one exists for the key, and undefined otherwise |
| Naming.TranslationKey | src/CountryPicker.js:77 | the key is the override when truthy, else the `translation` prop when truthy, else `'eng'`; it is never empty |
| Naming.CountryName | src/CountryPicker.js:76-79 | the name is the looked-up translation when it is a non-empty string and the common name otherwise |
| Naming.NameComesFromRecord | src/CountryPicker.js:78 | resolution always yields the common name or one of the entry's non-empty localized names, and is empty only if the common name is |
| Naming.OverrideWins | src/CountryPicker.js:77-78 | a truthy override with a non-empty translation yields that translation whatever the prop |
| Naming.MissingTranslationFallsBack | src/CountryPicker.js:78 | a key with no localized name yields the common name |
| Naming.ResolutionExamples | src/CountryPicker.js:76-79 | `{eng: "France"}` resolves to "France" under the default key; an entry without `eng` resolves to its common name "Ivory Coast" |
| Alphabet.Range | src/CountryPicker.js:87 | lodash `_.range(start, end)` counts by one from `start` towards `end`, excluding `end`, upward or downward |
| Alphabet.FromCharCode | src/CountryPicker.js:88 | `String.fromCharCode(n)` is the one-character string with code n |
| Alphabet.Letters | src/CountryPicker.js:86-88 | `letters` has length 26 and its i-th entry is the one-character string of the i-th uppercase Latin letter |
| Alphabet.LettersAreAlphabet | src/CountryPicker.js:86-88 | every letter is one uppercase character, every uppercase Latin letter is present, and they are strictly ascending |
| Scroll.IndexOf | src/CountryPicker.js:100-101 | `indexOf` returns the first position holding the value, or -1 exactly when the value is absent |
| Scroll.ClampOffset | src/CountryPicker.js:105-110 | with both heights defined, the offset never puts the list's end above the viewport's bottom, equals `listHeight - visibleListHeight` exactly when the row offset would overshoot, and is the row offset otherwise; with either undefined the row offset is delivered |
| Scroll.ListHeightAsWritten | src/CountryPicker.js:92 | `countries.length * itemHeight` on a plain object is NaN |
| Scroll.ListHeight | src/CountryPicker.js:92 | the corrected list height is the number of rows times the row height: non-negative for a non-negative row height and zero for an empty list |
| Scroll.AsWrittenScrollsPastEnd | src/CountryPicker.js:92-110 | with the list height as written, every offset passes unclamped, and a concrete three-row list is scrolled past its end |
| Scroll.CorrectedNeverPastEnd | src/CountryPicker.js:92-110 | with one row height per entry as list height, a viewport at least one row high and a list at least one viewport high, the delivered offset of any row is between the list's top and the row offset and shows the whole row; it keeps the list's end at or below the viewport's bottom and is the row offset when that already fits |
| Picker.Init | src/CountryPicker.js:53-61 | a mounted picker has its modal hidden, no measured viewport, the `translation` prop defaulted to `'eng'` when omitted, and the given row and list heights (the list height of line 92 is a parameter, see Findings) |
| Picker.Open | src/CountryPicker.js:94-96 | `openModal` shows the modal and changes nothing else |
| Picker.Close | src/CountryPicker.js:196 | a close request hides the modal and changes nothing else |
| Picker.SetVisibleListHeight | src/CountryPicker.js:81-83 | the viewport height plus the list's top offset is the screen height; nothing else changes |
| Picker.SelectionPayload | src/CountryPicker.js:68-73 | the payload carries the selected code, or the entry's own `cca2` field when it has one (the spread comes after `cca2`), the entry's calling code and other fields, an undefined flag and the resolved name |
| Picker.SelectCountry | src/CountryPicker.js:63-74 | selecting hides the modal and produces exactly one effect: the `onChange` call with the payload for a catalog code, an exception for a code that is not a catalog key (codes naming inherited `Object.prototype` members excepted, see Left out) |
| Picker.LayoutBoundsScroll | src/CountryPicker.js:81-110 | after a layout measurement, a picker with a numeric list height scrolls every letter tap to an offset that keeps the list's end at or below the bottom of the measured viewport |
| Picker.AsWrittenPickerNeverClamps | src/CountryPicker.js:92-110 | a picker with the list height the code computes scrolls every letter tap to the matched row's own offset, whatever viewport was measured |
| Picker.CorrectedPickerShowsTargetRow | src/CountryPicker.js:92-110 | a picker with the corrected list height, a viewport at least one row high and a list at least one viewport high scrolls every letter tap so that the whole target row is in view, without going above the list's top |
| Picker.PayloadAgreesWithListing | src/CountryPicker.js:33-74 | the payload matches the `getAllCountries()` entry of the same code on calling code and other fields, and on `cca2` unless the entry has a `cca2` field of its own; it drops the flag and resolves the name from that entry |
| Picker.OwnCca2FieldOverridesSelection | src/CountryPicker.js:33-74 | for an entry "FR" carrying its own `cca2: "XX"`, `getAllCountries()` lists "FR" (its `cca2` follows the spread) while `onChange` reports "XX" (its `cca2` precedes the spread) |
| Picker.FirstChar | src/CountryPicker.js:100 | `name.common[0]` is the name's first character as a string, undefined exactly for an empty name |
| Picker.FirstCharMatches | src/CountryPicker.js:100-101 | `name.common[0] === letter` holds exactly when the name starts with the one-character letter |
| Picker.Heads | src/CountryPicker.js:100 | the mapped list has one entry per catalog row, the first character of that row's common name |
| Picker.LetterIndex | src/CountryPicker.js:98-104 | the target row is the smallest row whose common name starts with the letter, and there is none exactly when no row's name does |
| Picker.ScrollTo | src/CountryPicker.js:98-116 | no scroll exactly when no row matches; otherwise the offset is the row offset, replaced by exactly `listHeight - visibleListHeight` when the viewport is measured, the list height is numeric and the row offset would overshoot; it is the row offset whenever either height is undefined or NaN, and never past the end once the viewport is measured and the list height is numeric |
| Picker.ScrollExamples | src/CountryPicker.js:98-104 | Afghanistan, Albania, Algeria: "A" targets row 0 and "Z" scrolls nowhere |
| Picker.RailLetterScrollsIffNameStartsWith | src/CountryPicker.js:130-134 | tapping the i-th rail letter scrolls iff some catalog common name starts with the i-th uppercase letter |
| Picker.Step | src/CountryPicker.js:186-211 | one host event keeps the props and both heights, emits at most one effect, opens on the trigger or `openModal`, closes on a close request, the close button of a closeable picker or a row press, and emits nothing for those show/hide events; it calls `onChange` only for a catalog row press, always with its payload, throws for a press on a code that is not a catalog key (inherited `Object.prototype` names excepted, see Left out), scrolls a letter tap to exactly `scrollTo`'s offset and nowhere when nothing matches, and stores the viewport on a layout event and only then |
| Picker.Run | src/CountryPicker.js:186-211 | no sequence of host events changes the picker's props or its row and list heights, and it produces at most one effect per event (visibility and callbacks over a run are stated by `Picker.RunVisibility` and `Picker.RunCallbacks`) |
| Picker.RunVisibility | src/CountryPicker.js:57-58 | after any event sequence the modal is visible iff some event opened it and none closed it since, or it was visible before and nothing closed it |
| Picker.RunCallbacks | src/CountryPicker.js:63-74 | over any event sequence, `onChange` is called once per catalog row press, in press order, with the code that row's payload reports, and never otherwise |

## Left out

- Rendering: `render`, `renderCountry`, `renderLetters`, `renderCountryDetail`, `renderFlag`, `renderEmojiFlag`, `renderImageFlag`, `ListView.DataSource`, `Modal`, `TouchableOpacity`, `Emoji` and the list's `pageSize` are host UI calls; only the events they wire up are modelled (`Picker.Event`).
- `src/CountryPicker.style.js` is static style data, and `src/ratio.js` is floating-point screen geometry read from the device; heights are integer parameters instead, and the notch test in `ratio.js` is not part of this model.
- The bundled dataset `data/countries-emoji` is not part of this model; it is an arbitrary `Obj<Country>` input.
- Floating point: heights and offsets are integers, so fractional pixel values are not modelled.
- The scroll command itself (`this._listView.scrollTo`) is the `ScrollList` effect, or the `Some` result of `Picker.ScrollTo`.
- React's batching of `setState`: state changes take effect at once.
- The `cca2` prop and `propTypes` checks only affect rendering and development warnings.
- JsObject.Obj.Put: JavaScript lists integer-like keys such as `"1"` before all others in ascending order, and assigning `__proto__` adds no key; neither is modelled, because catalog keys are two-letter codes.
- Picker.FirstChar: JavaScript's `s[0]` is a UTF-16 code unit, while Dafny characters are Unicode scalar values; for a common name starting outside the Basic Multilingual Plane the model yields the whole character where JavaScript yields a lone surrogate. The rail's letters `A`..`Z` are matched identically in both.
- Alphabet.FromCharCode: only codes below 0xD800 are modelled, because the only call passes 65..90 and Dafny characters exclude surrogates.
- Naming.Lookup: properties `name` inherits from `Object.prototype` (a key such as `toString`) are not modelled, and a localized entry stored under the key `common` is shadowed by the common name.
- Catalog.Country: every field is a string; a calling code of another JavaScript type (an array, whose truthiness differs) is not modelled, and the entry's remaining fields are opaque strings in `extra`. Keys `callingCode`, `flag` and `name` in `extra` would duplicate the dedicated fields, which JavaScript cannot; the payload drops them.
- Picker.Init: a `translation` prop of `null` (which `defaultProps` does not replace) is not representable.
- Picker.SelectCountry: what the host does with the thrown `TypeError` is not modelled. Codes naming members `countries` inherits from `Object.prototype` (`constructor`, `toString`, `valueOf`, `hasOwnProperty`, ...) are not modelled: in JavaScript they reach `onChange` with `name` undefined instead of throwing (only `__proto__` throws), while the model throws for every non-catalog code. Rows only ever carry catalog codes.
- Picker.Step: a press on a code naming an inherited `Object.prototype` member is not modelled, as for `Picker.SelectCountry`; in JavaScript it calls `onChange` with `name` undefined. Step also accepts letter taps, row presses and layout events while the modal is hidden, which the host cannot deliver then (a hidden `Modal` renders no list, and the `_listView` ref is null after a close); the stated properties hold on every run the host can produce.

## Findings

| source | as written | input that shows it | evidently intended | confidence | as-written member | corrected member |
|---|---|---|---|---|---|---|
| src/CountryPicker.js:92 | `listHeight = countries.length * this.itemHeight`, but `countries` is a plain object without `length`, so the list height is NaN and the "do not scroll past the end" test at line 108 is always false | three rows of height 10 and a 20-high viewport; the letter of the third row scrolls to 20, leaving the 30-high list's end 10 above the viewport's bottom | `cca2List.length * this.itemHeight`, so that the clamp applies | high that the clamp is dead; not executed | Scroll.AsWrittenScrollsPastEnd, Picker.AsWrittenPickerNeverClamps | Scroll.CorrectedNeverPastEnd, Picker.CorrectedPickerShowsTargetRow |
