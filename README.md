# Lightspark render value types, locale manager and globalization classes — a Dafny model

This project models four small pieces of the Lightspark Flash player:

- **The render value types of the graphics backend** (`src/backends/graphics.h`).
  - A `TextureChunk` is a handle into a texture atlas. Its cell count is computed in 128-pixel cells, in `uint32_t` arithmetic.
  - It is valid exactly when its cell array pointer is non-null.
  - The header also defines the field-initialising constructors of `CachedSurface`, `IDrawable` (with its ordered mask list), `TextData` and `LineData`.
- **The locale manager** (`src/backends/locale.cpp`).
  - It holds a table of ten English locale IDs.
  - Its subscript lookup inserts a null entry when the key is missing.
  - Locale availability is decided by a fixed chain of candidate names: the name itself; then the name with its first `-` replaced by `_`; then that name plus `.UTF-8`.
- **`flash.globalization.Collator`** (`src/scripting/flash/globalization/collator.cpp`).
  - The constructor walks the same fallback chain and always ends with the status `"no_error"`.
  - `compare` is a three-way byte-lexicographic comparison.
  - `equals` tests whether the counting walk `compareStrings` returns 0.
- **`flash.globalization.DateTimeFormatter`** (`src/scripting/flash/globalization/datetimeformatter.cpp`).
  - Each method sets the status, the locale names or the pattern by a fixed rule.
  - The script name `getAvailableLocaleIDNames` is registered to `formatUTC`.

Modules: `Wrappers` (Option, Result); `BoundedInts` (the C++ fixed-width integers and their wrap-around); `Graphics`; `Locale`; `Collation` (class `Collator`); `DateTimeFormatting` (class `DateTimeFormatter`).

How platform services are modelled:

- **`std::locale(name)`**: the model is given a set `installed` of the names the platform accepts. Construction succeeds exactly for those names; any other name throws `std::runtime_error`.
- **The current locale** (`currlocale`): modelled as the name it was built from. `None` stands for the default locale.
- **`Date::format(pattern, utc)`**: a function-valued parameter that also receives the global locale in force during the call.
- **The bytes of a script string as a `std::string`**: `std::string s = t.raw_buf()` keeps the bytes before the first NUL (`Collation.BeforeNul`).
- **Character classification** (`isspace`, `iswpunct`, `iswcntrl`, `tolower`): follows the "C" locale over ASCII; bytes 128 and above are neither symbols nor letters.
- **`float` and `double` fields**: kept as their IEEE-754 bit patterns, with no arithmetic on them.

Where the code and its evident intent differ, the model keeps both. It states the code as written, proves the discrepancy with a concrete input, and the rest of the model uses the corrected form (see "## Findings").

Other points where the model follows the code closely:

- **`compareStrings` on mismatches**: a mismatched character pair adds `char1 == char2` inside `if (char1 != char2)`, so it adds nothing. The model keeps this. As a result, `equals` without `ignoreSymbols` holds exactly for strings of equal length. `Collation.UnmatchedIsLengthDifference` proves this.
- **`ignoreCase`**: lower-casing never changes whether a byte is a symbol, and mismatches count nothing. So the flag has no effect on the result (`Collation.UnmatchedIgnoresCase`).
- **Iterator comparison**: the loop guard of `compareStrings` compares an iterator into `string1` with `string2.end()`. The model takes iterators into two distinct buffers as never equal.
- **`std::locale(x);` in locale.cpp**: every such statement has the form `T(x);`, which C++ reads as the declaration of a default-constructed `std::locale` named `x`. It hides the string `x` and never throws. So, as written, `isLocaleAvailableOnSystem` returns true for every name, and `getSystemLocaleName` returns the name of the global locale; this is also why the `.name()` calls compile. The model states this (`Locale.IsLocaleAvailableOnSystemAsWritten`, `Locale.GetSystemLocaleNameAsWritten`). The intended chain, which constructs each candidate, is `Locale.IsLocaleAvailableOnSystem` and `Locale.GetSystemLocaleName`. It returns the candidate that was accepted.
- **Callers of the locale chain**: `Locale.LocaleManager.GetAvailableLocaleIDNames`, `DateTimeFormatting.DateTimeFormatter.Construct` and `DateTimeFormatting.DateTimeFormatter.GetAvailableLocaleIDNames` are stated over the intended chain. With the chain as written, the manager lists all ten keys and the "usingDefaultWarning" branch of the `DateTimeFormatter` constructor is never taken.
- **The manager's iteration order**: the table is an `unordered_map`, whose iteration order the standard leaves open. The model keeps it as the field `order`, which visits every key once (`Valid`). Listing the available names keeps that order.
- **`tiny_string::replace`** is not part of this model. The Collator constructor is modelled with `replace` editing its receiver, as `std::string::replace` does. So in the `-` branch, `requestedLocaleIDName` and `actualLocaleIDName` carry the `_`.
- **The Collator constructor's arguments**: lines 50-52 are three separate unpacking statements, each starting over at the first argument. So `requestedLocaleIDName`, `initialMode` and `sortingMode` all receive the first argument.
- **Constructors**: the Dafny `constructor` of `Collator` and of `DateTimeFormatter` builds the object before its script constructor runs. The model starts every field empty or false; the native constructor of `Collator` is in collator.h, which is not part of this model. The method `Construct` models the script constructor (`_constructor`).

## Model

| member | source | states |
|---|---|---|
| `Graphics.EmptyTextureChunk` | src/backends/graphics.h:57-63 | the default chunk has a null cell pointer, texture id 0 and size 0×0, so it is not valid and has 0 cells |
| `Graphics.IsValid` | src/backends/graphics.h:63 | a chunk is valid exactly when its cell pointer is non-null (the definition; `EmptyTextureChunk` states the default is not valid) |
| `Graphics.NumberOfChunks` | src/backends/graphics.h:62 | the cell count in `uint32_t` arithmetic; a chunk with a zero side has 0 cells even where the arithmetic wraps |
| `Graphics.CellsAlongIsCeiling` | src/backends/graphics.h:23 | the reference cell count along one side is the ceiling of n/128: the fewest 128-pixel cells that cover n pixels |
| `Graphics.RoundUpDivIsCellsAlong` | src/backends/graphics.h:62 | the round-up division `(n+CHUNKSIZE-1)/CHUNKSIZE` equals the reference ceiling when nothing wraps |
| `Graphics.NumberOfChunksIsCeilProduct` | src/backends/graphics.h:62 | with no `uint32_t` wrap-around, `getNumberOfChunks` is ceil(width/128)·ceil(height/128) |
| `Graphics.NumberOfChunksZeroIff` | src/backends/graphics.h:62 | with no wrap-around, the count is 0 exactly when width or height is 0 |
| `Graphics.NumberOfChunksMonotone` | src/backends/graphics.h:62 | with no wrap-around, growing width and height never decreases the count |
| `Graphics.NumberOfChunksWrapsAround` | src/backends/graphics.h:62 | a chunk 2^32−1 pixels wide and 128 high reports 0 cells, although the ceiling product is positive |
| `Graphics.NewCachedSurface` | src/backends/graphics.h:72-76 | a new cached surface holds the empty chunk at offset (0,0) with alpha 1.0 |
| `Graphics.MaskModeValue` | src/backends/graphics.h:100 | `HARD_MASK` is 0 and `SOFT_MASK` is 1 |
| `Graphics.NewDrawable` | src/backends/graphics.h:124-125 | the constructor stores width, height, offsets, alpha and the mask list exactly as given |
| `Graphics.GetWidth` | src/backends/graphics.h:138 | the drawable's width (the definition; `DrawableGettersRoundTrip` states the round trip) |
| `Graphics.GetHeight` | src/backends/graphics.h:139 | the drawable's height (the definition) |
| `Graphics.GetXOffset` | src/backends/graphics.h:140 | the drawable's x offset (the definition) |
| `Graphics.GetYOffset` | src/backends/graphics.h:141 | the drawable's y offset (the definition) |
| `Graphics.GetAlpha` | src/backends/graphics.h:142 | the drawable's alpha (the definition) |
| `Graphics.DrawableGettersRoundTrip` | src/backends/graphics.h:138-142 | the getters return exactly the constructor's arguments, and the masks keep their number and order |
| `Graphics.DefaultTextData` | src/backends/graphics.h:262-264 | the defaults: 100×100; scrollH 0; scrollV 1; font size 12; no autosize; multiline, wordWrap, background, border and caret blink all off; font "Times New Roman"; fontID `UINT32_MAX`; white background; black border and text |
| `Graphics.NewLineData` | src/backends/graphics.h:290-297 | the extents start at (x, y) and every metric is stored as given |
| `Graphics.LineDataExtentsSize` | src/backends/graphics.h:294 | when x+width and y+height fit in `int32_t`, xmax−xmin = width and ymax−ymin = height |
| `Locale.FindHyphen` | src/backends/locale.cpp:58 | the result is the position of the first '-', or absent exactly when there is none |
| `Locale.ReplaceOne` | src/backends/locale.cpp:62 | `replace(pos,1,r)` swaps the character at pos for r, appends r at the end position, and throws out_of_range past the end |
| `Locale.Underscored` | src/backends/locale.cpp:58-62 | the second candidate has the same length as the name, has '_' where the first '-' was, and is unchanged elsewhere |
| `Locale.Candidates` | src/backends/locale.cpp:51-99 | the candidates in order: the name; then, with a '-', the underscored name and that plus ".UTF-8"; without one, the name plus ".UTF-8" |
| `Locale.AcceptedName` | src/backends/locale.cpp:51-99 | the first candidate the platform accepts, absent exactly when none is accepted |
| `Locale.AcceptedNameInOrder` | src/backends/locale.cpp:104-157 | the first accepted candidate, case by case in the order the chain tries them |
| `Locale.IsLocaleAvailableOnSystem` | src/backends/locale.cpp:49-102 | the intended chain, each candidate constructed: the name, then the underscored name and that plus ".UTF-8", or the name plus ".UTF-8" (the definition; its properties follow) |
| `Locale.GetSystemLocaleName` | src/backends/locale.cpp:104-157 | the intended chain returning the accepted candidate, or "" (the definition; its properties follow) |
| `Locale.AvailableIffSomeCandidateInstalled` | src/backends/locale.cpp:49-102 | `isLocaleAvailableOnSystem` is true exactly when some candidate is accepted (both directions) |
| `Locale.SystemNameIsFirstAccepted` | src/backends/locale.cpp:104-157 | `getSystemLocaleName` returns the first accepted candidate, or "" when there is none |
| `Locale.SystemNameInstalledWhenAvailable` | src/backends/locale.cpp:104-157 | for an available locale, the system name is one the platform accepts |
| `Locale.SystemNameEmptyIffUnavailable` | src/backends/locale.cpp:104-157 | for a non-empty name, `getSystemLocaleName` is "" exactly when `isLocaleAvailableOnSystem` is false |
| `Locale.IsLocaleAvailableOnSystemAsWritten` | src/backends/locale.cpp:53-54 | as written, line 53 declares a default locale that never throws, so every name is reported available |
| `Locale.GetSystemLocaleNameAsWritten` | src/backends/locale.cpp:108-109 | as written, line 108 declares a default locale, so the result is the global locale's name whatever was asked |
| `Locale.AsWrittenAcceptsUninstalledName` | src/backends/locale.cpp:53-54 | with nothing installed, "xx" is available as written but not under the intended chain; with nothing installed the two disagree on every name |
| `Locale.AsWrittenNameIgnoresRequest` | src/backends/locale.cpp:108-109 | with "en_US.UTF-8" installed and global locale "C", `getSystemLocaleName("en_US")` is "C" as written and "en_US.UTF-8" as intended |
| `Locale.HyphenPos32` | src/backends/locale.cpp:58 | storing `find("-")` in a `uint32_t` gives 2^32−1 when there is no '-', and the position otherwise |
| `Locale.IsLocaleAvailableOnSystemSizeGuard` | src/backends/locale.cpp:56-100 | `isLocaleAvailableOnSystem` with each statement constructing a locale but the `size()` guard kept: a name with no '-' that is not accepted as it is throws out_of_range; any other name gets the intended chain's answer (see the two lemmas below) |
| `Locale.GetSystemLocaleNameSizeGuard` | src/backends/locale.cpp:111-155 | `getSystemLocaleName` in the same way: a throw for a name with no '-' that is not accepted as it is, and otherwise the intended chain's accepted candidate or "" |
| `Locale.SizeGuardThrowsWithoutHyphen` | src/backends/locale.cpp:58-62 | with constructing statements but the `size()` guard as written, a name without '-' that is not accepted as it is throws out_of_range in both functions |
| `Locale.SizeGuardThrowsOnTableKey` | src/backends/locale.cpp:113-117 | under the same guard, the table key "en_US" throws when only "en_US.UTF-8" is installed; the intended chain accepts it |
| `Locale.SizeGuardAgreesWhenItReturns` | src/backends/locale.cpp:56-100 | whenever the guarded chain returns without throwing, it agrees with the intended chain |
| `Locale.English` | src/backends/locale.cpp:29-38 | each built-in entry has language "english" and the country it is built with |
| `Locale.TableHasTenKeys` | src/backends/locale.cpp:29-38 | the built-in table has exactly ten distinct keys |
| `Locale.BuiltInTable` | src/backends/locale.cpp:29-38 | exactly the keys en_AU, en_CA, en_DK, en_GB, en_IE, en_IN, en_NZ, en_PH, en_US and en_ZA, each with its non-null English entry and its country |
| `Locale.Enumerate` | src/backends/locale.cpp:167 | an iteration order of a set of keys: every key once and nothing else |
| `Locale.AvailableInOrder` | src/backends/locale.cpp:164-175 | the available names of a key listing, in the listing's order (the definition; the two lemmas below state its meaning) |
| `Locale.AvailableInOrderMembers` | src/backends/locale.cpp:164-175 | a name is listed exactly when it is in the listing and available |
| `Locale.AvailableInOrderDistinct` | src/backends/locale.cpp:164-175 | a listing without repetitions gives a result without repetitions |
| `Locale.LocaleManager.constructor` | src/backends/locale.cpp:27-39 | the table is the built-in table of ten entries, and the iteration order visits each key once |
| `Locale.LocaleManager.GetLocaleId` | src/backends/locale.cpp:159-162 | a registered key returns its entry and leaves table and order unchanged; any other key is inserted with a null entry and null is returned; the order still visits every key once |
| `Locale.LocaleManager.GetAvailableLocaleIDNames` | src/backends/locale.cpp:164-175 | the available keys in the table's iteration order; for a valid table each such key exactly once, and nothing else |
| `Collation.IsSymbol` | src/scripting/flash/globalization/collator.cpp:121-134 | whitespace, punctuation or control character (the definition; `SymbolIffAsciiNonAlnum` states its meaning) |
| `Collation.SymbolIffAsciiNonAlnum` | src/scripting/flash/globalization/collator.cpp:121-134 | `isSymbol` (space, punctuation or control character) holds exactly for the ASCII characters that are not letters or digits |
| `Collation.ToLower` | src/scripting/flash/globalization/collator.cpp:146-150 | lower-casing maps A–Z to a–z, leaves every other byte alone, and keeps whether a byte is a symbol |
| `Collation.Fold` | src/scripting/flash/globalization/collator.cpp:146-150 | without `ignoreCase` the byte is kept; folding never changes whether a byte is a symbol |
| `Collation.BeforeNul` | src/scripting/flash/globalization/collator.cpp:215-216 | the `std::string` built from `raw_buf()`: a prefix of the bytes, with no NUL, followed in the original by a NUL when it is shorter |
| `Collation.BeforeNulKeepsNulFree` | src/scripting/flash/globalization/collator.cpp:215-216 | a string without NUL bytes is kept whole |
| `Collation.LexLess` | src/scripting/flash/globalization/collator.cpp:219-223 | `std::string`'s `<` on bytes (the definition; the lemmas below state its meaning) |
| `Collation.LexLessIffFirstDifference` | src/scripting/flash/globalization/collator.cpp:219-226 | string `<` holds exactly when, after a common prefix, the first string ends first or has the smaller byte |
| `Collation.LexLessIrreflexive` | src/scripting/flash/globalization/collator.cpp:219-226 | no string is less than itself |
| `Collation.LexLessAsymmetric` | src/scripting/flash/globalization/collator.cpp:219-226 | s1 < s2 excludes s2 < s1 |
| `Collation.LexLessTotal` | src/scripting/flash/globalization/collator.cpp:219-226 | of two different strings, one is less than the other |
| `Collation.LexLessTransitive` | src/scripting/flash/globalization/collator.cpp:219-226 | string `<` is transitive |
| `Collation.CompareBytes` | src/scripting/flash/globalization/collator.cpp:218-226 | the value is 1, 0 or −1, and it is 1 exactly when s1 > s2 |
| `Collation.CompareZeroIffEqual` | src/scripting/flash/globalization/collator.cpp:218-226 | compare gives 0 exactly for equal strings, so compare(a,a) = 0 |
| `Collation.CompareAntisymmetric` | src/scripting/flash/globalization/collator.cpp:218-226 | compare(a,b) = −compare(b,a) |
| `Collation.CompareTransitive` | src/scripting/flash/globalization/collator.cpp:218-226 | if a compares below b and b below c, then a compares below c |
| `Collation.CompareStopsAtNul` | src/scripting/flash/globalization/collator.cpp:215-226 | "a\0b" and "a\0c" compare equal, although as whole byte strings the first is smaller |
| `Collation.Unmatched` | src/scripting/flash/globalization/collator.cpp:136-186 | the count of characters left over, never more than the two lengths together |
| `Collation.UnmatchedIsLengthDifference` | src/scripting/flash/globalization/collator.cpp:141-186 | without `ignoreSymbols` the result is the absolute difference of the two lengths, whatever the characters |
| `Collation.UnmatchedIgnoresCase` | src/scripting/flash/globalization/collator.cpp:146-152 | the result is the same with and without `ignoreCase` |
| `Collation.UnmatchedReflexive` | src/scripting/flash/globalization/collator.cpp:266 | every string equals itself under every flag setting |
| `Collation.UnmatchedSymmetric` | src/scripting/flash/globalization/collator.cpp:136-186 | swapping the two strings does not change the result |
| `Collation.UnmatchedBoundsNonSymbolDifference` | src/scripting/flash/globalization/collator.cpp:152-172 | with `ignoreSymbols`, the result is at least the difference in the number of non-symbol bytes, so strings that are equal have as many non-symbols |
| `Collation.CompareStringsAsWritten` | src/scripting/flash/globalization/collator.cpp:136-186 | the loop with the guard as written: it fails with a read past the end whenever the second cursor reaches the end of `string2` while the first has not |
| `Collation.CompareStringsAsWrittenOverruns` | src/scripting/flash/globalization/collator.cpp:141-144 | as written, comparing "a" with "" dereferences `string2`'s end iterator |
| `Collation.AsWrittenOverrunsWhenFirstLonger` | src/scripting/flash/globalization/collator.cpp:141-144 | as written, without `ignoreSymbols`, any first string longer than the second is read past the end of the second |
| `Collation.AsWrittenAgreesWhenItReturns` | src/scripting/flash/globalization/collator.cpp:136-186 | whenever the loop as written does not overrun, it returns the corrected count |
| `Collation.Collator.constructor` | src/scripting/flash/globalization/collator.cpp:46 | the line only marks where the script constructor begins; the native constructor is in collator.h, outside this model, and the model chooses a start state: names and modes empty, the default locale, every flag false |
| `Collation.Collator.Construct` | src/scripting/flash/globalization/collator.cpp:46-109 | `initialMode` and `sortingMode` receive the first argument; the current locale is the first accepted candidate and the actual name is the requested name as edited; with none accepted, both are unchanged; the requested name is kept when accepted, gets its '-' replaced by '_' when it has one, and otherwise gets ".UTF-8" appended; the final status is always "no_error"; the flags do not change |
| `Collation.Collator.CompareStrings` | src/scripting/flash/globalization/collator.cpp:136-187 | the loop, with both cursors bounded, returns exactly the leftover count of the reference walk; each pass advances a cursor (its `decreases`) and a mismatch adds nothing |
| `Collation.Collator.Compare` | src/scripting/flash/globalization/collator.cpp:189-235 | returns the byte-order comparison of the two strings up to their first NULs, whatever the `ignore*` and numeric flags are, and sets status "noError" |
| `Collation.Collator.Equals` | src/scripting/flash/globalization/collator.cpp:237-275 | returns true exactly when `compareStrings` gives 0 on the two strings up to their first NULs, and sets status "noError" |
| `DateTimeFormatting.DeclaredMethods` | src/scripting/flash/globalization/datetimeformatter.cpp:34-44 | four script method names are declared; "setDateTimePattern", "format" and "formatUTC" are bound to the functions of those names |
| `DateTimeFormatting.AvailableLocaleIDNamesDispatchesToFormatUTC` | src/scripting/flash/globalization/datetimeformatter.cpp:40-43 | "getAvailableLocaleIDNames" is bound to `formatUTC`, and no script name reaches the native `getAvailableLocaleIDNames` |
| `DateTimeFormatting.DateTimeFormatter.constructor` | src/scripting/flash/globalization/datetimeformatter.cpp:29-32 | the native constructor leaves every field empty and the locale at its default |
| `DateTimeFormatting.DateTimeFormatter.Construct` | src/scripting/flash/globalization/datetimeformatter.cpp:46-61 | date and time styles default to "long". If the locale is available: the current locale is built from the system name (one the platform accepts), the actual name becomes the requested one, and the status is "noError". Otherwise: the status is "usingDefaultWarning" and the actual name and locale are untouched |
| `DateTimeFormatting.DateTimeFormatter.SetDateTimePattern` | src/scripting/flash/globalization/datetimeformatter.cpp:66-71 | the pattern is stored and the status becomes "noError"; nothing else changes |
| `DateTimeFormatting.DateTimeFormatter.Format` | src/scripting/flash/globalization/datetimeformatter.cpp:74-88 | a null date gives ""; otherwise the date is formatted with the pattern in local time, under the formatter's current locale; no field changes |
| `DateTimeFormatting.DateTimeFormatter.FormatUTC` | src/scripting/flash/globalization/datetimeformatter.cpp:90-104 | a null date gives ""; otherwise the date is formatted with the pattern in UTC, under the formatter's current locale; no field changes |
| `DateTimeFormatting.DateTimeFormatter.GetAvailableLocaleIDNames` | src/scripting/flash/globalization/datetimeformatter.cpp:106-118 | returns the manager's available keys in the table's iteration order; for a valid table, each available key exactly once and nothing else; sets status "noError" |

## Findings

| source | as written | input that shows it | evidently intended | confidence | as-written member | corrected member |
|---|---|---|---|---|---|---|
| src/scripting/flash/globalization/collator.cpp:141 | the loop guard tests the first string's iterator against the end of the second string. The second iterator is never bounded, so it is dereferenced past the end of `string2` | `equals("a", "")`: the loop reads `*string2It` at the end of "" | bound the second iterator by `string2.end()` | high (not executed) | `Collation.CompareStringsAsWritten`, `Collation.CompareStringsAsWrittenOverruns` | `Collation.Collator.CompareStrings` |
| src/backends/locale.cpp:53 | `std::locale(locale);` declares a default-constructed `std::locale` named `locale` instead of constructing one from the name, so nothing throws and line 54 returns true. The same holds at lines 66, 75 and 91 | `isLocaleAvailableOnSystem("xx")` with no locale installed returns true | construct a locale from the name, for example `std::locale{locale}`, so an unknown name throws and the next candidate is tried | high (not executed) | `Locale.IsLocaleAvailableOnSystemAsWritten`, `Locale.AsWrittenAcceptsUninstalledName` | `Locale.IsLocaleAvailableOnSystem` |
| src/backends/locale.cpp:108 | `std::locale(name);` declares a default `std::locale` named `name`, so line 109 returns the global locale's name. The same holds at lines 121, 130 and 146 | `getSystemLocaleName("en_US")` with only "en_US.UTF-8" installed and global locale "C" returns "C" | construct the locale from the name and return the accepted candidate | high (not executed) | `Locale.GetSystemLocaleNameAsWritten`, `Locale.AsWrittenNameIgnoresRequest` | `Locale.GetSystemLocaleName` |
| src/backends/locale.cpp:59 | in the handlers, the result of `find("-")` is compared with `size()` rather than `npos`. Once the statements above construct locales, a name without '-' reaches `replace` at position 2^32−1, which throws `std::out_of_range`, and no handler catches it. The `.UTF-8` branch is dead. The same comparison is at line 114. This is latent while lines 53 and 108 are declarations | with constructing statements, `isLocaleAvailableOnSystem("en_US")` with only "en_US.UTF-8" installed | compare with `npos`, and try the name plus ".UTF-8" | medium (not executed; unreachable as written) | `Locale.IsLocaleAvailableOnSystemSizeGuard`, `Locale.GetSystemLocaleNameSizeGuard`, `Locale.SizeGuardThrowsOnTableKey` | `Locale.IsLocaleAvailableOnSystem` |

## Left out

- `AsyncDrawJob` (execute, threadAbort, jobFence, upload, sizeNeeded, getTexture, uploadFence): only declarations are present, and the class exists for worker-thread and GPU-thread concurrency.
- `TextureChunk::resizeIfLargeEnough`, `makeEmpty`, the private sized constructor, the copy constructor and assignment: their bodies are not in the header, so the model does not invent them.
- `InvalidateQueue` and `SoftwareInvalidateQueue::addToInvalidateQueue`: declaration only.
- Cairo and Pango rendering (`getPixelBuffer`, `applyCairoMask`, `executeDraw`, `hitTest`, `getBounds`, `getLineData`, the bitmap conversions, `CairoRenderer` and its subclasses' constructors): these call foreign graphics libraries, and the header declares them without bodies.
- Floating-point values (`alpha`, `scaleFactor`, `number_t` metrics) are stored as bit patterns and never computed with.
- `std::locale::global` swaps around `compare` and `equals`: this is process-global state, and it is restored before the comparison runs, so the model does not keep it. In `format` and `formatUTC` the date is formatted while the swap is in force; the model passes the formatter's current locale to `Date::format` instead.
- Locale names passed on as `raw_buf()` in the two constructors, and the pattern handed to `Date::format` in `format`/`formatUTC` as `pattern.raw_buf()`, are modelled without the cut at the first NUL; they are taken to hold no NUL byte.
- `Collator::compare` and `Collator::equals` `runtime_error` handlers: nothing these methods call in the model throws `std::runtime_error`, so the "usingDefaultWarning" path there is not modelled.
- `Collator::getAvailableLocaleIDNames`: its body only logs "not implemented".
- `Collation.Collator.Construct`: rests on two things this model cannot see. It takes `tiny_string::replace` to edit its receiver, so `requestedLocaleIDName` and `actualLocaleIDName` carry the `_` in the '-' branch; tiny_string is not part of this model. It also takes each separate unpacking statement to start at the first argument, so `initialMode` and `sortingMode` are the first argument; the argument unpacker is not part of this model either.
- Argument unpacking (`ARG_UNPACK_ATOM` errors for missing arguments), getters and setters registered through `REGISTER_GETTER*`, atom conversion and `LOG` calls: these are runtime glue. The flags are plain fields of the class.
- `Collation.Collator.CompareStrings`: the `int32_t` accumulator is modelled as an unbounded integer. The count is at most the two lengths together, so it only matters for strings over 2^31 bytes.
- The destructor of `LocaleManager`, which frees the table entries: memory management.
- `LocaleItem` fields beyond language and country are kept as a list plus a flag, because locale.h, which names them, is not part of this model.
- src/plugin_ppapi/ppapi/c/ppb_audio_encoder.h: a browser-host function-pointer interface with no implementation.
