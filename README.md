# Translate: a verified model of the locale resolver

This project models the PHP class `Translate`, a small message-translation
helper. The class keeps two kinds of state:

- a translation table keyed by locale, where each entry is an array of
  messages or the path of a file that returns one;
- an active locale and its content, which `translate()` answers from.

The heart of the class is `setLocale`. Its behaviour depends on the mode:

- **Explicit mode.** A concrete locale is activated when it is available.
  Asking for `"auto"` falls back to the last concrete locale that was asked
  for. That locale is kept in the buffer `_bufLocale`.
- **Automatic mode.** Every call runs a round over the languages of the
  Accept-Language header. Each language is tried as a *probe* while the
  function-level static flag `$automaticMode` is set. The first probe that
  succeeds ends the round. Otherwise a final attempt is made with the
  requested locale, and its result is discarded.

The model has four modules:

- `Wrappers` (`wrappers.dfy`): the `Option` type.
- `Locales` (`locales.dfy`): the string functions PHP provides. It has
  `trim`, ASCII `strtolower`, `explode`, `substr(s, 0, 2)`, and
  `array_unique` followed by `array_values`. It also parses the
  Accept-Language header into its candidate languages.
- `Translation` (`translation.dfy`) holds three things:
  - the values and the object state;
  - the pure specification of `setLocale` (`SetLocaleSpec`, with `Conclude`
    and `ProbeCandidates`) and of the constructor, over a snapshot `State`
    of the object's fields;
  - the class `Translator`, with those fields. Each method of the class is
    proved to compute exactly its specification function.
- `TranslationProperties` (`properties.dfy`): lemmas about the
  specification. They cover every mode of `setLocale`, the automatic round,
  construction, and lookup after a successful `setLocale`.

Outside the object, the model uses an `Environment` value:

- The optional Accept-Language header.
- A file system, `files: map<string, Value>`. A path exists when it is a
  key, and `require`-ing it yields the stored value.
- `realpath` is the identity.

A load error (`_loadTranslationData` throwing) is the status `LoadFailed`. It
propagates through every enclosing call. The fields keep what was assigned
before the throw, as in the source: the new `_locale`, a null `_content`,
and a `$automaticMode` flag that stays set when the error happens inside a
round.

The class is named `Translator` so that it does not clash with its method
`Translate`. PHP's `_` method is `Underscore`. `setLocale` is written as
three methods:

- `SetLocale` covers lines 184-191.
- `ApplyLocale` covers lines 192-217.
- `AutomaticRound` covers lines 200-215.

Together they mirror the three specification functions.

One observation about `_getBrowserLanguages`: its filter for `'auto'`
(line 272) can never fire, because each code is cut to two characters first.
The lemma `Locales.AutoFilterNeverFires` proves this.

## Model

| member | source | states |
|---|---|---|
| Locales.TrimLeft | Translate.php:184 | the result does not start with a blank and is no longer than the input |
| Locales.TrimLeftRemovesBlanks | Translate.php:184 | the left trim removes a prefix made only of blanks and keeps the rest as it is |
| Locales.TrimRight | Translate.php:184 | the result does not end with a blank and starts with the input's first character |
| Locales.TrimRightRemovesBlanks | Translate.php:184 | the right trim removes a suffix made only of blanks and keeps the rest as it is |
| Locales.Trim | Translate.php:184 | neither end of a trimmed string is a blank |
| Locales.TrimRemovesBlanks | Translate.php:184 | `trim` keeps a contiguous slice of the input and removes only blanks on either side of it |
| Locales.LowerChar | Translate.php:184 | ASCII `strtolower` on a character: the result is never an upper-case letter, and differs from the input only for an upper-case letter, which becomes a lower-case one |
| Locales.Lower | Translate.php:184 | `strtolower` keeps the length of the string |
| Locales.LowerLeavesNoUpperCase | Translate.php:184 | `strtolower` leaves no upper-case letter, and lowering a lowered string changes nothing |
| Locales.Normalize | Translate.php:184 | the locale normal form `strtolower(trim(s))` is never longer than its input |
| Locales.NormalizeIdempotent | Translate.php:104 | normalising a normalised locale changes nothing, so a key stored by `addTranslation` is found again by `isAvailable` and `setLocale` |
| Locales.Split | Translate.php:263 | `explode` returns at least one piece and no piece contains the separator |
| Locales.SplitJoin | Translate.php:263 | joining the pieces of `explode` with the separator gives back the input |
| Locales.Prefix | Translate.php:271 | `substr(s, 0, n)` is the prefix of `s` of length `n`, or all of `s` when `s` is shorter |
| Locales.Code | Translate.php:269-271 | the code of a header entry has at most two characters and contains no `;` |
| Locales.Tags | Translate.php:267-274 | the parsing loop leaves one slot per header entry |
| Locales.Values | Translate.php:276 | `array_values` is never longer than its input |
| Locales.ValuesArePresent | Translate.php:276 | a value is in the result of `array_values` exactly when some slot holds it |
| Locales.ValuesInOrder | Translate.php:276 | `array_values` keeps the present values in slot order: a slot's value follows the values of the slots before it |
| Locales.AutoFilterNeverFires | Translate.php:272-273 | the `'auto'` filter never removes a slot, so the values are exactly the codes of all entries |
| Locales.CodesAreShort | Translate.php:271-273 | every code has at most two characters and is never `'auto'` |
| Locales.IndexOf | Translate.php:276 | the first position at which a value occurs |
| Locales.Distinct | Translate.php:276 | `array_unique` keeps the same set of values, with no duplicates, each at its first occurrence and in the input's order |
| Locales.DistinctStep | Translate.php:276 | the last value is kept exactly when it is new, and all three properties of `Distinct` carry over |
| Locales.BrowserLanguages | Translate.php:256-277 | no header gives no candidates; the candidates have at most two characters, none is `'auto'` and none repeats |
| Locales.CandidatesAreShort | Translate.php:263-276 | every candidate has at most two characters |
| Locales.BrowserLanguagesOrder | Translate.php:263-276 | the candidates are exactly the entries' codes, ordered by where each code first occurs in the header |
| Locales.CandidateIsConcrete | Translate.php:192 | no candidate normalises to `'auto'`, so a probe never skips a candidate for being `'auto'` |
| Translation.Added | Translate.php:100-113 | with both keys, the table gains or replaces exactly the normalised locale's entry and keeps all others; otherwise it is unchanged |
| Translation.LoadData | Translate.php:285-310 | a set array entry is used as is; a set string entry is read as an array file; an unset locale reads its default file; anything else is the load error |
| Translation.Activate | Translate.php:193-195 | activation changes only the locale and the content |
| Translation.SetLocaleSpec | Translate.php:181-218 | the mode and the table never change; the buffer holds the normalised concrete request unless called as a probe; the flag is unchanged, except after a round, where it is set only after a load error |
| Translation.Conclude | Translate.php:192-217 | the same frame as `SetLocaleSpec`, with the buffer unchanged |
| Translation.ProbeCandidates | Translate.php:200-215 | a round keeps the mode, table and buffer, and leaves the flag set exactly when it ends in a load error |
| Translation.Construction | Translate.php:71-89 | the constructor's table is the added translation; the mode is explicit exactly when the option `automatic` is `false` |
| Translation.Translator.constructor | Translate.php:39-63 | the fields start with their declared initial values |
| Translation.Translator.New | Translate.php:71-89 | the new object's fields and error are those of `Construction` |
| Translation.Translator.AddTranslation | Translate.php:100-113 | returns true exactly when `content` and `locale` are both given; the table becomes `Added(old table, options)` |
| Translation.Translator.GetList | Translate.php:120-131 | null exactly when every entry is empty; otherwise the keys are the locales with non-empty entries, each mapped to itself |
| Translation.Translator.GetLocale | Translate.php:138-140 | returns the active locale |
| Translation.Translator.IsAvailable | Translate.php:148-159 | true exactly when the normalised locale has a set table entry or its default file exists |
| Translation.Translator.SetAutomatic | Translate.php:167-173 | the new state and error are those of `setLocale('auto')` run in the new mode |
| Translation.Translator.SetLocale | Translate.php:181-218 | the status and new state are exactly `SetLocaleSpec` of the old state |
| Translation.Translator.ApplyLocale | Translate.php:192-217 | the status and new state are exactly `Conclude` of the old state |
| Translation.Translator.AutomaticRound | Translate.php:200-215 | the status and new state are exactly `ProbeCandidates` over the browser languages |
| Translation.Translator.Translate | Translate.php:226-238 | the active content's text for a known key, otherwise the key itself |
| Translation.Translator.Underscore | Translate.php:246-248 | the same answer as `translate` |
| Translation.Translator.GetBrowserLanguages | Translate.php:256-277 | the parsing loop computes `BrowserLanguages` of the header |
| Translation.Translator.LoadTranslationData | Translate.php:285-310 | returns `LoadData` of the table; the content becomes the loaded messages, or null on the load error |
| TranslationProperties.SetLocaleSettles | Translate.php:181-218 | on every path, the locale only moves to an available locale; a load error leaves null content; success leaves exactly the active locale's data as the content |
| TranslationProperties.ConcludeSettles | Translate.php:192-217 | the same guarantee for the part after the buffer handling |
| TranslationProperties.ProbeSettles | Translate.php:200-215 | the same guarantee for the automatic round |
| TranslationProperties.ExplicitRequest | Translate.php:186-196 | explicit mode, concrete locale: it is buffered (outside a probe); it is activated exactly when available, with success or the load error decided by its data; otherwise nothing else changes |
| TranslationProperties.BufferedFallback | Translate.php:189-190 | explicit mode, `'auto'` with a buffered locale: the buffered locale is activated again when available, but the call never reports success |
| TranslationProperties.AutoWithoutBuffer | Translate.php:189-198 | explicit mode, `'auto'`, nothing buffered: false and no change |
| TranslationProperties.ProbeCall | Translate.php:192-198 | a probe either activates its locale or returns false and changes nothing |
| TranslationProperties.AutomaticRequest | Translate.php:192-201 | outside a probe, automatic mode always runs the round, even for an available concrete request |
| TranslationProperties.FirstActivatableCandidateWins | Translate.php:203-209 | the first candidate that is concrete and available becomes the active locale; the buffer is kept; the flag is cleared unless its data fails to load |
| TranslationProperties.ProbeWins | Translate.php:204-208 | a round whose first candidate is activatable ends with that candidate |
| TranslationProperties.ProbeSkips | Translate.php:203-205 | a candidate that cannot be activated is skipped without any change but the flag |
| TranslationProperties.NoActivatableCandidate | Translate.php:211-214 | with no activatable candidate, the final attempt may switch to the requested locale, yet the call reports false; this is the code as written when the round has at least one candidate, and the corrected round (see Findings) when it has none |
| TranslationProperties.ProbeSuccessIsCandidate | Translate.php:203-215 | a round reports success only with the locale set to one of its candidates |
| TranslationProperties.AutomaticSuccessIsBrowserLanguage | Translate.php:200-215 | in automatic mode, a successful call always ends on a browser language, whatever was requested |
| TranslationProperties.NoBrowserLanguages | Translate.php:200-214 | corrected round (see Findings): without browser languages, automatic mode activates the requested locale when it can and never reports success |
| TranslationProperties.SetLocaleAsWritten | Translate.php:181-218 | `setLocale` as written, with at most `fuel` nested calls and `None` past that depth; when it returns, the mode and the table are unchanged |
| TranslationProperties.ConcludeAsWritten | Translate.php:192-217 | the part after the buffer handling as written; when it returns, the mode and the table are unchanged |
| TranslationProperties.RoundAsWritten | Translate.php:200-215 | the round as written, whose final call runs with the flag as the loop left it; when it returns, the mode and the table are unchanged |
| TranslationProperties.NoCandidatesNeverEndAsWritten | Translate.php:181-214 | as written, automatic mode outside a probe with no browser languages returns at no recursion depth: the final call at line 212 restarts the same call |
| TranslationProperties.SetLocaleAgreesAsWritten | Translate.php:181-218 | in explicit mode, inside a probe, or with browser languages, the code as written returns at bounded depth with exactly the corrected outcome |
| TranslationProperties.ConcludeAgreesAsWritten | Translate.php:192-217 | the same agreement for the part after the buffer handling |
| TranslationProperties.RoundAgreesAsWritten | Translate.php:200-215 | the same agreement for the round when it has a candidate or already runs with the flag set |
| TranslationProperties.AddedLocaleIsAvailable | Translate.php:100-159 | a locale just added with non-null content is available, and array content is exactly what loading it yields |
| TranslationProperties.ExplicitConstruction | Translate.php:71-89 | constructing with content `m`, locale `L` and `automatic` false activates `L` with `m`, buffers it, and reports success |
| TranslationProperties.DefaultConstructionWithoutHeader | Translate.php:71-89 | corrected round (see Findings): constructing with no options and no Accept-Language header ends in the initial state |
| TranslationProperties.TranslateAfterSuccess | Translate.php:192-238 | after a successful `setLocale`, `translate` answers from the active locale's data, falling back to the message itself |

## Findings

| source | as written | input that shows it | evidently intended | confidence | as-written member | corrected member |
|---|---|---|---|---|---|---|
| Translate.php:200-214 | with no browser language, the loop never sets `$automaticMode`, so the final `setLocale($locale)` runs from the same state as the call it is in and recurses without bound | automatic mode (the default) with no `HTTP_ACCEPT_LANGUAGE`, e.g. `new Translate()` | the final attempt runs as a probe with `$automaticMode` set, as it already does when there are candidates | high, not executed | TranslationProperties.NoCandidatesNeverEndAsWritten | Translation.ProbeCandidates |

The code as written is `TranslationProperties.SetLocaleAsWritten`, with
`ConcludeAsWritten` and `RoundAsWritten`. It has a bound on the depth of
recursion and gives `None` past it; its round makes the final call with the
flag as the loop left it. `NoCandidatesNeverEndAsWritten` proves that no
depth suffices in automatic mode outside a probe when the header yields no
language. `SetLocaleAgreesAsWritten` proves that in every other case the code
as written ends with exactly the corrected outcome, because there the flag is
already set when the final attempt starts. The class method `AutomaticRound`
follows the corrected definition.
`TranslationProperties.NoBrowserLanguages` and
`TranslationProperties.DefaultConstructionWithoutHeader` state what the
corrected round does without candidates; the code as written does not return
there.

## Left out

- File I/O: `realpath`, `file_exists`, `require` and the output buffering
  around it become lookups in the `files` map. Code executed by a required
  file is not modelled, beyond the value it returns.
- `$_SERVER['HTTP_ACCEPT_LANGUAGE']` is the `header` parameter of the object;
  the request is not modelled.
- PHP's dynamic typing: non-array `$options`, a non-boolean `automatic`
  option (which `setAutomatic` ignores), a non-string message in
  `translate`, and table values other than arrays, strings and null.
- Translation.Added: does not model `array_merge` renumbering locale keys
  that look like integers; every key is kept as the string it is.
- Translation.Translator.GetList: the result is a map, so it does not state
  the key order of the PHP array.
- Locales.Prefix: works on characters, while PHP's `substr` counts bytes.
- Locales.Lower: `strtolower` is modelled on ASCII letters only; other
  characters are kept as they are.
- Default arguments (`'auto'` for `setLocale`, `''` for `translate`, an
  empty array for the constructor) are passed explicitly.
- The exception's message text: a load error is only the status `LoadFailed`.
- Sharing of the static `$automaticMode` flag across instances: each object
  keeps its own flag, which only matters when several objects are in use.
