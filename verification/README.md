# Utilities of the real-estate projects API, modelled in Dafny

This project models `src/utils/utilities.ts`. It is the helper module shared by the controllers
and models of a CRUD API for real-estate development projects. It has three jobs.

- `toSnake` and `toCamel` convert the keys of a record between the API's camelCase and the
  database's snake_case. Both drop entries whose value is `undefined`.
- `throwIfValidationErrors` turns a non-empty list of request-validation errors into one
  `CustomError` with HTTP status 400. Its message is the rendered errors joined by `"; "`.
- `parseToStandardDate` normalises the date texts users type into the `YYYY-MM-DD` shape of an
  ISO 8601 calendar date, or null. Those texts are a year, a quarter, a month and year, European
  day-first dates, or `YYYY/MM/DD`. Month and day are copied, not range-checked, so `13-2024`
  becomes `2024-13-01`.

The Dafny modules follow that structure:

| module | file | role |
|---|---|---|
| `Wrappers` | wrappers.dfy | `Option` (null / value) and `Outcome` (returns / throws) |
| `Chars` | chars.dfy | the regular-expression character classes `\d`, `[A-Z]`, `[a-z]`, `\s`; `parseInt` on digit runs |
| `Strings` | strings.dfy | `String.prototype.split` and `Array.prototype.join` on a non-empty separator |
| `KeyCase` | keycase.dfy | the two key rewrites `/[A-Z]/g → _x` and `/_([a-z])/g → X` |
| `Records` | records.dfy | a JavaScript object as its entry list; `out[k] = v`; `toSnake` and `toCamel` |
| `Validation` | validation.dfy | `throwIfValidationErrors` |
| `DateForms` | dateforms.dfy | one predicate per date pattern, and the first-match-wins choice among them |
| `Quarters` | quarters.dfy | the quarter branch, as written and corrected |
| `StandardDate` | dates.dfy | `parseToStandardDate` |

A JavaScript object is modelled as the sequence of its entries in `Object.entries` order. Each
value is `Defined(v)` or `Undefined`. Assigning to an existing key overwrites that entry in place.
Assigning to a new key appends an entry, except for the key `__proto__`: on a plain object that
assignment runs the inherited `__proto__` setter and creates no entry. Reading a key that is not
an own entry gives `Undefined`.

The JavaScript `Date` parser (`new Date(text)`, then the `isNaN` test, then
`toISOString().split('T')[0]`) is a parameter `newDate: string -> Option<string>`. It is
implementation-defined and depends on the time zone. `JSON.stringify` is also a parameter. The
express-validator result is modelled as the sequence its `array()` returns.

## Model

| member | source | states |
|---|---|---|
| KeyCase.SnakeKey | src/utils/utilities.ts:7 | the snake_case key has no capital letters left and is one character longer per capital of the input |
| KeyCase.CamelKey | src/utils/utilities.ts:17 | the camelCase key is no longer than the input, contains no `_` followed by a small letter, and keeps a leading small letter; `CamelKeyUnique` fixes it on every key |
| KeyCase.SnakeKeyConcat | src/utils/utilities.ts:7 | the `/g` replacement works character by character: the snake key of a concatenation is the concatenation of the snake keys |
| KeyCase.SnakeKeyFixed | src/utils/utilities.ts:7 | `toSnake` leaves a key unchanged exactly when the key has no capital letter |
| KeyCase.CamelKeyFixed | src/utils/utilities.ts:17 | `toCamel` leaves a key unchanged exactly when it has no `_` followed by a small letter |
| KeyCase.Idempotent | src/utils/utilities.ts:7-17 | converting a key twice gives the same key as converting it once, in both directions |
| KeyCase.CamelOfSnake | src/utils/utilities.ts:7-17 | camel-casing a snake-cased key gives the original back exactly when the original has no `_` followed by a small letter |
| KeyCase.SnakeOfCamel | src/utils/utilities.ts:7-17 | snake-casing a camel-cased key gives the original back exactly when the original has no capital letter |
| KeyCase.SnakeOfCamelAll | src/utils/utilities.ts:7-17 | on every key, mixed ones like `a_bC` included, snake-casing the camelCase key gives the input's own snake_case key |
| KeyCase.SnakeKeyInjective | src/utils/utilities.ts:7 | two keys without `_` before a small letter that snake-case alike are equal |
| KeyCase.CamelKeyUnique | src/utils/utilities.ts:17 | the camelCase key is the only key without `_` before a small letter that snake-cases like the input, so `a_bC` gives `aBC` |
| KeyCase.UnderscoreFreeRoundTrip | src/utils/utilities.ts:7-17 | a key without `_` survives `toSnake` followed by `toCamel` |
| Records.Put | src/utils/utilities.ts:4-8 | `out[k] = v` on a plain object keeps the keys distinct; it adds `k`, which then reads `v`, unless `k` is a new `__proto__`, which leaves the entries unchanged; every other key reads as before; an existing key is overwritten where it stands, so every key keeps its position; a new key is appended at the end |
| Records.Rekey | src/utils/utilities.ts:3-21 | the shared loop: the result has distinct keys, only defined values and no `__proto__` entry; every defined entry's renamed key other than `__proto__` is present; every key comes from some defined entry |
| Records.RekeyGet | src/utils/utilities.ts:4-8 | a defined entry's value is read back under its new key unless a later defined entry is renamed to the same key, in which case the later entry wins; under `__proto__` nothing is stored |
| Records.RekeyInjective | src/utils/utilities.ts:3-21 | when no two defined entries are renamed to the same key, the loop renames entry by entry, keeps the order and drops only the `undefined` entries and those renamed to `__proto__` |
| Records.RekeyRenamed | src/utils/utilities.ts:3-21 | a rename followed by its inverse gives back the plain-object copy (no `undefined` entries, no `__proto__`), provided only `__proto__` itself is renamed to `__proto__` |
| Records.ToSnake | src/utils/utilities.ts:3-11 | `toSnake` returns distinct snake_case keys with defined values and no `__proto__` entry; every defined input key is present in snake_case unless its snake_case form is `__proto__` |
| Records.ToCamel | src/utils/utilities.ts:13-21 | `toCamel` returns distinct camelCase keys with defined values, and every defined input key is present in camelCase |
| Records.Renamed | src/utils/utilities.ts:5-8 | the entry-by-entry rename holds only defined values and no `__proto__` entry, each key coming from a defined input entry |
| Records.ProtoKeyMatches | src/utils/utilities.ts:17 | a camelCase key is never `__proto__`, since `_p` is rewritten away, so `toCamel` never hits the setter |
| Records.SnakeThenCamel | src/utils/utilities.ts:3-21 | `toCamel(toSnake(o))` is `o` without its `undefined` entries, provided no key of `o` has `_` followed by a small letter and none snake-cases to `__proto__` |
| Records.CamelThenSnake | src/utils/utilities.ts:3-21 | `toSnake(toCamel(o))` is `o` without its `undefined` entries and any `__proto__` entry, provided no key of `o` has a capital letter |
| Records.ToSnakeValues | src/utils/utilities.ts:3-11 | for camelCase input, every entry's value is found under its snake_case key, except that nothing is stored under `__proto__` |
| Strings.Find | src/utils/utilities.ts:68 | the leftmost occurrence of the separator, or none exactly when it does not occur |
| Strings.Split | src/utils/utilities.ts:68 | `split` gives at least one piece, no piece contains the separator, and joining the pieces gives the text back |
| Strings.Join | src/utils/utilities.ts:32 | `.join(sep)`; `SplitJoin` proves `Split` inverts it and `JoinAppend` that it distributes over concatenation |
| Strings.SplitJoin | src/utils/utilities.ts:32 | splitting a joined list at the join separator gives the list back when no piece can be confused with a separator |
| Strings.JoinAppend | src/utils/utilities.ts:32 | joining two non-empty lists is joining each and putting one separator between them |
| Strings.SemicolonSeparable | src/utils/utilities.ts:32 | a piece is separable at `"; "` exactly when it does not contain `"; "` |
| Validation.Render | src/utils/utilities.ts:29 | the template `path: msg`, then ` (received: …)` only when the value is defined; `Renders` and `ThrowIfValidationErrors` state the message built from it |
| Validation.Renders | src/utils/utilities.ts:25-30 | one rendered line per validation error |
| Validation.ThrowIfValidationErrors | src/utils/utilities.ts:23-36 | the helper throws exactly when there are errors; it throws status 400; the message starts with the first error's rendering, and is exactly that rendering for a single error |
| Validation.MessageSplits | src/utils/utilities.ts:25-34 | when no rendering contains `"; "`, splitting the thrown message at `"; "` gives every error's rendering, in order |
| Validation.MessageAppend | src/utils/utilities.ts:25-34 | the message for two error lists is the two messages joined by `"; "`; with the single-error case this fixes the message for every list |
| Chars.DigitsValue | src/utils/utilities.ts:85 | `parseInt` of a digit run, below `10` to the power of its length; `DigitsValueAppend` gives the positional law |
| Chars.IsSpace | src/utils/utilities.ts:44-57 | the characters `\s` matches: the ECMAScript white-space and line-terminator characters |
| Chars.DigitsValueAppend | src/utils/utilities.ts:85 | `parseInt` of a digit run is the value of its prefix shifted by the suffix's width, plus the suffix's value |
| DateForms.LetterRun | src/utils/utilities.ts:57 | the length of the leading `[A-Za-z]` run |
| DateForms.Landmarks | src/utils/utilities.ts:44-57 | where the quarter and month-name patterns put letters, digits and separators |
| DateForms.QuarterSeparator | src/utils/utilities.ts:44 | `\s?-?`: nothing, one white-space character, one hyphen, or white space then hyphen; `Landmarks` states where it leaves letters and digits |
| DateForms.YearThenQuarter | src/utils/utilities.ts:44 | the first alternative `\d{4}\s?-?Q[1-4]`, case-insensitive; `ClassifyExact` proves the quarter branch is taken exactly when it or `QuarterThenYear` matches |
| DateForms.QuarterThenYear | src/utils/utilities.ts:44 | the second alternative `Q[1-4]\s?-?\d{4}`, case-insensitive; `QuarterAsWrittenMisreads` shows `Q12026` is one of its texts |
| DateForms.MonthNameThenYear | src/utils/utilities.ts:57 | `[A-Za-z]{3,9}\s+\d{4}`, reading the letters as the leading letter run; `ParseDelegates` proves such a text goes to the Date parser unchanged |
| DateForms.MonthNameSlashYear | src/utils/utilities.ts:100 | `[A-Za-z]{3,9}\/\d{4}`; `ParseDelegates` proves such a text goes to the Date parser with a space for the slash |
| DateForms.Classify | src/utils/utilities.ts:39-107 | the first-match-wins if/else chain; `ClassifySound` and `ClassifyExact` prove it takes branch `f` exactly when `f`'s pattern matches |
| DateForms.ClassifySound | src/utils/utilities.ts:38-116 | the branch taken is one whose pattern matches the text |
| DateForms.ClassifyExact | src/utils/utilities.ts:38-116 | the patterns are pairwise disjoint: the function takes branch `f` exactly when `f`'s own pattern matches, whatever the order of the tests |
| DateForms.TemplateLandmarks | src/utils/utilities.ts:42-100 | a digits-first fixed template never matches the quarter or month-name patterns |
| DateForms.IsoFromFields | src/utils/utilities.ts:43-99 | four digits, two digits and two digits joined by hyphens form a text of the `YYYY-MM-DD` shape |
| Quarters.QuarterStart | src/utils/utilities.ts:50-55 | `quarterMap` on the quarter digit; `QuarterStartMonth` proves it is day 01 of month `3n - 2` |
| Quarters.QuarterStartMonth | src/utils/utilities.ts:50-55 | quarter `n` starts on day 01 of month `3n - 2` |
| Quarters.QuarterFields | src/utils/utilities.ts:44-49 | the year is four digits taken from the start or the end of the text, where the matched pattern has them; the quarter digit is the one `/Q[1-4]/i` finds, as in the code |
| Quarters.QuarterDate | src/utils/utilities.ts:44-56 | a quarter text becomes a text of the `YYYY-MM-DD` shape whose year is the first or last four characters and whose month and day are `quarterMap` of the quarter `/Q[1-4]/i` finds |
| Quarters.FirstQuarterMatched | src/utils/utilities.ts:44-47 | in a text the quarter pattern matched, `/Q[1-4]/i` finds the token the pattern matched: the last two characters when the year comes first, the first two otherwise |
| Quarters.FirstFourDigits | src/utils/utilities.ts:46 | `/\d{4}/` finds the leftmost run of four digits, or none |
| Quarters.FirstQuarter | src/utils/utilities.ts:47 | `/Q[1-4]/i` finds the leftmost `Q` or `q` followed by 1 to 4, or none |
| Quarters.QuarterDateAsWritten | src/utils/utilities.ts:44-56 | the quarter branch as written always yields a text of the `YYYY-MM-DD` shape |
| Quarters.QuarterDateFrom | src/utils/utilities.ts:48-56 | the template `${year}-${quarterMap[quarter]}` on the four digits and quarter token found, always in the `YYYY-MM-DD` shape |
| Quarters.QuarterAsWrittenUnseparated | src/utils/utilities.ts:44-56 | for `Qn` directly followed by a year, the branch as written takes the four digits starting at the quarter digit as the year |
| Quarters.QuarterAsWrittenAgrees | src/utils/utilities.ts:44-56 | the branch as written and the corrected one agree on every quarter text except `Q` digit directly followed by the year |
| Quarters.QuarterAsWrittenMisreads | src/utils/utilities.ts:44-48 | `Q12026` matches the quarter pattern; as written it becomes `1202-01-01` where `2026-01-01` is meant |
| StandardDate.YearDate | src/utils/utilities.ts:42-43 | `YYYY` becomes 1 January of that year, in the `YYYY-MM-DD` shape |
| StandardDate.YearMonthDate | src/utils/utilities.ts:63-65 | `YYYY-MM` becomes day 01 of that month, in the `YYYY-MM-DD` shape; the month is not range-checked |
| StandardDate.FullYear | src/utils/utilities.ts:85 | the widened year has four digits and ends in the two given ones |
| StandardDate.TwoDigitYearWindow | src/utils/utilities.ts:85 | a two-digit year names the one year from 1951 to 2050 that ends in those digits |
| StandardDate.MonthYearDate | src/utils/utilities.ts:66-95 | splitting `MM-YYYY` or `MM/YYYY` and reordering gives year, month and day 01, in the `YYYY-MM-DD` shape; the month is not range-checked |
| StandardDate.DayMonthYearDate | src/utils/utilities.ts:70-81 | splitting a `DD?MM?YYYY` date and reordering gives year, month and day, in the `YYYY-MM-DD` shape; month and day are not range-checked |
| StandardDate.DayMonthYearFields | src/utils/utilities.ts:72-80 | a `DD?MM?YYYY` text splits at its separator into exactly the day, month and year fields |
| StandardDate.DayMonthShortYearDate | src/utils/utilities.ts:82-91 | a `DD?MM?YY` date becomes the widened year, the month and the day, in the `YYYY-MM-DD` shape; month and day are not range-checked |
| StandardDate.YearMonthDayDate | src/utils/utilities.ts:96-99 | `YYYY/MM/DD` keeps its fields and order, with hyphens for slashes |
| StandardDate.MonthNameSlashText | src/utils/utilities.ts:100-103 | `Sep/2025` is handed to the Date parser as `Sep 2025` |
| StandardDate.SplitThree | src/utils/utilities.ts:72 | a text with the separator at exactly two places splits into the three fields between them |
| StandardDate.ParseToStandardDate | src/utils/utilities.ts:38-116 | null and the empty text give null; every branch not handed to the Date parser yields a text of the `YYYY-MM-DD` shape |
| StandardDate.ParseYearForms | src/utils/utilities.ts:42-65 | `YYYY` gives `YYYY-01-01` and `YYYY-MM` gives `YYYY-MM-01` |
| StandardDate.ParseQuarter | src/utils/utilities.ts:44-56 | a quarter text gives the first day of the quarter; the year is the one the text names when the year comes first or a separator follows `Qn`, and otherwise the four digits starting at the quarter digit |
| StandardDate.ParseMonthYear | src/utils/utilities.ts:66-95 | `MM-YYYY` and `MM/YYYY` give `YYYY-MM-01` |
| StandardDate.ParseDayMonthYear | src/utils/utilities.ts:70-81 | `DD-MM-YYYY`, `DD/MM/YYYY` and `DD.MM.YYYY` give `YYYY-MM-DD` |
| StandardDate.ParseDayMonthShortYear | src/utils/utilities.ts:82-91 | `DD/MM/YY` and `DD.MM.YY` give the widened year, then `-MM-DD` |
| StandardDate.ParseYearMonthDay | src/utils/utilities.ts:96-99 | `YYYY/MM/DD` gives `YYYY-MM-DD` |
| StandardDate.ParseDelegates | src/utils/utilities.ts:57-113 | month-name texts and every unrecognised non-empty text get the Date parser's answer; `Sep/2025` is passed as `Sep 2025` |
| StandardDate.ReparseNormalised | src/utils/utilities.ts:107-113 | a `YYYY-MM-DD` result matches none of the patterns, so parsing it again gives whatever the Date parser makes of it |

## Left out

- The Date-parser branches (lines 57-62, 100-106 and 107-113) are modelled only up to the parser.
  `new Date`, `getTime`, `isNaN` and `toISOString` are one opaque parameter. Their results depend
  on the JavaScript engine and the time zone.
- `JSON.stringify` is a parameter. Its output is not modelled.
- The `.filter((msg) => msg !== undefined)` step of `throwIfValidationErrors` is left out. Every
  rendered message is a template string, so the filter never removes anything.
- An error with no `path` property would render as `undefined: …`. The model takes `path` as a
  string.
- `Object.entries` lists integer-like keys (`"0"`, `"1"`, …) first, in numeric order. The model
  keeps every key in insertion order.
- Characters are Unicode scalar values, where JavaScript strings hold UTF-16 code units. Every
  pattern here is built from ASCII classes and `\s`, and no character of those classes lies
  outside the Basic Multilingual Plane, so the difference changes no branch.
- Nothing else in the repository is modelled. The models, controllers, routes, authentication,
  SQL queries and tests do database and HTTP I/O. They are outside this model, and so is the
  find-or-create cascade that calls these helpers.
- Records.Put: the `__proto__` setter's own effect, replacing the prototype when the value is an
  object or `null`, is not modelled. It adds no entry, but after it a later `__proto__`
  assignment can create an entry. That happens when the new prototype is `null` or has its own
  `__proto__` property. The model keeps the ordinary prototype throughout.
- Records.ToSnake: for the same reason, a second key that snake-cases to `__proto__` after a
  first one with an object or `null` value is not modelled. An example is `__proto__` followed by
  `_Proto__`.
- StandardDate.ParseToStandardDate: its contract does not state the date that the Date-parser
  branches produce, because that parser is a parameter.

## Findings

| source | as written | input that shows it | evidently intended | confidence | as-written member | corrected member |
|---|---|---|---|---|---|---|
| src/utils/utilities.ts:44-48 | the quarter pattern accepts `Q` + digit + year with no separator, and the year is then taken as the first run of four digits anywhere in the text | `Q12026` gives `1202-01-01` | `2026-01-01`: the year the pattern matched | high, not executed | Quarters.QuarterDateAsWritten, Quarters.QuarterAsWrittenMisreads | Quarters.QuarterDate |

`StandardDate.ParseToStandardDate` runs the quarter branch as written, and
`StandardDate.ParseQuarter` states its result for both kinds of quarter text. The corrected
`Quarters.QuarterDate` takes the year from the position the matched pattern gives it.
`Quarters.QuarterAsWrittenAgrees` proves that the two versions agree whenever the year comes first
or a separator follows `Qn`. `Quarters.QuarterAsWrittenUnseparated` gives the as-written year for
the remaining shape.
