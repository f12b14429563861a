# Country calling code lookup, modelled in Dafny

The service resolves a phone number to the country or countries whose
calling code is the longest stored prefix of the number. It builds its table
of codes by reading a listing of countries and code cells.

The model covers four pieces:

- **Parsing one row** (`CountryCodeParser.ParseElement`). A code cell has one
  of three shapes:
  - `44 (1481, 1534)`: a base and parenthesised suffixes. The base text and
    each suffix text are concatenated, then parsed.
  - `1, 225`: a bare comma-separated list. Each field is parsed on its own.
  - `7`: a single integer.

  Java's `String.trim`, `String.indexOf`, `String.split(",")` and
  `Integer.parseInt` are modelled explicitly in module `Strings`, including
  the 32-bit range check of `parseInt` and the way `split` drops trailing
  empty fields.
- **Building the registry** (`CountryCodeParser.Build`, `CountryCodeParser.Parse`).
  - Rows with fewer than two cells are skipped.
  - Every other row is parsed, and the per-row sets are unioned.
  - A row that throws aborts the whole ingestion, so the stored table stays
    as it was.
- **The store** (`CountryCodePersistence`).
  - `FindByCode` reads the `DENSE_RANK() ... WHERE rank = 1` query as a set
    expression: of the stored rows whose code is a candidate, those carrying
    the largest such code.
  - `AddCountryCodes` is the truncate-then-insert replace-all.
- **Resolution** (`CountryCodeService.ProcessPhoneNumber`).
  - Blank input is an illegal argument.
  - Otherwise the non-digits are removed and at most `2 + 5` leading digits
    are kept.
  - The candidate codes are every positive prefix value, longest prefix
    first.
  - The lookup returns the records of the winning code, or not-found when
    nothing matches.

The main results:

- Parsing the rendered text of any well-formed code expression gives back
  exactly the records the expression stands for (`CountryCodeParser.ParseRendered`).
- The registry does not depend on the order of rows or on repeated rows.
- The largest stored candidate is the value of the longest stored digit
  prefix. So resolution returns exactly the records of the longest matching
  code (`CountryCodeService.ResolveLongestPrefix`).
- Not-found happens exactly when no positive prefix value of the truncated
  digits is a stored code.

Failures are values: `Result` and `Option` are in `Wrappers.dfy`.

Some behaviours of the code differ from what a reader of the service might
expect. The model follows the code:

- A non-blank number without digits gets not-found, not an illegal-argument
  error (`CountryCodeService.NoDigitsIsNotFound`).
- The cell `1 242`, with a space and no parentheses, is not a number and fails
  the row (`CountryCodeExamples.SpacedCodeFails`). Only `1 (242)` gives 1242.
- A malformed token aborts the whole ingestion instead of skipping the row.
- The replace-all is a truncate followed by independent inserts, not an
  atomic swap. The model states only the final contents.

## Model

| member | source | states |
|---|---|---|
| CountryCodeParser.ParseElement | src/main/java/com/rustam/ccc/service/CountryCodeParser.java:75-96 | The records all carry the trimmed first cell as their country. The branch is chosen by the raw second cell: a `(` selects the extension reading even if commas are present (and the `(` survives trimming); otherwise a comma selects the list reading; otherwise the cell is one integer. Each reading is applied to the trimmed cell. |
| CountryCodeParser.ParseExtension | src/main/java/com/rustam/ccc/service/CountryCodeParser.java:81-88 | When the substring between the brackets cannot be taken (no `)`, or the first `)` comes before the first `(`), the row fails with an index-out-of-bounds error. Otherwise the row succeeds iff every base-plus-suffix token parses, and the records are exactly one per token, carrying that token's parsed value. |
| CountryCodeParser.ExtensionTokens | src/main/java/com/rustam/ccc/service/CountryCodeParser.java:82-87 | The substring fails exactly when there is no `)`, or the first `)` comes before the first `(`. Otherwise there is one token per comma field between them, and each token is the trimmed base text followed by the trimmed field. |
| CountryCodeParser.ParseList | src/main/java/com/rustam/ccc/service/CountryCodeParser.java:89-92 | The row succeeds iff every trimmed comma field parses. The records are exactly the parsed field values, each taken alone with no base prefix. |
| CountryCodeParser.ParseSimple | src/main/java/com/rustam/ccc/service/CountryCodeParser.java:95 | Exactly one record, carrying the parse of the whole cell. If the parse fails, the failure names the cell. |
| CountryCodeParser.ParseAll | src/main/java/com/rustam/ccc/service/CountryCodeParser.java:86-87 | Succeeds iff every token parses, giving the values position by position. A failure names the first token that does not parse, and every earlier token parses. |
| CountryCodeParser.Records | src/main/java/com/rustam/ccc/service/CountryCodeParser.java:90-92 | One record per parsed token, all for the row's country; duplicate codes collapse into one record. |
| CountryCodeParser.ListTokensOfRender | src/main/java/com/rustam/ccc/service/CountryCodeParser.java:90-91 | Splitting the `a, b, c` rendering of non-empty digit tokens on commas and trimming each field gives back exactly the tokens, in order. |
| CountryCodeParser.Union | src/main/java/com/rustam/ccc/service/CountryCodeParser.java:66-68 | Succeeds iff every row's outcome does; the result is the union of the row sets. Otherwise it is the error of the first failing row. |
| CountryCodeParser.UnionIgnoresOrderAndRepetition | src/main/java/com/rustam/ccc/service/CountryCodeParser.java:67-68 | Two lists of per-row outcomes that hold the same outcomes, in any order and with any repetition, both succeed or both fail, and on success yield the same set: the flattening into a HashSet is commutative and idempotent. |
| CountryCodeParser.Build | src/main/java/com/rustam/ccc/service/CountryCodeParser.java:61-68 | Rows with fewer than two cells contribute nothing. The build succeeds iff every other row parses; a record is in the registry iff some row yields it. A failure is the error of the first failing row. |
| CountryCodeParser.BuildIgnoresOrderAndRepetition | src/main/java/com/rustam/ccc/service/CountryCodeParser.java:61-68 | Two row sequences holding the same rows, in any order and with any repetition, both succeed or both fail, and yield the same registry. |
| CountryCodeParser.Parse | src/main/java/com/rustam/ccc/service/CountryCodeParser.java:61-71 | A failing build leaves the stored table unchanged and reports the first row error. Otherwise the table holds exactly the records the rows yield. |
| CountryCodeParser.ParseRendered | src/main/java/com/rustam/ccc/service/CountryCodeParser.java:75-96 | Round trip: for every well-formed expression (single code, base with suffixes, bare list), parsing its cell text gives exactly the records it stands for. Extension codes are the base digits followed by the suffix digits. |
| CountryCodeParser.SplitSpaced | src/main/java/com/rustam/ccc/service/CountryCodeParser.java:90 | Splitting the `a, b, c` rendering of digit tokens on commas recovers the spaced tokens. The rendering holds no parenthesis, and it holds a comma when there are two or more tokens. |
| CountryCodeService.ProcessPhoneNumber | src/main/java/com/rustam/ccc/service/CountryCodeService.java:35-44 | The result is the illegal-argument failure exactly when the input is blank. A success is never empty. Every returned record is stored and carries the value of some prefix of the truncated digits. |
| CountryCodeService.SearchDigits | src/main/java/com/rustam/ccc/service/CountryCodeService.java:40-41 | The digits kept are a prefix of the number's digits. There are at most LONGEST_CODE_LENGTH of them, and fewer only when the number has fewer digits. |
| CountryCodeService.GetSearchCodes | src/main/java/com/rustam/ccc/service/CountryCodeService.java:50-65 | The loop, which drops the last character until the string is empty, collects exactly the candidate list. Every candidate is positive, and there are no more of them than characters. |
| CountryCodeService.PrefixCodesMembers | src/main/java/com/rustam/ccc/service/CountryCodeService.java:53-62 | A value is a candidate iff some non-empty prefix parses to it and it is positive. Prefixes that do not parse are skipped, not errors. |
| CountryCodeService.DigitPrefixMembers | src/main/java/com/rustam/ccc/service/CountryCodeService.java:53-62 | For a string of at most nine digits, the candidates are exactly the positive decimal values of its prefixes. |
| CountryCodeService.DigitPrefixDecreasing | src/main/java/com/rustam/ccc/service/CountryCodeService.java:50-65 | For a digit string, the candidates strictly decrease, the longest prefix first, and none exceeds the value of the whole string. |
| CountryCodeService.LongestPrefixWins | src/main/java/com/rustam/ccc/persistence/CountryCodePersistence.java:50-60 | Suppose prefix `k` of the digits is a stored code and no longer prefix is. Then the lookup over the candidates returns exactly the stored records with that code: the largest stored candidate is the longest stored prefix. |
| CountryCodeService.ResolveLongestPrefix | src/main/java/com/rustam/ccc/service/CountryCodeService.java:35-44 | End to end: for a non-blank number, when prefix `k` of its truncated digits is the longest stored one, the result is exactly the records with that prefix's value. |
| CountryCodeService.EmptyLookupIffNoStoredPrefix | src/main/java/com/rustam/ccc/service/CountryCodeService.java:42 | The lookup over a digit string's candidates is empty iff no positive prefix value is a stored code. |
| CountryCodeService.ResolveNotFound | src/main/java/com/rustam/ccc/service/CountryCodeService.java:42-43 | For non-blank input, the result is not-found exactly when no positive prefix of the truncated digits is stored. |
| CountryCodeService.NoDigitsIsNotFound | src/main/java/com/rustam/ccc/service/CountryCodeService.java:37-43 | Non-blank input with no digits yields no candidates and therefore not-found, never the illegal-argument failure. |
| CountryCodeService.SaveToDb | src/main/java/com/rustam/ccc/service/CountryCodeService.java:26-28 | Saving, run to completion, leaves the table holding exactly the given records. |
| CountryCodePersistence.FindByCode | src/main/java/com/rustam/ccc/persistence/CountryCodePersistence.java:44-68 | An empty candidate list returns nothing. A row is returned iff it is stored, carries a candidate code, and no stored candidate code is larger. All returned rows share one code. The result is empty iff no candidate is stored. |
| CountryCodePersistence.RankOneIsMaximal | src/main/java/com/rustam/ccc/persistence/CountryCodePersistence.java:56-60 | A row has dense rank 1 under descending code order iff no row carries a larger code. |
| CountryCodePersistence.RankOneRows | src/main/java/com/rustam/ccc/persistence/CountryCodePersistence.java:56-60 | The rank-1 rows are exactly the rows carrying the largest code, and a non-empty set of rows always has some. |
| CountryCodePersistence.AllHoldersReturned | src/main/java/com/rustam/ccc/persistence/CountryCodePersistence.java:53-60 | Every stored record holding the winning code is returned, so a code shared by several countries yields all of them. |
| CountryCodePersistence.AddCountryCodes | src/main/java/com/rustam/ccc/persistence/CountryCodePersistence.java:29-42 | After the truncate and one insert per record, the table holds exactly the given records. Nothing of the prior contents remains. |
| Strings.ParseInt | src/main/java/com/rustam/ccc/service/CountryCodeParser.java:95 | Integer.parseInt: a string parses iff it is a non-empty run of digits, or a `+` or `-` followed by a non-empty run of digits, and the signed value lies in the 32-bit range. An unsigned or `+` string parses to its decimal value, a `-` string to the negated value. Anything else, the empty string included, does not parse. |
| Strings.ParseShortDigits | src/main/java/com/rustam/ccc/service/CountryCodeService.java:55 | Every non-empty digit string of at most nine digits parses to its decimal value. |
| Strings.Trim | src/main/java/com/rustam/ccc/service/CountryCodeParser.java:77-78 | String.trim: the result is no longer than the input, and neither of its ends is a character at or below U+0020. |
| Strings.TrimIsSlice | src/main/java/com/rustam/ccc/service/CountryCodeParser.java:77-78 | The trimmed text is a contiguous slice of the input, and every character outside the slice, before it or after it, is at or below U+0020. With the ends of the result above U+0020, this fixes the result: exactly the leading and trailing run of such characters is removed. |
| Strings.TrimKeeps | src/main/java/com/rustam/ccc/service/CountryCodeParser.java:81 | A visible character such as `(` or `,` occurs in the raw cell iff it occurs in the trimmed cell. So the raw-text test on line 81 and the trimmed-text test on line 89 agree. |
| Strings.IndexOf | src/main/java/com/rustam/ccc/service/CountryCodeParser.java:82-83 | String.indexOf: the result is -1 iff the character is absent. Otherwise it is a position holding the character, with no earlier occurrence. |
| Strings.Split | src/main/java/com/rustam/ccc/service/CountryCodeParser.java:90 | String.split on one character: a string without the separator is its own single field, and no field contains the separator. When the separator occurs, the last field is non-empty, and joining the fields plus some number of empty fields with the separator gives back the input: only trailing empty fields are dropped. |
| Strings.SplitOfJoin | src/main/java/com/rustam/ccc/service/CountryCodeParser.java:86 | Splitting a join of separator-free fields whose last field is non-empty gives back the fields. |
| Strings.DigitsOnly | src/main/java/com/rustam/ccc/service/CountryCodeService.java:40 | replaceAll("\\D", ""): the result is all digits, no longer than the input, and holds exactly the digit characters that occur in the input. |
| Strings.DigitsOnlyAppend | src/main/java/com/rustam/ccc/service/CountryCodeService.java:40 | Removing non-digits from a concatenation gives the concatenation of the two filtered parts. With `DigitsOnlyChar` (one character is kept iff it is a digit) this fixes the result: the digits of the input, in order and with their repetitions. |
| Strings.DigitsOnlyOfDigits | src/main/java/com/rustam/ccc/service/CountryCodeService.java:40 | Removing non-digits from a digit string leaves it unchanged. |
| Strings.ValueAppend | src/main/java/com/rustam/ccc/service/CountryCodeParser.java:87 | The value of the concatenation of two digit strings is the first value shifted left by the second string's length, plus the second value. Concatenation is not addition. |
| Strings.PrefixValueGrows | src/main/java/com/rustam/ccc/persistence/CountryCodePersistence.java:50-51 | A longer prefix of a digit string never has a smaller value, and a strictly larger one once the shorter value is positive. This is why "largest" means "longest". |
| CountryCodeExamples.LongerStoredCodeWins | src/main/java/com/rustam/ccc/persistence/CountryCodePersistence.java:53-60 | Russia (7) and Kazakhstan (77) are stored. The candidates of a Kazakh number select Kazakhstan alone. |
| CountryCodeExamples.KazakhNumberResolves | src/main/java/com/rustam/ccc/service/CountryCodeService.java:35-44 | With Russia 7 and Kazakhstan 77 stored, the number 77112227231 resolves to Kazakhstan alone. |
| CountryCodeExamples.RussianNumberResolves | src/main/java/com/rustam/ccc/service/CountryCodeService.java:35-44 | With the same records, the number 711 resolves to Russia alone: 71 and 711 are not stored. |
| CountryCodeExamples.ResolvesToLargest | src/main/java/com/rustam/ccc/service/CountryCodeService.java:40-43 | A digit string resolves to exactly the holders of its prefix `k` when that prefix is within the seven-digit cut, is a stored code, and is no smaller than any stored code. |
| CountryCodeExamples.SpacedCodeFails | src/main/java/com/rustam/ccc/service/CountryCodeParser.java:95 | The cell `1 242` fails the row with a number-format error. |
| CountryCodeExamples.ExtensionCellJoinsDigits | src/main/java/com/rustam/ccc/service/CountryCodeParser.java:81-88 | The cell `1 (242)` gives the single record Bahamas 1242. |

## Left out

- Fetching the page: the Jsoup download, the saved-page fallback, and choosing
  the table whose first header is "Serving" (parallel stream, `findFirst`,
  `orElseThrow`). These are I/O and HTML selection. The model starts from the
  rows as sequences of cell texts.
- How Jsoup walks the chosen table: `Element.stream()` visits the table and
  its body as well as each row. Those elements re-select the first row's cells
  and add its records again. Set union absorbs this
  (`CountryCodeParser.BuildIgnoresOrderAndRepetition`). The model does not
  cover the corner case of a first row with fewer than two cells, which would
  mix cells of different rows.
- The cell texts are taken as given. Jsoup's `text()` whitespace
  normalisation is not modelled.
- Reactive plumbing: R2DBC connections, `Mono`/`Flux`, the fire-and-forget
  `subscribe()` in saveToDB, and the SQL text built from the codes. The query
  is modelled by its meaning, and the order of returned rows is not modelled
  (the model returns a set).
- Concurrency: the truncate and the inserts are separate statements, so a
  concurrent reader can see an empty or partly filled table. Inserts can also
  fail part-way. `CountryCodePersistence.AddCountryCodes` states only the final
  contents of a run that completes.
- Strings.ParseInt: does not accept the non-ASCII Unicode digits that
  `Character.digit` admits. Codes come from ASCII listings and phone numbers
  pass through ASCII-only digit filtering first.
- Strings.DigitsOnly: `\D` is the ASCII non-digit class, as in Java's default
  regex mode. Dafny characters are Unicode scalar values, while Java strings
  are UTF-16 code units. Since every character outside `0`-`9` is removed,
  this difference changes no result.
- CountryCodeService.DigitPrefixMembers and the lemmas built on it assume at
  most nine digits so that every prefix fits in an `int`. Resolution only
  ever uses seven (`LongestCodeLength`).
- The REST controller, `NotFoundException` mapping to HTTP, application
  bootstrapping, configuration and logging are outside the model.
