# bvzlocalization in Dafny

A model of `bvzlocalization`, a small Python library that loads one
language's INI resource file (`<prefix>_<language>.ini` in a resources
directory) and turns error codes and message keys into display strings. The
stored templates may hold colour tags such as `{{COLOR_RED}}` and literal
backslash-n markers. Before a string is returned, those become ANSI escape
sequences and newlines. Every failure is a `LocalizationError` carrying a
message and a numeric code.

Modules:

- `TextReplace` (`text_replace.dfy`): Python's `str.replace` with a non-empty
  pattern. Matching is literal, leftmost and non-overlapping. The module
  proves the facts the formatter relies on: text without the pattern is
  unchanged, the leftmost occurrence is the one replaced, and no occurrence
  survives when the replacement shares no character with the pattern. It
  also proves that replacement creates no new text and that independent
  pieces are replaced piecewise.
- `Decimal` (`decimal.dfy`): `str(n)` on integers, with a reader that
  recovers the value. This is why an integer code and its decimal string find
  the same entry.
- `Errors` (`errors.dfy`): the `LocalizationError` value. It has a `message`,
  a `code` that defaults to 0, and an `Errno` accessor.
- `Formatting` (`formatting.dfy`): `_format_string` as the source's fixed
  chain of 17 replacement steps: backslash-n first, then the sixteen colour
  tags in the source's order. The module proves what the chain achieves:
  - no marker or recognised tag is left;
  - each backslash-n becomes a newline whatever text surrounds it, and each
    tag becomes its escape inside surrounding text that puts no `{` right
    before it and no `}` right after it;
  - text holding no markup (placeholders such as `{name}`, or an unknown tag
    such as `{{COLOR_ORANGE}}`) comes back unchanged;
  - formatting twice is formatting once.
- `Localization` (`localized_resource.dfy`):
  - the `LocalizedResource` class: its directory, file name and path fields,
    and the sections it reads;
  - `Open`, the whole constructor of the source, with its two failures (code
    0 and code 1);
  - the lookups `ErrorMsg` and `Msg`, with codes 2 and 3, and 4 and 5.

The file system is modelled as a value, `FileSystem`:
- the set of paths that exist;
- the sections the INI parser yields for each file it opens;
- the `os.path.abspath` mapping, kept abstract as a function.

`os.path.join` is modelled with the POSIX rules.

Under the code, `101=Error {{COLOR_RED}}number {num}{{COLOR_NONE}}`
yields `"Error " + RED + "number {num}" + ENDC`, and `ErrorMsgExample` proves
exactly that.

## Model

| member | source | states |
|---|---|---|
| `TextReplace.Replace` | src/bvzlocalization.py:144-161 | `str.replace` with a non-empty pattern: scanning from the left, each occurrence is replaced and scanning resumes after it; the lemmas below state what this achieves |
| `TextReplace.ReplaceAbsent` | src/bvzlocalization.py:144-161 | a string in which the pattern does not occur is returned unchanged by `replace` |
| `TextReplace.ReplaceLeftmost` | src/bvzlocalization.py:144-161 | when the pattern starts at no position before it, the first occurrence is replaced; the text before it is kept and scanning resumes after it, so occurrences never overlap |
| `TextReplace.ReplaceEliminates` | src/bvzlocalization.py:144-161 | after `replace`, no occurrence of the pattern is left, provided the replacement is non-empty and shares no character with the pattern (true of every step of the chain) |
| `TextReplace.ReplaceCreatesNothing` | src/bvzlocalization.py:144-161 | text sharing no character with the replacement occurs in the output only if it occurred in the input |
| `TextReplace.PrefixFromInput` | src/bvzlocalization.py:144-161 | a prefix of the output made of characters the replacement lacks is a prefix of the input |
| `TextReplace.ReplaceConcat` | src/bvzlocalization.py:144-161 | when the two characters at a join never stand side by side in the pattern, replacing in `a + b` is replacing in `a` and in `b` separately |
| `TextReplace.ReplaceEdges` | src/bvzlocalization.py:144-161 | with a non-empty replacement, the output is empty exactly when the input is, and its first and last characters come from the input or the replacement |
| `Decimal.IntToString` | src/bvzlocalization.py:183-187 | `str(code)` of an integer code: a `-` for a negative number, then its decimal digits; `IntToStringRoundTrip` states what it yields |
| `Decimal.NatToStringRoundTrip` | src/bvzlocalization.py:183-187 | `str` of a natural number is a non-empty digit string with no leading zero that reads back as the number |
| `Decimal.IntToStringRoundTrip` | src/bvzlocalization.py:183-187 | `str` of any integer, sign included, reads back as that integer |
| `Decimal.IntToStringInjective` | src/bvzlocalization.py:183-187 | distinct integers have distinct `str` forms |
| `Errors.LocalizationError.Errno` | src/bvzlocalizationerror.py:13-15 | the `errno` property of an error; `ErrnoIsCode` states that it is the code |
| `Errors.ErrorFields` | src/bvzlocalizationerror.py:6-11 | an error built from a message and an errno keeps both, as `message` and `code` |
| `Errors.DefaultCode` | src/bvzlocalizationerror.py:6-10 | without an errno argument the code is 0 |
| `Errors.ErrnoIsCode` | src/bvzlocalizationerror.py:13-15 | the `errno` property returns `code` |
| `Formatting.ColorTableValid` | src/bvzlocalization.py:55-70 | there are sixteen names and sixteen escapes; every name is capitals and underscores; every escape is non-empty and made only of escape characters (ESC, `[`, digits, `m` and the newline), none of which any pattern uses |
| `Formatting.ColorNamesDistinct` | src/bvzlocalization.py:146-161 | the sixteen tag names of the chain are pairwise different |
| `Formatting.FormatRulesAt` | src/bvzlocalization.py:144-161 | the chain has 17 steps: the backslash-n step first, then colour step k (tag of name k to escape k) in the source's order |
| `Formatting.FormatRulesValid` | src/bvzlocalization.py:144-161 | every step of the chain has a non-empty pattern of pattern characters and a non-empty replacement of escape characters |
| `Formatting.ApplyRulesFixes` | src/bvzlocalization.py:144-161 | a string in which no step's pattern occurs passes through the chain unchanged |
| `Formatting.ApplyRulesCreatesNothing` | src/bvzlocalization.py:144-161 | text free of escape characters is in the chain's output only if it was in the input |
| `Formatting.ApplyRulesEliminates` | src/bvzlocalization.py:144-161 | after the whole chain, no step's pattern is left, because no later step can recreate an earlier pattern |
| `Formatting.ApplyRulesSingle` | src/bvzlocalization.py:144-161 | the pattern of step k alone, when no earlier pattern occurs in it, comes out as exactly the replacement of step k |
| `Formatting.ApplyRulesConcat` | src/bvzlocalization.py:144-161 | when no pattern has the join characters side by side, the chain's output on `a + b` is its output on `a` followed by its output on `b` |
| `Formatting.Format` | src/bvzlocalization.py:130-163 | `_format_string`: the chain `FormatRules` applied step by step, the backslash-n step first and then the sixteen colour steps with the escapes `BLACK` to `ENDC` of lines 55-70; the lemmas below state what it achieves |
| `Formatting.FormatLeavesNoMarkup` | src/bvzlocalization.py:130-163 | `_format_string` leaves no backslash-n and no recognised colour tag |
| `Formatting.NoMarkupMeans` | src/bvzlocalization.py:144-161 | "no markup" means exactly: no backslash-n and none of the sixteen `{{COLOR_...}}` tags |
| `Formatting.FormatFixes` | src/bvzlocalization.py:130-163 | formatting leaves a string unchanged if and only if the string holds no markup |
| `Formatting.FormatIdempotent` | src/bvzlocalization.py:130-163 | formatting an already formatted string changes nothing |
| `Formatting.FormatCreatesNothing` | src/bvzlocalization.py:130-163 | text made of characters no escape uses (placeholders, words) is in the output only if it was in the template |
| `Formatting.FormatEmpty` | src/bvzlocalization.py:130-163 | the empty template formats to the empty string |
| `Formatting.TagInTag` | src/bvzlocalization.py:146-161 | one tag contains another only when their names are equal, so `{{COLOR_RED}}` is not matched inside `{{COLOR_BRIGHT_RED}}` |
| `Formatting.TagPairs` | src/bvzlocalization.py:146-161 | no two adjacent characters of a tag form a safe boundary: a safe join can never fall inside a tag |
| `Formatting.FormatTag` | src/bvzlocalization.py:146-161 | each of the sixteen tags alone formats to its escape sequence (`{{COLOR_NONE}}` to the reset `ENDC`) |
| `Formatting.FormatNewline` | src/bvzlocalization.py:144-144 | a literal backslash followed by `n` formats to a newline |
| `Formatting.FormatConcat` | src/bvzlocalization.py:144-161 | two pieces whose join no pattern can span format independently: one side is empty, or at the join there is a non-pattern character, a `}` followed by anything but `}`, a backslash second, an `n` first, or a `{` second after anything but `{` |
| `Formatting.FormatAroundNewline` | src/bvzlocalization.py:144-144 | every backslash-n becomes a newline, whatever text surrounds it, and the text on either side is formatted in place |
| `Formatting.FormatAroundTag` | src/bvzlocalization.py:146-161 | a recognised tag becomes its escape, and the text on either side is formatted in place, whenever no `{` stands right before the tag and no `}` right after it |
| `Formatting.FormatUnknownTag` | src/bvzlocalization.py:146-161 | a tag whose name is not one of the sixteen (and has no brace or backslash) comes out unchanged |
| `Formatting.PairAbsent` | src/bvzlocalization.py:146-161 | a string with no two adjacent characters equal to the start of `q` does not contain `q` |
| `Formatting.FormatKeepsPlain` | src/bvzlocalization.py:130-163 | text with no backslash and no two opening braces in a row, such as a sentence with `{name}` placeholders, is returned unchanged |
| `Formatting.FormatOpenRed` | src/bvzlocalization.py:147-147 | plain text followed by `{{COLOR_RED}}` formats to the text followed by the red escape |
| `Formatting.FormatRedSpan` | src/bvzlocalization.py:147-161 | plain text, `{{COLOR_RED}}`, plain text, `{{COLOR_NONE}}` formats to text, red escape, text, reset escape |
| `Formatting.FormatRedGreeting` | src/bvzlocalization.py:24-31 | `{{COLOR_RED}}Hello {name}` formats to the red escape followed by `Hello {name}` |
| `Formatting.FormatGreeting` | src/bvzlocalization.py:24-31 | the documented template `{{COLOR_RED}}...{name}{{COLOR_NONE}}` formats to red escape, text with the placeholder intact, reset escape |
| `Formatting.FormatTwoLines` | src/bvzlocalization.py:144-144 | `Error:` backslash-n `Retry` formats to two lines joined by a newline |
| `Formatting.FormatNewlineThenRed` | src/bvzlocalization.py:144-147 | backslash-n followed by `{{COLOR_RED}}` formats to a newline followed by the red escape |
| `Formatting.FormatCapitalThenRed` | src/bvzlocalization.py:147-147 | `ERROR{{COLOR_RED}}` formats to `ERROR` followed by the red escape |
| `Formatting.FormatOrangeTag` | src/bvzlocalization.py:146-161 | the unknown tag `{{COLOR_ORANGE}}` survives formatting |
| `Localization.ResourceFileName` | src/bvzlocalization.py:105-105 | the resource file name `prefix + "_" + language + ".ini"`; the next lemmas state its parts and default |
| `Localization.ResourceFileNameParts` | src/bvzlocalization.py:105-105 | the file name is the prefix, `_`, the language and `.ini`, each recoverable by position |
| `Localization.ResourceFileNameDefault` | src/bvzlocalization.py:81-81 | without a language argument the file name is the prefix followed by `_english.ini` |
| `Localization.ResourceFileNameInjective` | src/bvzlocalization.py:105-105 | for prefixes of equal length, equal file names mean equal prefixes and equal languages |
| `Localization.JoinPath` | src/bvzlocalization.py:106-106 | `os.path.join` ends with the file name; an absolute name is the result by itself; for a relative name the result starts with the directory, a `/` stands right before the name when the directory is not empty, at most one `/` is added, and none is added when the directory already ends in `/` |
| `Localization.JoinPathBasename` | src/bvzlocalization.py:106-106 | a file name without `/` is the last component of the joined path |
| `Localization.FileSystem.Read` | src/bvzlocalization.py:126-126 | the sections the parser yields for a path; a file it cannot open yields none, as `read` skips it. `MergeSections` and `ReadResources` state what reading does with them |
| `Localization.MergeSections` | src/bvzlocalization.py:126-126 | reading a file adds its sections, keeps every option already held unless the file sets it, and makes the file's options win |
| `Localization.MergeIntoEmpty` | src/bvzlocalization.py:102-126 | reading into the freshly made, empty parser leaves exactly the file's sections |
| `Localization.LocalizedResource.constructor` | src/bvzlocalization.py:102-106 | the directory is stored; the name is `prefix_language.ini` and the path the directory joined with it; nothing is read yet |
| `Localization.LocalizedResource.ReadResources` | src/bvzlocalization.py:110-126 | a missing file raises code 1 with `Cannot locate resource file: ` and the absolute path, leaving the sections as they were; otherwise the file's sections are read in |
| `Localization.LocalizedResource.ErrorMsg` | src/bvzlocalization.py:166-190 | succeeds exactly when the error section holds `str(code)`. A missing section gives code 2 whatever the code (it is checked first); a missing key gives code 3; each failure carries the source's message. A success is the stored text formatted, with no marker or tag left |
| `Localization.LocalizedResource.Msg` | src/bvzlocalization.py:193-217 | the same for the message section and a key, with codes 4 and 5 |
| `Localization.Open` | src/bvzlocalization.py:81-107 | a missing directory raises code 0 (`Resources directory ... does not exist.`); a missing file raises code 1 with the absolute path; otherwise a fresh loader is bound to the directory, name and path, holding exactly the file's sections |
| `Localization.CodeKey` | src/bvzlocalization.py:183-187 | the key `str(code)`: a string code as it is, an integer code as `IntToString`; `ErrorMsgIntOrString` and `CodeKeysDistinct` state its use |
| `Localization.ErrorMsgIntOrString` | src/bvzlocalization.py:183-187 | an integer code and its decimal string give the same result, success or failure |
| `Localization.CodeKeysDistinct` | src/bvzlocalization.py:183-187 | different integer codes are looked up under different keys |
| `Localization.LookupCodesDisjoint` | src/bvzlocalization.py:179-212 | the error lookup only fails with codes 2 or 3, the message lookup only with 4 or 5 |
| `Localization.ErrorMsgExample` | src/bvzlocalization.py:166-190 | with `101=Error {{COLOR_RED}}number {num}{{COLOR_NONE}}` stored, the integer code 101 yields `Error `, red escape, `number {num}`, reset escape |

## Left out

- File-system semantics: `os.path.exists` is membership in a given set of paths. `os.path.abspath` is an abstract function supplied with the file system. Normalisation, symbolic links, permissions and the current directory are not modelled.
- `os.path.join` follows the POSIX rules only; the Windows rules (drive letters, backslashes) are not modelled.
- INI parsing is abstract: each readable file comes with the sections the parser makes of it. A file the parser cannot open contributes nothing, as `read` skips it. Parse errors (missing section header, duplicate section or option) are not modelled.
- Option-name normalisation (the parser lower-cases option names on store and lookup) is not modelled: keys are compared exactly as given, so a mixed-case message key is looked up as written.
- The parser's `DEFAULT` section, which `has_option` and `get` also consult, is not modelled.
- `%`-interpolation applied by `get` is not modelled: the stored text is returned as stored before formatting, and interpolation errors are not represented.
- `allow_no_value=True` lets an option have no value (`None`), which then fails the string assertion in `_format_string`. The model's sections map keys to strings only.
- The runtime type assertions on `resources_d`, `code`, `message_key` and `msg` are replaced by Dafny types. A code is an integer or a string (`Code`).
- Exceptions are values: a raise becomes `Failure` of a `Result`, and the object whose construction failed is never returned. The `Exception` base class behaviour (its `args`, tracebacks) is not modelled.
- `configparser.SafeConfigParser` is an alias that newer Python versions have removed. The model assumes a Python in which it exists and behaves as `ConfigParser`.
- Python's limit on integer-to-string conversion (in Python 3.11, and from 3.7.14, 3.8.14, 3.9.14 and 3.10.7 on, `str` of an integer with more than 4300 digits raises `ValueError`) is not modelled: `IntToString` converts every integer, so `ErrorMsg` given such a code answers code 3 or the message where the source raises `ValueError` at line 183.
- FormatAroundTag: requires that no `{` stand right before the tag and no `}` right after it. The piecewise argument it rests on cannot separate those joins, so the equation is not proved for them.
- String encodings: strings are sequences of Unicode characters, and file encodings are not modelled.
