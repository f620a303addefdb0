# g2o string tools in Dafny

This project models the pure string utilities in g2o's
`Thirdparty/g2o/g2o/stuff/string_tools.cpp`, the copy bundled with ORB-SLAM3,
and proves properties of them. The utilities are:

- `trim`, `trimLeft` and `trimRight`. They remove space, tab and newline
  characters from both ends, from the front only, or from the back only.
- `strToLower` and `strToUpper`. They map each character through `tolower` or
  `toupper` in the C locale.
- `strSplit`. It cuts a string at every character that belongs to a
  delimiter set.
- `strStartsWith` and `strEndsWith`. They test for a prefix or a suffix.

The project has three files:

- `cpp_string.dfy` (module `CppString`) models the parts of `std::string` that
  these functions use. `size_type` is an unsigned 64-bit integer with
  wrap-around `+` and `-`. `npos` is its largest value, 2^64 - 1. The module also
  models `find_first_of`, `find_first_not_of`, `find_last_not_of` and the
  substring constructor, which clamps its length.
- `string_tools.dfy` (module `StringTools`) models the eight functions as the
  source writes them, using those `std::string` operations, `npos` and the
  unsigned arithmetic. Each one is proved equal to an independent reference
  definition:
  - the trims are compared with `TextOf`, `LeftStripped` and `RightStripped`.
    These are slices of `s` bounded by `SkipSpaces` and `SkipSpacesBack`,
    which scan for the first and last non-whitespace character one index at
    a time;
  - `strSplit` is compared with a one-character-at-a-time split (`Split`);
  - the affix tests are compared with sequence slices.
- `string_tools_examples.dfy` (module `StringToolsExamples`) holds concrete
  input/output cases.

Two details of the source carry over exactly:

- In `trimRight`, all-whitespace input gives `e == npos`, and the length
  `e - b + 1` wraps to 0. The `b == npos` test can never hold, because `b` is
  the constant 0.
- In `strSplit`, the last token is taken with length `npos - lastPos`, which
  `substr` clamps to "the rest of the string". The loop then sets
  `lastPos = npos + 1`, which wraps to 0, just before it exits.

The character-string arguments of `find_first_of`, `find_first_not_of` and
`find_last_not_of` are modelled as sets of characters. These searches only ask
whether a character occurs in the argument, so the order and repetition of its
characters do not matter. For the same reason, the `delimiters` string of
`strSplit` is a `set<char>`.

The trims, `strSplit` and the `std::string` searches require `Fits(s)`,
meaning `|s| < npos`. Every `std::string`
satisfies this, since its `max_size()` is below `npos`. So the requirement
only restricts inputs that no C++ string can have.

## Model

| member | source | states |
|---|---|---|
| `CppString.Add` | Thirdparty/g2o/g2o/stuff/string_tools.cpp:212 | unsigned `size_type` addition: the result is congruent to the true sum modulo 2^64, so `npos + 1` is 0 |
| `CppString.Sub` | Thirdparty/g2o/g2o/stuff/string_tools.cpp:116 | unsigned `size_type` subtraction: the result is congruent to the true difference modulo 2^64 |
| `CppString.Substr` | Thirdparty/g2o/g2o/stuff/string_tools.cpp:211 | `substr(pos, n)` / `string(s, pos, n)`: the result is the slice of `s` at `pos` whose length is `n` clamped to what remains; `pos` never lies past the end |
| `CppString.FindFirstOf` | Thirdparty/g2o/g2o/stuff/string_tools.cpp:210 | the result is `npos` or an index at or after `pos` holding a delimiter, and no delimiter lies between `pos` and it (or anywhere after `pos` when `npos`) |
| `CppString.FindFirstNotOf` | Thirdparty/g2o/g2o/stuff/string_tools.cpp:112 | the result is `npos` or the first index at or after `pos` whose character is outside the set; every character before it from `pos` on is inside the set |
| `CppString.FindLastNotOf` | Thirdparty/g2o/g2o/stuff/string_tools.cpp:113 | the result is `npos` or the last index whose character is outside the set; every character after it is inside the set |
| `StringTools.SkipSpaces` | Thirdparty/g2o/g2o/stuff/string_tools.cpp:112 | reference scan from `i`: the result is the first index at or after `i` without whitespace, or `|s|`; everything in between is whitespace |
| `StringTools.SkipSpacesBack` | Thirdparty/g2o/g2o/stuff/string_tools.cpp:113 | reference scan back from `j`: the result is just past the last non-whitespace character before `j`, or 0; everything from it up to `j` is whitespace |
| `StringTools.FirstNotOfIsStart` | Thirdparty/g2o/g2o/stuff/string_tools.cpp:112-115 | `find_first_not_of(" \t\n")` is `npos` exactly when `s` is all whitespace; otherwise it is the index where the text of `s` starts |
| `StringTools.LastNotOfIsEnd` | Thirdparty/g2o/g2o/stuff/string_tools.cpp:113 | `find_last_not_of(" \t\n")` is `npos` exactly when `s` is all whitespace; otherwise it is the index just before where the text of `s` ends |
| `StringTools.TextShape` | Thirdparty/g2o/g2o/stuff/string_tools.cpp:108-139 | only whitespace lies before the start and after the end of the text of `s`; the text starts and ends with a non-whitespace character; for all-whitespace input the start is `|s|` and the end is 0 |
| `StringTools.TextIsRightOfLeft` | Thirdparty/g2o/g2o/stuff/string_tools.cpp:108-139 | the text of `s` is `s` stripped on the left and then on the right |
| `StringTools.TextIsLeftOfRight` | Thirdparty/g2o/g2o/stuff/string_tools.cpp:108-139 | the text of `s` is `s` stripped on the right and then on the left |
| `StringTools.StrippedIdempotent` | Thirdparty/g2o/g2o/stuff/string_tools.cpp:108-139 | taking the text, stripping on the left and stripping on the right each give back their input when applied to their own result |
| `StringTools.Trim` | Thirdparty/g2o/g2o/stuff/string_tools.cpp:108-117 | the result is the text of `s`: "" for empty or all-whitespace input, and otherwise `s` from its first to its last non-whitespace character |
| `StringTools.TrimLeft` | Thirdparty/g2o/g2o/stuff/string_tools.cpp:119-128 | the result is `s` after its leading whitespace, including "" for all-whitespace input |
| `StringTools.TrimRight` | Thirdparty/g2o/g2o/stuff/string_tools.cpp:130-139 | the result is `s` before its trailing whitespace, including "" for all-whitespace input |
| `StringTools.TrimShape` | Thirdparty/g2o/g2o/stuff/string_tools.cpp:108-117 | `trim` returns a contiguous substring of `s`; it is empty iff `s` is all whitespace; only whitespace is cut away on either side; and it neither starts nor ends with whitespace |
| `StringTools.TrimLeftShape` | Thirdparty/g2o/g2o/stuff/string_tools.cpp:119-128 | `s` is an all-whitespace prefix followed by the result, and the result is empty or starts with a non-whitespace character |
| `StringTools.TrimRightShape` | Thirdparty/g2o/g2o/stuff/string_tools.cpp:130-139 | `s` is the result followed by an all-whitespace suffix, and the result is empty or ends with a non-whitespace character |
| `StringTools.TrimRightWrapsToEmpty` | Thirdparty/g2o/g2o/stuff/string_tools.cpp:135-138 | for non-empty all-whitespace input, `e` is `npos`, `e - 0 + 1` wraps to 0, and `trimRight` returns "" |
| `StringTools.TrimBothSides` | Thirdparty/g2o/g2o/stuff/string_tools.cpp:108-139 | `trim(s) == trimRight(trimLeft(s))` and `trim(s) == trimLeft(trimRight(s))` |
| `StringTools.TrimIdempotent` | Thirdparty/g2o/g2o/stuff/string_tools.cpp:108-139 | `trim`, `trimLeft` and `trimRight` are each idempotent |
| `StringTools.ToLower` | Thirdparty/g2o/g2o/stuff/string_tools.cpp:144 | C-locale `tolower`: the result is never an upper-case letter, an upper-case letter maps to its lower-case letter, and every other character is unchanged |
| `StringTools.ToUpper` | Thirdparty/g2o/g2o/stuff/string_tools.cpp:151 | C-locale `toupper`: the result is never a lower-case letter, a lower-case letter maps to its upper-case letter, and every other character is unchanged |
| `StringTools.StrToLower` | Thirdparty/g2o/g2o/stuff/string_tools.cpp:141-146 | the result has the length of `s`, and each position is `tolower` of the same position of `s` |
| `StringTools.StrToUpper` | Thirdparty/g2o/g2o/stuff/string_tools.cpp:148-153 | the result has the length of `s`, and each position is `toupper` of the same position of `s` |
| `StringTools.CaseRoundTrip` | Thirdparty/g2o/g2o/stuff/string_tools.cpp:141-153 | `strToLower(strToUpper(s)) == strToLower(s)` and `strToUpper(strToLower(s)) == strToUpper(s)`, for every string |
| `StringTools.CaseIdempotent` | Thirdparty/g2o/g2o/stuff/string_tools.cpp:141-153 | applying either case mapping twice is the same as applying it once |
| `StringTools.Split` | Thirdparty/g2o/g2o/stuff/string_tools.cpp:203-216 | reference split: the number of tokens is the number of delimiter occurrences plus one, and no token contains a delimiter |
| `StringTools.SeparatorsCount` | Thirdparty/g2o/g2o/stuff/string_tools.cpp:203-216 | the separators the split is counted against are exactly the delimiter occurrences: their number is the number of positions of `s` holding a delimiter character |
| `StringTools.SplitJoin` | Thirdparty/g2o/g2o/stuff/string_tools.cpp:203-216 | joining the tokens, with the delimiter actually found placed between consecutive ones, rebuilds the input exactly and in order |
| `StringTools.SplitUnique` | Thirdparty/g2o/g2o/stuff/string_tools.cpp:203-216 | any list of delimiter-free tokens that has that count and joins back to the input is the split, so the three properties determine the result |
| `StringTools.SplitWithoutDelimiter` | Thirdparty/g2o/g2o/stuff/string_tools.cpp:203-216 | input with no delimiter, including "", splits into the single token equal to the input |
| `StringTools.SplitAtFirstDelimiter` | Thirdparty/g2o/g2o/stuff/string_tools.cpp:210-212 | one loop round: the text before the first delimiter is the first token, and the rest of the split comes from after it |
| `StringTools.SplitTrailingDelimiter` | Thirdparty/g2o/g2o/stuff/string_tools.cpp:203-216 | a delimiter as the last character gives a trailing empty token |
| `StringTools.SplitSplits` | Thirdparty/g2o/g2o/stuff/string_tools.cpp:203-216 | the reference split has one more token than delimiters, no token holds a delimiter, and the tokens joined by the delimiters found rebuild the input |
| `StringTools.TokenOfRound` | Thirdparty/g2o/g2o/stuff/string_tools.cpp:210-211 | the token a round pushes runs up to the delimiter found; when the search gives `npos`, the length `npos - lastPos` is clamped, so the token is the rest of the string |
| `StringTools.SplitOfRest` | Thirdparty/g2o/g2o/stuff/string_tools.cpp:210-212 | when the search from `lastPos` gives `npos`, the rest splits into itself; otherwise it splits into the text before the delimiter followed by the split after it |
| `StringTools.SplitStep` | Thirdparty/g2o/g2o/stuff/string_tools.cpp:209-213 | one loop round keeps "tokens so far + split of the rest = split of the input"; after the last round the tokens are the whole split |
| `StringTools.StrSplit` | Thirdparty/g2o/g2o/stuff/string_tools.cpp:203-216 | the do-while loop, with `npos` and the wrap-around, returns the reference split. So it has (delimiter count + 1) tokens, none containing a delimiter, and they join back to the input |
| `StringTools.Equal` | Thirdparty/g2o/g2o/stuff/string_tools.cpp:222 | `std::equal(first, second)` holds iff `first` equals the prefix of `second` of its length |
| `StringTools.StrStartsWith` | Thirdparty/g2o/g2o/stuff/string_tools.cpp:218-223 | true iff `|start| <= |s|` and `s[..|start|] == start`; false, not a failure, when `s` is shorter |
| `StringTools.StrEndsWith` | Thirdparty/g2o/g2o/stuff/string_tools.cpp:225-230 | true iff `|end| <= |s|` and `s[|s|-|end|..] == end`; false when `s` is shorter |
| `StringTools.ReversedTwice` | Thirdparty/g2o/g2o/stuff/string_tools.cpp:229 | walking a reverse-iterator range backwards again gives the string back |
| `StringTools.ReversedHead` | Thirdparty/g2o/g2o/stuff/string_tools.cpp:229 | the first `n` characters seen through `rbegin()` are the last `n` characters of `s`, seen backwards |
| `StringTools.ReversedPrefix` | Thirdparty/g2o/g2o/stuff/string_tools.cpp:229 | comparing `end` backwards with `s` backwards compares `end` with the tail of `s` |
| `StringToolsExamples.TrimExample` | Thirdparty/g2o/g2o/stuff/string_tools.cpp:108-139 | `trim(" \t\nhello\n\t ") == "hello"`, and all three trims of "" are "" |
| `StringToolsExamples.SplitExample` | Thirdparty/g2o/g2o/stuff/string_tools.cpp:203-216 | splitting "a,b,,c" at "," gives ["a", "b", "", "c"] |
| `StringToolsExamples.SplitExampleTail` | Thirdparty/g2o/g2o/stuff/string_tools.cpp:203-216 | splitting "b,,c" at "," gives ["b", "", "c"] |
| `StringToolsExamples.SplitLeadingDelimiterExample` | Thirdparty/g2o/g2o/stuff/string_tools.cpp:203-216 | splitting ",c" at "," gives ["", "c"]: a leading delimiter gives an empty first token |
| `StringToolsExamples.SplitEmptyExample` | Thirdparty/g2o/g2o/stuff/string_tools.cpp:203-216 | splitting "" gives [""], one empty token and not an empty list |
| `StringToolsExamples.SplitManyDelimitersExample` | Thirdparty/g2o/g2o/stuff/string_tools.cpp:203-216 | splitting "a:b;c" at ":;" gives ["a", "b", "c"] |
| `StringToolsExamples.SplitManyDelimitersTail` | Thirdparty/g2o/g2o/stuff/string_tools.cpp:203-216 | splitting "b;c" at ":;" gives ["b", "c"] |
| `StringToolsExamples.AffixExamples` | Thirdparty/g2o/g2o/stuff/string_tools.cpp:218-230 | "hello world" starts with "hello" and ends with "world"; "hi" does not start with "hello" |

## Left out

- `portable_vasprintf` and `portable_asprintf` (string_tools.cpp:49-106) are
  not modelled. They depend on `vsnprintf`, `malloc`/`realloc` and C `va_list`
  handling, which are foreign code. Both also raise `SIGINT` unconditionally on
  entry.
- `formatString` and `strPrintf` (string_tools.cpp:155-182) are not modelled.
  They are thin wrappers over `portable_vasprintf`. On failure, `strPrintf`
  assigns a possibly null pointer to a `std::string`, which is undefined
  behaviour.
- `strExpandFilename` (string_tools.cpp:184-201) is not modelled. It is
  operating-system shell word expansion through `wordexp`.
- `readLine` (string_tools.cpp:232-243) is not modelled. It is stream I/O on
  `std::istream`. It uses the `G2O_FSKIP_LINE` macro from `macros.h`, which is
  not part of this model.
- `StringTools.ToLower` and `StringTools.ToUpper` model the C locale only.
  Other locales are not modelled. Passing a negative `char` to
  `tolower`/`toupper`, which is undefined behaviour, is not modelled either.
  Characters are Dafny `char` values, not bytes.
- `StringTools.StrToLower` and `StringTools.StrToUpper` are element-wise
  sequence functions. The `std::transform` into a `back_inserter` that builds
  the result one character at a time is not modelled as a loop.
- `CppString.SizeType` assumes a 64-bit `size_t`. On a 32-bit platform the
  modulus would be 2^32; the wrap-around arguments are the same.
- Allocation failure (`std::bad_alloc`) is not modelled, for the substrings or
  for `tokens.push_back`. The `std::out_of_range` that `substr` can throw is
  not modelled as an error path either. Instead, `CppString.Substr`'s
  precondition excludes it, and every caller is proved to meet that
  precondition.
