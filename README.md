# xalwart.base core in Dafny

A Dafny model of the self-contained core of the xalwart.base C++ library.
The core is pure integer and text logic. The model covers:

- **Calendar and durations** (`src/datetime.h`, `src/datetime.cpp`):
  - `DatetimeInternal`: the floor modulus `_mod`, the "true" division `_true_div`, `_div_mod`, `_cmp`, `_cmp_arr` and the month tables.
  - `Calendar`: leap years, `_days_before_year`, `_days_in_month`, `_days_before_month`, the conversions `_ymd2ord` and `_ord2ymd` over the 400-year Gregorian cycle, `_check_date_fields` and `_iso_week1monday`.
  - `Timedeltas`: the `Timedelta` constructor's normalisation and its comparison.
  - `Dates`: `Date` construction, ordinal, weekday, arithmetic with `Timedelta`, comparison and `iso_calendar`.
  - `DatetimeText`: `_lf`, `_replace`, the isoformat date and time parsers, `_format_time`, `_check_time_fields` and `_divide_and_round`.
- **Strings** (`src/string_utils.cpp`, module `StringUtils`): `url_split_type`, `split`, `rsplit`, `lsplit_one`, `ltrim`, `rtrim`, `trim`, `count`, `cut_edges` and `replace`.
- **Paths**:
  - `PathGeneric`: `_split_text`.
  - `PathPosix`: `_basename`, `_dirname`, `join` and `_join`.
  - `Path`: `prefix_and_suffix`.
- **Regular-expression helpers**:
  - `Re`: `escape`, `Regex::search` and `Regex::group`.
  - `ReArg`: the route-pattern parser of `ArgRegex`, with `arg` and `search`.
- **Unicode**:
  - `Utf8`: the table-driven `decode_symbol`.
  - `Letter`: the case mappings `to_upper`, `to_lower`, `_to` and `simple_fold`.
- **Encoding** (`src/encoding.cpp`, module `Encoding`): `escape`, `quote`, the `encode_url` state machine, `encode`, `encode_ascii`, `encode_iso_8859_1` and `encode_utf_8`.
- **Versions** (`src/_def_.cpp`, module `Versions`): `compare_numbers`, `compare_versions`, the `Version` constructors, `to_string` and the comparison operators.
- **Containers**:
  - `BaseDictionaries`, `Dictionaries`, `MultiDictionaries`, `Multimaps`: classes whose methods update a `map` field.
  - `MapOps`: the map functions that specify those methods.
- **Requests and results**:
  - `RequestContexts`: the protocol-version checks of `RequestContext`.
  - `CoreResult`: `Result::catch_` over the error hierarchy.

Library behaviour the core relies on has its own modules:

- `Numerals`: `std::to_string`, `std::stoi` and `std::stol`.
- `StdString`: `find`, `rfind` and whole-text replacement.
- `Wrappers`: `Option`, and `Result` over the library's exceptions.

How the source's constructs are modelled:

- A thrown exception is an `Err` result.
- A loop that builds a value in the source is a method. Each such method is proved equal to a recursive specification function, and the properties are proved about that function.
- A container that the source updates in place is a class.
- Integer widths are written out in the operations that show them: the `ushort` narrowing of `_ord2ymd` and the isoformat parsers, the `size_t` wrap-around of `iso_calendar`, `Date` arithmetic and `cut_edges`, the `unsigned int` fields of `Version`, and the `short` to `size_t` conversion of `RequestContext`. Elsewhere integers are unbounded; the lines under "Left out" name where that matters.
- Undefined behaviour that an input can reach (an out-of-range `operator[]`) is reported as the error `UndefinedBehaviour`, and the model promises nothing more about that call.

Where a header's comment and the code disagree, the model follows the code:

- `decode_symbol` (src/unicode/utf8.h:22-26) is documented to throw `EncodingError` on an invalid encoding. The code returns the replacement character with width 1 instead, and so does Utf8.DecodeSymbol.
- `Dictionary::set` and the two `MultiDictionary::set` overloads are documented to set the value for a new or an existing key. The code calls `std::map::insert`, which keeps an existing value, and so do Dictionaries.Dictionary.Set and MultiDictionaries.MultiDictionary.SetOne / SetAll. `Multimap::set` does replace.


## Model

| member | source | states |
|---|---|---|
| Numerals.NatToString | src/_def_.cpp:68-71 | `std::to_string` of a non-negative number: at least one digit, all digits, no leading zero |
| Numerals.IntToString | src/datetime.cpp:748 | `std::to_string` of any integer is non-empty |
| Numerals.StrToInteger | src/_def_.cpp:56-58 | `std::stoi` / `std::stol` accept only a value inside the target type's range (out_of_range otherwise) |
| Numerals.DigitsValueOfNatToString | src/_def_.cpp:68-71 | the digits `to_string` writes have the value of the number |
| Numerals.DigitsThenParse | src/datetime.cpp:478-490 | `stoi`/`stol` on a text starting with digits read exactly those digits: their value when it fits, out_of_range when it is too large |
| Numerals.StolOfDigits | src/datetime.cpp:478-490 | `stol` of a text made only of digits is the value of those digits |
| Numerals.NatToStringParses | src/_def_.cpp:53-71 | `stoi`/`stol` read back what `to_string` wrote, followed by anything that does not start with a digit: the number when it fits the type, out_of_range otherwise |
| StdString.Find | src/string_utils.cpp:277 | `find(pat, from)`: the first occurrence at or after from, with none before it, or npos when there is none |
| StdString.FindInSuffix | src/string_utils.cpp:277 | searching from a position is searching the suffix from 0, shifted |
| StdString.RFind | src/_path/posix.cpp:19 | `rfind(c)`: the last position holding c, nothing after it holds c, and npos (taken as -1) when there is none |
| StdString.RFindAt | src/_path/posix.cpp:19 | the last c is at i when s[i] is c and nothing after it is |
| StdString.ReplaceAllAt | src/string_utils.cpp:270-288 | replacing every occurrence is: the text before the first one, the replacement, and the rest replaced in turn |
| StdString.ReplaceAllLength | src/string_utils.cpp:270-288 | each replaced occurrence changes the length by the difference of the two lengths |
| StdString.ReplaceAllBySelf | src/string_utils.cpp:270-288 | replacing a text by itself changes nothing |
| StdString.ReplaceAllWithoutOccurrence | src/string_utils.cpp:270-288 | a text without occurrences is left as it is |
| CoreResult.FromValue | src/result.h:44-46 | a result built from a value gives that value back, converts to true, and is caught by no error type |
| CoreResult.FromError | src/result.h:48-50 | a result built from an error converts to true and `catch_(e)` holds on it exactly when the error is e or derives from e, so a real error is caught by its own type and by HttpError |
| CoreResult.Null | src/result.h:86-89 | `null()` converts to false and is caught by no error type |
| CoreResult.ErrorFreeResults | src/result.h:44-59 | a result without an error converts to true exactly when it is the result of its value, and to false exactly when it is the null result |
| CoreResult.Catch | src/result.h:27-78 | `catch_(expected)` is true exactly when an error is stored and its type is `expected` or derives from it in the declared hierarchy (2..7 under HttpError, 8..9 under SuspiciousOperation under HttpError) |
| CoreResult.CatchHttpError | src/result.h:62 | with the default argument HttpError, `catch_` is true exactly when some error is stored |
| CoreResult.CatchNothing | src/result.h:44-78 | nothing catches a value result or the null result; the value result converts to true and the null result to false |
| CoreResult.Forward | src/result.h:80-84 | `forward` keeps the error type, is not null, and every `catch_` answers as on the original |
| RequestContexts.AsSize | src/net/request_context.h:66-104 | a short compared with a size_t field is converted modulo 2^64: unchanged when non-negative, plus 2^64 when negative |
| RequestContexts.ProtoVEqTo | src/net/request_context.h:66-71 | `proto_v_eq_to` holds exactly when (major_v, minor_v) and the converted arguments have the same place in the lexicographic order |
| RequestContexts.ProtoVGt | src/net/request_context.h:89-95 | `proto_v_gt` holds exactly when (major_v, minor_v) is lexicographically above the converted arguments |
| RequestContexts.ProtoVLt | src/net/request_context.h:97-103 | `proto_v_lt` holds exactly when (major_v, minor_v) is lexicographically below the converted arguments |
| RequestContexts.ProtoVGte | src/net/request_context.h:73-79 | `proto_v_gte` (equal or greater) holds exactly when the context is at or above the arguments |
| RequestContexts.ProtoVLte | src/net/request_context.h:81-87 | `proto_v_lte` (equal or less) holds exactly when the context is at or below the arguments |
| RequestContexts.KeyOrder | src/net/request_context.h:89-103 | the single-number key of (major, minor) orders pairs lexicographically, and equal keys mean equal pairs |
| RequestContexts.ProtoVTrichotomy | src/net/request_context.h:66-103 | exactly one of eq_to, gt and lt holds; gte is the negation of lt and lte the negation of gt |
| RequestContexts.ProtoVLexicographic | src/net/request_context.h:89-103 | for non-negative arguments, gt and lt are the lexicographic comparison of (major_v, minor_v) with (major, minor) |
| RequestContexts.NegativeMajorIsHuge | src/net/request_context.h:97-103 | a negative major argument becomes a size_t near 2^64, so a context with major_v below 2^63 is less than it and not greater or equal |
| Versions.ToUint | src/_def_.cpp:53-59 | storing an int in an unsigned int keeps a value in 0..2^32-1 and adds 2^32 to a negative value |
| Versions.CompareNumbers | src/_def_.cpp:23-36 | `compare_numbers` is 0, 1 or -1 exactly when l equals, exceeds or is below r |
| Versions.CompareVersions | src/_def_.cpp:38-51 | `compare_versions` is 0 exactly for equal versions, and -1 or 1 as the fields read major first (a base-2^32 key) are below or above |
| Versions.KeyOrder | src/_def_.cpp:38-51 | the key order is the lexicographic order of (major, minor, patch), and equal keys mean equal versions |
| Versions.Apply | src/_def_.cpp:73-103 | each of `<`, `<=`, `>`, `>=`, `==` and `!=` agrees with the order of the keys (or with equality) |
| Versions.Trichotomy | src/_def_.cpp:73-103 | exactly one of `<`, `==` and `>` holds; `<` is the converse of `>`, `<=` of `>=`, and `<=` is the negation of `>` |
| Versions.LessTransitive | src/_def_.cpp:73-76 | `<` is transitive |
| Versions.SplitToString | src/_def_.cpp:53-71 | splitting the text of `to_string` at '.' gives the three decimal fields |
| Versions.SplitThree | src/_def_.cpp:53-55 | three pieces without a dot, joined with dots, split back into those pieces |
| Versions.ParseToString | src/_def_.cpp:53-71 | when every field is at most INT_MAX, reading back the text of `to_string` gives the same version |
| Versions.ParseToStringAboveIntMax | src/_def_.cpp:53-59 | when the major field is above INT_MAX, reading back the text of `to_string` fails with out_of_range |
| Versions.ParseToStringIntended | src/_def_.cpp:53-71 | with a conversion as wide as long, reading back the text of `to_string` gives the same version for every version |
| Versions.ApplyToText | src/_def_.cpp:105-135 | comparing with the C-string text of a version (fields at most INT_MAX) gives the same answer as comparing with the version |
| Re.Escape | src/re/regex.cpp:65-80 | `escape`'s loop builds exactly `Escaped(s)`: each special character of `[\^$.|?*+(){}` gets a backslash in front and all other characters are copied |
| Re.EscapedLength | src/re/regex.cpp:65-80 | the escaped text is longer than the input by the number of special characters |
| Re.UnescapeEscaped | src/re/regex.cpp:65-80 | dropping each inserted backslash gives back the input, so escaping loses nothing |
| Re.EscapeExamples | tests/re/tests_regex.cpp:28-43 | braces are escaped and '%' and '#' are not: `{%`, `%}`, `{{` and `#}` escape as the tests expect |
| Re.Regex.constructor | src/re/regex.h:38-41 | a new Regex holds no groups |
| Re.Regex.Search | src/re/regex.cpp:33-53 | `search` reports whether the engine found any match, and the groups are exactly the entries that took part in each successive match, the whole match first, in order; earlier groups are cleared |
| Re.StarSearchRepeats | src/re/regex.cpp:38-50 | with the pattern c*, whatever the text, the search resumed after the first match finds an empty match, and the search after that resumes at the same position and finds it again, so `search` never returns |
| Re.AStarOnB | src/re/regex.cpp:38-50 | `Regex("a*").search("b")` finds the empty match at 0 and resumes at 0 |
| Re.StarRoundsIntended | src/re/regex.cpp:38-50 | a search that moves one character on after an empty match finds, for c*, at least one match in any text, all inside the text, in order and without overlap, so it ends |
| Re.AStarOnBIntended | src/re/regex.cpp:38-50 | that search finds exactly the empty matches at 0 and 1 of "b" |
| Re.GroupAfterSearch | src/re/regex.cpp:33-63 | after a search, `group` at the position after the earlier matches' groups and this match's earlier entries reads back each entry that took part |
| MapOps.AppendedAllIsAppendEach | src/collections/multimap.h:175-188 | adding a vector equals adding its items one at a time, whenever the key is present or the vector is non-empty |
| MapOps.AppendedNothing | src/collections/multimap.h:175-188 | the exception: adding an empty vector under a missing key still creates the key (unlike adding nothing item by item), and `get` there falls back to its default |
| MapOps.AppendedValues | src/collections/multimap.h:158-168 | after `add(k, v)` the vector under k has grown by v at the back, `get` still returns the first value ever stored, no other key changes, and k is now a key |
| MapOps.InsertedKeeps | src/collections/dictionary.h:53-56 | `std::map::insert` never replaces: a stored value survives, a missing key receives the new value, other keys keep their values, and the size grows only for a new key |
| MapOps.Least | src/collections/base_dictionary.h:89-98 | the least element of a non-empty set of keys |
| MapOps.SortedKeys | src/collections/base_dictionary.h:89-98 | the keys listed strictly ascending (the std::map iteration order), each key of the map exactly once |
| BaseDictionaries.BaseDictionary.constructor | src/collections/base_dictionary.h:37 | a new dictionary is empty |
| BaseDictionaries.BaseDictionary.FromMap | src/collections/base_dictionary.h:40-43 | the dictionary holds a copy of the given map |
| BaseDictionaries.BaseDictionary.Remove | src/collections/base_dictionary.h:48-54 | `remove` erases the key if present and nothing else; afterwards the key is absent and the size has dropped by one exactly when it was present |
| BaseDictionaries.BaseDictionary.Clear | src/collections/base_dictionary.h:57-60 | `clear` leaves the dictionary empty |
| BaseDictionaries.BaseDictionary.Keys | src/collections/base_dictionary.h:89-98 | `keys` lists every key once, in ascending order, and nothing else |
| Dictionaries.Dictionary.constructor | src/collections/dictionary.h:26 | a new dictionary is empty |
| Dictionaries.Dictionary.FromMap | src/collections/dictionary.h:29-31 | the dictionary holds a copy of the given map |
| Dictionaries.Dictionary.Set | src/collections/dictionary.h:39-56 | `set` is `insert`: the map gains the pair only when the key is missing, so `get` afterwards returns the value stored before, or the new value for a new key |
| MultiDictionaries.MultiDictionary.constructor | src/collections/multi_dictionary.h:28-30 | a new dictionary is empty |
| MultiDictionaries.MultiDictionary.FromMap | src/collections/multi_dictionary.h:33-36 | the dictionary holds a copy of the given map |
| MultiDictionaries.MultiDictionary.SetOne | src/collections/multi_dictionary.h:78-81 | `set(key, value)` inserts a one-element vector only when the key is missing; a stored vector is kept as it was |
| MultiDictionaries.MultiDictionary.SetAll | src/collections/multi_dictionary.h:87-90 | `set(key, vector)` inserts the vector only when the key is missing; a stored vector is kept as it was |
| MultiDictionaries.MultiDictionary.Add | src/collections/multi_dictionary.h:97-107 | `add(key, value)` pushes the value at the back of the vector under key (creating it when missing): `getlist` afterwards is the old list plus the value |
| MultiDictionaries.MultiDictionary.AddAll | src/collections/multi_dictionary.h:114-127 | `add(key, vector)` appends the items in order (or stores the vector for a new key): `getlist` afterwards is the old list followed by the vector |
| Multimaps.Multimap.constructor | src/collections/multimap.h:39 | a new multimap is empty |
| Multimaps.Multimap.FromMap | src/collections/multimap.h:41-43 | the multimap holds a copy of the given map |
| Multimaps.Multimap.SetOne | src/collections/multimap.h:125-135 | `set(key, value)` replaces whatever is under key by the one-element vector: `get` is the value and `get_sequence` is [value] |
| Multimaps.Multimap.SetAll | src/collections/multimap.h:141-151 | `set(key, vector)` replaces whatever is under key by the vector: `get_sequence` is the vector |
| Multimaps.Multimap.Add | src/collections/multimap.h:158-168 | `add(key, value)` pushes the value at the back of the vector under key (creating it when missing) and leaves every other key's sequence unchanged |
| Multimaps.Multimap.AddAll | src/collections/multimap.h:175-188 | `add(key, vector)` appends the items in order (or stores the vector for a new key): `get_sequence` afterwards is the old sequence followed by the vector |
| Multimaps.Multimap.Remove | src/collections/multimap.h:193-199 | `remove` erases the key if present and nothing else; afterwards the key is absent and the size has dropped by one exactly when it was present |
| Multimaps.Multimap.Clear | src/collections/multimap.h:202-205 | `clear` leaves the multimap empty |
| Multimaps.Multimap.Keys | src/collections/multimap.h:234-245 | `keys` lists every key once, in ascending order, and nothing else |
| PathGeneric.LastSeparator | src/_path/generic.cpp:20-35 | the position of the last separator: it holds sep (or alt_sep when alt_sep is not '\0'), nothing after it is a separator, and it is -1 when there is none |
| PathGeneric.SplitText | src/_path/generic.cpp:13-59 | `_split_text` writes root and ext with root + ext == full_path; ext is non-empty exactly when the last ext_sep follows the last separator and the file name before it is not only ext_sep characters; then root stops at the last ext_sep and ext starts with ext_sep and holds no separator and no other ext_sep |
| PathGeneric.LeadingDotsOnly | src/_path/generic.cpp:43-58 | a file name of leading dots and a stem without dots (a hidden file such as `/home/.bashrc`) has no extension |
| PathGeneric.StemAndExtension | src/_path/generic.cpp:37-58 | a stem that does not start with a dot followed by `.ext` has an extension, and it starts at that last dot (`/tmp/archive.tar.gz` has `.gz`) |
| PathPosix.TailStart | src/_path/posix.cpp:17-21 | the position after the last '/', or 0: the character before it is '/', and no '/' follows |
| PathPosix.Basename | src/_path/posix.cpp:17-21 | `_basename` is a suffix of p with no '/', preceded by '/' when it is not the whole of p: the final component |
| PathPosix.DirnameShape | src/_path/posix.cpp:23-34 | p is the `_dirname` result, a run of '/' and the `_basename` result; the directory is empty exactly when p has no '/'; it ends with '/' only when made of '/' alone, and is then kept untrimmed |
| PathPosix.TrimmedHead | src/_path/posix.cpp:28-31 | trimming a head that is not all separators leaves a non-empty text not ending in '/', followed in the head only by '/' characters |
| PathPosix.DirnameExamples | tests/tests_path.cpp:13-57 | `dirname` of `bar` is empty, of `/bar` is `/`, of `/foo/bar` is `/foo`; `basename` of `/foo/bar.txt` is `bar.txt` |
| PathPosix.Join | src/_path/posix.h:34-73 | `join`'s in-place folding gives exactly `Joined(a, parts)`, and `a` itself when there are no further parts |
| PathPosix.JoinedAppend | src/_path/posix.h:34-54 | joining one more component is one more `_join` step on the path built so far |
| PathPosix.JoinAbsoluteDiscards | src/_path/posix.h:56-59 | an absolute component discards every component before it: the result is joined from it onwards |
| PathPosix.JoinedIsAbsolute | src/_path/posix.h:34-73 | the joined path is absolute exactly when the first part or some later component is |
| PathPosix.JoinedExtends | src/_path/posix.h:34-54 | with no absolute component the result starts with the first part |
| PathPosix.JoinedSingleSeparators | src/_path/posix.h:41-57 | separators are inserted only as needed: from parts without a doubled '/', none absolute, the join has no doubled '/' |
| PathPosix.JoinStepSingleSeparators | src/_path/posix.h:41-48 | one `_join` step on texts without a doubled '/' makes none |
| PathPosix.JoinedEmptyLast | src/_path/posix.h:58-59 | an empty last part leaves a path ending with a separator, or empty when everything before it was empty |
| Path.PrefixAndSuffix | src/path.cpp:14-34 | `prefix_and_suffix` fails with ArgumentError exactly when the pattern holds '/'; otherwise prefix + "*" + suffix is the pattern, cut at its last '*', or (pattern, "") when there is no '*' |
| ReArg.ArgRegex.constructor | src/re/arg_regex.h:74-77 | a new ArgRegex keeps the pattern, has no groups, and holds the rewritten pattern, parts and keys that parsing the pattern from the start state gives |
| ReArg.ArgRegex.Parse | src/re/arg_regex.cpp:58-132 | `_parse`'s loop computes exactly the state machine `Feed` over the pattern: the rewritten pattern, the parts it appends (the last one only when non-empty) and the keys it appends; the other fields are unchanged |
| ReArg.ArgRegex.Search | src/re/arg_regex.cpp:27-46 | `search` returns whether the engine found a match; then the groups map each matched sub-match i to the (i-1)-th key and the group list holds the matched sub-matches in order, and otherwise both are empty. It reports UndefinedBehaviour exactly when a match was found and a matched sub-match has no key, where the source reads `_keys` past its end |
| ReArg.ArgAfterSearch | src/re/arg_regex.cpp:27-56 | after a search that found a match, with distinct keys, `arg` of each route key is the sub-match of its group when the group took part and default_val when it did not |
| ReArg.CapturedGroups | src/re/arg_regex.cpp:34-42 | with distinct keys, every matched sub-match i that has a key is found under key i-1, and the groups hold exactly the keys whose sub-match took part; sub-matches past the last key add nothing, as a search that checks the bound of `_keys` would store |
| ReArg.GroupWithoutArgument | src/re/arg_regex.cpp:27-46 | a route made of one group and no argument, such as `(\d+)`, parses to no key, so a match in which its group takes part reaches the out-of-range read of `_keys` |
| ReArg.FeedAppend | src/re/arg_regex.cpp:62-124 | the state machine is a left fold: feeding a + b is feeding b after a |
| ReArg.FeedLiteral | src/re/arg_regex.cpp:66-87 | text without '<' or '(' goes into the current part unchanged and into the pattern with each '/' escaped |
| ReArg.FeedDoubleAngle | src/re/arg_regex.cpp:88-94 | "<<" is a literal: it is added to both the pattern and the current part |
| ReArg.FeedName | src/re/arg_regex.cpp:103-114 | in the argument-name state, characters other than '>' accumulate in the name |
| ReArg.FeedCons | src/re/arg_regex.cpp:62-124 | feeding a first character is one step of the machine |
| ReArg.FeedArgument | src/re/arg_regex.cpp:88-114 | "<name>" closes the current part, records the name as the next key and adds nothing to the pattern |
| ReArg.FeedGroup | src/re/arg_regex.cpp:115-122 | "(" body ")" with no ')' inside goes into the pattern unchanged and leaves the current part alone |
| ReArg.FeedRegexBody | src/re/arg_regex.cpp:115-122 | inside a group, characters other than ')' are copied to the pattern |
| ReArg.SlashEscapedWithoutSlash | src/re/arg_regex.cpp:76-80 | text without '/' is not changed by the escaping of '/' |
| ReArg.ParseLiteralArgumentGroup | tests/re/tests_arg_regex.cpp:22-28 | a route shaped like `\w{2}\s{5}<hello>([\w\s]+)` parses to the literal as its one part, the name as its one key, and the literal plus the group as the pattern |
| ReArg.ParseDoubleAngleLiteralGroup | tests/re/tests_arg_regex.cpp:14-19 | a route shaped like `<<hello>>([\w\s]+)` has no key, the whole literal as its one part, and the pattern unchanged |
| Letter.RangeOf | src/unicode/letter.cpp:69-105 | the first case range at or after i holding c, and none exactly when no such range holds it |
| Letter.RangeOfUnique | src/unicode/letter.cpp:69-105 | in sorted, non-overlapping ranges the range holding c is the only one, so any search finds it |
| Letter.To | src/unicode/letter.cpp:62-108 | `_to`'s binary search returns exactly what mapping c through the one range holding it gives (`ToSpec`), with the found flag |
| Letter.ToBadCase | src/unicode/letter.cpp:64-67 | a case outside Upper..Title gives the replacement character, not found |
| Letter.ToNotFound | src/unicode/letter.cpp:97-107 | for a valid case, c is reported not found exactly when no range holds it, and is then returned unchanged |
| Letter.ToOrdinaryDelta | src/unicode/letter.cpp:76-94 | inside a range with an ordinary delta, c maps to c + delta, found |
| Letter.ToAlternating | src/unicode/letter.cpp:79-92 | inside an alternating Upper/Lower run, the result stays in c's pair of the run, at the odd offset for Lower and the even offset for Upper and Title |
| Letter.ToUpper | src/unicode/letter.cpp:116-129 | `to_upper` lowers 'a'..'z' by 32 to upper case, keeps every other ASCII code, and maps code points above ASCII through the Upper case table |
| Letter.ToLower | src/unicode/letter.cpp:131-144 | `to_lower` raises 'A'..'Z' by 32 to lower case, keeps every other ASCII code, and maps code points above ASCII through the Lower case table |
| Letter.AsciiCaseRoundTrip | src/unicode/letter.cpp:116-144 | on ASCII, lowering after raising is lowering and raising after lowering is raising; the two are inverse on letters |
| Letter.OrbitOf | src/unicode/letter.cpp:28-48 | the orbit entry for c, absent exactly when no entry starts at c |
| Letter.OrbitOfAt | src/unicode/letter.cpp:32-48 | in a sorted orbit table the entry found for c is the one listed at its index |
| Letter.SimpleFold | src/unicode/letter.cpp:16-60 | `simple_fold`'s lower-bound search returns exactly `SimpleFoldSpec`: c itself outside 0..MAX_WCHAR_T, the ASCII fold table below its size, the orbit successor when listed, and otherwise to_lower or, when that changes nothing, to_upper |
| Letter.SimpleFoldOrbit | src/unicode/letter.cpp:45-48 | a code point listed in the orbit table folds to its successor there |
| Letter.SimpleFoldAsciiLetter | src/unicode/letter.cpp:50-59 | an ASCII letter outside the fold tables folds to its other case |
| StringUtils.Count | src/string_utils.cpp:229-241 | `count`'s loop returns the number of characters equal to ch |
| StringUtils.SchemeEnd | src/string_utils.cpp:36-53 | the scan stops at the first '/' or ':' from i, or at the end, and passes neither before it |
| StringUtils.UrlSplitType | src/string_utils.cpp:32-64 | when a scheme is found, scheme + ":" + data is the url and the scheme holds no '/' or ':'; otherwise the scheme is empty and the data is the whole url |
| StringUtils.UrlSplitTypeAtColon | src/string_utils.cpp:32-64 | a url whose first ':' comes after a non-empty text without '/' is split there (`http://example.com/file.html` gives `http`) |
| StringUtils.UrlSplitTypeLoop | src/string_utils.cpp:32-64 | `url_split_type`'s character loop writes exactly the (scheme, data) of `UrlSplitType` |
| StringUtils.ExtendAppend | src/string_utils.cpp:99-110 | reading one more character only changes the last piece or adds a new one |
| StringUtils.SplitOfEmpty | src/string_utils.cpp:93-96 | `split("")` gives no piece, where one empty piece is what the join round trip needs |
| StringUtils.Split | src/string_utils.cpp:90-114 | `split`'s loop gives exactly the pieces between the delimiters (no piece for the empty string) |
| StringUtils.PiecesCount | src/string_utils.cpp:90-114 | a string splits into one more piece than it has delimiters |
| StringUtils.JoinPieces | src/string_utils.cpp:90-114 | joining the pieces with the delimiter gives back the string |
| StringUtils.PiecesHaveNoDelimiter | src/string_utils.cpp:90-114 | no piece contains the delimiter |
| StringUtils.PiecesWithoutDelimiter | src/string_utils.cpp:90-114 | a text without the delimiter is one piece, itself |
| StringUtils.PiecesAround | src/string_utils.cpp:90-114 | cutting at a delimiter splits the pieces there: the pieces of x + d + y are those of x followed by those of y |
| StringUtils.JoinAppend | src/string_utils.cpp:90-114 | joining two runs of pieces puts one delimiter between their joins |
| StringUtils.PiecesCons | src/string_utils.cpp:90-114 | one more character on the left opens a new first piece (a delimiter) or extends the first piece |
| StringUtils.Reverse | src/string_utils.cpp:137-150 | `std::reverse`: the result has the input's length and holds its i-th character from the end at position i |
| StringUtils.RSplit | src/string_utils.cpp:116-159 | `rsplit`'s right-to-left scan returns exactly `RSplitAsWritten`: no piece for "", one empty piece for n == 0, the intended pieces when there are at least n delimiters, and an empty first piece otherwise |
| StringUtils.RSplitStep | src/string_utils.cpp:133-146 | one more character on the left of the scanned text adds one delimiter to the count or extends the first piece |
| StringUtils.RSplitEnd | src/string_utils.cpp:148-156 | where the scan stops, the result is the single collected piece, or the text left of the scan position followed by the pieces collected |
| StringUtils.RSplitIntendedJoins | src/string_utils.cpp:116-159 | the intended rsplit makes min(n, delimiters) splits, from the right, and its pieces join back to the string |
| StringUtils.JoinKept | src/string_utils.cpp:155 | joining the first pieces into one and keeping the others apart joins back to the same text |
| StringUtils.RSplitAgrees | src/string_utils.cpp:116-159 | with at least n delimiters, `rsplit` makes its n splits as intended |
| StringUtils.RSplitEdgeCases | src/string_utils.cpp:123-127 | as written, "" gives no piece and n == 0 gives one empty piece, where the intended rsplit gives [""] and [s] |
| StringUtils.RSplitLosesFirstPiece | src/string_utils.cpp:148-156 | with more allowed splits than delimiters, `rsplit("a:b", ':', 5)` gives ["", "b"] where the intended result is ["a", "b"] |
| StringUtils.LSplitOne | src/string_utils.cpp:161-184 | `lsplit_one` returns the text before the first delimiter (which holds no delimiter) and the text after it; (s, "") when there is none |
| StringUtils.LTrim | src/string_utils.cpp:186-199 | `ltrim`'s loop removes leading copies of to_trim until the text no longer starts with one (`LTrimmed`) |
| StringUtils.RTrim | src/string_utils.cpp:201-214 | `rtrim`'s loop removes trailing copies of to_trim until the text no longer ends with one (`RTrimmed`) |
| StringUtils.Trim | src/string_utils.cpp:216-227 | `trim` is ltrim then rtrim |
| StringUtils.LTrimmedShape | src/string_utils.cpp:186-192 | ltrim removes whole leading copies of to_trim and nothing else, and the result does not start with to_trim |
| StringUtils.RTrimmedShape | src/string_utils.cpp:201-207 | rtrim removes whole trailing copies of to_trim and nothing else, and the result does not end with to_trim |
| StringUtils.PowerAppend | src/string_utils.cpp:201-207 | k copies of t followed by one more are k + 1 copies |
| StringUtils.RTrimmedIsPrefix | src/string_utils.cpp:201-207 | rtrim keeps a prefix of its input |
| StringUtils.TrimIdempotent | src/string_utils.cpp:216-227 | trimming twice is trimming once |
| StringUtils.CharsLTrimmedShape | tests/tests_string_utils.cpp:409-414 | the character-set left trim the tests expect removes a prefix made only of members of to_trim and the result starts with a non-member |
| StringUtils.CharsRTrimmedShape | tests/tests_string_utils.cpp:423-428 | the character-set right trim removes a suffix made only of members of to_trim and the result ends with a non-member |
| StringUtils.CharsTrimmedEdges | tests/tests_string_utils.cpp:437-442 | neither end of the character-set trim of a text is a member of to_trim |
| StringUtils.CharsLTrimmedPrefix | tests/tests_string_utils.cpp:409-414 | a leading run of members of to_trim is removed whatever follows |
| StringUtils.CharsRTrimmedSuffix | tests/tests_string_utils.cpp:423-428 | a trailing run of members of to_trim is removed whatever precedes |
| StringUtils.OneCharTrimsAgree | src/string_utils.cpp:186-207 | for a one-character to_trim, the default " " among them, ltrim and rtrim as written agree with the character-set trims |
| StringUtils.LTrimCustomChars | tests/tests_string_utils.cpp:409-414 | `ltrim("%%%Hello, World", "%eH")` as written returns its input, where the character-set trim gives the expected "llo, World" |
| StringUtils.RTrimCustomChars | tests/tests_string_utils.cpp:423-428 | `rtrim(" -- Hello, World -- ", " World-")` as written returns its input, where the character-set trim gives the expected " -- Hello," |
| StringUtils.CutEdges | src/string_utils.cpp:243-267 | `cut_edges` keeps the middle of the text between left_n and right_n characters when their sum fits in the length, and the whole text when it does not, trimmed of spaces when trim_whitespace is set; when the `size_t` sum left_n + right_n overflows and its wrapped value fits in the length, it throws out_of_range |
| StringUtils.CutEdgesMiddle | src/string_utils.cpp:248-259 | the dropped left characters, the result and the dropped right characters put together give the text back |
| StringUtils.CutEdgesWrapThrows | src/string_utils.cpp:248-259 | left_n = 2^64 - 1 with right_n = 2 passes the length test of a one-character text and the right erasure throws out_of_range |
| StringUtils.ReplaceAtWithin | src/string_utils.cpp:283 | `std::string::replace` of a range inside the copy puts the new text in place of that range |
| StringUtils.Replace | src/string_utils.cpp:269-288 | `replace`'s loop returns exactly `ReplaceDrift`: occurrences are searched in src from the index, replaced in the copy, and the search moves on by new_sub's length |
| StringUtils.ReplaceSameLengthFrom | src/string_utils.cpp:269-288 | while the copy agrees with src from the index and old_sub and new_sub have the same length, the rest of the result is the rest of src with every occurrence replaced |
| StringUtils.DriftNone | src/string_utils.cpp:277-281 | when nothing is found from the index on, `replace` returns the copy as it is |
| StringUtils.DriftStep | src/string_utils.cpp:277-284 | one round of the loop: the occurrence found in src is replaced in the copy and the search resumes new_sub's length after it |
| StringUtils.ReplaceAllFrom | src/string_utils.cpp:277-284 | replacing every occurrence from the index on is the text before the first one, the replacement, and the rest replaced in turn |
| StringUtils.ReplaceAllFromNone | src/string_utils.cpp:277-281 | with no occurrence from the index on there is nothing to replace |
| StringUtils.ReplaceSameLength | src/string_utils.cpp:269-288 | when old_sub and new_sub have the same length, `replace` replaces every occurrence |
| StringUtils.ReplaceDrifts | src/string_utils.cpp:277-284 | `replace("aaaaaa", "aaa", "b")` gives "bbbb" where replacing every occurrence gives "bb" |
| StringUtils.ReplaceEmptyOldSub | src/string_utils.cpp:273-285 | with an empty old_sub and a one-character new_sub, replace puts |src| + 1 copies of new_sub in front of src, where the replace_EmptySub test expects src unchanged |
| StringUtils.ReplaceEmptyNewSubNeverEnds | src/string_utils.cpp:273-285 | with an empty new_sub, a round at an occurrence p leaves the index at p, where the search finds p again, and leaves a copy no shorter than p, so the erasure never throws and the loop never ends |
| StringUtils.ReplaceIntended | tests/tests_string_utils.cpp:533-565 | the replace the tests expect returns src for an empty old_sub, leaves a text without occurrences alone, and changes the length by the length difference once per occurrence, an empty new_sub included |
| StringUtils.Pieces | src/string_utils.cpp:90-114 | the reference split, which the intended `split` and `rsplit` are stated against, always has at least one piece |
| Encoding.HexDigitValue | src/encoding.cpp:211-213 | each upper-case hex digit written by `escape` reads back as the nibble it stands for |
| Encoding.Escape | src/encoding.cpp:203-215 | an unreserved or safe character is written as itself; any other byte becomes '%' and two upper-case hex digits whose value is the byte |
| Encoding.Quote | src/encoding.cpp:93-104 | `quote`'s loop writes the escapes of the characters, in order |
| Encoding.QuotedLength | src/encoding.cpp:93-104 | the quoted text is the input's length plus two for every escaped character |
| Encoding.UnquoteQuoted | src/encoding.cpp:93-104 | percent-decoding the output of `quote` gives back any byte string, whatever safe set without '%' is used |
| Encoding.UnquoteEscape | src/encoding.cpp:203-215 | percent-decoding reads one escape back to the byte it came from, whatever follows it |
| Encoding.EncodeUrl | src/encoding.cpp:18-91 | `encode_url`'s state machine loop writes exactly the text of the transition function `Run` from the scheme state |
| Encoding.RunAt | src/encoding.cpp:18-91 | the state machine's output for a suffix is the step on its first character followed by the run on the rest |
| Encoding.RunInvariantStep | src/encoding.cpp:18-91 | the loop invariant "written so far + run of what is left == final output" survives one character |
| Encoding.RunStage | src/encoding.cpp:38-86 | within one state, text that does not end the state is copied (scheme, host) or quoted with the state's safe set (path, query, fragment) |
| Encoding.RunEnd | src/encoding.cpp:38-83 | the character that ends a state is written as itself and moves to the next state |
| Encoding.RunStretch | src/encoding.cpp:38-86 | a stretch of a state followed by its ending character is the stage text, the character and the run of the next state |
| Encoding.EncodeUrlParts | src/encoding.cpp:18-91 | for a full URL, scheme, the two slashes and host are copied; the path is quoted keeping '/', the query keeping '&' and '=', the fragment keeping only unreserved characters |
| Encoding.EncodeUrlHead | src/encoding.cpp:38-61 | everything up to the third '/' is copied and the rest is encoded from the path state |
| Encoding.EncodeUrlTail | src/encoding.cpp:62-86 | path, query and fragment are each quoted with their own safe set, and '?' and '#' are kept |
| Encoding.EncodeUrlShort | src/encoding.cpp:38-53 | a URL that never reaches a third '/' is returned unchanged |
| Encoding.EncodeAscii | src/encoding.cpp:129-157 | STRICT fails exactly when some byte is above 127 and otherwise returns the bytes; IGNORE returns the empty text; REPLACE returns one '?' per byte |
| Encoding.BytesOfBytes | src/encoding.cpp:134 | the unsigned-char cast leaves a byte string unchanged |
| Encoding.AsciiFilteredKeeps | src/encoding.cpp:146-150 | the corrected IGNORE/REPLACE: REPLACE keeps the length and puts '?' exactly at the non-ASCII bytes, IGNORE keeps only ASCII bytes, and an ASCII text comes back unchanged |
| Encoding.ReplaceKeepsPositions | src/encoding.cpp:148-150 | the corrected REPLACE keeps every ASCII byte in place and puts '?' at each other byte |
| Encoding.IgnoreKeepsAscii | src/encoding.cpp:146-147 | the corrected IGNORE leaves only ASCII bytes |
| Encoding.AsciiTextUnchanged | src/encoding.cpp:146-150 | the corrected IGNORE and REPLACE return an ASCII text as it is |
| Encoding.EncodeAsciiDropsAscii | src/encoding.cpp:146-150 | on "a" the corrected IGNORE and REPLACE both give "a", where the code as written gives "" and "?" |
| Encoding.EncodeIso88591Shape | src/encoding.cpp:159-190 | STRICT never fails (a sign-extended char is never above 255) and returns the bytes; IGNORE turns every character into 's'; REPLACE into '?' |
| Encoding.EncodeIso88591 | src/encoding.cpp:159-190 | a successful result has one character per input character |
| Encoding.EncodeIso88591Intended | src/encoding.cpp:159-190 | the corrected codec never fails |
| Encoding.EncodeIso88591IntendedAgrees | src/encoding.cpp:159-190 | the corrected codec returns the bytes under every mode (so a byte string comes back as it is), while the code as written gives "s" for "a" under IGNORE |
| Encoding.Encode | src/encoding.cpp:107-127 | an unknown encoding is an error; UTF-8 returns the text; latin-1 and ISO-8859-1 share one codec; ASCII STRICT on bytes succeeds exactly when all are ASCII |
| Utf8.First | src/unicode/utf8.cpp:25-55 | every entry of the first-byte table is one of the nine classes (ASCII, invalid, or an accept-range index with a length) |
| Utf8.AcceptRange | src/unicode/utf8.cpp:66-72 | every accept range for the second byte lies within the continuation bytes 0x80..0xBF |
| Utf8.WidthOfFirst | src/unicode/utf8.cpp:51-54 | the table announces two bytes exactly for lead bytes C2..DF, three for E0..EF, four for F0..F4, and a one-byte case for every other byte |
| Utf8.DecodeSymbol | src/unicode/utf8.cpp:78-135 | the empty input gives (0, 0); an ASCII byte gives itself with width 1; a continuation byte, C0, C1 or F5..FF gives (U+FFFD, 1); the width never exceeds the input or 4, and width 1 means ASCII or the error value |
| Utf8.Encode | src/unicode/utf8.cpp:78-135 | the reference encoder: one to four bytes, a single byte exactly below U+0080, and continuation bytes after the first |
| Utf8.DecodeEncode | src/unicode/utf8.cpp:78-135 | every scalar value is decoded from its own encoding, with the encoding's width, whatever bytes follow it |
| Utf8.DecodedIsEncoding | src/unicode/utf8.cpp:99-134 | conversely, whenever the decoder consumes two or more bytes, it returned a scalar value of at least U+0080 whose encoding is exactly those bytes: no overlong form, surrogate or value above U+10FFFF is accepted |
| Utf8.DecodeRejects | src/unicode/utf8.cpp:99-132 | a non-ASCII input that does not begin with the encoding of any scalar value decodes as (U+FFFD, 1) |
| Utf8.DecodeTruncated | src/unicode/utf8.cpp:101-104 | a multi-byte encoding cut short decodes as (U+FFFD, 1) |
| Utf8.DecodeWidthSufficient | src/unicode/utf8.cpp:99-134 | a multi-byte symbol decodes the same whatever bytes are appended |
| Utf8.DecodeTwo | src/unicode/utf8.cpp:106-115 | a lead byte C2..DF followed by a continuation byte decodes to its two-byte payload |
| Utf8.DecodeThree | src/unicode/utf8.cpp:106-126 | a lead byte E0..EF with an accepted second byte and a continuation third byte decodes to its three-byte payload |
| Utf8.DecodeFour | src/unicode/utf8.cpp:106-134 | a lead byte F0..F4 with an accepted second byte and two continuation bytes decodes to its four-byte payload |
| Utf8.ShapeTwo | src/unicode/utf8.cpp:106-115 | a two-byte result means a C2..DF lead byte, a continuation byte and the payload of the two |
| Utf8.ShapeThree | src/unicode/utf8.cpp:106-126 | a three-byte result means an E0..EF lead byte, an accepted second byte, a continuation third byte and their payload |
| Utf8.ShapeFour | src/unicode/utf8.cpp:106-134 | a four-byte result means an F0..F4 lead byte, an accepted second byte, two continuation bytes and their payload |
| Utf8.SecondByte3 | src/unicode/utf8.cpp:53-72 | the accept ranges rule out overlong three-byte forms after E0 and surrogates after ED |
| Utf8.SecondByte4 | src/unicode/utf8.cpp:54-72 | the accept ranges rule out overlong four-byte forms after F0 and values above U+10FFFF after F4 |
| DatetimeInternal.CRem | src/datetime.h:141 | C++ `%` on integers: it completes C++ truncating division (`a == b * (a / b) + a % b`) and carries the sign of the dividend |
| DatetimeInternal.Mod | src/datetime.h:138-142 | `_mod` is the floor remainder: it has the divisor's sign, is smaller than the divisor in magnitude, and completes floor division |
| DatetimeInternal.ModIsFloorRemainder | src/datetime.h:141 | `(b + a % b) % b` computed with C++ operators lies in the divisor's range and completes floor division |
| DatetimeInternal.ModIsRemainder | src/datetime.h:138-142 | for a positive divisor `_mod` is the Euclidean remainder |
| DatetimeInternal.FloorDivUnique | src/datetime.h:138-156 | a quotient and a remainder with the divisor's sign are the floor ones |
| DatetimeInternal.FloorDivMod | src/datetime.h:152-156 | the corrected `_div_mod`: quotient and remainder recompose the dividend, and the remainder has the divisor's sign and range |
| DatetimeInternal.TrueDivAgreesWithFloor | src/datetime.h:145-156 | `_true_div` equals floor division when the operands have the same sign, or the truncated quotient is negative and inexact; there `_div_mod` recomposes the dividend |
| DatetimeInternal.DivModOfNatural | src/datetime.h:152-156 | for a non-negative dividend and a positive divisor `_div_mod` is Euclidean division |
| DatetimeInternal.TrueDivExactNegative | src/datetime.h:145-150 | `_true_div(-2, 1)` is -3, one below the floor quotient -2, because an exact negative quotient is decremented too |
| DatetimeInternal.TrueDivSmallNegative | src/datetime.h:145-156 | `_true_div(-1, 2)` is 0 where the floor quotient is -1, so `_div_mod(-1, 2)` gives a pair that does not recompose -1 |
| DatetimeInternal.Cmp | src/datetime.h:158-167 | 0 exactly for equal operands, 1 exactly for a greater left one, -1 exactly for a smaller one |
| DatetimeInternal.LexCmpOfTriple | src/datetime.h:169-182 | on three elements the array comparison is decided by the first pair that differs |
| DatetimeInternal.LexCmpProperties | src/datetime.h:169-182 | the array comparison is -1, 0 or 1, is 0 exactly for equal arrays and is antisymmetric |
| DatetimeInternal.CmpArr | src/datetime.h:169-182 | `_cmp_arr`'s loop returns the lexicographic comparison of the first n elements: 0 exactly when they are equal, otherwise the comparison of the first differing pair |
| DatetimeInternal.TablesAgree | src/datetime.h:186-206 | the month tables agree: each month starts where the previous one ends, and a common year has 365 days |
| Calendar.CycleLengths | src/datetime.h:223-225 | the 400-, 100- and 4-year cycle lengths used by `_ord2ymd` are `_days_before_year(401)`, `(101)` and `(5)` |
| Calendar.DaysBeforeYearSucc | src/datetime.cpp:54-64 | `_days_before_year` counts whole years: it is 0 for year 1 and grows by 365, or 366 in a leap year, from one year to the next |
| Calendar.DaysBeforeYearMonotone | src/datetime.cpp:59-64 | a later year starts at least 365 days per year later |
| Calendar.DaysInMonth | src/datetime.cpp:66-75 | every month has 28 to 31 days |
| Calendar.DaysBeforeMonth | src/datetime.cpp:77-82 | a month starts between day 0 and day 335 of its year |
| Calendar.MonthsTile | src/datetime.cpp:66-82 | the months tile the year: January starts at 0, each month starts where the previous one ends, and December ends at the year's length |
| Calendar.MonthsOrdered | src/datetime.cpp:66-82 | an earlier month ends no later than a later month starts |
| Calendar.Ymd2OrdInYear | src/datetime.cpp:84-93 | the ordinal of a valid date lies within its year's span of ordinals |
| Calendar.Ymd2OrdInjective | src/datetime.cpp:84-93 | two valid dates with the same ordinal are the same date |
| Calendar.FirstOrdinal | src/datetime.cpp:84-93 | 1 January of year 1 is ordinal 1 |
| Calendar.LastOrdinal | src/datetime.h:184 | 31 December 9999 is ordinal 3652059, the last day of year 9999 |
| Calendar.OrdinalInRangeIffYearInRange | src/datetime.cpp:84-93 | a valid date's ordinal is at least 1, and at most 3652059 exactly when its year is at most 9999 |
| Calendar.YearDecomposition | src/datetime.cpp:118-154 | for year 1 + 400a + 100b + 4c + d, the days before it are 146097a + 36524b + 1461c + 365d, and it is leap exactly when d = 3 and (c != 24 or b = 3), the leap test `_ord2ymd` asserts |
| Calendar.CycleOffset | src/datetime.cpp:118-144 | the days before a year split into whole 400-, 100-, 4- and 1-year cycles |
| Calendar.CycleLeapness | src/datetime.cpp:153-154 | the leap test of `_ord2ymd`, from the cycle counts, agrees with `_is_leap` |
| Calendar.DivModUnsigned | src/datetime.cpp:119-142 | `_div_mod` on the unsigned day counts of `_ord2ymd` is Euclidean division |
| Calendar.CycleSplit | src/datetime.cpp:118-149 | the successive divisions give at most 4 centuries, 24 four-year cycles and 4 single years; a count of 4 happens only on the last day of a cycle |
| Calendar.MonthEstimate | src/datetime.cpp:155-164 | the month estimate `(n + 50) >> 5` is exact or one too large, and the one-step correction lands in the month containing the offset |
| Calendar.EndOf400Years | src/datetime.cpp:145-149 | a century count of 4 stands for 31 December of the last year of the 400-year cycle |
| Calendar.EndOf4Years | src/datetime.cpp:145-149 | a year count of 4 stands for 31 December of the last year of the 4-year cycle |
| Calendar.MonthAndDay | src/datetime.cpp:153-168 | the month search returns a valid month and day whose offset in the year is the given one |
| Calendar.Ord2Ymd | src/datetime.cpp:95-169 | `_ord2ymd` inverts `_ymd2ord`: the returned date is valid and has ordinal n (the year truncated to 16 bits, which changes nothing up to ordinal 3652059) |
| Calendar.CheckDateFields | src/datetime.cpp:551-573 | accepts exactly the valid dates of years 1..9999 and throws invalid_argument otherwise |
| Calendar.CheckedDatesAreOrdinals | src/datetime.cpp:551-573 | every accepted date has an ordinal in 1..3652059 |
| Calendar.FirstDayOfYear | src/datetime.cpp:2554-2557 | 4 January is three days after 1 January, which is ordinal 1 or at least 7 |
| Calendar.Week1MondayOfFirstDay | src/datetime.cpp:2554-2566 | from the ordinal of 1 January the computation yields a Monday at least 1 whose week contains 1 January + 3 |
| Calendar.IsoWeek1Monday | src/datetime.cpp:2554-2566 | `_iso_week1monday` is the Monday of the week containing 4 January, the start of ISO week 1, and is at least ordinal 1 |
| Dates.Date.ToOrdinal | src/datetime.cpp:1082-1085 | the ordinal of a valid date lies in 1..3652059 |
| Dates.MakeDate | src/datetime.cpp:948-954 | the constructor keeps exactly the fields `_check_date_fields` accepts, giving a valid date, and throws invalid_argument otherwise |
| Dates.FromOrdinal | src/datetime.cpp:968-972 | for an ordinal in 1..3652059 the result is the unique valid date with that ordinal; in general it is the constructor on the (16-bit) fields of the date with that ordinal, with 0 read as 2^64 |
| Dates.SizeSumInRange | src/datetime.cpp:1139-1140 | the size_t sum of an ordinal and a day count passes the range test exactly when the true sum is in 1..3652059, and then equals it |
| Dates.Add | src/datetime.cpp:1137-1146 | Date + Timedelta succeeds exactly when the ordinal plus days() is in 1..3652059, and gives the date with that ordinal; otherwise out_of_range |
| Dates.Difference | src/datetime.cpp:1148-1153 | Date - Date is the normalised Timedelta of the difference of the ordinals |
| Dates.DifferenceThenAdd | src/datetime.cpp:1137-1153 | adding the difference of two dates to the second stays in range and gives back the first |
| Dates.Subtract | src/datetime.cpp:1155-1158 | Date - Timedelta succeeds exactly when the ordinal minus days() is in range, and gives that date; seconds and microseconds are ignored |
| Dates.Weekday | src/datetime.cpp:1160-1163 | the weekday is (ordinal + 6) mod 7, in 0..6 |
| Dates.IsoWeekday | src/datetime.cpp:1165-1175 | the ISO weekday is in 1..7 |
| Dates.IsoWeekdayIsWeekdayPlusOne | src/datetime.cpp:1160-1175 | the ISO weekday is the weekday plus one |
| Dates.NextDayNextWeekday | src/datetime.cpp:1160-1163 | the day after a date falls on the next weekday |
| Dates.FirstDateIsMonday | src/datetime.cpp:1167 | 1-Jan-0001 is a valid date and a Monday |
| Dates.CmpIsOrdinalOrder | src/datetime.cpp:925-946 | on valid dates the field-wise comparison is the comparison of ordinals |
| Dates.Trichotomy | src/datetime.cpp:1107-1135 | exactly one of <, == and > holds, == is equality of the fields, and <=, >= are the expected disjunctions |
| Dates.WeekOneMondayNearNewYear | src/datetime.cpp:2554-2566 | ISO week 1 starts on a Monday between two days before and four days after the end of the previous year |
| Dates.IsoYearWeeks | src/datetime.cpp:2554-2566 | an ISO year, from one week-1 Monday to the next, is 52 or 53 weeks long |
| Dates.WeekOneMondayMonotone | src/datetime.cpp:2554-2566 | week 1 moves forward by at least 52 weeks a year |
| Dates.IsoYearsOrdered | src/datetime.cpp:2554-2566 | a later ISO year starts no earlier than an earlier one ends |
| Dates.IsoWeekOneOfFirstYear | src/datetime.cpp:2554-2566 | ISO week 1 of year 1 starts on ordinal 1 |
| Dates.IsoWeekOneAfterLastYear | src/datetime.cpp:2554-2566 | ISO week 1 of year 10000 starts after 9999-12-31, so the last supported date is in ISO year 9999 |
| Dates.IsoCalendarUnique | src/datetime.cpp:1177-1205 | a day has at most one ISO (year, week, weekday), and its week is at most 53 |
| Dates.DateInYear | src/datetime.cpp:1082-1085 | a valid date's ordinal lies in its own year |
| Dates.IsoCalendarOf | src/datetime.cpp:1177-1205 | `iso_calendar` as written: its weekday is in 1..7 |
| Dates.IsoCalendar | src/datetime.cpp:1177-1205 | `iso_calendar` as written on a date: its weekday is in 1..7 |
| Dates.IsoCalendarIntendedOfIsIso | src/datetime.cpp:1177-1205 | the corrected `iso_calendar` gives the ISO calendar date of the day, in years 1..9999, with at most 53 weeks |
| Dates.IsoCalendarIntendedIsIso | src/datetime.cpp:1177-1205 | the corrected `iso_calendar` of a valid date is its ISO calendar date |
| Dates.IsoBeforeWeekOne | src/datetime.cpp:1187-1193 | a day before its year's week 1 lies in the previous ISO year, in the week and on the weekday counted from that year's week 1 |
| Dates.IsoAfterLastWeek | src/datetime.cpp:1195-1201 | a day on or after the next year's week 1 is in week 1 of the next ISO year |
| Dates.IsoWithinYear | src/datetime.cpp:1184-1186 | a day between its year's week 1 and the next is in its own ISO year, at the week and weekday of its offset |
| Dates.IsoCalendarAgreesFromWeekOne | src/datetime.cpp:1177-1205 | from week 1 of its year on, the as-written `iso_calendar` gives the ISO calendar date |
| Dates.IsoCalendarOfAgrees | src/datetime.cpp:1177-1205 | the same, stated on (year, ordinal) |
| Dates.OffsetWeeks | src/datetime.cpp:1184-1201 | a non-negative offset is its own size_t value; an offset of a whole ISO year or more gives week 52 or more, and a shorter one a week that fits in 16 bits |
| Dates.IsoCalendarBeforeWeekOne | src/datetime.cpp:1184-1194 | 1-Jan-2021 is in week 53 of ISO year 2020, but the as-written `iso_calendar` returns (2021, 9362, 7) because the negative offset wraps as a size_t |
| DatetimeText.Lf | src/datetime.cpp:293-298 | the result is the decimal text of num preceded by pad characters c, and is w long when the text is shorter than w, the text itself otherwise |
| DatetimeText.ZeroPaddedDigits | src/datetime.cpp:293-298 | zero-padding a natural number writes only digits, whose value is the number |
| DatetimeText.PaddedParses | src/datetime.cpp:293-298 | stol reads back any zero-padded number within the range of long |
| DatetimeText.NatToStringShort | src/datetime.cpp:295 | a number below 10^k has at most k digits, so padding to k gives exactly k characters |
| DatetimeText.Replace | src/datetime.cpp:339-355 | `_replace`'s loop, which searches again after the inserted text, replaces every non-overlapping occurrence of old, left to right, exactly as `ReplaceAll` |
| DatetimeText.ParseIsoformatDate | src/datetime.cpp:474-492 | a parsed date has '-' at positions 4 and 7 and fields narrowed to 16 bits |
| DatetimeText.IsoFormatDateRoundTrip | src/datetime.cpp:474-492 | every date that passes `_check_date_fields`, written as YYYY-MM-DD, is ten characters long and parses back to the same date |
| DatetimeText.IsoTextRoundTrip | src/datetime.cpp:474-492 | the same for any fields of at most four, two and two digits |
| DatetimeText.ParseDateFields | src/datetime.cpp:474-492 | three fields of widths 4, 2 and 2 that stol reads, joined by '-', parse to those values |
| DatetimeText.CheckedDayBound | src/datetime.cpp:551-573 | an accepted date has a four-digit year and two-digit month and day |
| DatetimeText.Components | src/datetime.cpp:499-520 | the component loop, when it succeeds, fills the four components and stops within the text |
| DatetimeText.ParseHhMmSsFf | src/datetime.cpp:494-549 | `_parse_hh_mm_ss_ff`'s loops compute exactly `ParseTime`, the recursive statement of the component and fraction rules |
| DatetimeText.ParseTimeOfComponents | src/datetime.cpp:494-549 | once the components are read, the text after them alone decides the result |
| DatetimeText.FractionAtEnd | src/datetime.cpp:522-548 | with no fraction, the result is the components narrowed to 16 bits and a zero microsecond |
| DatetimeText.FractionDigits | src/datetime.cpp:522-541 | a fraction of 3 digits counts milliseconds (scaled by 1000), one of 6 digits counts microseconds |
| DatetimeText.ColonComponent | src/datetime.cpp:506-519 | a field followed by ':' is stored and the loop moves on past the colon |
| DatetimeText.LastComponent | src/datetime.cpp:506-512 | the loop stops after a field at the end of the text or after the seconds |
| DatetimeText.ThreeComponents | src/datetime.cpp:499-520 | "HH:MM:SS" gives the three fields and stops at position 8 |
| DatetimeText.ParseHh | src/datetime.cpp:494-549 | "HH" parses to (HH, 0, 0, 0) |
| DatetimeText.ParseHhMm | src/datetime.cpp:494-549 | "HH:MM" parses to (HH, MM, 0, 0) |
| DatetimeText.ParseHhMmSs | src/datetime.cpp:494-549 | "HH:MM:SS" parses to (HH, MM, SS, 0) |
| DatetimeText.ParseHhMmSsF | src/datetime.cpp:494-549 | "HH:MM:SS.fff" and "HH:MM:SS.ffffff" parse with the fraction scaled to microseconds |
| DatetimeText.CheckTimeFields | src/datetime.cpp:575-604 | accepts exactly hour 0..23, minute and second 0..59, microsecond 0..999999 and fold 0 or 1; otherwise invalid_argument |
| DatetimeText.FormatTimeRoundTrip | src/datetime.cpp:300-337 | every time accepted by `_check_time_fields`, written by `_format_time` at any precision, parses back to the fields that precision keeps |
| DatetimeText.FormatFieldsRoundTrip | src/datetime.cpp:314-334 | each branch of the precision switch writes text that parses back to its fields |
| DatetimeText.FieldsParse | src/datetime.cpp:318-330 | the padded hour, minute and second are two characters each and read back |
| DatetimeText.FractionParses | src/datetime.cpp:327-330 | the padded fraction has its field's width (3 or 6) and reads back |
| DatetimeText.FormatTimeAutoKeepsZeroMicroseconds | src/datetime.cpp:304-308 | with AUTO and a zero microsecond, `_format_time` as written appends ".000000" to the "HH:MM:SS" that AUTO is meant to give |
| DatetimeText.FormatTimeIntendedRoundTrip | src/datetime.cpp:300-337 | the corrected AUTO also parses back to every field |
| DatetimeText.FormatTimeIntendedAutoLength | src/datetime.cpp:304-308 | the corrected AUTO writes 8 characters for a zero microsecond and 15 otherwise |
| DatetimeText.SecondsLength | src/datetime.cpp:323-325 | "HH:MM:SS" is 8 characters for valid fields |
| DatetimeText.MicrosecondsLength | src/datetime.cpp:329-331 | "HH:MM:SS.ffffff" is 15 characters for valid fields |
| DatetimeText.DivideAndRoundIntendedIsNearestEven | src/datetime.cpp:606-623 | the corrected `_divide_and_round` (on floor division) gives the quotient nearest to a / b, ties to even |
| DatetimeText.RoundsToNearestEven | src/datetime.cpp:612-620 | the rounding step applied to any floor quotient and remainder rounds half to even |
| DatetimeText.RoundingError | src/datetime.cpp:612-620 | the rounding step keeps q or moves to q + 1, leaving an error of at most half of b, with a tie only on an even quotient |
| DatetimeText.NearestEvenByError | src/datetime.cpp:612-620 | an error a - b q of at most half of b, with a tie only for even q, makes q the nearest-even quotient |
| DatetimeText.NearestEvenUnique | src/datetime.cpp:606-623 | at most one quotient rounds a / b half to even, so the rounding is well defined |
| DatetimeText.NearestEvenApart | src/datetime.cpp:606-623 | two different quotients cannot both be the nearest-even one |
| DatetimeText.DivideAndRoundAgrees | src/datetime.cpp:606-623 | where `_true_div` already floors, `_divide_and_round` as written equals the corrected one and rounds half to even |
| DatetimeText.DivideAndRoundNegativeQuotients | src/datetime.cpp:606-623 | `_divide_and_round(-8, 4)` is -3 and `_divide_and_round(-1, 4)` is 1 as written, against -2 and 0 intended; neither is the nearest-even quotient |
| DatetimeText.DivModOfMinusEight | src/datetime.h:152-156 | `_div_mod(-8, 4)` is (-3, 0) where floor division gives (-2, 0) |
| DatetimeText.DivModOfMinusOne | src/datetime.h:152-156 | `_div_mod(-1, 4)` is (0, 3) where floor division gives (-1, 3) |
| Timedeltas.TruncationSkew | src/datetime.h:145-150 | `_true_div` by a positive divisor is never skewed for a non-negative dividend |
| Timedeltas.TrueDivIsSkewed | src/datetime.h:145-150 | `_true_div(a, b)` is the floor quotient plus the skew: one below for an exact negative quotient, one above for a small negative dividend |
| Timedeltas.SmallNegativeSkew | src/datetime.h:145-150 | a negative dividend smaller in magnitude than b truncates to 0 and is not decremented, one above the floor quotient -1 |
| Timedeltas.LargeNegativeTruncation | src/datetime.h:145-150 | a dividend of at most -b truncates to -q and is decremented to -q - 1 |
| Timedeltas.Carry | src/datetime.cpp:689-721 | each carry step leaves a remainder in 0..b-1, and with floor division also recomposes the dividend |
| Timedeltas.CarryIsDivMod | src/datetime.cpp:689-721 | the carry step is the source's `_div_mod` as written, and `FloorDivMod` as intended |
| Timedeltas.Build | src/datetime.cpp:667-736 | the constructor's result is normalised (0 <= seconds < 86400, 0 <= microseconds < 10^6, at most 999999999 days either way); otherwise invalid_argument |
| Timedeltas.New | src/datetime.cpp:667-736 | the constructor as written gives a normalised Timedelta or invalid_argument |
| Timedeltas.NewIntended | src/datetime.cpp:667-736 | the corrected constructor gives a normalised Timedelta or invalid_argument |
| Timedeltas.NewIntendedKeepsDuration | src/datetime.cpp:667-736 | the corrected constructor keeps the total duration of its arguments, its day count is the floor of that duration in days, and it throws exactly when that day count exceeds 999999999 in magnitude |
| Timedeltas.NewNegativeSecond | src/datetime.cpp:689-691 | Timedelta(0, -1) as written is (0, 86399, 0): a duration of almost +1 day instead of -1 second |
| Timedeltas.NewIntendedNegativeSecond | src/datetime.cpp:689-691 | the corrected Timedelta(0, -1) is (-1, 86399, 0) |
| Timedeltas.NewNegativeDay | src/datetime.cpp:689-691 | Timedelta(0, -86400) as written is (-2, 0, 0), one day too many, where the corrected one gives (-1, 0, 0) |
| Timedeltas.NewOfDays | src/datetime.cpp:667-736 | a whole number of days is kept as it is by both versions, and rejected beyond 999999999 in magnitude |
| Timedeltas.CmpIsDurationOrder | src/datetime.cpp:659-665 | on normalised values the comparison of (days, seconds, microseconds) is the comparison of the durations |
| Timedeltas.MixedRadixOrder | src/datetime.cpp:659-665 | durations with seconds and microseconds in range compare by days first, then seconds, then microseconds |
| Timedeltas.Trichotomy | src/datetime.cpp:885-913 | exactly one of <, == and > holds, == is equality of the fields, and <=, >= are the expected disjunctions |


## Specification functions

The Model table lists only members whose contract states more than their body. The functions below model a source function directly; each is the definition the lemmas and method contracts of the Model table refer to, and its contract, where it has one, repeats its body.

| function | source | defines |
|---|---|---|
| Calendar.IsLeap | src/datetime.cpp:54-57 | `_is_leap`: the Gregorian leap-year rule |
| Calendar.DaysBeforeYear | src/datetime.cpp:59-64 | `_days_before_year`: the days of the years before `year` |
| Calendar.Ymd2Ord | src/datetime.cpp:84-93 | `_ymd2ord`: the proleptic Gregorian ordinal of a date |
| DatetimeInternal.TrueDiv | src/datetime.h:145-150 | `_true_div` as written |
| DatetimeInternal.DivMod | src/datetime.h:152-156 | `_div_mod` as written |
| DatetimeInternal.LexCmp | src/datetime.h:169-181 | `_cmp_arr`: the first differing element decides |
| DatetimeText.FormatTime | src/datetime.cpp:300-337 | `_format_time` as written |
| DatetimeText.FormatTimeIntended | src/datetime.cpp:300-337 | `_format_time` with AUTO writing microseconds only when they are non-zero |
| DatetimeText.DivideAndRound | src/datetime.cpp:606-623 | `_divide_and_round` as written |
| DatetimeText.DivideAndRoundIntended | src/datetime.cpp:606-623 | `_divide_and_round` over floor division |
| DatetimeText.ParseTime | src/datetime.cpp:494-549 | `_parse_hh_mm_ss_ff` |
| DatetimeText.IsoFormatDate | src/datetime.cpp:1048-1053 | `Date::iso_format` |
| Timedeltas.Timedelta.Cmp | src/datetime.cpp:659-665 | `Timedelta::_cmp` |
| Timedeltas.Timedelta.Eq, Lt, Le, Gt, Ge | src/datetime.cpp:885-913 | the `Timedelta` comparison operators |
| Dates.Date.Cmp | src/datetime.cpp:925-946 | `Date::_cmp` |
| Dates.Date.Eq, Lt, Le, Gt, Ge | src/datetime.cpp:1107-1135 | the `Date` comparison operators |
| Dates.IsoCalendarIntended | src/datetime.cpp:1177-1204 | `Date::iso_calendar` counting weeks before week 1 in the previous ISO year |
| PathPosix.Dirname | src/_path/posix.cpp:23-34 | `_dirname` |
| PathPosix.IsAbsolute | src/_path/posix.h:85-88 | `_is_absolute` |
| PathPosix.Joined | src/_path/posix.h:34-72 | `join` and `_join` |
| Versions.FromString | src/_def_.cpp:53-59 | `Version(const std::string&)` as written |
| Versions.FromStringIntended | src/_def_.cpp:53-59 | the same constructor reading the full `unsigned int` range |
| Versions.ToString | src/_def_.cpp:68-71 | `Version::to_string` |
| Versions.ApplyText | src/_def_.cpp:105-135 | the comparison operators against a version text |
| Numerals.Stoi | src/_def_.cpp:56-58 | `std::stoi` |
| Numerals.Stol | src/datetime.cpp:478-490 | `std::stol` |
| Letter.ToSpec | src/unicode/letter.cpp:62-108 | `_to`: the case mapping through the case ranges |
| Letter.SimpleFoldSpec | src/unicode/letter.cpp:16-60 | `simple_fold` |
| Re.Escaped | src/re/regex.cpp:65-80 | `escape` |
| Re.Kept, Re.Collected | src/re/regex.cpp:39-49 | the entries of one match that took part, and those of all successive matches |
| Re.NextStart, Re.NextStartIntended | src/re/regex.cpp:48 | where `search` resumes after a match: its end as written, one further after an empty match as intended |
| Re.StarMatch | src/re/regex.cpp:38 | the match `std::regex_search` finds for c* from a start: the run of c there, possibly empty |
| Re.Regex.Group | src/re/regex.cpp:55-63 | `group`: the group at pos, or "" past the last one |
| ReArg.ArgRegex.Arg | src/re/arg_regex.cpp:48-56 | `arg`: the value under key, or default_val |
| Encoding.Quoted | src/encoding.cpp:93-104 | `quote` |
| Encoding.Step, Encoding.Run | src/encoding.cpp:18-91 | the `encode_url` state machine, one character and a whole text |
| Encoding.EncodeAsciiSpec | src/encoding.cpp:129-157 | `encode_ascii` as written |
| ReArg.Step, ReArg.Feed | src/re/arg_regex.cpp:58-132 | the `_parse` loop, one character and a whole pattern |
| StringUtils.SplitAsWritten | src/string_utils.cpp:90-114 | `split` as written |
| StringUtils.RSplitAsWritten | src/string_utils.cpp:116-159 | `rsplit` as written |
| StringUtils.RSplitIntended | src/string_utils.cpp:116-159 | `rsplit` returning the pieces that join back to the text |
| StringUtils.LTrimmed | src/string_utils.cpp:186-192 | `ltrim`: whole leading copies of to_trim removed |
| StringUtils.RTrimmed | src/string_utils.cpp:201-207 | `rtrim`: whole trailing copies of to_trim removed |
| StringUtils.CountOf | src/string_utils.cpp:229-241 | `count` |
| StringUtils.ReplaceDrift | src/string_utils.cpp:269-288 | the `replace` loop as written |
| CoreResult.IsA | src/result.h:62-76 | the error hierarchy `catch_` walks |
| CoreResult.IsSet | src/result.h:56-59 | the bool conversion |
| CoreResult.CheckBase | src/result.h:27-30 | `_check_base` |
| CoreResult.CheckNested | src/result.h:32-35 | `_check_nested` |
| Multimaps.Multimap.Get | src/collections/multimap.h:91-103 | `get`: the first value of the key, or the default |
| Multimaps.Multimap.GetSequence | src/collections/multimap.h:111-119 | `get_sequence` |
| Multimaps.Multimap.Contains, Size, Empty | src/collections/multimap.h:209-231 | `contains`, `size` and `empty` |
| Dictionaries.Dictionary.Get | src/collections/dictionary.h:39-47 | `get` |
| MultiDictionaries.MultiDictionary.Get | src/collections/multi_dictionary.h:44-56 | `get`: the first value of the key, or the default |
| MultiDictionaries.MultiDictionary.GetList | src/collections/multi_dictionary.h:64-72 | `getlist` |
| BaseDictionaries.BaseDictionary.Contains, Size, Empty | src/collections/base_dictionary.h:64-86 | `contains`, `size` and `empty` |

## Left out

- StringUtils.LTrim, StringUtils.RTrim, StringUtils.Trim: require a non-empty to_trim, because with an empty one the source's loop never ends.
- StringUtils.Replace: requires a non-empty new_sub, because with an empty new_sub and an occurrence of old_sub the source's loop never ends.
- DatetimeText.Replace: requires a non-empty old, because with an empty old `_replace` never ends.
- Versions.FromString: requires a text with three dot-separated parts. With fewer, the source indexes past the end of the vector, which is undefined behaviour.
- ReArg.ArgRegex.Search: the regular-expression engine (`std::regex_search`) is not modelled, so neither is the engine's guarantee that the sub-matches number the route's groups. Search receives whether a match was found and the captured sub-matches as parameters, and `Regex::match` is left out with the engine.
- ReArg.CapturedGroups: binds sub-match i to key i-1 by position, as search does. A route with an unnamed group before an argument, such as `/(en|uk)/<id>(\d+)`, still gives the first argument the unnamed group's text; binding each key to the group that follows it would need the group count of the rewritten pattern, which the parser does not keep.
- Re.Regex.Search: `std::regex_search` is not modelled either. Search receives the engine's successive matches as a finite parameter, so it stands only for the searches that end. As written, `search` never returns once a match is empty, which every pattern that matches the empty text reaches (a*, and the default `Regex()` with the pattern ""); Re.StarSearchRepeats shows it for c*. The engine itself is modelled only for c*, by Re.StarMatch. The compiled expression `_expr` is not a field of the model.
- Letter: the case tables CASE_RANGES, CASE_ORBIT and ASCII_FOLD are data in a header that is not part of this model. They are parameters, assumed sorted as the binary searches need.
- Utf8: UNICODE_ERROR is not defined in the modelled files. It is taken as U+FFFD, the replacement character.
- RequestContexts: only the protocol version fields major_v and minor_v are modelled. The rest of RequestContext is plumbing for the HTTP server.
- CoreResult: the error message and the source location carried by an error are not modelled. catch_ reads only the error type.
- Containers: keys are `int`. The source is generic over any key type ordered by std::less.
- Timedeltas.Build: the 64-bit `long` arithmetic of the constructor's arguments (weeks * 7, hours * 3600, milliseconds * 1000) is unbounded here, so overflow on huge arguments is not modelled. The fractional parts of the constructor are always zero in the source and are left out.
- Dates.IsoCalendar: its own contract states only the weekday range. Its relation to the ISO calendar is stated by Dates.IsoCalendarAgreesFromWeekOne and Dates.IsoCalendarBeforeWeekOne.
- Dates.IsoCalendarOf: its own contract states only the weekday range. Its relation to the ISO calendar is stated by Dates.IsoCalendarOfAgrees, and its wrap-around before week 1 by Dates.IsoCalendarBeforeWeekOne.
- Dates: `from_iso_calendar`, `replace`, `from_timestamp`, `today`, `ctime`, `strftime` and `time_tuple` are not modelled. They either read the clock or the time zone, or are outside the core that was modelled.
- The `Time` and `Datetime` classes, time zones, `_strptime`, `_wrap_strftime` and the floating-point parts of `Timedelta` (`total_seconds` and division) are left out. They are OS calls, virtual dispatch or floating point.
- DatetimeText.FormatTime: the `default` branch that throws on an unknown time_spec is unreachable here, because the precision is an enumeration with only the five valid values and AUTO.
- Encoding: `encode_utf_8` is the identity in the source and is modelled as such inside Encoding.Encode. Stream formatting state (`fill`, `hex`, `uppercase`) is folded into Encoding.Escape.
- StringUtils: `make_text_list`, `ftoa_fixed`, `ftoa_sci`, `_normalize_exp`, `lower` and `upper` are not modelled. They are floating-point formatting or locale-dependent character mapping, outside the split, trim and replace core.
- Randomness and files: nothing in the modelled core reads the clock, a random source or a file.

## Findings

| source | as written | input that shows it | evidently intended | confidence | as-written member | corrected member |
|---|---|---|---|---|---|---|
| src/datetime.h:145-150 | `_true_div` decrements every negative truncated quotient, exact ones included, and never one that truncates to 0 | `_true_div(-2, 1)` is -3; `_div_mod(-1, 2)` is (0, 1), which does not recompose -1 | floor division: -2, and (-1, 1) | high, not executed | DatetimeInternal.TrueDivExactNegative | DatetimeInternal.FloorDivMod |
| src/datetime.h:145-150 | the same `_true_div` for a negative dividend smaller than the divisor | `_true_div(-1, 2)` is 0 | -1 | high, not executed | DatetimeInternal.TrueDivSmallNegative | DatetimeInternal.FloorDivMod |
| src/datetime.cpp:606-623 | `_divide_and_round` rounds on top of `_div_mod` and inherits its quotient | `_divide_and_round(-8, 4)` is -3 and `_divide_and_round(-1, 4)` is 1 | -2 and 0, rounding half to even | high, not executed | DatetimeText.DivideAndRoundNegativeQuotients | DatetimeText.DivideAndRoundIntendedIsNearestEven |
| src/datetime.cpp:689-721 | the `Timedelta` constructor normalises with `_div_mod` | `Timedelta(0, -1)` is (0, 86399, 0), almost one day forward | (-1, 86399, 0), one second back | high, not executed | Timedeltas.NewNegativeSecond | Timedeltas.NewIntendedKeepsDuration |
| src/datetime.cpp:304-308 | with AUTO, `us >= 0` is always true for an unsigned `us`, so AUTO always writes microseconds | `_format_time(12, 0, 0, 0, AUTO)` is "12:00:00.000000" | "12:00:00", microseconds only when non-zero | high, not executed | DatetimeText.FormatTimeAutoKeepsZeroMicroseconds | DatetimeText.FormatTimeIntendedAutoLength |
| src/datetime.cpp:1184-1194 | `today - week1monday` is a `size_t`, so a date before its year's week 1 wraps instead of going negative | `Date(2021, 1, 1).iso_calendar()` is (2021, 9362, 7) | (2020, 53, 5) | high, not executed | Dates.IsoCalendarBeforeWeekOne | Dates.IsoCalendarIntendedIsIso |
| src/string_utils.cpp:148-156 | `rsplit` with more allowed splits than delimiters (the default n included) ends with an empty first piece | `rsplit("a:b", ':', 5)` is ["", "b"] | ["a", "b"] | high, not executed | StringUtils.RSplitLosesFirstPiece | StringUtils.RSplitIntendedJoins |
| src/string_utils.cpp:123-127 | `rsplit` returns no piece for "" and one empty piece for n == 0 | `rsplit("", ':', 1)` is []; `rsplit("a:b", ':', 0)` is [""] | [""] and ["a:b"] | medium, not executed | StringUtils.RSplitEdgeCases | StringUtils.RSplitIntendedJoins |
| src/string_utils.cpp:93-96 | `split` of the empty string returns no piece | `split("", ':')` is [] | [""], the piece that joins back to "" | medium, not executed | StringUtils.SplitOfEmpty | StringUtils.JoinPieces |
| src/string_utils.cpp:277-284 | `replace` searches `src` but edits `copy`, so positions drift when old_sub and new_sub differ in length | `replace("aaaaaa", "aaa", "b")` is "bbbb" | "bb" | high, not executed | StringUtils.ReplaceDrifts | StringUtils.ReplaceIntended |
| src/encoding.cpp:146-150 | `encode_ascii` with IGNORE or REPLACE skips or replaces every character, not only the non-ASCII ones | `encode_ascii("a", IGNORE)` is "" and `encode_ascii("a", REPLACE)` is "?" | "a" in both modes | high, not executed | Encoding.EncodeAscii | Encoding.AsciiFilteredKeeps |
| src/encoding.cpp:179-182 | `encode_iso_8859_1` with IGNORE turns every character into 's', and with REPLACE into '?' | `encode_iso_8859_1("a", IGNORE)` is "s" | "a" | high, not executed | Encoding.EncodeIso88591Shape | Encoding.EncodeIso88591IntendedAgrees |
| src/_def_.cpp:53-59 | `Version(const std::string&)` reads unsigned fields with `std::stoi` | `Version(Version(2147483648, 0, 0).to_string())` throws out_of_range | the same version back | medium, not executed | Versions.ParseToStringAboveIntMax | Versions.ParseToStringIntended |
| src/re/regex.cpp:38-50 | `search` resumes at the end of the last match, which does not move after an empty match | `Regex("a*").search("b")` never returns | the search moves one character on after an empty match and returns true | high, not executed | Re.StarSearchRepeats | Re.StarRoundsIntended |
| src/re/arg_regex.cpp:34-42 | `search` stores sub-match i under `_keys[i - 1]` without checking that the route named that group, and the parser copies unnamed and nested groups into the pattern | the route `(\d+)` has no key; a match reads `_keys[0]` of an empty vector | no read past `_keys`: sub-matches past the last key are ignored | high, not executed | ReArg.GroupWithoutArgument | ReArg.CapturedGroups |
| src/string_utils.cpp:186-192 | `ltrim` removes whole leading copies of to_trim, while the ltrim_CustomChars test treats to_trim as a set of characters | `ltrim("%%%Hello, World", "%eH")` is "%%%Hello, World" | "llo, World" | medium, not executed | StringUtils.LTrimCustomChars | StringUtils.CharsLTrimmedShape |
| src/string_utils.cpp:201-207 | `rtrim` removes whole trailing copies of to_trim, while the rtrim_CustomChars and trim_CustomChars tests treat to_trim as a set of characters | `rtrim(" -- Hello, World -- ", " World-")` is " -- Hello, World -- " | " -- Hello," | medium, not executed | StringUtils.RTrimCustomChars | StringUtils.CharsRTrimmedShape |
| src/string_utils.cpp:273-285 | with an empty new_sub the index does not advance past an occurrence, and the search in the unchanged src finds it again | `replace("Hello, World!", "l", "")` never returns | "Heo, Word!", as the replace_SubsToEmpty test expects | high, not executed | StringUtils.ReplaceEmptyNewSubNeverEnds | StringUtils.ReplaceIntended |
| src/string_utils.cpp:273-285 | with an empty old_sub, `find` succeeds at every position and new_sub is inserted at each | `replace("Hello, World!", "", "~")` is 14 "~" followed by "Hello, World!" | "Hello, World!", as the replace_EmptySub test expects | high, not executed | StringUtils.ReplaceEmptyOldSub | StringUtils.ReplaceIntended |
