# SimpleString `Conversion` in Dafny

This project models the `Conversion` trait of SimpleString
(`src/Simple/Type/String/Conversion.php`). The trait holds seven string
conversions: `toLowerCase`, `toUpperCase`, `toSentenceCase`, `toTitleCase`,
`toUnderscores`, `toCamelCase` and `toCleanUrl`. Each one reads the wrapped
string, runs a short pipeline of PHP library calls on it and passes the
result to the host class. In the model each conversion is a pure function
from the input string to the output string. `ToCleanUrl` also takes the
separator, and `ToCamelCase` returns a `Result` because its code can fail.

The project has three files:

- `php_strings.dfy` (module `PhpStrings`) defines the PHP primitives the
  trait calls, from their documented behaviour in PHP 8.2 and later, where
  case mapping is ASCII-only and does not depend on the locale:
  - `strtolower` and `strtoupper`;
  - `ucfirst`, and `ucwords` with its default delimiters
    " \t\r\n\f\v";
  - `str_replace` with a one-character search string;
  - `strtr` with single-character keys;
  - the two `preg_replace` calls: the class filter `[^a-zA-Z0-9\s]` and
    the space collapse `{ +}`;
  - `trim`, with its default list " \t\n\r\0\x0B". This list has no `\f`.
- `conversion.dfy` (module `Conversion`) defines the seven conversions as
  compositions of those primitives, the accent table, and the properties
  proved about them.
- `examples_conversion.dfy` (module `ConversionExamples`) works through
  short inputs, the inputs on which `toCamelCase` fails, a three-word
  camel-case example and a two-word `toCleanUrl` example under the default
  separator, each stated for any words of that shape. The doc comments show
  only outputs (`loremIpsumDolor` for `toCamelCase`), and the doc comment of
  `toCleanUrl` shows none.

Behaviour kept exactly as the code has it:

- `toCamelCase` runs `ucwords` on the original string, not on a lowered
  one. So `"LOREM IPSUM"` becomes `"lOREMIPSUM"`: characters that do not
  start a word keep their case.
- `toCamelCase` writes to index 0 of the string left after deleting the
  spaces (line 79). That string is empty when the input is `""`, and also
  when the input is made only of spaces. PHP 8 then throws "Cannot assign
  an empty string to a string offset". The model returns
  `Failure(EmptyStringOffset)` for exactly those inputs.
- The accent table maps `'Ü'` but not `'ü'`, so `'ü'` survives step 1 and is
  deleted in step 3. `'Ð'` and `'ß'` expand to two characters. `'ý'` is
  listed twice with the same value.
- `\t`, `\n`, `\r`, `\v` and `\f` survive the space collapse, and also the
  separator step. `trim` does not strip `\f`.
- `toCleanUrl` is idempotent when every separator character is a small
  letter, a digit, or white space other than ' ' (`CleanUrlIdempotent`), and
  also when the separator is `" "` (`SpaceSeparatorIdempotent`). When the
  separator holds no ' ', any other separator character breaks idempotence
  (`CleanUrlNotIdempotent`), in one of two ways. A capital survives the filter of step 3, but step 2 of
  the second pass lowers it. Punctuation, such as the default separator
  `"-"`, does not survive step 3 at all, so the second pass deletes it
  (`DefaultSeparatorNotIdempotent`). Other separators that hold a ' ', such
  as `" -"`, are not characterised.

## Model

| member | source | states |
|---|---|---|
| PhpStrings.LowerChar | src/Simple/Type/String/Conversion.php:14 | one character lowered: it changes exactly when it is 'A'..'Z', and then to the matching 'a'..'z' |
| PhpStrings.UpperChar | src/Simple/Type/String/Conversion.php:26 | one character uppered: it changes exactly when it is 'a'..'z', and then to the matching 'A'..'Z' |
| PhpStrings.IsAsciiSpace | src/Simple/Type/String/Conversion.php:161 | the class `\s` of the filter: exactly ' ', \t, \n, \v, \f and \r; the same six characters are the default delimiters of the `ucwords` calls on lines 52 and 77 |
| PhpStrings.IsTrimChar | src/Simple/Type/String/Conversion.php:163 | trim's default list: exactly ' ', \t, \n, \r, \0 and \x0B, so \f is not stripped |
| PhpStrings.IsWordOrSpace | src/Simple/Type/String/Conversion.php:161 | the class `[a-zA-Z0-9\s]` that the filter keeps: an ASCII letter of either case, a digit, or one of the six white-space characters |
| PhpStrings.CaseMapFacts | src/Simple/Type/String/Conversion.php:14 | lowering after uppering equals lowering, and uppering after lowering equals uppering; both maps are idempotent; neither creates or removes white space, a trim character or ' ' |
| PhpStrings.StrToLower | src/Simple/Type/String/Conversion.php:14 | strtolower keeps the length and lowers every position on its own |
| PhpStrings.StrToUpper | src/Simple/Type/String/Conversion.php:26 | strtoupper keeps the length and uppers every position on its own |
| PhpStrings.Ucfirst | src/Simple/Type/String/Conversion.php:39 | ucfirst keeps the length, uppers index 0 and leaves every other position alone; "" stays "" |
| PhpStrings.UcwordsFrom | src/Simple/Type/String/Conversion.php:52 | the scan behind ucwords: a position is uppered exactly when it follows one of the six delimiters, or is first and a word starts there |
| PhpStrings.Ucwords | src/Simple/Type/String/Conversion.php:77 | ucwords keeps the length; index 0 and every character after one of " \t\r\n\f\v" are uppered, all others are unchanged |
| PhpStrings.UcwordsFromAppend | src/Simple/Type/String/Conversion.php:77 | the ucwords scan distributes over concatenation, the second part starting a word exactly when the first part ends with a delimiter |
| PhpStrings.StrReplaceChar | src/Simple/Type/String/Conversion.php:78 | str_replace of one character: identity when it does not occur; every output character is an input character other than the search character, or a replacement character, so the search character is gone when the replacement lacks it; first and last characters are kept when they are not the search character |
| PhpStrings.StrReplaceCharByOne | src/Simple/Type/String/Conversion.php:65 | a one-character replacement keeps the length and changes exactly the positions holding the search character |
| PhpStrings.StrReplaceCharByNothing | src/Simple/Type/String/Conversion.php:78 | deleting a character shortens the string by its number of occurrences |
| PhpStrings.StrReplaceCharByNothingEmpty | src/Simple/Type/String/Conversion.php:78 | deleting a character leaves "" exactly when the input held nothing else |
| PhpStrings.StrReplaceCharWritesReplacement | src/Simple/Type/String/Conversion.php:164 | where the search character occurs, every character of the replacement appears in the output |
| PhpStrings.StrReplaceCharIsStrtr | src/Simple/Type/String/Conversion.php:78 | str_replace of one character is strtr with the single key search => replace |
| PhpStrings.StrReplaceCharAppend | src/Simple/Type/String/Conversion.php:78 | str_replace works character by character: it distributes over concatenation, so the order of the input is kept |
| PhpStrings.StrReplaceCharOne | src/Simple/Type/String/Conversion.php:78 | on one character str_replace writes the replacement for the search character and the character itself otherwise |
| PhpStrings.StrReplaceCharCounts | src/Simple/Type/String/Conversion.php:164 | every character that is neither the search character nor in the replacement keeps its number of occurrences |
| PhpStrings.Image | src/Simple/Type/String/Conversion.php:159 | strtr writes a character that is not a key as itself |
| PhpStrings.Strtr | src/Simple/Type/String/Conversion.php:159 | strtr is the identity on a string holding no key |
| PhpStrings.StrtrAppend | src/Simple/Type/String/Conversion.php:159 | strtr scans once and never rescans what it wrote: it distributes over concatenation |
| PhpStrings.KeepWordAndSpace | src/Simple/Type/String/Conversion.php:161 | the class filter keeps only characters of [a-zA-Z0-9\s], all of them from the input, and is the identity on a string made of them |
| PhpStrings.KeepWordAndSpaceIsStrtr | src/Simple/Type/String/Conversion.php:161 | the class filter is strtr deleting every character outside [a-zA-Z0-9\s] |
| PhpStrings.KeepWordAndSpaceAppend | src/Simple/Type/String/Conversion.php:161 | the class filter distributes over concatenation, so the kept characters stay in their order |
| PhpStrings.KeepWordAndSpaceOne | src/Simple/Type/String/Conversion.php:161 | on one character the filter keeps it exactly when it is in [a-zA-Z0-9\s] |
| PhpStrings.KeepWordAndSpaceCounts | src/Simple/Type/String/Conversion.php:161 | the class filter keeps every occurrence of every character of the class |
| PhpStrings.CollapseSpaces | src/Simple/Type/String/Conversion.php:162 | after the collapse no two spaces are adjacent; every character comes from the input; the first character is kept; the collapse is the identity when no two spaces were adjacent |
| PhpStrings.CollapseSpacesCounts | src/Simple/Type/String/Conversion.php:162 | the collapse removes spaces only: every other character keeps its number of occurrences |
| PhpStrings.CollapseSpacesAppend | src/Simple/Type/String/Conversion.php:162 | cut anywhere but inside a run of spaces, the collapse works on each part on its own, keeping the order |
| PhpStrings.CollapseSpacesRun | src/Simple/Type/String/Conversion.php:162 | a run of one or more spaces becomes exactly one space |
| PhpStrings.TrimStart | src/Simple/Type/String/Conversion.php:163 | the left scan of trim stops at the first character that is not a trim character |
| PhpStrings.TrimEnd | src/Simple/Type/String/Conversion.php:163 | the right scan of trim stops after the last character that is not a trim character |
| PhpStrings.Trim | src/Simple/Type/String/Conversion.php:163 | trim's result is a slice s[lo..hi] of the input with only trim characters before lo and from hi on; it neither starts nor ends with a trim character; it keeps "no two adjacent spaces"; it is the identity when both ends are not trim characters |
| PhpStrings.TrimCounts | src/Simple/Type/String/Conversion.php:163 | trim removes trim characters only |
| Conversion.ToLowerCase | src/Simple/Type/String/Conversion.php:12-17 | keeps the length; no ASCII capital remains; a position changes exactly when it held a capital, and then to the matching small letter |
| Conversion.ToUpperCase | src/Simple/Type/String/Conversion.php:24-29 | keeps the length; no ASCII small letter remains; a position changes exactly when it held a small letter, and then to the matching capital |
| Conversion.LowerCaseIdempotent | src/Simple/Type/String/Conversion.php:12-17 | lowering twice is lowering once |
| Conversion.UpperCaseIdempotent | src/Simple/Type/String/Conversion.php:24-29 | uppering twice is uppering once |
| Conversion.LowerOfUpper | src/Simple/Type/String/Conversion.php:12-29 | lower(upper(s)) == lower(s) |
| Conversion.UpperOfLower | src/Simple/Type/String/Conversion.php:12-29 | upper(lower(s)) == upper(s) |
| Conversion.ToSentenceCase | src/Simple/Type/String/Conversion.php:36-42 | keeps the length; index 0 is uppered and every other position is lowered; "" stays "" |
| Conversion.SentenceCaseIdempotent | src/Simple/Type/String/Conversion.php:36-42 | sentence casing twice is sentence casing once |
| Conversion.ToTitleCase | src/Simple/Type/String/Conversion.php:49-55 | keeps the length; index 0 and every character after one of the six delimiters are uppered, every other position is lowered |
| Conversion.TitleCaseIdempotent | src/Simple/Type/String/Conversion.php:49-55 | title casing twice is title casing once |
| Conversion.ToUnderscores | src/Simple/Type/String/Conversion.php:62-68 | keeps the length; no ' ' remains; each ' ' becomes '_' and every other position is lowered, so a tab is kept |
| Conversion.CamelWords | src/Simple/Type/String/Conversion.php:77-78 | a one-pass reference for ucwords followed by deleting spaces: no ' ' in it, and equal up to case to the input with its spaces deleted |
| Conversion.UcwordsThenDeleteSpaces | src/Simple/Type/String/Conversion.php:77-78 | ucwords, then deleting the spaces, is exactly the one-pass CamelWords |
| Conversion.DeleteSpacesAfterUcwords | src/Simple/Type/String/Conversion.php:77-79 | what lines 77-78 leave is CamelWords of the input; it is empty exactly when the input is only spaces; its length is the input's minus its spaces |
| Conversion.CamelWordsAppend | src/Simple/Type/String/Conversion.php:77-78 | ucwords then deleting spaces distributes over concatenation, the second part starting a word exactly when the first part ends with a delimiter |
| Conversion.CamelWordsOne | src/Simple/Type/String/Conversion.php:77-78 | one character: a space is deleted, any other character is uppered exactly when a word starts there |
| Conversion.CamelWordsOfWord | src/Simple/Type/String/Conversion.php:77-78 | a word without white space comes out with only its first character uppered, when a word starts there, and all its other characters as they were |
| Conversion.CamelWordsJoin | src/Simple/Type/String/Conversion.php:77-78 | two parts joined by a space: the second part starts a new word and the space is gone |
| Conversion.ToCamelCase | src/Simple/Type/String/Conversion.php:75-82 | fails exactly when the input is "" or only spaces. Otherwise the result: has the input's length minus its spaces; has no ' '; does not start with a capital; equals the one-pass CamelWords with index 0 lowered; and equals, up to case, the input with its spaces deleted |
| Conversion.CamelCaseLeadingWord | src/Simple/Type/String/Conversion.php:75-82 | on a first word, a space and a rest: the word with its first character lowered and every other character unchanged, followed by the rest with each word start uppered and its spaces deleted |
| Conversion.LowerFirstThenLower | src/Simple/Type/String/Conversion.php:79 | lowering index 0 before lowering the whole string changes nothing |
| Conversion.Accent | src/Simple/Type/String/Conversion.php:92-158 | the `$accents` table: 66 distinct keys, in the source's order, each with its value; the duplicate 'ý' entry is one case; every other character is not a key |
| Conversion.AccentTableShape | src/Simple/Type/String/Conversion.php:92-158 | every key of the table is outside ASCII; every value is ASCII letters, two for 'Ð' and 'ß' and one for every other key |
| Conversion.Transliterate | src/Simple/Type/String/Conversion.php:159 | the length grows by one per 'Ð' and per 'ß'; output characters are ASCII letters or input characters that are not keys; every input character that is not a key appears in the output |
| Conversion.StrtrAccentsLength | src/Simple/Type/String/Conversion.php:159 | strtr with the table grows the string by one per 'Ð' and per 'ß' |
| Conversion.StrtrAccentsChars | src/Simple/Type/String/Conversion.php:159 | strtr with the table writes ASCII letters for keys and copies every other character |
| Conversion.TransliterateAppend | src/Simple/Type/String/Conversion.php:159 | the result for a concatenation is the concatenation of the results, so written text is not scanned again |
| Conversion.TransliterateOne | src/Simple/Type/String/Conversion.php:92-159 | a key of the table is written as its value and any other character as itself |
| Conversion.TransliterateIdempotent | src/Simple/Type/String/Conversion.php:159 | a second transliteration changes nothing |
| Conversion.CleanWords | src/Simple/Type/String/Conversion.php:159-163 | before the separator step the string holds only small letters, digits and white space; no two spaces are adjacent; neither end is a trim character; every small letter and digit of the lowered transliteration is kept, as often as it occurs |
| Conversion.CleanWordsChars | src/Simple/Type/String/Conversion.php:160-163 | steps 2 to 5 leave only small letters, digits and white space |
| Conversion.CleanWordsKeepsLettersAndDigits | src/Simple/Type/String/Conversion.php:161-163 | steps 3 to 5 lose no small letter and no digit |
| Conversion.FilterCollapseTrimCounts | src/Simple/Type/String/Conversion.php:161-163 | the filter, the collapse and trim together keep every ASCII letter and digit, as often as it occurs |
| Conversion.CleanWordsAddsNoSpace | src/Simple/Type/String/Conversion.php:159-163 | steps 1 to 5 turn nothing into a ' ' |
| Conversion.LettersAndDigits | src/Simple/Type/String/Conversion.php:161 | the reference filter keeping the small letters and digits of a string in order: only those remain, and a string of them is kept whole |
| Conversion.CleanWordsOfWord | src/Simple/Type/String/Conversion.php:159-163 | a word without white space becomes the small letters and digits of its lowered transliteration, in order |
| Conversion.CleanWordsJoin | src/Simple/Type/String/Conversion.php:159-163 | two words that keep something, with a run of spaces between them, are cleaned word by word with exactly one ' ' between them |
| Conversion.ToCleanUrl | src/Simple/Type/String/Conversion.php:90-167 | "" gives "". Every output character is a small letter, a digit, white space other than ' ', or a separator character. With no ' ' in the separator, the output has no ' '. With no capital in the separator, the output has no capital. Each small letter and digit that is not a separator character occurs as often as in the lowered transliteration of the input |
| Conversion.CleanUrlKeepsLettersAndDigits | src/Simple/Type/String/Conversion.php:90-167 | with a separator that holds no small letter or digit, the small letters and digits of the output are those of the lowered transliteration of the input, in the same order |
| Conversion.CleanUrlOfWord | src/Simple/Type/String/Conversion.php:159-164 | a word without white space gets no separator: it becomes the small letters and digits of its lowered transliteration |
| Conversion.CleanUrlJoin | src/Simple/Type/String/Conversion.php:159-164 | two words that keep something, with a run of spaces between them, are cleaned word by word and joined by one separator |
| Conversion.SeparatorChars | src/Simple/Type/String/Conversion.php:164 | writing the separator for each ' ' adds only separator characters |
| Conversion.CleanUrlIdempotent | src/Simple/Type/String/Conversion.php:159-164 | with a separator of small letters, digits and white space other than ' ', cleaning a cleaned string changes nothing |
| Conversion.SpaceSeparatorIdempotent | src/Simple/Type/String/Conversion.php:159-164 | with the separator " ", cleaning a cleaned string changes nothing |
| Conversion.CleanWordsOfWords | src/Simple/Type/String/Conversion.php:159-163 | steps 1 to 5 leave alone a string of small letters, digits and white space with no two adjacent spaces and no trim character at either end, which is what they output |
| Conversion.CleanUrlNotIdempotent | src/Simple/Type/String/Conversion.php:160-164 | with a separator that has no ' ' and a character other than a small letter, digit or white space, a second pass changes the result whenever the first pass wrote the separator |
| Conversion.DefaultSeparatorNotIdempotent | src/Simple/Type/String/Conversion.php:90 | with the default separator "-", a second pass changes the result whenever the first pass wrote the separator |
| Conversion.DefaultSeparatorIsDeleted | src/Simple/Type/String/Conversion.php:90 | the default separator '-' of line 90 is a single character outside `[a-zA-Z0-9\s]`, so the filter of line 161 deletes it |
| Conversion.CleanUrlSurvives | src/Simple/Type/String/Conversion.php:159-164 | with a surviving separator, every output character survives cleaning |
| Conversion.CleanUrlEnds | src/Simple/Type/String/Conversion.php:163-164 | the output neither starts nor ends with a trim character |
| Conversion.CleanWordsOfClean | src/Simple/Type/String/Conversion.php:159-163 | steps 1 to 5 leave alone a string of surviving characters whose ends are not trim characters |
| Conversion.CleanUrlOfClean | src/Simple/Type/String/Conversion.php:159-164 | toCleanUrl leaves alone a string of surviving characters that steps 1 to 5 leave alone |
| ConversionExamples.LowerCaseExample | src/Simple/Type/String/Conversion.php:8-17 | "aB c" lowered is "ab c" |
| ConversionExamples.UpperCaseExample | src/Simple/Type/String/Conversion.php:20-29 | "aB c" uppered is "AB C" |
| ConversionExamples.SentenceCaseExample | src/Simple/Type/String/Conversion.php:32-42 | "AB C" in sentence case is "Ab c" |
| ConversionExamples.TitleCaseExample | src/Simple/Type/String/Conversion.php:45-55 | "aB c" in title case is "Ab C" |
| ConversionExamples.UnderscoresExample | src/Simple/Type/String/Conversion.php:58-68 | "aB c" with underscores is "ab_c" |
| ConversionExamples.CamelCaseFailures | src/Simple/Type/String/Conversion.php:79 | toCamelCase fails on "" and on "  " |
| ConversionExamples.CamelCaseThreeWords | src/Simple/Type/String/Conversion.php:70-82 | a three-word example, whose output has the shape of the doc comment's `loremIpsumDolor`, for any three words: the first word's first character lowered, the other words' first characters uppered, every other character unchanged, no spaces |
| ConversionExamples.CleanUrlTwoWords | src/Simple/Type/String/Conversion.php:90-167 | a two-word example under the default separator, for any two words that keep something: each word reduced to the small letters and digits of its lowered transliteration, joined by the separator |

## Left out

- The host object is not modelled: `$this->string`, and `valueOf`, which wraps each result (lines 16, 28, 41, 54, 67, 81, 166). Each conversion takes the string and returns the new string. The implicit `__toString` is not modelled either: it applies when the wrapped result of `toLowerCase()` is passed on (lines 38, 51, 64). Here it is plain composition.
- Locale-dependent character classes are not modelled: case mapping as in `strtolower` before PHP 8.2, and the `\s` class of the filter on line 161, which PCRE matches through the character tables of the locale. Case mapping is ASCII-only and `\s` is the six ASCII white-space characters.
- Strings are sequences of characters (code points), not UTF-8 bytes. Each accent-table key is one character. On well-formed UTF-8 input this agrees with byte-wise `strtr`.
- The regular-expression engine is not modelled. The two `preg_replace` calls are modelled by what their patterns do: a character-class filter and a collapse of runs of ' '.
- CleanUrlIdempotent: idempotence is settled for separators without ' ' and for " "; a separator holding ' ' and other characters, such as " -", is not characterised.
- ToCamelCase: models the PHP 8 behaviour only (an Error on an empty string offset). Earlier PHP versions behave differently there, and that behaviour is not modelled.
- The default parameter `$separator = '-'` is the constant `DefaultSeparator`. The model has no default arguments.
- Accent: the duplicate `'ý'` entry (lines 154-155) is one case. Both entries have the same value, so the table means the same.
- ConversionExamples: the examples use short inputs, not the outputs the doc comments show ("lorem ipsum dolor" and the like). The camel-case and clean-URL examples are stated for any words of their shape (`CamelCaseThreeWords`, `CleanUrlTwoWords`), not evaluated on literal strings such as "Lorem Ipsum Dolor".
- ToCleanUrl: the occurrence counts are stated for small letters and digits that are not separator characters. A separator character's count, which also grows by one per separator written, is not stated.
- StrReplaceCharCounts: stated for characters that are neither the search character nor in the replacement; the counts of replacement characters are not stated.
