# friendlytext preprocessing, modelled in Dafny

This project models the six text transforms of the `friendlytext` preprocessing
module and proves properties about them:

- `remove_punctuation` deletes Python's `string.punctuation`;
- `replace_digits` replaces delimited digit tokens with a space;
- `remove_url` deletes `http://` and `https://` URLs;
- `remove_hashtags` replaces `#tag` with a space;
- `standardize_lowercase` lowercases the text;
- `remove_stopwords` replaces whole stopwords, and the whitespace after them, with a space.

Every transform is a pure function of its input string. Each is modelled as a
recursive Dafny function over `string`:

- the translation table becomes a filter;
- each `re.sub` becomes a scan that tries the pattern at the current position,
  emits the replacement on a match and resumes after it, or copies one character.

The scans follow the regular expressions as written: greedy quantifiers,
alternatives tried left to right, `^` and `$`, the `\b` word boundary, and
Python 3.7's rule that an empty match may not directly follow an empty match at
the same position. The character classes `\w`, `\s` and `\d` are restricted to
ASCII (module `CharClasses`).

`remove_stopwords` has two models:

- `Stopwords.RemoveStopwords` follows the compiled pattern. It takes the words in
  the order `set(sw)` happened to join them, and it also covers the empty set
  and words that are not plain.
- `Stopwords.RemoveStopwordsIntended` is the same substitution stated on tokens,
  for a set of plain words (non-empty runs of `[A-Za-z0-9_]`).

The two agree on every non-empty set of plain words, in every order. The one
place where they differ is the empty set. There the source inserts spaces,
although its docstring ("Replaces all NLTK stopwords") promises nothing beyond
replacing the words of the set (see Findings).

Files:

- `char_classes.dfy`: ASCII classes, `Span`, `Token` and `Filter`.
- `punctuation.dfy`, `lowercase.dfy`, `digits.dfy`, `urls.dfy`, `hashtags.dfy`,
  `stopwords.dfy`: one module per transform.

## Model

| member | source | states |
|---|---|---|
| Punctuation.RemovePunctuation | friendlytext/preprocessing.py:22 | the output is no longer than the input and holds no punctuation character |
| Punctuation.PunctuationIsPythonSet | friendlytext/preprocessing.py:22 | the four ASCII ranges used are exactly the 32 characters of `string.punctuation` |
| Punctuation.PunctuationIsPrintableSymbols | friendlytext/preprocessing.py:22 | punctuation is exactly the printable ASCII characters that are neither letters nor digits |
| Punctuation.RemovePunctuationCount | friendlytext/preprocessing.py:22 | each non-punctuation character occurs in the output as often as in the input; punctuation occurs zero times |
| Punctuation.RemovePunctuationAppend | friendlytext/preprocessing.py:22 | removal distributes over concatenation, so the kept characters stay in order |
| Punctuation.RemovePunctuationUnchanged | friendlytext/preprocessing.py:22 | the text comes back unchanged if and only if it holds no punctuation |
| Punctuation.RemovePunctuationIdempotent | friendlytext/preprocessing.py:22 | removing punctuation twice equals removing it once |
| Punctuation.RemovePunctuationCons | friendlytext/preprocessing.py:22 | the first character is dropped exactly when it is punctuation, and the rest is processed the same way |
| Punctuation.RemovePunctuationExample | friendlytext/preprocessing.py:22 | `#a_b c!` becomes `ab c`: `#` and `_` are punctuation too |
| Lowercase.StandardizeLowercase | friendlytext/preprocessing.py:48 | the length is kept, each character is mapped independently, and no upper-case letter is left |
| Lowercase.LowerChar | friendlytext/preprocessing.py:48 | only `A`-`Z` change, each to a lower-case letter; every other character is kept |
| Lowercase.LowerCharMapping | friendlytext/preprocessing.py:48 | `A`-`Z` map to the letter at the same alphabet position in `a`-`z`; every other character is unchanged; word characters stay word characters |
| Lowercase.StandardizeLowercaseUnchanged | friendlytext/preprocessing.py:48 | the text comes back unchanged if and only if it has no upper-case letter |
| Lowercase.StandardizeLowercaseIdempotent | friendlytext/preprocessing.py:48 | lowercasing twice equals lowercasing once |
| Lowercase.StandardizeLowercaseAppend | friendlytext/preprocessing.py:48 | lowercasing distributes over concatenation |
| Digits.LeadingMatch | friendlytext/preprocessing.py:29 | a match of `^\d+\s` is a run of digits and then one whitespace character, at least two characters long |
| Digits.InnerMatch | friendlytext/preprocessing.py:29 | a match of `\s\d+\s\|\s\d+$` starts with whitespace, continues with digits, and ends with a digit or a whitespace character |
| Digits.ReplaceRest | friendlytext/preprocessing.py:29 | the scan after the start of the text never lengthens it |
| Digits.ReplaceDigits | friendlytext/preprocessing.py:29 | the output is never longer than the input |
| Digits.InnerMatchIsRun | friendlytext/preprocessing.py:29 | every match of the inner alternatives surrounds a delimited digit run |
| Digits.RunIsInnerMatch | friendlytext/preprocessing.py:29 | every delimited run after whitespace is matched by the inner alternatives at that whitespace |
| Digits.RunIsLeadingMatch | friendlytext/preprocessing.py:29 | a delimited run at the start of the text is matched by `^\d+\s`, together with the whitespace after it |
| Digits.RestShortens | friendlytext/preprocessing.py:29 | each match makes the text strictly shorter |
| Digits.RestUnchanged | friendlytext/preprocessing.py:29 | where no inner match starts anywhere, the scan copies the text |
| Digits.ReplaceDigitsUnchanged | friendlytext/preprocessing.py:29 | the text comes back unchanged if and only if it holds no digit run delimited by whitespace or the ends of the text (a text of digits only counts as none) |
| Digits.NoSpaceUnchanged | friendlytext/preprocessing.py:29 | a text without whitespace, such as `abc123`, is never changed |
| Digits.RestKeepsUntouched | friendlytext/preprocessing.py:29 | the scan keeps every character that is neither a digit nor whitespace, in order |
| Digits.ReplaceDigitsKeepsUntouched | friendlytext/preprocessing.py:29 | only digits and whitespace are removed; every other character stays, in order |
| Digits.NonOverlapExample | friendlytext/preprocessing.py:29 | in `a 1 2 b` both `1` and `2` are delimited runs, yet only `1` is replaced, because matches do not overlap |
| Digits.DigitsInWordsExample | friendlytext/preprocessing.py:29 | digits inside words (`a1 2b`) are kept |
| Digits.InnerMatchAppend | friendlytext/preprocessing.py:29 | a match at the head of a text ending with a character that is neither a digit nor whitespace is unaffected by what follows |
| Digits.ReplaceRestSplit | friendlytext/preprocessing.py:29 | the text can be cut after any character that is neither a digit nor whitespace, and the two parts scanned separately |
| Digits.ReplaceDigitsSplit | friendlytext/preprocessing.py:29 | the same cut for the whole transform, with the part after the cut no longer at the start of the text |
| Digits.WordCopied | friendlytext/preprocessing.py:29 | a word without whitespace is copied whole, its digits included, and the scan resumes after it |
| Digits.DigitsInWordKept | friendlytext/preprocessing.py:29 | at the start of the text, a word without whitespace that does not start with a digit is kept whole, its digits included |
| Digits.WordThenDigitsExample | friendlytext/preprocessing.py:29 | in `a1 2` the `1` inside the word stays and the delimited `2` at the end becomes a space |
| Urls.SchemeLength | friendlytext/preprocessing.py:38 | `http[s]?://` matches 0, 7 or 8 characters |
| Urls.SchemeLengthIsPrefix | friendlytext/preprocessing.py:38 | the scheme test is exactly a prefix test against `http://` and `https://` |
| Urls.UrlLength | friendlytext/preprocessing.py:38 | there is a match exactly where a scheme is followed by a non-space character; the match is longer than the scheme, holds no whitespace, and is followed by whitespace or the end of the text |
| Urls.RemoveUrl | friendlytext/preprocessing.py:38 | the output is never longer than the input |
| Urls.UrlStartRun | friendlytext/preprocessing.py:38 | whether a URL starts depends only on the leading run of non-space characters |
| Urls.UrlLengthIsRun | friendlytext/preprocessing.py:38 | a match is the whole leading run of non-space characters |
| Urls.FirstSpaceKept | friendlytext/preprocessing.py:38 | a text that starts with whitespace keeps that character first |
| Urls.LeadingRunShrinks | friendlytext/preprocessing.py:38 | removal never lengthens the leading non-space run |
| Urls.NoUrlInOutput | friendlytext/preprocessing.py:38 | no URL starts anywhere in the output |
| Urls.UrlShortens | friendlytext/preprocessing.py:38 | a text holding a URL becomes strictly shorter |
| Urls.RemoveUrlUnchanged | friendlytext/preprocessing.py:38 | the text comes back unchanged if and only if no URL starts in it |
| Urls.RemoveUrlIdempotent | friendlytext/preprocessing.py:38 | removing URLs twice equals removing them once |
| Urls.WhitespaceKept | friendlytext/preprocessing.py:38 | the replacement is empty and URLs hold no whitespace, so every whitespace character is kept, in order |
| Urls.UrlLengthAppend | friendlytext/preprocessing.py:38 | the match at the start is unaffected by text that follows across whitespace |
| Urls.RemoveUrlSplit | friendlytext/preprocessing.py:38 | the text can be cut next to any whitespace character and each part cleaned separately |
| Urls.RemoveUrlCopies | friendlytext/preprocessing.py:38 | with no URL at the head, the first character is copied |
| Urls.ShortUnchanged | friendlytext/preprocessing.py:38 | a text of at most seven characters is never changed |
| Urls.UrlTokenRemoved | friendlytext/preprocessing.py:38 | a whole URL token disappears completely |
| Urls.UrlBetweenSpaces | friendlytext/preprocessing.py:38 | a URL token between whitespace disappears, and the text and whitespace on both sides stay |
| Urls.SchemeAloneKept | friendlytext/preprocessing.py:38 | `http://` or `https://` on its own is not removed |
| Urls.BarePrefixKept | friendlytext/preprocessing.py:38 | a bare `http://` or `https://` with whitespace or an edge of the text on both sides stays, and the text on each side is cleaned separately |
| Urls.GluedPrefixRemoved | friendlytext/preprocessing.py:38 | a bare prefix glued to the end of a URL token is removed with that token |
| Hashtags.TagLength | friendlytext/preprocessing.py:45 | there is a match exactly where `#` is followed by a tag character; the match is `#` and the maximal run of tag characters |
| Hashtags.RemoveHashtags | friendlytext/preprocessing.py:45 | the output is never longer than the input |
| Hashtags.FirstCharKind | friendlytext/preprocessing.py:45 | the output starts with a tag character if and only if the input does |
| Hashtags.NoTagInOutput | friendlytext/preprocessing.py:45 | no `#` in the output is followed by a tag character |
| Hashtags.TagShortens | friendlytext/preprocessing.py:45 | a text holding a hashtag becomes strictly shorter |
| Hashtags.RemoveHashtagsUnchanged | friendlytext/preprocessing.py:45 | the text comes back unchanged if and only if it holds no hashtag |
| Hashtags.RemoveHashtagsIdempotent | friendlytext/preprocessing.py:45 | removing hashtags twice equals removing them once |
| Hashtags.UntouchedKept | friendlytext/preprocessing.py:45 | every character other than tag characters, `#` and the space is kept, in order |
| Hashtags.TagLengthAppend | friendlytext/preprocessing.py:45 | a match is unaffected by text that follows when that text starts with a non-tag character |
| Hashtags.RemoveHashtagsSplit | friendlytext/preprocessing.py:45 | the text can be cut in front of any non-tag character and each part cleaned separately |
| Hashtags.HashKeptBetween | friendlytext/preprocessing.py:45 | a `#` followed by a non-tag character stays, and the text on each side is cleaned separately |
| Hashtags.TagRemoved | friendlytext/preprocessing.py:45 | a `#` and the whole run of tag characters after it become one space when a non-tag character or the end follows |
| Hashtags.RemoveHashtagsExamples | friendlytext/preprocessing.py:45 | `#a-b` becomes ` -b`; `##a` becomes `# `; a lone `#` stays |
| Stopwords.MatchAtFirst | friendlytext/preprocessing.py:54 | the pattern matches if and only if some alternative is accepted, and then the match is that of the first accepted alternative |
| Stopwords.MatchAt | friendlytext/preprocessing.py:54 | a match is found only where the `\b` boundary holds; it ends within the text; it is never empty right after an empty match |
| Stopwords.PatternSub | friendlytext/preprocessing.py:55 | the output of a text of `n` characters has at most `2n + 1` characters, and at most `2n` right after an empty match |
| Stopwords.RemoveStopwords | friendlytext/preprocessing.py:54-55 | the empty text comes back empty; a text of `n` characters gives at most `2n + 1` characters, a bound that leaves room for the spaces empty matches insert |
| Stopwords.MatchAtPlain | friendlytext/preprocessing.py:54 | for plain words, the pattern matches exactly when the token at a word start is one of the words; the match is that token and the whitespace run after it |
| Stopwords.PatternSubIsWordSub | friendlytext/preprocessing.py:54-55 | for plain words, the regular-expression scan equals the token scan, whatever the order of the alternatives |
| Stopwords.WordMatch | friendlytext/preprocessing.py:54 | a token match happens if and only if the token at a word start is a stopword; it is the token and then whitespace only, and it is followed by a non-space character or the end |
| Stopwords.WordSub | friendlytext/preprocessing.py:54-55 | the token scan never lengthens the text |
| Stopwords.NoWholeWordInOutput | friendlytext/preprocessing.py:54-55 | no whole-word stopword is left in the output |
| Stopwords.WordCharsShrink | friendlytext/preprocessing.py:54-55 | no word characters are added; a whole-word occurrence removes some |
| Stopwords.NoWholeWordUnchanged | friendlytext/preprocessing.py:54-55 | with no whole-word occurrence, the text comes back unchanged |
| Stopwords.OthersKept | friendlytext/preprocessing.py:54-55 | every character that is neither a word character nor whitespace is kept, in order |
| Stopwords.RemoveStopwordsIntended | friendlytext/preprocessing.py:50-56 | the result is no longer than the input; it equals the input if and only if there is no whole-word occurrence; it has no occurrence left; an empty set changes nothing |
| Stopwords.RemoveStopwordsIntendedIdempotent | friendlytext/preprocessing.py:54-55 | removing stopwords twice equals removing them once |
| Stopwords.RemoveStopwordsIntendedKeepsOthers | friendlytext/preprocessing.py:54-55 | only word characters and whitespace are removed |
| Stopwords.RemoveStopwordsMatchesIntended | friendlytext/preprocessing.py:54-55 | for any non-empty set of plain words, in any join order, the source's result is the intended result |
| Stopwords.OrderIrrelevant | friendlytext/preprocessing.py:54 | two join orders of the same plain words give the same result, so the hash order of `set(sw)` does not matter |
| Stopwords.RemoveStopwordsUnchanged | friendlytext/preprocessing.py:54-55 | the result is never longer than the input, and equals it if and only if no stopword occurs as a whole word |
| Stopwords.RemoveStopwordsIdempotent | friendlytext/preprocessing.py:54-55 | the output has no whole-word stopword, and a second call returns it unchanged |
| Stopwords.WordSubSpaces | friendlytext/preprocessing.py:54-55 | a leading whitespace run is copied |
| Stopwords.WordSubKept | friendlytext/preprocessing.py:54-55 | a whole word that is not a stopword is copied |
| Stopwords.WordSubRemoved | friendlytext/preprocessing.py:54-55 | a whole stopword, together with its following whitespace run, becomes one space |
| Stopwords.KeptThenSpaces | friendlytext/preprocessing.py:54-55 | a kept word and the whitespace after it are copied |
| Stopwords.RemovedThenRest | friendlytext/preprocessing.py:54-55 | a stopword and the whitespace after it become one space |
| Stopwords.StandaloneWord | friendlytext/preprocessing.py:54-55 | a stopword on its own becomes a single space |
| Stopwords.KeptWord | friendlytext/preprocessing.py:54-55 | a word that is not a stopword is kept whole, even when a stopword occurs inside it |
| Stopwords.WordBeforeStopword | friendlytext/preprocessing.py:54-55 | the whitespace before a stopword stays, and the stopword becomes one space |
| Stopwords.StopwordPair | friendlytext/preprocessing.py:54-55 | two stopwords separated by whitespace become exactly two spaces |
| Stopwords.SubwordExample | friendlytext/preprocessing.py:54-55 | `banana` with the stopword `an` is unchanged |
| Stopwords.CaseSensitiveExample | friendlytext/preprocessing.py:54-55 | with the stopword `the`, `The the` becomes `The` followed by two spaces: matching is case-sensitive, and the space before the final stopword stays |
| Stopwords.RepeatedWordExample | friendlytext/preprocessing.py:54-55 | `the`, a space, a tab, a newline and `the` become two spaces |
| Stopwords.SentenceShape | friendlytext/preprocessing.py:54-59 | a sentence shaped like `this list has many stopwords like that.` becomes ` list   stopwords   .`, with three spaces between the kept words |
| Stopwords.EmptySetAsWritten | friendlytext/preprocessing.py:54-55 | with an empty set, the text comes back unchanged if and only if it has no word character |
| Stopwords.EmptySetExample | friendlytext/preprocessing.py:54-55 | with an empty set, `ab` becomes ` ab ` |

## Left out

- Loading the NLTK stopword corpus (lines 9-16) is left out. It performs I/O
  (a lookup, and possibly a download), so the word set is a parameter here.
- The default argument `sw=nltk_stopwords` is left out; callers pass the words
  explicitly.
- The demo at lines 58-59 prints to the console and is left out. Its sentence
  is covered by `Stopwords.SentenceShape`, but for the five words `this`, `has`,
  `many`, `like` and `that`; the English NLTK list has no `many` or `like`.
- Unicode is left out. `\w`, `\s`, `\d` and `str.lower` are modelled for ASCII
  only: a character at or above 128 is never a word character, space or digit,
  and lowercasing leaves it unchanged. Python applies the Unicode classes and
  mappings there, including `str.lower` cases that change the length.
- Stopwords.RemoveStopwords: the words are spliced into the pattern unescaped,
  and the model treats every word as a literal string. A word containing a
  regular-expression metacharacter (`.`, `*`, `(`, ...) would match differently
  in the source or fail to compile. The English NLTK words contain only letters
  and apostrophes, so they are not affected.
- Stopwords.RemoveStopwordsMatchesIntended and the lemmas built on it cover
  only plain words (letters, digits, `_`). Words such as `don't` are handled by
  `RemoveStopwords` but have no token-level reference. With such words, which
  alternative wins can depend on the hash order of `set(sw)`.
- The general regular-expression engine is not modelled. Each of the five
  patterns is written out as its own matcher.
- Digits.InnerMatch: `$` also matches just before a final newline. That case
  is included but can never be the match, because the `\s\d+\s` alternative
  always matches first there.
- The docstrings say that `replace_digits` replaces all digits and that
  `remove_url` replaces URLs with whitespace. The code replaces only delimited
  digit tokens, and it deletes URLs with an empty replacement. The model follows
  the code.
- Between the kept words of `this list has many stopwords like that.` there
  are three spaces: the space before the stopwords stays, and each removed
  stopword adds one (see `Stopwords.SentenceShape`).

## Findings

| source | as written | input that shows it | evidently intended | confidence | as-written member | corrected member |
|---|---|---|---|---|---|---|
| friendlytext/preprocessing.py:54-55 | an empty stopword set builds the pattern `\b()\b\s*`, which matches the empty string at every word boundary and inserts a space there | `remove_stopwords("ab", set())` gives `" ab "` | an empty stopword set leaves the text unchanged | high, derived from the regular-expression semantics; not executed | Stopwords.EmptySetAsWritten | Stopwords.RemoveStopwordsIntended |
