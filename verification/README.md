# translate++ core, modelled in Dafny

translate++ is a desktop word-substitution tool. It loads a dictionary of
key → replacement pairs and splits input text into tokens with a regular
expression. It writes each token back either replaced or unchanged, with
one space after it. This project models the engine that does this (the
`Translator` class) and the state logic of the `App` class around it:

- the active dictionary and its path;
- the two auxiliary windows (editor, info) and their deferred close;
- the dictionary list fed by the file dialog;
- the counter shown next to a translation.

Modules, one per component:

- `CaseInsensitive` (CaseInsensitive.dfy): the dictionary's key comparator.
  It is `std::lexicographical_compare` on ASCII-lower-cased characters. The
  module proves it is a strict weak order, and that it is plain
  lexicographic order on the lower-cased strings. Two keys are equivalent
  under it exactly when they are equal after lower-casing.
- `DictionaryStore` (DictionaryStore.dfy): the `std::map` ordered by that
  comparator, modelled as a strictly increasing sequence of entries.
  `Lookup` is the declarative meaning of `find`. `Find` is the map's own
  search: a binary search for the first key not less than the word, then
  an equivalence test. `Find` is proved to agree with `Lookup`.
- `Tokenizer` (Tokenizer.dfy): the repeated `std::regex_search` with the
  pattern `\w+|\s{2,}|\n|\r|\t`, as a scanner over positions.
  `TokenizeCharacterization` describes its output position by position.
  `TokenizationIsUnique` proves that this description determines the
  output completely.
- `Translation` (Translation.dfy): `translate_sentence` as a fold over the
  tokens (`Translate`) and as the source's loop (`TranslateSentence`).
  `translate_file` is a loop over lines.
- `App` (App.dfy): the application state as an immutable record, with one
  step function per operation.
- `Options` (Options.dfy): the `Option` type.

In these places the C++ behaves in ways a reader might not expect; the
model follows it:

- The lookup is applied to every token (src/Translator.cpp:19), not only
  to word tokens.
- The separator test at src/Translator.cpp:21-24 is an OR of `!=` tests
  against four different characters, so it is always true.
  `Translation.AppendsSeparator` states this. Every token is followed by
  exactly one space, including a token that is itself a newline or a run
  of whitespace.
- A lone space, punctuation, a lone vertical tab or a lone form feed
  matches no alternative of the pattern. It is dropped from the output.
- `contains` on the JSON array `config["dictionaries"]` always answers
  false. So a successful `openNewDictionary` always appends the path.
- `openEditor` does not clear a pending close flag. An editor opened
  between the old editor's close callback and the next `OnUpdate` is
  destroyed by that `OnUpdate` (`App.ReopenBeforeUpdateIsDestroyed`).

I/O is replaced by parameters:

- Reading and parsing a dictionary file becomes an `Option<Dictionary>`
  argument. It is `None` when the load or the parse throws.
- The file dialog's answer becomes an `Option<string>`.
- The content of `config.json` becomes an `Option<Config>`. It is `None`
  when the file cannot be opened.
- The lines `getline` reads become a `seq<string>`.

## Model

The definitions the rows below are about carry no contract of their own,
so they have no row: `CaseInsensitive.CharLess` and `CaseInsensitive.Less`
(the comparator of src/Translator.hpp:10-20), `DictionaryStore.Lookup`
(the map's find at src/Translator.cpp:19, stated declaratively),
`Tokenizer.Tokenize` (the `regex_search` loop of src/Translator.cpp:16),
and `Translation.Piece`, `Translation.Render` and `Translation.Translate`
(the body of `translate_sentence`, src/Translator.cpp:12-30).

| member | source | states |
|---|---|---|
| `CaseInsensitive.LessIrreflexive` | src/Translator.hpp:10-20 | no string orders before itself |
| `CaseInsensitive.LessAsymmetric` | src/Translator.hpp:14-20 | if a orders before b, b does not order before a |
| `CaseInsensitive.LessTransitive` | src/Translator.hpp:14-20 | the key order is transitive |
| `CaseInsensitive.EquivalentIffSameLowercase` | src/Translator.hpp:10-19 | two keys are equivalent (neither orders first) iff they are equal after ASCII lower-casing, which includes equal length |
| `CaseInsensitive.EquivalenceTransitive` | src/Translator.hpp:14-20 | equivalence of keys is transitive, so together with the lemmas above the comparator is a strict weak order as `std::map` requires |
| `CaseInsensitive.LessIsLexOnLowercase` | src/Translator.hpp:10-20 | the comparator is exactly lexicographic order (first differing character, or proper prefix) on the lower-cased strings |
| `CaseInsensitive.ProperPrefixOrdersFirst` | src/Translator.hpp:15-19 | a key that is a proper prefix of another, ignoring case, orders before it |
| `DictionaryStore.LookupHitsExactlyOnEquivalentKey` | src/Translator.cpp:19 | a lookup hits iff some key is equivalent to the word, and a hit returns the value of an entry whose key is equivalent to the word |
| `DictionaryStore.AtMostOneEntryPerClass` | src/Translator.hpp:23 | the map never holds two keys that are equal after lower-casing |
| `DictionaryStore.LookupFindsKeyIgnoringCase` | src/Translator.hpp:23 | a word equal to a key up to letter case finds that key's value |
| `DictionaryStore.LookupMissesIffNoKeyMatches` | src/Translator.cpp:19 | a lookup misses iff no key equals the word up to letter case |
| `DictionaryStore.LookupIgnoresCase` | src/Translator.hpp:9-23 | words that differ only in letter case look up the same result |
| `DictionaryStore.HelloFindsItsKeyInAnyCase` | src/Translator.hpp:23 | with key "Hello", "HELLO" and "hello" both find its value and "help" misses |
| `DictionaryStore.Find` | src/Translator.cpp:19 | the map's binary search (first key not less than the word, then an equivalence test) returns exactly what `Lookup` specifies |
| `Tokenizer.RunEnd` | src/Translator.cpp:6 | a greedy `+` run ends at the first character outside the class, and every character before it is inside the class |
| `Tokenizer.MatchAt` | src/Translator.cpp:6 | a match found at a position starts there and is non-empty |
| `Tokenizer.NextMatch` | src/Translator.cpp:16 | `regex_search` returns the leftmost match: no position between the search start and the match has one, and no match at all means no position has one |
| `Tokenizer.Scan` | src/Translator.cpp:16 | the search loop's matches are non-empty, inside the input and in order without overlap, so the loop terminates |
| `Tokenizer.TokenizeCharacterization` | src/Translator.cpp:6-16 | each token is a maximal word run, a maximal whitespace run of length at least two, or a single newline, carriage return or tab with no whitespace beside it; a position is inside a token iff it is not dropped (punctuation, lone space) |
| `Tokenizer.TokensHoldOnlyWordAndSpaceChars` | src/Translator.cpp:6 | token texts contain only word characters and whitespace |
| `Tokenizer.TokenizationIsUnique` | src/Translator.cpp:6-16 | any ordered sequence of classified tokens covering exactly the non-dropped positions equals the scanner's output |
| `Tokenizer.HelloWorldTokens` | src/Translator.cpp:6-16 | "Hello   world\n" gives a word, a three-space run, a word and a newline |
| `Translation.SetDictionary` | src/Translator.cpp:8-10 | after the call every lookup is answered by the new mapping alone; no earlier entry survives |
| `Translation.AppendsSeparator` | src/Translator.cpp:21-24 | the separator test as written is true for every character |
| `Translation.RenderSeparatesEveryToken` | src/Translator.cpp:16-26 | the loop's result is the pieces (replacement or token text) joined by single spaces plus one final space, and empty when there is no token |
| `Translation.TranslationSeparators` | src/Translator.cpp:16-26 | the output is empty iff there is no token; a non-empty output ends in a space; its length is the pieces' total length plus one per token |
| `Translation.TranslationEmptyIffAllDropped` | src/Translator.cpp:13-16 | the output is empty iff every input character is dropped, which includes the empty input |
| `Translation.EmptyDictionaryPassesThrough` | src/Translator.cpp:19 | with an empty dictionary the output is the token texts joined by single spaces plus a final space |
| `Translation.ForeignCharsComeFromDictionary` | src/Translator.cpp:6-19 | a character that is neither a word character nor whitespace appears in the output only if some dictionary value contains it |
| `Translation.TranslateSentence` | src/Translator.cpp:12-30 | the source's search-lookup-append loop, using the map's own search, produces exactly the fold over the tokens |
| `Translation.TranslateFile` | src/Translator.cpp:32-40 | one output line per input line, line i being the translation of input line i followed by a newline; no input lines give no output |
| `App.TrySetDictionary` | src/App.hpp:257-266 | succeeds iff the file loaded and parsed; on success installs the dictionary and sets `config["file"]` to the path; on failure changes nothing; no other field ever changes |
| `App.Startup` | src/App.hpp:25-62 | without `config.json` the default configuration stays and the dictionary is empty; with it the configuration is the file's, and its dictionary is installed if it loads, else the dictionary stays empty; no window exists |
| `App.LoadDictionary` | src/App.hpp:224-229 | a successful load installs the dictionary and its path; a failed one leaves the state unchanged; the dictionary list, the windows and the offered paths never change |
| `App.OpenNewDictionary` | src/App.hpp:231-247 | a cancelled dialog or failed load changes nothing; a successful load installs the dictionary and path and appends the path to the dictionary list and the page's options; the windows and their flags never change |
| `App.OpenEditor` | src/App.hpp:249-251 | the editor slot holds an editor on the active path; every other field, the close flag and the info window included, is unchanged |
| `App.OpenInfo` | src/App.hpp:253-255 | the info slot holds a window; every other field, its close flag, the dictionary, the configuration and the editor included, is unchanged |
| `App.EditorClosed` | src/App.hpp:250 | the editor's close callback only sets the flag: every other field is unchanged, so the window still exists and the dictionary is untouched |
| `App.InfoClosed` | src/App.hpp:254 | the info window's close callback only sets the flag: every other field is unchanged, so the window still exists |
| `App.OnUpdate` | src/App.hpp:69-80 | with the editor flag set: reload from `config["file"]` (as `trySetDictionary`), destroy the editor, clear the flag; without it the editor and dictionary are untouched; with the info flag set: destroy the window and clear the flag, with no reload |
| `App.OnUpdateDrainsPendingCloses` | src/App.hpp:69-80 | an update takes each slot in CloseRequested to Absent and leaves the others alone; the dictionary changes only when the editor slot was in CloseRequested and the reload succeeded |
| `App.CloseTakesTwoPhases` | src/App.hpp:69-80 | a close callback alone leaves the window alive; the callback followed by an update removes it |
| `App.ReopenBeforeUpdateIsDestroyed` | src/App.hpp:249-251 | opening an editor while a close is pending keeps the close pending, and the next update destroys the new editor |
| `App.Process` | src/App.hpp:177-185 | the result is the sentence translation; the displayed counter is 0 for an empty result and otherwise the length of the result without its final space; the value handed back is the input's length |
| `App.ProcessCountsJoinedPieces` | src/App.hpp:182 | the displayed counter is the length of the translated pieces joined by single spaces |
| `App.LoadsDecideLaterTranslations` | src/App.hpp:257-261 | after a successful load every translation uses the new dictionary; after a failed load every translation is as before |

## Left out

- Windows, overlays, views, cursor, title, resize and console callbacks,
  key handling (F1 opening the info window, Escape closing a window), and
  the JavaScript bridge. This is UI glue. The translation is spliced into
  a JavaScript template literal without escaping (src/App.hpp:181); the
  model stops at the string.
- The Win32 file dialog (`openFile`) and the clipboard (`copy`). These are
  foreign calls. The dialog's answer is a parameter. `openFile` frees the
  path it returns (src/App.hpp:172-174); the model treats the returned
  path as valid, and in particular treats the value appended to
  `config["dictionaries"]` as the path.
- `App::translateFile` (two file dialogs, then `translate_file`). It is
  dialog glue around the modelled `Translation.TranslateFile`.
- JSON parsing, the conversion of a JSON object to the map, and reading
  and writing `config.json`. These are library calls. When two JSON keys
  differ only in case, which one wins is decided inside the JSON library.
  The model receives the parsed dictionary as a value. An exception while
  parsing `config.json` in the constructor, or while converting its
  `"file"` entry to a string when that entry is missing or not a string
  (src/App.hpp:61, outside the `try` of `trySetDictionary`), is not caught
  in the source, and it is not modelled: `Config.file` is always a string.
- File streams. `translate_file` receives the lines `getline` produced and
  returns the lines written. Splitting a file into lines, and open or
  write failures, which the source does not check, are not modelled.
- The editor writing its text back to the dictionary file before calling
  its close callback (src/Editor.hpp:37-41). The reload in `OnUpdate`
  receives whatever loading the file then yields.
- Locale-dependent `tolower`, `\w` and `\s`. The model uses ASCII.
- The UTF-8 and UTF-32 conversions in `process`. The model works on
  characters.
- The out-of-range read `result[result.size() - 1]` on an empty result
  (src/Translator.cpp:21). It happens when the first token's replacement
  is empty. The model reads a NUL there, since the separator test is true
  for every character.
- Translation.ForeignCharsComeFromDictionary: states that unmatched
  characters never reach the output only for characters that are not
  whitespace. A dropped lone space cannot be told apart from a separator
  space in the output. That it lies in no token is stated by
  `Tokenizer.TokenizeCharacterization`.
- App.Process: the returned value is stated as the input's character
  count. This equals the source's UTF-8 byte length only for ASCII text.
  The model also translates the whole input, while the source passes
  `utf8().data()` and `result.c_str()` on as C strings
  (src/App.hpp:178-179), so everything after a first NUL character is
  lost there: for "a", NUL, "b" the source yields "a " with counter 1, the
  model "a b " with counter 3.
- App.LoadDictionary: receives the path the page intended. In the source
  `utf8().data()` at src/App.hpp:225 points into a temporary that is
  destroyed at the end of that statement, so `trySetDictionary` at :227
  builds its path from freed memory.
- App.OpenNewDictionary: `picked` is the path after src/App.hpp:238-239
  narrows each `wchar_t` to `char`; characters outside one byte are
  mangled there, and the model does not model that narrowing.
- The report `trySetDictionary` writes to `std::cerr` on a failed load
  (src/App.hpp:263). It is logging only; the model keeps just the failure
  result.
- main.cpp, AssetsProvider.h and tailwind.config.js. These are program
  start-up, asset loading and CSS build configuration, with no logic of
  the core.
