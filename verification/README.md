# uzbl string core in Dafny

uzbl is a keyboard-driven web browser. It has a C/WebKit core that reads
commands from a socket or a fifo, a Python event manager whose plugins
react to the events the core emits, and injected JavaScript helpers. This
project models the sequential, string-level logic under that glue as pure
Dafny functions over immutable data, and proves what that logic promises.

- **Hint labels** (`follow.js`, `follower.js`, `follow_Numbers.js`,
  `follow_Numbers_Strings.js`):
  - label width and base-k numerals, decoding, padding;
  - filtering the candidates by the typed prefix;
  - resolving to a single candidate or redrawing the survivors.

  A candidate is its index in the page's ordered candidate list.
- **Command text layer** (`src/commands.c`, `src/comm.c`,
  `src/variables.c`, `src/util.c`, `src/menu.c`, and the older
  `src/uzbl-core.c` and `uzbl-core.c`):
  - the three revisions of the quote- and backslash-aware tokenizer
    `split_quoted`;
  - command-argument splitting and command lookup;
  - the event-message serializer and its escaping;
  - variable-name validation, `set` and cyclic `toggle`;
  - the variable and backslash part of `@`-expansion;
  - `str_replace` and the XDG defaults;
  - the context-menu list;
  - `inject_handler_args`.
- **Event-manager plugins** (`uzbl/arguments.py`, `uzbl/core.py`,
  `uzbl/plugins/*.py`):
  - the `Arguments` tokenizer and `unquote`;
  - `cmd_expand` placeholders;
  - the `Keylet` edit buffer and its cursor;
  - the `History` cursor;
  - completion;
  - cookie matching, acceptance and the cookies.txt rows;
  - `Config` set and parse;
  - bind glob parsing, matching and the per-mode tables;
  - the instance's message parser and dispatcher.
- **Extras**:
  - the cookie manager's whitelist and request packets
    (`examples/uzbl-cookie-manager.c`);
  - tab arithmetic and the plain session file of `uzbl_tabbed.py`;
  - the UTF-8 codec of `extedit.js`;
  - the month navigation of `pipermail.js`.

Each file holds one module:

| file | module |
|---|---|
| `wrappers.dfy` | `Wrappers` (`Option`, `Result`) |
| `text.dfy`, `numerals.dfy`, `pyseq.dfy` | `Text`, `Numerals`, `PySeq`: shared string, numeral and Python-slice helpers |
| `util.dfy` | `Util` |
| `revisions.dfy` | `Revisions` |
| `hintlabels.dfy`, `hintfilter.dfy`, `follower.dfy`, `follownumbers.dfy`, `follownumbersstrings.dfy` | the four hint scripts |
| `tokenizer.dfy`, `commands.dfy`, `comm.dfy`, `variables.dfy`, `expand.dfy`, `handlers.dfy`, `menu.dfy` | the C command layer |
| `arguments.dfy`, `cmdexpand.dfy`, `keylet.dfy`, `history.dfy`, `completion.dfy`, `cookies.dfy`, `config.dfy`, `globs.dfy`, `bind.dfy`, `core.dfy` | the Python event manager |
| `cookiemanager.dfy`, `tabbed.dfy`, `utf8.dfy`, `pipermail.dfy` | the extras |

Foreign behaviour enters as a parameter:

- `lower` is JavaScript's `toLowerCase`.
- `run` is a shell, JavaScript or command expansion. It is given the raw contents between the delimiters and stands for "expand them, then run them".
- `plugins` is the list of `connect` calls the per-instance plugin constructors make when INSTANCE_START initialises them.
- `found(pattern, text)` is a regular-expression search.
- `pick` is `random.choice`.
- `toFloat` is Python's `float()`.
- `jar` is the cookie jar.
- `fails` and `answer` are the plugins' event and request handlers.
- The environment is a map.

C strings are sequences of `char`, one per byte. A missing pointer
(NULL) is `None`. A read past a string's terminating NUL, or a Python
exception, is an explicit error outcome.

Where a test and the code disagree, the model follows the code.

- `tests/core-tests.c:34-45` expects `toggle  foo  bar  baz` to give three
  arguments. The tokenizer gives six, three of them empty
  (`Commands.ParseDoubledSpaces`).
- `tests/event-manager/testcompletion.py` expects a plain `[ba] bar, baz`
  list. The code's `LIST_FORMAT` wraps the items in span markup
  (`Completion.Format`).

## Model

| member | source | states |
|---|---|---|
| HintLabels.LabelLengthIsMinimal | examples/data/scripts/follow.js:193-204 | `labelLength(n)` is at least 1 and is the least width whose `k^width` labels over a k-letter charset cover all n candidates |
| HintLabels.KeyLenIsDigitCount | examples/data/scripts/follow.js:197-202 | the `while(n)` loop runs once per base-k digit of the highest index `n - 1` |
| HintLabels.IntToLabel | examples/data/scripts/follow.js:207-215 | `intToLabel(n)`: `IntToLabelSpellsDigits` states its length and letters, and `LabelRoundTrip` proves that `labelToInt` reads it back |
| HintLabels.IntToLabelSpellsDigits | examples/data/scripts/follow.js:207-215 | `intToLabel(n)` has as many characters as n has base-k digits, and character i is the charset letter of digit i |
| HintLabels.IndexOf | examples/data/scripts/follow.js:222 | `charset.indexOf(c)` is the first position holding c, or -1 exactly when c is not in the charset |
| HintLabels.LabelToInt | examples/data/scripts/follow.js:218-225 | `labelToInt(label)`: `LabelRoundTrip` makes it the inverse of `intToLabel`, `OutOfAlphabetDecodes` shows a letter outside the charset counting as -1, and `LabelToIntLeadingZeros` shows padding is ignored |
| HintLabels.LabelRoundTrip | examples/data/scripts/follow.js:207-225 | `labelToInt(intToLabel(n)) == n` for every n when the charset repeats no letter |
| HintLabels.OutOfAlphabetDecodes | examples/data/scripts/follow.js:218-225 | a letter outside the charset counts as digit -1 instead of being refused: "bz" over "ab" decodes to 1 |
| HintLabels.LabelToIntLeadingZeros | examples/data/scripts/follow.js:218-225 | padding with `charset.charAt(0)` does not change the decoded number |
| HintLabels.PaddedLabelFacts | examples/data/scripts/follow.js:271-276 | every candidate below the count gets a padded label of exactly `labelLength(count)` letters that decodes back to its index |
| HintLabels.LabelFits | examples/data/scripts/follow.js:193-215 | an unpadded label of a candidate below the count is never wider than `labelLength(count)` |
| HintLabels.PaddedLabelsDistinct | examples/data/scripts/follow.js:271-276 | two different candidates never share a padded label |
| HintLabels.PaddedLabels | examples/data/scripts/follow.js:271-276 | candidate j's label is `intToLabel(j)` padded on the left with `charset.charAt(0)` up to the width |
| HintLabels.FollowLinks | examples/data/scripts/follow.js:228-284 | a candidate is selected exactly when the input has the label width and decodes to an index below the count; otherwise the hints are redrawn for the candidates whose label starts with the input |
| HintLabels.ShortInputNeverSelects | examples/data/scripts/follow.js:248 | input shorter than the label width never selects, whatever remains |
| HintLabels.FullLabelSelects | examples/data/scripts/follow.js:248-268 | typing a candidate's full label selects that candidate |
| HintFilter.PrefixFilter | examples/data/scripts/follow.js:270-284 | the survivors are exactly the candidates whose label starts with the typed keys, each with the rest of its label |
| HintFilter.FilterIncreasing | examples/scripts/follow_Numbers.js:205-219 | the survivors keep the candidates' order |
| HintFilter.FilterSingle | examples/scripts/follow_Numbers_Strings.js:181-195 | when exactly one label starts with the input, that candidate is the only survivor |
| HintFilter.FilterEmptyKeepsAll | examples/data/scripts/follow.js:277-278 | typing nothing keeps every candidate with its whole label |
| Follower.LPad | examples/data/scripts/follower.js:69-76 | `lpad` leaves a string at least `length` long alone; otherwise the result is at least `length` long, ends with the string, and overshoots by less than one padding |
| Follower.LPadOneChar | examples/data/scripts/follower.js:69-76 | with a one-character padding `lpad` is left zero-padding to the length |
| Follower.Translate | examples/data/scripts/follower.js:219-226 | a decimal label is translated one digit at a time through the ten-entry table; the result has the length of the digits |
| Follower.TranslationInjective | examples/data/scripts/follower.js:91 | the table gives different digits different letters |
| Follower.HintLabelIsTranslatedPadding | examples/data/scripts/follower.js:308-312 | a label is the translation of the index's decimal numeral zero-padded to `hintables.length`, which is 2 |
| Follower.HintLabelsDistinct | examples/data/scripts/follower.js:308-312 | different candidates get different labels |
| Follower.HintLabelWidth | examples/data/scripts/follower.js:308-312 | below 100 candidates every label is exactly two letters |
| Follower.HintLabelLetters | examples/data/scripts/follower.js:308-312 | every character of a label is a letter of the translation table |
| Follower.PatternFilter | examples/data/scripts/follower.js:319-332 | the survivors are exactly the candidates whose label matches `^target`, with a dot matching any character but a line terminator, each label cut by `target.length` |
| Follower.FilterHintables | examples/data/scripts/follower.js:319-332 | `filterHintables` keeps exactly the candidates whose label the target's pattern matches at the start, cutting `target.length` characters from each |
| Follower.NoDotMatchIsPrefix | examples/data/scripts/follower.js:322-325 | for a target without a dot, the pattern matches exactly when the target is a prefix of the label |
| Follower.NoDotFilterIsPrefixFilter | examples/data/scripts/follower.js:319-332 | for a target without a dot, the filter is the prefix filter of the other hint scripts |
| Follower.Hintables | examples/data/scripts/follower.js:308-312 | candidate i is labelled with its own hint label |
| Follower.Follow | examples/data/scripts/follower.js:390-406 | nothing happens when no label matches, the one candidate left goes to the handler, and two or more are drawn with the rest of their labels |
| Follower.FullLabelHandles | examples/data/scripts/follower.js:390-406 | typing a candidate's whole label hands exactly that candidate to the handler, for up to 100 candidates |
| Follower.DotDrawsEveryCandidate | examples/data/scripts/follower.js:322-325 | a typed "." is a regular-expression wildcard: with 2 to 100 candidates every one survives and they are all drawn |
| FollowNumbers.ZeroLabels | examples/scripts/follow_Numbers.js:207-211 | candidate j's label is `j + ''` with '0' in front up to the width |
| FollowNumbers.FollowLinks | examples/scripts/follow_Numbers.js:192-222 | a click happens exactly when `parseInt(typed, 10)` is a number other than -1, the input has the width of the count's numeral and the number names a candidate; otherwise the candidates whose label starts with the input are redrawn |
| FollowNumbers.DecimalValueLeadingZeros | examples/scripts/follow_Numbers.js:207-211 | zero-padding a numeral does not change its value |
| FollowNumbers.ZeroLabelFacts | examples/scripts/follow_Numbers.js:199-211 | every candidate's label has exactly the width and reads back as its index |
| FollowNumbers.FullLabelSelects | examples/scripts/follow_Numbers.js:202-203 | typing a candidate's label clicks that candidate |
| FollowNumbers.TrailingJunkStillSelects | examples/scripts/follow_Numbers.js:194-202 | `parseInt` reads only a leading numeral, so with fifteen links "1a" clicks link 1 |
| FollowNumbersStrings.Key | examples/scripts/follow_Numbers_Strings.js:126-142 | a link's key is its lower-cased text; a form element's is its lower-cased value when that is non-empty, else its lower-cased name; with neither the script throws |
| FollowNumbersStrings.Keys | examples/scripts/follow_Numbers_Strings.js:120-147 | collecting fails exactly when some candidate's key throws; otherwise key i belongs to candidate i |
| FollowNumbersStrings.Tags | examples/scripts/follow_Numbers_Strings.js:148-162 | each survivor is drawn under its own index's label when numbers are kept, or under its position among the survivors |
| FollowNumbersStrings.FollowLinks | examples/scripts/follow_Numbers_Strings.js:168-204 | aborts exactly when a key throws; a full-width number clicks that candidate; otherwise a single survivor is clicked, an existing hint layer is left alone, and else the survivors are redrawn |
| FollowNumbersStrings.RedrawShowsSurvivors | examples/scripts/follow_Numbers_Strings.js:181-201 | a redraw shows a candidate exactly when its key starts with the input |
| FollowNumbersStrings.RedrawCodesDistinct | examples/scripts/follow_Numbers_Strings.js:148-162 | the hints drawn all show different codes |
| FollowNumbersStrings.NoMatchRedrawsNothing | examples/scripts/follow_Numbers_Strings.js:181-201 | input that selects nothing and starts no key draws an empty layer when none is shown |
| FollowNumbersStrings.UniqueKeyClicks | examples/scripts/follow_Numbers_Strings.js:194-195 | input that starts exactly one key clicks that candidate, whether or not a layer is shown |
| Numerals.NatToDecimal | src/variables.c:1102 | `%llu` of a number is at least one character, all decimal digits, with no leading zero except for zero itself |
| Numerals.IntToDecimal | src/variables.c:1099 | `%d` of a signed number is the numeral of its magnitude, preceded by a minus sign exactly when it is negative |
| Numerals.DecimalRoundTrip | src/variables.c:1099-1102 | reading a printed number back gives the number |
| Numerals.DecimalCanonical | src/variables.c:1099-1102 | a digit string without a leading zero is the printed form of its own value, so printing is onto the canonical numerals |
| Numerals.NatToDecimalInjective | src/variables.c:1099-1102 | different numbers print differently |
| Numerals.PaddedDecimalInjective | examples/scripts/follow_Numbers.js:207-211 | numerals zero-padded to a common width differ for different numbers |
| Numerals.DigitCountIsLeast | examples/scripts/follow_Numbers.js:199-201 | the number of digits is the least L >= 1 with n < k^L |
| Numerals.StrToLong | src/variables.c:154 | `strtol(val, NULL, 10)` is 0 without digits and stays between LONG_MIN and LONG_MAX, saturating when the digits are out of range |
| Numerals.StrToULong | src/variables.c:160 | `g_ascii_strtoull(val, NULL, 10)` stays between 0 and ULLONG_MAX |
| Numerals.ToInt32 | src/variables.c:154 | the `(int)` cast lands in the 32-bit signed range, is congruent to its operand modulo 2^32, and leaves a value already in range alone |
| Numerals.StrToLongRoundTrip | src/variables.c:154 | `strtol` reads back every `long` that `%d` printed |
| Numerals.StrToULongRoundTrip | src/variables.c:160 | `g_ascii_strtoull` reads back every value that `%llu` printed |
| Numerals.JsParseInt | examples/scripts/follow_Numbers.js:194 | `parseInt(follow, 10)` is NaN exactly when no digit follows the leading space and sign; otherwise it is the value of the longest digit run, negated after a minus sign |
| Numerals.JsParseIntDigits | examples/scripts/follow_Numbers.js:194 | `parseInt` of a non-empty string of digits is the digits' value |
| Numerals.PyInt | uzbl/core.py:158 | Python's `int()` on text: whitespace around an optional sign and at least one digit. `PyIntEmpty` proves that `int('')` raises, and `PyIntRoundTrip` that it reads back what `%d` printed |
| Numerals.PyIntEmpty | uzbl/core.py:158 | `int('')` raises |
| Numerals.PyIntRoundTrip | uzbl/plugins/config.py:65 | Python's `int()` reads back what `%d` printed |
| Text.SplitOn | src/util.c:86 | no piece of `g_strsplit(string, search, -1)` contains the separator |
| Text.JoinSplitOn | src/util.c:86-87 | `g_strjoinv` with the same separator gives the split string back |
| Text.SplitOnPiecesAreFree | src/util.c:86-87 | no piece of the split holds an occurrence of the separator, so every occurrence is replaced |
| Text.Span | src/variables.c:115 | `strspn(name, valid_chars)` is the length of the longest prefix of accepted characters |
| Text.FindAny | src/uzbl-core.c:119 | `strpbrk` finds the first character of the class, and none before it, or NULL when there is none |
| Text.FindPair | src/uzbl-core.c:129 | `strstr(s, ")@")` finds the first ')' followed by '@', and none earlier, or NULL |
| Text.PadLeft | examples/scripts/follow_Numbers.js:207-211 | the padded label has the width, ends with the label, is all padding before it, and a label already that wide is unchanged |
| PySeq.Slice | uzbl/plugins/keycmd.py:147 | Python's `s[i:j]` clamps negative and out-of-range bounds as Python does |
| PySeq.TakeDrop | uzbl/plugins/keycmd.py:147 | `s[:i] + s[i:] == s` for every integer i, negative or out of range |
| PySeq.Index | uzbl/arguments.py:80 | `s[i]` raises IndexError exactly when i lies outside `[-len(s), len(s))`; otherwise it is the element counted from the front, or from the back for a negative i |
| Util.StrReplace | src/util.c:77-90 | a NULL string gives NULL; otherwise every occurrence of the search text is replaced: the text is cut at each occurrence and rejoined with the replacement, and a string without an occurrence comes back unchanged |
| Util.StrReplaceSelf | src/util.c:77-90 | replacing a text by itself changes nothing |
| Util.ReplaceCharIsSubst | src/util.c:77-90 | replacing a one-character text is substituting that character at every position |
| Util.Escaped | uzbl/plugins/cmd_expand.py:1-5 | escaping never shortens the text |
| Util.EscapedPlain | uzbl/plugins/cmd_expand.py:1-5 | text without special characters is its own escape |
| Util.EscapedAdds | uzbl/plugins/keycmd.py:13-17 | escaping adds no character other than the backslash |
| Util.GetXdgVar | src/util.c:18-35 | an unset or empty variable falls back to its default, and to NULL without one; in what is used every '~' becomes `$HOME` |
| Util.ConfigHomeDefault | src/util.c:18-35 | with `XDG_CONFIG_HOME` unset and `$HOME` = h, the configuration directory is h + "/.config" |
| Util.SetValueWins | src/util.c:25-31 | a set, non-empty value without '~' is used as it is, whatever the default |
| Tokenizer.Scan | src/commands.c:413-450 | the loop yields one more word than separators consumed; the guarded revisions never fail; without unquoting the words and the separators between them are exactly the input |
| Tokenizer.Tokenize | src/uzbl-core.c:501-535 | the two later revisions split every string |
| Tokenizer.SplitQuoted | uzbl-core.c:1296-1331 | `split_quoted` gives NULL exactly for NULL, at least one word otherwise, and only the unguarded legacy revision can run past the end of its input |
| Tokenizer.RawSplitIsLossless | src/commands.c:413-450 | without unquoting only separators are dropped: words and gaps give the input back, and every gap is a separator of the revision |
| Tokenizer.AdjacentSeparatorsGiveEmptyWord | src/commands.c:436-441 | two separators in a row give an empty word between them |
| Tokenizer.PlainIsOneWord | src/commands.c:445-448 | a string without quotes, backslashes or separators is one word, itself |
| Tokenizer.SingleQuotedIsOneWord | src/commands.c:429-436 | a single-quoted text without quotes or backslashes is one word, with the quotes removed when unquoting and kept otherwise |
| Tokenizer.SingleQuoteStep | src/commands.c:429-436 | a single quote outside double quotes toggles the quoted state and is kept only when not unquoting |
| Tokenizer.EscapeKeepsNextCharacter | src/commands.c:414-420 | when unquoting, a backslash is dropped and the character after it is kept, even a quote or a separator |
| Tokenizer.TrailingBackslashKept | src/commands.c:414 | the guarded revisions keep a final backslash as an ordinary character |
| Tokenizer.UnquoteDropsQuotes | src/commands.c:421-436 | when unquoting a string without backslashes and without the other kind of quote, no word keeps a quote: each one only opens or closes a quoted stretch |
| Tokenizer.LegacyTrailingBackslashOverruns | uzbl-core.c:1310 | the legacy loop steps past the terminating NUL on "a\\", with or without unquoting |
| Tokenizer.LegacySplitGuarded | uzbl-core.c:1296-1331 | the legacy tokenizer with the guard added gives NULL only for NULL and never overruns |
| Tokenizer.LegacyGuardedIsTotal | uzbl-core.c:1296-1331 | with the guard the legacy tokenizer splits every string losslessly and keeps a final backslash |
| Commands.CommandArguments | src/commands.c:370-389 | a command that does not split gets its whole remainder as the one argument, a splitting one gets at least one word, and a missing remainder gives no argument |
| Commands.Parse | src/commands.c:264-300 | an empty expanded line gives nothing; a name before the first space missing from the table gives COMMAND_ERROR with the line; otherwise the name is a space-free prefix of the line ending at the space, and a non-splitting command receives all text after that space |
| Commands.SplitJoinedPlainWords | src/commands.c:398-456 | plain words joined by single spaces split back into the same words, quoted or not |
| Commands.ParseSplitsPlainWords | src/commands.c:264-300 | a splitting command followed by single-spaced plain words gets exactly those words as arguments |
| Commands.ParseSimple | tests/core-tests.c:13-16 | `toggle foo bar baz` gives the three arguments foo, bar and baz |
| Commands.ParseDoubledSpaces | tests/core-tests.c:37-41 | `toggle  foo  bar  baz` gives six arguments, three of them empty, where the test expects three |
| Commands.CommandFromFile | src/commands.c:471-488 | an empty line runs nothing; what runs is no longer than the line, stripped at both ends, and never a comment; a non-empty line is skipped only when it holds a '#' |
| Commands.CommandLine | src/uzbl-core.c:683-700 | the stripped line runs unless it is empty or a comment; what runs is non-empty, stripped and does not start with '#'; a skipped line has a '#' before its first non-space character |
| Commands.CommandLineIdempotent | src/uzbl-core.c:683-700 | running an already stripped line strips nothing more, and both entry points agree on a line that runs |
| Commands.ParseCollapsed | tests/core-tests.c:34-45 | a splitting command never receives an empty argument, its arguments are the non-empty words of the split, and lines that are not commands parse as before |
| Commands.ParseCollapsedDoubledSpaces | tests/core-tests.c:34-45 | `toggle  foo  bar  baz` gives the three arguments foo, bar and baz the test expects |
| Commands.CollapsedAgreesOnPlainWords | src/commands.c:264-300 | on single-spaced non-empty plain words the collapsing parser agrees with the code |
| Comm.EscapeChar | src/comm.c:103-116 | a backslash, a quote or a newline becomes two characters starting with a backslash, every other character stays itself, and no replacement holds a newline |
| Comm.Escape | src/comm.c:90-120 | the escaped text holds no newline, grows by one character per rewritten character, and text without such characters is unchanged |
| Comm.AppendEscaped | src/comm.c:90-120 | the loop leaves `dest` followed by the escape of `src` |
| Comm.ReadEscapedInverse | src/comm.c:33-37 | an escaped field followed by its closing quote reads back as the original string, and the rest of the message is untouched |
| Comm.Format | src/comm.c:15-86 | the message is NULL (the failed assertion) exactly when some name argument is not a valid variable name; otherwise it is the header, the fields, and a newline |
| Comm.FormatStringsRoundTrip | src/comm.c:15-86 | a message of string arguments starts with the header, ends with a newline, and its fields read back as exactly the strings passed |
| Comm.FormatIsOneLine | src/comm.c:15-86 | with no newline in the header parts or in pre-escaped fields, a message has exactly one newline, its last character |
| Comm.StrArrayIsStrings | src/comm.c:43-59 | a non-empty array is written exactly like its items passed as separate strings; an empty one leaves a lone space |
| Comm.FormatInt | src/comm.c:27-29 | an `int` argument is its decimal numeral after the header and a space |
| Variables.IsValidMeans | src/variables.c:104-118 | a name is valid exactly when it is non-empty, does not start with a digit, and consists of letters, digits, '_' and '.' |
| Variables.ValidNamesAgree | src/uzbl-core.c:676-680 | a name the current check accepts passes `valid_name` too, and passes the oldest check exactly when it holds no dot |
| Variables.Convert | src/variables.c:144-171 | the converted value keeps the variable's type, an int lies in the 32-bit range and an unsigned long long is at most ULLONG_MAX |
| Variables.Set | src/variables.c:133-204 | success exactly for a value with a writeable known variable or a valid new name; failure leaves the store alone; success changes only `name`, and a new name becomes a writeable string holding the value |
| Variables.SetReadsBackPrinted | src/variables.c:144-162 | setting a variable to the printed form of a value its type can hold stores that value |
| Variables.NextFromFirst | src/variables.c:235-244 | the list loop stops at the first entry equal to the current value and takes the entry after it |
| Variables.NextFromAbsent | src/variables.c:246-248 | a loop that finds the current value nowhere before the last entry wraps to the first |
| Variables.ToggleCycles | src/variables.c:228-249 | with distinct values the toggle list is a cycle: each entry is followed by the next and the last by the first |
| Variables.ToggleFromOutside | src/variables.c:246-248 | a current value not in the list moves to the first entry |
| Variables.Flip | src/variables.c:250-257 | without a list "0" and "1" swap and any other string becomes empty |
| Variables.FlipTwice | src/variables.c:250-257 | flipping twice gives "0" and "1" back and empties anything else |
| Variables.Toggle | src/variables.c:214-365 | an unknown variable is set to the first value or "1"; a known one keeps its writeable flag and only it changes; a string steps through the list or flips; a number without a list becomes its logical negation |
| Variables.ToggleIntTwice | src/variables.c:289-291 | toggling an int twice leaves 0 at 0 and turns anything else into 1 |
| Variables.LegacySet | uzbl-core.c:1590-1650 | success exactly for a writeable known variable or a new name without a forbidden character; only `name` changes; a string is stored as given and an int lands in the 32-bit range |
| Variables.LegacyNegativeWraps | uzbl-core.c:1610 | "-1" stored through `(int)strtoul` is -1, because 2^64 - 1 keeps only its low 32 bits |
| Expand.KindOf | src/variables.c:1112-1133 | the character after '@' alone picks the expansion: '{' a braced name, '[' markup escaping, '(' the shell, '<' JavaScript, and anything else, the end of the string included, a simple name |
| Expand.NameLength | src/variables.c:703-707 | a simple name is the longest run of name characters: all of them are name characters and the next one is not |
| Expand.MarkupChar | src/variables.c:895 | the five markup characters become entities and the C0 controls but tab, line feed and carriage return, and DEL, become `&#x…;` references of their code point; every other byte stays itself, and no control character is left |
| Expand.Markup | src/variables.c:895 | `g_markup_escape_text` leaves no '<', '>', quote, apostrophe or escaped control; it also writes the C1 controls, the UTF-8 pairs 0xC2 0x80-0x9F but U+0085, as references; it never shortens, and it leaves text with none of these alone |
| Expand.MarkupRoundTrip | src/variables.c:895 | reading the entities and references back gives the original text, so the escape loses nothing |
| Expand.ExpandNullable | src/variables.c:666-682 | expanding NULL gives the empty string |
| Expand.Expand | src/variables.c:666-682 | `expand_impl` on a string, with the end-of-string check after a backslash in the current revision only. The lemmas below state its results: plain text is kept, escapes are undone in the older revisions, names are looked up, and delimited expansions are run or escaped |
| Expand.ExpandWith | src/variables.c:689-921 | the scan of `expand_process`: other characters are copied (`PlainPrefix`), a backslash keeps or drops itself by revision, and an '@' expands by the kind the next character picks. A read past the terminating NUL is `None` |
| Expand.ExpandDelimited | src/variables.c:716-903 | a delimited expansion ends at the first closer followed by '@' (`DelimitedEnd`). It is run (`ShellCommand`) or expanded and escaped (`EscapedMarkup`), and an unterminated one reads past the NUL. The JavaScript kinds of the current revision only drop the opener (`SyncJsDropsOpener`) |
| Expand.SyncJsDropsOpener | src/variables.c:857-867 | in the current revision's synchronous expansion, `@<`, `@*` and `@-` are dropped and what follows is expanded as ordinary text, terminated or not |
| Expand.SyncJsExample | src/variables.c:857-867 | with `b` holding "X", "@<a>@b" expands to "a>X" |
| Expand.SyncJsUnterminated | src/variables.c:733-740 | an unterminated "@<a" expands to "a" and reads nothing past the NUL |
| Expand.PlainPrefix | src/variables.c:916-919 | text with neither '@' nor a backslash in front of the rest is copied, and the expansion goes on with the rest |
| Expand.PlainUnchanged | src/variables.c:916-919 | text with neither '@' nor a backslash comes back unchanged |
| Expand.ProtectRoundTrip | src/uzbl-core.c:108-111 | in the older revisions a backslash emits the next character uninterpreted, so text with every '@' and backslash escaped expands to itself unescaped; the current revision keeps the backslashes |
| Expand.EscapedAtIsLiteral | tests/test-expand.c:160 | `\@uri` expands to `@uri` |
| Expand.EscapedBackslashIsLiteral | tests/test-expand.c:163 | `\\\@uri` expands to `\@uri` |
| Expand.EscapedCommandIsLiteral | tests/test-expand.c:166 | `\@(echo hi)\@` expands to `@(echo hi)@` |
| Expand.EscapedWrapped | src/uzbl-core.c:108-111 | escaping the two '@' around plain text gives the text between two literal '@' |
| Expand.SimpleVariable | src/uzbl-core.c:116-120 | `@name` inserts the name's value and goes on after the longest run of name characters |
| Expand.BracedVariable | src/uzbl-core.c:121-125 | `@{name}` inserts the value of everything up to the first '}' and goes on after it |
| Expand.EscapedMarkup | src/variables.c:892-903 | `@[inner]@` inserts the markup-escaped expansion of `inner` and fails when `inner` does |
| Expand.ShellCommand | src/uzbl-core.c:126-130 | `@(command)@` inserts what running the command up to the first ")@" gives |
| Expand.VariableFromStore | src/variables.c:757-760 | `@name` inserts the printed value of a known variable and nothing for an unknown one |
| Expand.MarkupEscapesVariable | tests/test-expand.c:142-144 | `@[@uri]@` with `uri` holding `<&>` gives `&lt;&amp;&gt;` |
| Expand.EscapedVariable | src/uzbl-core.c:136-140 | `@[@name]@` inserts the markup-escaped value of `name` |
| Expand.TrailingBackslashOverruns | src/uzbl-core.c:108-111 | the older revisions read past the terminating NUL of any plain text ending in a lone backslash |
| Expand.GuardedProtectRoundTrip | src/variables.c:909-915 | with the end-of-string check of the current revision, protected text followed by a lone backslash expands to the original text in the older revisions |
| Handlers.InjectHandlerArgs | uzbl-core.c:2074-2114 | an action that runs nothing external is returned with its arguments as they are; an external action with NULL arguments, or with arguments the legacy tokenizer overruns, fails; otherwise the action is kept and arguments are produced |
| Handlers.InjectAfterFirstWord | uzbl-core.c:2098-2106 | for an external action the handler arguments land right after the first word of the user's arguments, and the rest of those arguments follows character for character |
| Handlers.NoHandlerArgs | uzbl-core.c:2100-2101 | without handler arguments the user's arguments pass through unchanged |
| Handlers.InjectPlainWords | uzbl-core.c:2098-2106 | for single-spaced plain words the handler arguments follow the first word and the remaining words follow them, each after one space |
| Handlers.InjectPutsArgsAfterCommand | tests/test-command.c:286-293 | the handler `sync_spawn echo uvw xyz` run with `abc def` runs `echo abc def uvw xyz` |
| Menu.AddToMenu | src/menu.c:118-145 | without an argument, or with an empty one, nothing is added; otherwise exactly one command item of the context is appended, its name holds no '=', and the name, '=' and command give the argument back (the command is "" without '=') |
| Menu.AddSeparator | src/menu.c:148-168 | without an argument nothing is added; otherwise one separator of the context named by the argument is appended |
| Menu.RemoveLoop | src/menu.c:185-195 | the loop keeps every item it has passed and never grows the list |
| Menu.RemoveAsWritten | src/menu.c:171-196 | without an argument the list is unchanged, and the removal never grows it |
| Menu.RemoveFromMenu | src/menu.c:171-196 | every item of the context with the name is deleted and every other item keeps its number of copies |
| Menu.KeepCounts | src/menu.c:185-195 | keeping deletes every copy of a matching item and no copy of any other |
| Menu.RemoveLoopKeeps | src/menu.c:185-195 | without two matching items in a row the loop as written removes exactly the matching items, in order |
| Menu.RemoveAgreesWithoutAdjacentMatches | src/menu.c:171-196 | without two matching items in a row the removal as written and as intended agree |
| Menu.RemoveSkipsAdjacentMatch | src/menu.c:185-195 | with two matching items in a row the loop as written deletes the first and keeps the second |
| Menu.AddThenRemove | src/menu.c:118-196 | removing by a name and context deletes an item just added with them when no other item of that context has the name |
| Arguments.Split | uzbl/arguments.py:19 | `_splitquoted.split(s)` loses nothing: its pieces concatenate back to the line |
| Arguments.SplitFromFacts | uzbl/arguments.py:19 | the pieces alternate between unmatched text and matched separators and together are the input |
| Arguments.Unescape | uzbl/arguments.py:97 | `Unescape.sub` never lengthens the text and leaves text without a backslash alone |
| Arguments.Unquote | uzbl/arguments.py:100-108 | a quoted string loses its outer quotes and is then unescaped; an unquoted one is only unescaped |
| Arguments.UnquoteQuoted | uzbl/arguments.py:93-108 | a quoted string without backslashes unquotes to its body |
| Arguments.UnescapeBackslashed | uzbl/arguments.py:97 | unescaping undoes a backslash put before every character other than a newline |
| Arguments.FoldFacts | uzbl/arguments.py:42-65 | `parse` only appends to `ref`, and what it appends are the indices of non-empty text pieces, increasing |
| Arguments.New | uzbl/arguments.py:21-39 | a tuple is taken as it is with `ref` 0..n-1; a line's raw pieces give the line back; there is one `ref` per argument, increasing, each the index of a non-empty text piece |
| Arguments.Raw | uzbl/arguments.py:67-85 | no arguments give ''; an argument index out of range raises IndexError; otherwise the result is a prefix of the raw text from the first argument requested |
| Arguments.SafeRaw | uzbl/arguments.py:87-88 | `safe_raw` fails exactly when `raw` does, and in its result every '@' follows a backslash |
| Arguments.AtsEscaped | uzbl/arguments.py:88 | after replacing '@' by "\\@" every '@' follows a backslash |
| Arguments.ArgumentsArePyWords | uzbl/arguments.py:21-65 | a line without quotes or backslashes has exactly the arguments of `line.split()` |
| Arguments.EmptyLine | tests/event-manager/testarguments.py:8-11 | `Arguments('')` is empty and its `raw()` is '' |
| Arguments.PreparsedUnchanged | uzbl/arguments.py:31-34 | a preparsed tuple gives its items as the arguments |
| Arguments.SpacedWordsAndRaw | tests/event-manager/testarguments.py:13-18 | `Arguments(' foo  bar')` has two arguments, `raw()` is 'foo  bar', and `raw(0, 0)` and `raw(1, 1)` are 'foo' and 'bar' |
| CmdExpand.Expand | uzbl/plugins/cmd_expand.py:8-38 | `cmd_expand`: `%s`, then `%r`, then `%N` from the highest index down. Its results are stated by `JoinedArguments`, `QuotedArguments`, `IndexedArgument` and `NoPlaceholdersUnchanged` |
| CmdExpand.Escape | uzbl/plugins/cmd_expand.py:1-5 | the four `str.replace` calls in that order equal one pass that puts a backslash before every backslash, quote, double quote and '@' |
| CmdExpand.FourSubstitutions | uzbl/plugins/cmd_expand.py:2-3 | replacing the backslash first keeps the later replacements from doubling the inserted backslashes: the four passes are the single-pass escape |
| CmdExpand.UnescapeEscaped | uzbl/plugins/cmd_expand.py:1-5 | the event manager's unescaping gives back the text `escape` was given |
| CmdExpand.Quoted | uzbl/plugins/cmd_expand.py:28 | the `%r` replacement is a quoted string in the sense of `is_quoted` |
| CmdExpand.UnquoteQuoted | uzbl/plugins/cmd_expand.py:28 | `unquote` of the `%r` replacement is the joined argument text |
| CmdExpand.Placeholder | uzbl/plugins/cmd_expand.py:35 | `'%%%d' % index` is '%' followed by decimal digits only |
| CmdExpand.NoPlaceholdersUnchanged | uzbl/plugins/cmd_expand.py:8-38 | a command without `%s`, `%r` or `%1`..`%n` comes back unchanged |
| CmdExpand.PercentFreeNoPlaceholders | uzbl/plugins/cmd_expand.py:23-36 | a command without '%' has none of the placeholders |
| CmdExpand.JoinedArguments | uzbl/plugins/cmd_expand.py:23-24 | `%s` expands to the arguments joined by single spaces |
| CmdExpand.QuotedArguments | uzbl/plugins/cmd_expand.py:27-28 | `%r` expands to the escaped joined arguments in single quotes |
| CmdExpand.IndexedArgument | uzbl/plugins/cmd_expand.py:31-36 | `%N` expands to argument N-1 for every N up to the number of arguments, also when a higher `%NM` is replaced first |
| CmdExpand.RawEscapesApostrophe | tests/event-manager/testcmd_expand.py:6 | `cmd_expand("%r", ["c'thulu"])` is `'c\'thulu'` |
| Keylet.InjectStr | uzbl/plugins/keycmd.py:24-27 | for an index inside the string, the result is the text before the index, the injected text, then the rest; the length always grows by the injected length |
| Keylet.ClearKeycmd | uzbl/plugins/keycmd.py:58-62 | the command is empty with the cursor at 0 and the modifier command is untouched |
| Keylet.GetModcmd | uzbl/plugins/keycmd.py:64-70 | the modifier command is visible only while `is_modcmd` holds |
| Keylet.ClearModcmd | uzbl/plugins/keycmd.py:72-74 | afterwards no modifier command is visible and the keycmd is untouched |
| Keylet.SetKeycmd | uzbl/plugins/keycmd.py:76-78 | the command is replaced and the cursor put at its end |
| Keylet.InsertKeycmd | uzbl/plugins/keycmd.py:80-94 | the text goes in at the cursor, the cursor moves past it, and the text on both sides is kept |
| Keylet.AppendKeycmd | uzbl/plugins/keycmd.py:96-110 | the text goes at the end and the cursor follows it |
| Keylet.Backspace | uzbl/plugins/keycmd.py:112-119 | nothing changes exactly when the command is empty or the cursor at 0; otherwise the character before the cursor goes and the cursor moves back by one |
| Keylet.Delete | uzbl/plugins/keycmd.py:121-127 | nothing changes exactly when the command is empty; otherwise the character under the cursor goes, and none when the cursor is at the end; the cursor stays |
| Keylet.InsertThenBackspace | uzbl/plugins/keycmd.py:80-119 | typing a character and erasing it with backspace restores the keylet |
| Keylet.InsertThenDelete | uzbl/plugins/keycmd.py:80-127 | inserting a character and deleting it at the old position restores the keylet |
| Keylet.SetCursorPos | uzbl/plugins/keycmd.py:159-192 | it fails exactly when `int(index)` raises; the command is kept and the cursor is the requested position clamped to the command |
| Keylet.Clamp | uzbl/plugins/keycmd.py:185-189 | the position lies in `[0, n]` and equals the input when that already lies there |
| Keylet.SetCursorToNumber | uzbl/plugins/keycmd.py:174-192 | a printed position inside the command lands there; a printed negative `-j` counts from the end, -1 being the end |
| Keylet.StepForwardBack | uzbl/plugins/keycmd.py:174-178 | '+' then '-' inside the command gives back the keylet |
| Keylet.RFind | uzbl/plugins/keycmd.py:150 | `rfind` is -1 or a position of the character, and no later position holds it |
| Keylet.WordStartLoopIsLast | uzbl/plugins/keycmd.py:148-152 | the loop over `seps` yields -1 when the head has no separator, else one past the last separator |
| Keylet.RStripSeps | uzbl/plugins/keycmd.py:147 | `rstrip(seps)` gives a prefix, only separators were removed, and the result does not end with one |
| Keylet.StripWord | uzbl/plugins/keycmd.py:129-157 | `None` exactly for an empty command; the cursor becomes the length of the stripped head |
| Keylet.StripWordCases | uzbl/plugins/keycmd.py:144-157 | as written: with no separator the command becomes the text after the cursor; otherwise it becomes the head up to the word and the text after the cursor is lost |
| Keylet.StripWordIntended | uzbl/plugins/keycmd.py:129-143 | the readline ^W the docstring describes: `None` exactly for an empty command |
| Keylet.StripWordIntendedRemovesWord | uzbl/plugins/keycmd.py:129-143 | ^W removes the word before the cursor and the separators after it and nothing else; the removed word holds no separator and starts the command or follows a separator |
| Keylet.StripWordDropsTail | uzbl/plugins/keycmd.py:147-156 | "spam and egg" with the cursor before "egg" becomes "spam " with the cursor at 8, where ^W gives "spam egg" with the cursor at 5 |
| Keylet.StripWordDropsTailWith | uzbl/plugins/keycmd.py:147-156 | for any words `a`, `b` and text `t` after the cursor the as-written result drops `t`, and ^W keeps it |
| Keylet.StripWordAtEnd | uzbl/plugins/keycmd.py:133-142 | at the end of the command, the docstring's cases, both versions remove the same word and leave the same command |
| Keylet.MarkupEscape | uzbl/plugins/keycmd.py:13-17 | the two replacements equal one pass that puts a backslash before every backslash and '@' |
| Keylet.UzblEscape | uzbl/plugins/keycmd.py:20-21 | empty stays empty; other text is escaped and wrapped in `@[`…`]@` |
| Keylet.Markup | uzbl/plugins/keycmd.py:194-209 | the escaped text before the cursor, the character under it, or a space at the end, inside the cursor span, and the escaped rest |
| History.GetLineNumber | uzbl/plugins/history.py:13-17 | the number of lines stored under the prompt, 0 for a prompt never used |
| History.AddLine | uzbl/plugins/history.py:19-24 | the entry becomes the newest line of its prompt, the older lines stay, and no other prompt changes |
| History.GetLine | uzbl/plugins/history.py:26-31 | Python indexing from either end; an index out of range and a prompt never used both raise IndexError |
| History.AddThenGet | uzbl/plugins/history.py:19-31 | a line just added is what index -1 returns, and the line count grows by one |
| History.SearchBack | uzbl/plugins/history.py:56-61 | the search loop of `prev` stops at the nearest line at or below the cursor that contains the key, or at -1 when none does |
| History.SearchForward | uzbl/plugins/history.py:77-82 | the search loop of `__next__` stops at the nearest line at or above the cursor that contains the key, or at the end |
| History.Prev | uzbl/plugins/history.py:49-67 | one line further back, skipping lines without the search key; past the oldest line the cursor rests at -1 and one of the farewell messages is returned |
| History.Next | uzbl/plugins/history.py:69-92 | '' before a walk; one line further forward, skipping lines without the key; past the newest line the cursor and key are cleared and the saved tail comes back once |
| History.ChangePrompt | uzbl/plugins/history.py:97-99 | the prompt is replaced and the saved tail dropped, the cursor and search key kept |
| History.Search | uzbl/plugins/history.py:101-103 | the walk restarts from the newest line with the new key |
| History.KeycmdExec | uzbl/plugins/history.py:108-114 | a non-empty command becomes the newest line of the current prompt; the walk, key and tail are reset either way |
| History.HistoryPrev | uzbl/plugins/history.py:116-121 | the typed text is saved as the tail only when a walk starts with a non-empty command, and the keycmd becomes what `prev` returns |
| History.PrevFromFresh | uzbl/plugins/history.py:49-64 | the first step back from a fresh walk returns the newest line of the prompt |
| History.PrevSteps | uzbl/plugins/history.py:53-67 | each further step back returns the next older line until the lines run out, and from then on the cursor stays at -1 |
| History.PrevSearchFinds | uzbl/plugins/history.py:56-67 | with a key, `prev` returns the nearest older line that contains it, or ends the walk when none does |
| History.NextSearchFinds | uzbl/plugins/history.py:77-92 | with a key, `__next__` returns the nearest newer line that contains it, or ends the walk when none does |
| History.NextUndoesPrev | uzbl/plugins/history.py:49-92 | without a key, a step forward after a step back returns to the line and cursor before it |
| History.PrevUndoesNext | uzbl/plugins/history.py:49-92 | without a key, a step back after a step forward returns to the line and cursor before it |
| History.ExecThenPrev | tests/event-manager/testhistory.py:116-130 | a command just executed is the first line a new walk returns |
| History.SteppingVisitsNewestFirst | tests/event-manager/testhistory.py:75-87 | the stepping test: forward does nothing before a walk, backward visits the four lines newest first, then farewell messages, and after the oldest line a step forward returns the oldest line again |
| History.TypedTextComesBackOnce | tests/event-manager/testhistory.py:144-154 | text typed before a walk comes back once when the walk passes the newest line, and the next step returns '' |
| Completion.LineEnd | uzbl/plugins/completion.py:14 | where `$` lets a match end: before a final newline, otherwise at the end of the text |
| Completion.FindSegment | uzbl/plugins/completion.py:14 | the leftmost position from which FIND_SEGMENT matches up to the end, and no earlier one; none exactly when no position matches |
| Completion.Segment | uzbl/plugins/completion.py:75 | `(FIND_SEGMENT(left) + [''])[0]` is '' exactly when no segment reaches the end; otherwise a matching segment the text ends with |
| Completion.FindSegmentAt | uzbl/plugins/completion.py:14 | the search finds the first position where a segment starts |
| Completion.SegmentAt | uzbl/plugins/completion.py:75 | a segment reaching the end of the text, with no earlier one, is the one found |
| Completion.LStripIsDropSpan | uzbl/plugins/completion.py:75 | `lstrip()` removes exactly the leading whitespace span |
| Completion.SetModeName | uzbl/plugins/completion.py:76-77 | in a "set " segment the text after the whitespace is a word run the segment ends with |
| Completion.Keyword | uzbl/plugins/completion.py:67-79 | the keyword is '' exactly when no segment reaches the cursor; in set mode it is '@' and a word run the text ends with; otherwise a matching segment not starting "set " |
| Completion.IncompleteKeyword | uzbl/plugins/completion.py:73-75 | the keyword of the keylet is that of the text left of the cursor |
| Completion.WordKeyword | uzbl/plugins/completion.py:14 | a word typed after a character that is no word character, '@' or whitespace, or typed alone, is the keyword, outside set mode |
| Completion.AtKeyword | uzbl/plugins/completion.py:14 | an '@' followed by a word is the keyword, whatever comes before it |
| Completion.SetKeyword | uzbl/plugins/completion.py:14-77 | "set", whitespace starting with a space, and a word give that word as a variable reference, in set mode |
| Completion.KeywordOfPlainWord | tests/event-manager/testcompletion.py:46-52 | the keyword of "sp" is "sp", outside set mode |
| Completion.KeywordOfAtWord | tests/event-manager/testcompletion.py:54-60 | the keyword of "set @sp" is "@sp", outside set mode |
| Completion.KeywordOfSetName | tests/event-manager/testcompletion.py:62-68 | the keyword of "set Some" is "@Some", in set mode |
| Completion.AddWord | uzbl/plugins/completion.py:33-34 | `set.add`: the word is added and nothing else; a word already there changes nothing |
| Completion.AddConfigKey | uzbl/plugins/completion.py:182-186 | "@" and the key join the candidates; level, list and lock are kept |
| Completion.AddBuiltins | uzbl/plugins/completion.py:175-180 | the command names join the candidates; level, list and lock are kept |
| Completion.Stop | uzbl/plugins/completion.py:81-86 | the level becomes NONE and the list is removed; the candidates and the lock are kept |
| Completion.Raise | uzbl/plugins/completion.py:135-136 | one level up, never past COMPLETE |
| Completion.Hints | uzbl/plugins/completion.py:138 | exactly the candidates that start with the keyword |
| Completion.Shortest | uzbl/plugins/completion.py:154 | the first of the sorted (length, hint) pairs is a hint no other hint is shorter than |
| Completion.CommonFrom | uzbl/plugins/completion.py:155-166 | the loop collects characters of the shortest hint that every hint shares, and stops at the end of it or at a position where some hint differs |
| Completion.CommonExtension | uzbl/plugins/completion.py:154-166 | every hint continues the keyword with the common part, and it is the longest such: one hint ends there or two hints differ there |
| Completion.Sort | uzbl/plugins/completion.py:43 | `list.sort()` gives an ordered list of the same length |
| Completion.SortPermutes | uzbl/plugins/completion.py:43 | the sorted list has the same elements with the same counts |
| Completion.EscapeAt | uzbl/plugins/completion.py:17-18 | `replace("@", "\@")` puts a backslash before every '@' |
| Completion.Item | uzbl/plugins/completion.py:39-45 | an item is the escaped typed part inside the hint span, then the untyped rest |
| Completion.Items | uzbl/plugins/completion.py:44-46 | one item per hint, in the same order |
| Completion.Format | uzbl/plugins/completion.py:41-46 | the list is wrapped in the outer span |
| Completion.UpdateList | uzbl/plugins/completion.py:107-125 | no keyword stops completion; below LIST nothing changes; otherwise the list is the formatted hints, or removed when there are none |
| Completion.CompleteCompletion | uzbl/plugins/completion.py:88-99 | the rest of the hint and a space, or " = " in set mode, go in at the cursor, and completion stops |
| Completion.PartialCompletion | uzbl/plugins/completion.py:101-105 | the rest of the hint goes in at the cursor |
| Completion.StartCompletion | uzbl/plugins/completion.py:127-173 | as written: nothing while locked; no keyword stops; no hint only raises the level; one hint is completed; a keyword among several hints raises NameError; otherwise the common part goes in and the list is refreshed |
| Completion.Extend | uzbl/plugins/completion.py:154-173 | with several hints the common part goes in at the cursor and the list is refreshed for the new keycmd |
| Completion.StartCompletionIntended | uzbl/plugins/completion.py:148-152 | as intended: nothing while locked, and the same outcome as the code wherever the code does not fail |
| Completion.ExactHintFails | uzbl/plugins/completion.py:148 | a keyword that is one of two hints at level LIST: the code fails, while the intended code completes the keyword with a space and stops |
| Completion.ExactHintAmongTwoFails | uzbl/plugins/completion.py:148 | "ab" typed with "ab" and "abc" known makes the code fail |
| Cookies.Match | uzbl/plugins/cookies.py:26-30 | `zip` stops at the shorter tuple: the key matches when every component the two have in common agrees |
| Cookies.MatchIsPrefix | uzbl/plugins/cookies.py:24-30 | a key no longer than the cookie matches exactly when it is a prefix of it |
| Cookies.Holds | uzbl/plugins/cookies.py:35-39 | a matcher raises IndexError only for a component the cookie lacks; it holds only when every check passes and fails only when one does not |
| Cookies.MatchList | uzbl/plugins/cookies.py:33-40 | `match_list` raises IndexError only when some matcher does |
| Cookies.HoldsMeans | uzbl/plugins/cookies.py:35-39 | for components the cookie has, the matcher holds exactly when all its checks pass |
| Cookies.MatchListMeans | uzbl/plugins/cookies.py:33-40 | for components the cookie has, `match_list` is true exactly when some matcher holds |
| Cookies.AnyMatchesCons | uzbl/plugins/cookies.py:34-39 | some matcher of a list holds exactly when the first does or one of the rest does |
| Cookies.Accept | uzbl/plugins/cookies.py:212-221 | an accepted cookie is not blacklisted, and without a whitelist a cookie is accepted exactly when it is not blacklisted |
| Cookies.AcceptRule | uzbl/plugins/cookies.py:212-221 | the comment's rule: accepted exactly when the whitelist is empty or matches, and the blacklist does not match |
| Cookies.WhitelistLetsMatchThrough | tests/event-manager/testcookie.py:40-52 | a domain whitelist accepts the cookie whose domain matches and rejects the other |
| Cookies.BlacklistBlocksMatch | tests/event-manager/testcookie.py:54-66 | a domain blacklist rejects the cookie whose domain matches and accepts the other |
| Cookies.Symbolic | uzbl/plugins/cookies.py:14-21 | a symbolic component name has an index at most 5 and is no number |
| Cookies.Component | uzbl/plugins/cookies.py:54-57 | a symbolic name gives its index, any other text what `int` makes of it |
| Cookies.ComponentNumeric | tests/event-manager/testcookie.py:68-73 | a printed index names that component, as the numeric filter test uses |
| Cookies.Pairs | uzbl/plugins/cookies.py:53 | `zip(args[0::2], args[1::2])` gives half as many pairs as arguments, an odd last one dropped |
| Cookies.ParseChecks | uzbl/plugins/cookies.py:53-59 | one check per pair, its component the index the name gives and its pattern the pair's text; it fails exactly when some name is neither symbolic nor a number at most 5 |
| Cookies.AddCookieMatcher | uzbl/plugins/cookies.py:43-60 | on success exactly one matcher, parsed from the split argument, is appended and the list before it is kept; it fails exactly when parsing does |
| Cookies.ExpiresWithSession | uzbl/plugins/cookies.py:223-224 | a session cookie is one whose expiry is empty; a tuple without one raises IndexError |
| Cookies.AsEvent | uzbl/plugins/cookies.py:98-121 | comments other than `#HttpOnly_` rows and malformed rows give `None`; otherwise the six event components are taken from the row's columns, the scheme from the secure flag and the HttpOnly prefix |
| Cookies.AsFile | uzbl/plugins/cookies.py:123-144 | defined exactly for the four schemes; seven columns, the domain flag TRUE exactly for a domain starting with '.', the secure flag and the HttpOnly prefix from the scheme |
| Cookies.EventRoundTrip | uzbl/plugins/cookies.py:98-144 | writing a cookie as a row and reading the row back gives the cookie |
| Cookies.RowRoundTrip | uzbl/plugins/cookies.py:98-144 | reading a well-formed row and writing it back gives the row |
| Cookies.SchemeTable | uzbl/plugins/cookies.py:125-136 | the secure flag and the HttpOnly prefix determine the scheme |
| Cookies.FlagTable | uzbl/plugins/cookies.py:100-117 | the scheme read from a flag and a prefix writes back to the same flag and prefix |
| Cookies.SessionRow | uzbl/plugins/cookies.py:118 | a row read as an event expires with the session exactly when its expiry column is empty |
| Cookies.HeaderIsComment | uzbl/plugins/cookies.py:159 | the header line the store writes reads back as a comment |
| Cookies.DeleteCookie | uzbl/plugins/cookies.py:81-82 | exactly the stored cookies the key does not match are kept |
| Cookies.DeleteAppend | uzbl/plugins/cookies.py:82 | deleting from two stores one after the other equals deleting from their concatenation |
| Cookies.DeleteIdempotent | uzbl/plugins/cookies.py:81-82 | deleting twice with the same key removes nothing more |
| Cookies.AddThenDelete | uzbl/plugins/cookies.py:78-82 | a cookie added and then deleted by a key that matches it leaves the store as deleting alone would |
| Config.SetChecked | uzbl/plugins/config.py:54-74 | `set` for a given key check: the assertion fails exactly for a rejected key or text holding a newline; nothing is sent exactly when not forced and the stored value equals the new one; otherwise `set <key> = <value>` is sent |
| Config.SetAsWritten | uzbl/plugins/config.py:8 | `set` with the regex as written, whose `$` also matches before a final newline: rejected exactly for keys that regex refuses or text with a newline |
| Config.SetAsWrittenSendsNewline | uzbl/plugins/config.py:8 | the key "foo\n" passes the check as written and the command sent holds a newline, so uzbl reads two lines |
| Config.Set | uzbl/plugins/config.py:54-74 | `set` with the key check intended: a key of letters, digits, '_' and '.' only; the command sent is always one line |
| Config.OneLine | uzbl/plugins/config.py:69-74 | a key of key characters and a value without a newline make a one-line command |
| Config.SetSendsShownValue | tests/event-manager/testconfig.py:14-26 | True, False, "test" and "5" are sent as 1, 0, test and 5 |
| Config.SetRefusesInvalidKeys | tests/event-manager/testconfig.py:28-35 | the keys "foo\nbar" and "bad'key" fail the key assertion, with the regex as written and as intended: `$` matches only before a final newline, and this newline is not final |
| Config.SetRefusesNewlineValue | uzbl/plugins/config.py:67-69 | a value whose text holds a newline fails the value assertion, whichever key check is used |
| Config.ParseSetChecked | uzbl/plugins/config.py:77-103 | for a given key check: two or three arguments or the exception; a rejected key, an unknown type and a bad value each leave the data alone; on success the key holds the converted value, CONFIG_CHANGED fires exactly when the value differs from the old one, an empty string removes the key, and no other key changes |
| Config.ParseSetArgsAsWritten | uzbl/plugins/config.py:8-89 | with the regex as written: the argument-count and key errors happen exactly as the checks say, and success means the key passed that regex and the type is known |
| Config.ParseSetEvent | uzbl/plugins/config.py:77-89 | `parse_set_event`: the event line is split as event arguments are, then parsed as `ParseSetArgs` states. `ParseRefusesInvalid` proves that an empty event fails on the argument count |
| Config.ParseSetArgs | uzbl/plugins/config.py:77-103 | `parse_set_event` with the key check intended, with all the outcomes of `ParseSetChecked` |
| Config.ParseAsWrittenStoresNewlineKey | uzbl/plugins/config.py:8 | as written, `VARIABLE_SET` for the key "foo\n" stores it, while the intended check refuses it |
| Config.ParseAgreesWithoutNewline | uzbl/plugins/config.py:8 | for a key not ending in a newline the as-written and intended parses agree |
| Config.PyEqReflexive | uzbl/plugins/config.py:71 | `==` of a value with itself is true, also for floats and strings |
| Config.ParseIdempotent | uzbl/plugins/config.py:92-103 | the same event twice leaves the data as once, and the second one fires no CONFIG_CHANGED unless it removes an empty string |
| Config.EventThenSetIsQuiet | uzbl/plugins/config.py:54-103 | after uzbl reports a string value, setting the same value sends nothing |
| Config.NumbersAreSentAgain | uzbl/plugins/config.py:64-74 | after an int is reported, setting True or False of the same value sends nothing, while setting its text sends again, because `unicode` makes it a string that never equals an int |
| Config.IntText | uzbl/plugins/config.py:92 | printed integers have no newline and `int` reads them back |
| Config.ParseStoresString | tests/event-manager/testconfig.py:37-50 | `foo str value` stores "value" under foo and reports the change |
| Config.ParseRemovesEmptyString | tests/event-manager/testconfig.py:52-65 | `foo str` and `foo str ""` remove foo and report an empty string |
| Config.ParseRefusesInvalid | tests/event-manager/testconfig.py:67-77 | an unknown type, an empty event and an unreadable int each fail and leave the data empty |
| Binds.Texts | uzbl/plugins/bind.py:209-232 | `split[::4]`: the text before the first prompt, then the text after each prompt |
| Binds.NormalizePrompt | uzbl/plugins/bind.py:214-215 | a non-empty prompt ends with ':' by gaining one at most, an empty one stays empty, and one already ending in ':' is kept |
| Binds.NormalizeIdempotent | uzbl/plugins/bind.py:214-215 | normalizing a prompt twice is normalizing it once |
| Binds.MakeStage | uzbl/plugins/bind.py:233-244 | a last '!' or '_' makes the stage fire on exec, a last '*' or '_' makes it take an argument; that marker is dropped and the leading `<Mod>` tokens are split off, the rest starting with none |
| Binds.Stages | uzbl/plugins/bind.py:231-246 | one stage per text segment, in order, each counting the stages after it |
| Binds.Segments | uzbl/plugins/bind.py:209 | a glob has at least one text segment |
| Binds.CheckSegments | uzbl/plugins/bind.py:219-229 | in the constructor's order: a '*' ending a segment before a prompt, then an empty segment after the first prompt, then an empty first segment fail; it passes exactly when every segment is non-empty and none but the last ends with '*' |
| Binds.New | uzbl/plugins/bind.py:183-247 | a blank glob fails first; otherwise it fails exactly when the segment checks do, with their error; a bind made has the glob, handler, arguments and id given, and prompts and stages built from the split |
| Binds.Build | uzbl/plugins/bind.py:209-247 | a split that passed the checks makes a well-formed bind of its prompts and stages |
| Binds.NoPromptOneStage | uzbl/plugins/bind.py:209-247 | a glob without '<' is one stage made from the whole glob, with no prompts |
| Binds.At | uzbl/plugins/bind.py:250-256 | a global bind answers with its one stage at any depth; otherwise the stage at that depth, and IndexError past the last |
| Binds.StageMatch | uzbl/plugins/bind.py:423-439 | a stage matches exactly when the held modifiers are its own, if it has any, and the command starts with its glob when it takes an argument, or equals it otherwise; the argument is the rest of the command |
| Binds.Decide | uzbl/plugins/bind.py:422-463 | `match_and_exec` with the call at line 452 corrected: it raises only for a missing stage; no match; a run of a global or single-stage bind; a stack step into the next stage, also running a next stage that takes an empty argument; or a run of the last stage with the stacked arguments, leaving the stack when it takes no argument or fires on exec |
| Binds.DecideAsWritten | uzbl/plugins/bind.py:452 | as written, exactly the stack steps that would run the next stage raise NameError for `uzbl`; every other outcome is the corrected one |
| Binds.WellFormedNeverCrashes | uzbl/plugins/bind.py:422-454 | a constructed bind asked about one of its stages never raises for want of a stage |
| Binds.GlobalAtAnyDepth | uzbl/plugins/bind.py:253-254 | a global bind answers the same way at every depth |
| Binds.PrefixBindRuns | uzbl/plugins/bind.py:429-446 | a one-stage bind taking an argument runs on its glob and more, with the rest of the command |
| Binds.PromptThenStarStages | uzbl/plugins/bind.py:209-247 | a glob of a text, one prompt and a final '*', such as `o<name:>*`, makes two stages: the text, then an empty glob taking an argument |
| Binds.PromptThenStarCrashes | uzbl/plugins/bind.py:448-452 | typing that text stacks the bind and meets the empty next stage: the corrected call runs the bind, the call as written raises |
| Binds.ExecBind | uzbl/plugins/bind.py:322-339 | a function gets the event's arguments followed by the bind's own; commands are sent one per command, each expanded with the event's arguments |
| Binds.PlainCommandsSentVerbatim | uzbl/plugins/bind.py:336-339 | commands without placeholders are sent as they are |
| Binds.Lookup | uzbl/plugins/bind.py:140-145 | a glob is found exactly when the table has an entry for it |
| Binds.LookupAt | uzbl/plugins/bind.py:145 | in a table without repeated globs, the entry of a glob is what looking it up finds |
| Binds.Put | uzbl/plugins/bind.py:144-145 | `binds[glob] = bind`: that glob now gives the bind, every other glob what it gave, a new glob goes at the end and an existing one keeps its place |
| Binds.PutDistinct | uzbl/plugins/bind.py:145 | putting keeps the globs of a table distinct |
| Binds.MergeDistinct | uzbl/plugins/bind.py:133 | the merged dict has no repeated globs |
| Binds.MergeLookup | uzbl/plugins/bind.py:133 | in the merge a glob of the mode's table takes its entry, any other keeps the global one |
| Binds.NonNone | uzbl/plugins/bind.py:131 | the binds of a table that are not None, and nothing else |
| Binds.GlobalsOf | uzbl/plugins/bind.py:147-152 | the regenerated global-globals are exactly the global binds of the table |
| Binds.Initial | uzbl/plugins/bind.py:43-55 | a new bindlet is consistent and not stacked |
| Binds.AddBind | uzbl/plugins/bind.py:137-152 | the mode now looks the glob up as the bind, its other globs unchanged; no other mode changes; the stack is kept, and the globals only change for the global mode |
| Binds.CurrentMode | uzbl/plugins/bind.py:120-124 | the mode asked for, else the configured one, and 'global' when that is missing or empty |
| Binds.GetBinds | uzbl/plugins/bind.py:116-134 | while stacked, the stack binds followed by the global binds |
| Binds.NonNoneLookup | uzbl/plugins/bind.py:131 | a bind is among the non-None values exactly when some glob looks it up |
| Binds.GlobalTableBinds | uzbl/plugins/bind.py:129-131 | for 'global' or an unknown mode the binds are exactly those some glob has in the global table |
| Binds.MergedTableBinds | uzbl/plugins/bind.py:133-134 | for a known mode the binds are exactly those some glob has in the mode, its own entry overriding the global one |
| Binds.GetBindsOverride | uzbl/plugins/bind.py:116-134 | outside the stack the binds returned are exactly those some glob gives in the current mode, an entry of None hiding the global bind |
| Binds.Names | uzbl/plugins/bind.py:350 | every mode name is stripped and non-empty, and there are no more than given |
| Binds.Target | uzbl/plugins/bind.py:363-364 | a name starting with '-' refers to the mode after it, any other to itself |
| Binds.AddAll | uzbl/plugins/bind.py:358-367 | the intended loop: one ADDED_MODE_BIND per name, each with its own mode, the glob, and the bind or None as that name says |
| Binds.AddAllAsWritten | uzbl/plugins/bind.py:362-367 | the loop as written keeps the bindlet consistent and sends one event per name |
| Binds.AddAllEffect | uzbl/plugins/bind.py:358-367 | with distinct targets every named mode ends up with the glob bound as its own name says, and no other mode changes |
| Binds.AddAllBinds | uzbl/plugins/bind.py:362-366 | every named mode ends up with the glob bound as its own name says |
| Binds.AddAllKeeps | uzbl/plugins/bind.py:362-366 | a mode no name refers to keeps its binds |
| Binds.CarriedUnbind | uzbl/plugins/bind.py:363-364 | after an unbinding name, the loop as written also unbinds the next mode, while the intended loop binds it |
| Binds.BindFor | uzbl/plugins/bind.py:352-356 | no handler or a blank command gives None; otherwise the bind the constructor makes, or its error |
| Binds.ModeBind | uzbl/plugins/bind.py:341-368 | with the loop at lines 362-364 corrected (see "## Findings"): the bind is made first, then every name is checked against VALID_MODE, then the bind goes to each mode as its own name says; a bind error, an invalid name and no names each fail |
| Binds.ModeBindAsWritten | uzbl/plugins/bind.py:341-368 | `mode_bind` as written: it fails exactly when and as the corrected one does, and on success runs the loop that carries a cleared bind to the later names |
| Binds.AddAllAgrees | uzbl/plugins/bind.py:362-367 | when no name but the last unbinds, the loop as written is the intended one |
| Binds.ModeBindAgrees | uzbl/plugins/bind.py:341-368 | the two mode binds agree unless an unbinding name comes before another name |
| Binds.ModeBindCarriesUnbind | uzbl/plugins/bind.py:362-364 | for the modes "-a,b" the mode bind as written leaves "b" unbound, while the corrected one binds it |
| Binds.FirstEquals | uzbl/plugins/bind.py:394-398 | the first "=" from the position on, and none before it |
| Binds.ParseModeBindArgs | uzbl/plugins/bind.py:386-402 | fewer than two arguments and a missing "=" after the first are the two ArgumentErrors |
| Binds.ParseModeBindShape | uzbl/plugins/bind.py:393-402 | modes, glob words, "=" and command words make `ModeBind`, with its corrected loop, of the modes split at ',', the glob words joined and the command words joined |
| Binds.ParseBindPlain | uzbl/plugins/bind.py:404-414 | a BIND event without quotes or backslashes is the MODE_BIND of 'global' and its words, through `ModeBind` with its corrected loop |
| Binds.GlobalModeNames | uzbl/plugins/bind.py:30 | 'global' is one valid mode name, unchanged by splitting and stripping |
| Binds.SingleModeBind | uzbl/plugins/bind.py:358-367 | a mode bind over one plain name is the one `add_bind` |
| Binds.OneGlobalBind | uzbl/plugins/bind.py:116-152 | one bind added to 'global' of a new bindlet is all `get_binds()` returns |
| Binds.AddBindIsOnlyBind | tests/event-manager/testbind.py:24-33 | binding a function to `test` in 'global' makes `get_binds()` return exactly that bind |
| Instance.UpperChar | uzbl/core.py:145 | a lower-case ASCII letter becomes the upper-case letter it is the lower case of; any other character is kept |
| Instance.Upper | uzbl/core.py:114 | `str.upper` on ASCII text: same length, each character upper-cased |
| Instance.UpperIsUpper | uzbl/core.py:145 | the result has no lower-case letter, and upper-casing twice changes nothing more |
| Instance.Send | uzbl/core.py:51-60 | the line pushed is the stripped message followed by one newline |
| Instance.SendIdempotent | uzbl/core.py:55-60 | sending a line already sent pushes the same line again |
| Instance.SendOneLine | uzbl/core.py:55-60 | a message without a newline is pushed as exactly one line |
| Instance.ReplyFields | uzbl/core.py:62-66 | the reply starts with `REPLY-`, ends with a newline, and splits at its first space into the cookie and the response |
| Instance.SplitMax | uzbl/core.py:73 | `split(' ', n)` makes between one and n+1 pieces |
| Instance.SplitMaxJoin | uzbl/core.py:73 | the pieces joined with the separator give the line back |
| Instance.SplitMaxFree | uzbl/core.py:73 | every piece but the last is free of the separator, and so is the last when fewer than n splits were made |
| Instance.Fields | uzbl/core.py:73 | padding with empty strings and taking four gives exactly four fields |
| Instance.FieldsOfPieces | uzbl/core.py:73 | the four fields are the pieces, the missing ones empty |
| Instance.ParseMsg | uzbl/core.py:68-103 | a routed event or request has a non-empty name that is the instance's name once fixed, and a non-empty event or request name; a name mismatch can only happen once a name is known |
| Instance.NameAfter | uzbl/core.py:95-98 | the first routed message fixes the name; later messages keep it |
| Instance.IgnoredIff | uzbl/core.py:79-90 | a line is ignored exactly when its first word is neither "EVENT" nor starts with "REQUEST-" |
| Instance.ParseEvent | uzbl/core.py:73-103 | "EVENT name event args" routes to `event` with the whole argument text, spaces included; a second instance name fails the assertion |
| Instance.ParseRequest | uzbl/core.py:79-81 | "REQUEST-cookie name request args" routes to `request` with the cookie after the prefix |
| Instance.ParseEventWithoutArgs | uzbl/core.py:73 | an event line without arguments gets empty arguments |
| Instance.NameIsFixed | uzbl/core.py:95-100 | once the name is fixed, every routed message carries it |
| Instance.Connect | uzbl/core.py:201-207 | the handler is appended under the name as given; every other name and the request handlers are unchanged |
| Instance.RunHandlers | uzbl/core.py:170-178 | every handler runs in order, an exception being logged and the loop going on |
| Instance.ConnectAll | uzbl/core.py:43-49 | the plugin constructors' `connect` calls append, under each name, the handlers connected under it in order, and leave the request handlers, name, pid and closed flag alone |
| Instance.ConnectAllAppend | uzbl/core.py:43-49 | connecting two lists in turn is connecting their concatenation |
| Instance.Event | uzbl/core.py:142-178 | the handlers of the upper-cased event, as the tables stand after the event's own effects, run in order. INSTANCE_START with a pid adds the plugins' connections to the handler tables, and every other event keeps them. INSTANCE_START fails exactly when its first argument is no integer |
| Instance.StartRunsPluginHandlers | uzbl/core.py:155-178 | INSTANCE_START with a pid records it and runs the INSTANCE_START handlers connected before, then those the plugins connect |
| Instance.RaisingDoesNotStop | uzbl/core.py:170-178 | which handlers run, and the resulting state, do not depend on which handlers raise |
| Instance.ConnectThenEvent | uzbl/core.py:145-178 | a handler connected under the upper-cased name runs right after every handler connected before it. It runs last unless the event is the INSTANCE_START whose plugins connect more |
| Instance.LowerCaseNameNeverFires | uzbl/core.py:145-207 | `connect` does not upper-case, so a name with a lower-case letter never matches an event |
| Instance.LifecycleEvents | uzbl/core.py:155-166 | INSTANCE_EXIT closes the instance, and INSTANCE_START with a printed pid records that pid |
| Instance.StartWithoutPid | uzbl/core.py:158 | INSTANCE_START with an empty argument fails in `int('')` |
| Instance.InsertPoint | uzbl/core.py:219-220 | a stable insertion goes after every entry not above the priority and before those above it |
| Instance.InsertClasses | uzbl/core.py:219-220 | inserting keeps every priority class in order and puts the new entry last in its own class |
| Instance.InsertSorted | uzbl/core.py:219-220 | inserting into a sorted list keeps it sorted |
| Instance.SortByPrioSpec | uzbl/core.py:220 | `sort(key=fst)` orders by priority and, being stable, keeps each class in registration order |
| Instance.SortSortedIsIdentity | uzbl/core.py:220 | sorting a sorted list changes nothing |
| Instance.AnswerRequest | uzbl/core.py:209-220 | the list stays sorted, the new entry goes last among its priority and everything else is kept; other names and the event handlers are unchanged |
| Instance.AnswerRequestInserts | uzbl/core.py:219-220 | on a sorted list appending and sorting is one stable insertion |
| Instance.Responses | uzbl/core.py:127-135 | one response per handler |
| Instance.FinalIsLastResponse | uzbl/core.py:124-132 | the loop's final response is the last response that is not None |
| Instance.Request | uzbl/core.py:105-140 | nothing is pushed exactly for a request without a cookie; otherwise the reply carries the last non-None response of the upper-cased request's handlers, or '' |
| Instance.UnansweredRequest | uzbl/core.py:137-140 | a request nobody answers gets an empty response |
| Instance.LastAnswerWins | uzbl/core.py:130-132 | the handler that answers last wins, whatever the earlier ones said |
| Instance.Receive | uzbl/core.py:68-178 | an ignored line changes nothing, and the name afterwards is as the message fixes it. A dispatched INSTANCE_START adds the plugins' connections to the handler tables; every other line keeps them. The request handlers are always kept |
| Instance.ReceiveEvent | uzbl/core.py:68-178 | the event line of the instance calls the handlers of the upper-cased event with the argument text, and fixes the name |
| Instance.ReceiveOtherName | uzbl/core.py:100 | a line from another instance name raises and changes nothing |
| CookieManager.WhitelistLine | examples/uzbl-cookie-manager.c:67-85 | a line gives no entry exactly when, after leading white space, it is empty or a comment; an entry starts with '.' and does not end in white space |
| CookieManager.Normalise | examples/uzbl-cookie-manager.c:79-84 | the entry has a '.' in front and `g_strchomp` leaves no white space at its end |
| CookieManager.WhitelistEntryIsTrimmed | examples/uzbl-cookie-manager.c:72-84 | an entry is the line trimmed at both ends, with a '.' put in front unless it has one |
| CookieManager.LoadWhitelist | examples/uzbl-cookie-manager.c:99-108 | the entries read from the lines of the file, each starting with '.', no more than the lines |
| CookieManager.WhitelistEntries | examples/uzbl-cookie-manager.c:106 | an entry is in the whitelist exactly when some line of the file gives it |
| CookieManager.NormHost | examples/uzbl-cookie-manager.c:118 | the host as compared has a '.' in front |
| CookieManager.ShouldSave | examples/uzbl-cookie-manager.c:113-137 | without a readable whitelist every cookie is saved; otherwise exactly the hosts whose normalised form ends with some entry |
| CookieManager.AnyEntry | examples/uzbl-cookie-manager.c:124-132 | true exactly when the host ends with some entry |
| CookieManager.ShouldSaveCookie | examples/uzbl-cookie-manager.c:113-137 | the loop as written, stopping at the first entry the host ends with, decides as `ShouldSave` says |
| CookieManager.LabelBoundary | examples/uzbl-cookie-manager.c:118-128 | the entry of `d` saves a host exactly when it is `d` or ends with "." + `d`, so "example.com" does not save "badexample.com" |
| CookieManager.SubdomainSaved | examples/uzbl-cookie-manager.c:118-128 | a whitelisted host is saved, and so is any host in its domain |
| CookieManager.CStrLenFacts | examples/uzbl-cookie-manager.c:142 | `strlen` stops at the first NUL |
| CookieManager.CStrAtFacts | examples/uzbl-cookie-manager.c:142-154 | the C string at a position is the text up to the first NUL from there |
| CookieManager.ParseRequest | examples/uzbl-cookie-manager.c:140-158 | each field starts one past the NUL of the one before; a parsed request's next field starts after the four fields and their NULs, at most one past the received length |
| CookieManager.EncodeRequest | uzbl-core.c:1457-1460 | the packet the client sends: each field followed by a NUL |
| CookieManager.ParseEncoded | examples/uzbl-cookie-manager.c:139-158 | a packet of four fields, and any more, is parsed into those four fields, and the fifth starts right after the fourth's NUL |
| CookieManager.GetRoundTrip | examples/uzbl-cookie-manager.c:166-178 | a GET packet is answered with the jar's cookies for the address built from scheme, host and path, NUL-terminated, or a lone NUL when there are none |
| CookieManager.FifthField | examples/uzbl-cookie-manager.c:180-184 | the name-and-value field of a PUT is read from where the path ends |
| CookieManager.PutRoundTrip | examples/uzbl-cookie-manager.c:179-203 | a PUT for a saved host adds the cookie named by the text before the first '=' with the rest as its value; for a refused host it adds nothing; both are acknowledged with a NUL |
| CookieManager.PutWithoutEquals | examples/uzbl-cookie-manager.c:189-190 | a PUT without '=' for a saved host writes through the NULL `strchr` returns |
| CookieManager.TwoFieldsAreMalformed | examples/uzbl-cookie-manager.c:148-152 | a packet of only a command and a scheme is rejected as partial |
| CookieManager.ThreeFieldsHaveEmptyPath | examples/uzbl-cookie-manager.c:154-158 | a packet of command, scheme and host passes the checks: the path starts at the NUL after the received bytes and is empty |
| CookieManager.TerminatorIndexAsWritten | examples/uzbl-cookie-manager.c:244-254 | as written, the NUL goes at the count of bytes read, which can be the buffer's whole length |
| CookieManager.FullPacketOverflows | examples/uzbl-cookie-manager.c:244-254 | a packet of 4096 bytes or more fills the buffer and the NUL is written one past its last element |
| CookieManager.ReceivedBytes | examples/uzbl-cookie-manager.c:244 | the read that leaves room for the NUL keeps a prefix of the packet, shorter than the buffer, and all of a packet that fits |
| CookieManager.HandleRequest | examples/uzbl-cookie-manager.c:139-206 | `handle_request`: `GetRoundTrip` and `PutRoundTrip` prove the answer to a well-formed GET and the cookie a PUT stores. `PutWithoutEquals` shows the NULL dereference, and `TwoFieldsAreMalformed` and `ThreeFieldsHaveEmptyPath` cover short packets |
| CookieManager.HandlePacket | examples/uzbl-cookie-manager.c:240-257 | the corrected loop handles every packet shorter than the buffer in full |
| Tabbed.CounterCounts | examples/data/uzbl/scripts/uzbl_tabbed.py:332-338 | a counter that has yielded some numbers yields, in n draws, exactly the next n integers in order |
| Tabbed.CounterFromOne | examples/data/uzbl/scripts/uzbl_tabbed.py:332-338 | a fresh counter yields 1, 2, 3, … |
| Tabbed.EscapeIsOnePass | examples/data/uzbl/scripts/uzbl_tabbed.py:341-346 | the three chained replacements ('&' first, then '<', then '>') equal replacing each character by its entity in one pass, so no entity is escaped twice |
| Tabbed.SubstChain | examples/data/uzbl/scripts/uzbl_tabbed.py:344-345 | the replacement chain over any text is the per-character entity map |
| Tabbed.UnescapeEscape | examples/data/uzbl/scripts/uzbl_tabbed.py:341-346 | escaping loses nothing: reading the entities back gives the original title |
| Tabbed.EscapeHasNoAngles | examples/data/uzbl/scripts/uzbl_tabbed.py:341-346 | an escaped title holds no '<' or '>', so Pango sees no markup in it |
| Tabbed.FirstIndex | examples/data/uzbl/scripts/uzbl_tabbed.py:1023 | `tabs.index(tab)`: a position holding the tab, with no earlier one holding it |
| Tabbed.GotoTab | examples/data/uzbl/scripts/uzbl_tabbed.py:1010-1028 | a page is switched to exactly when -len ≤ index < len; a non-negative index in range is used as is, and any page chosen holds the tab Python indexing picks |
| Tabbed.GotoNegative | examples/data/uzbl/scripts/uzbl_tabbed.py:1019-1025 | with distinct tabs, a negative index -k switches to page len - k |
| Tabbed.NextTab | examples/data/uzbl/scripts/uzbl_tabbed.py:1031-1041 | a step below 1 is rejected; with no pages the modulo raises; otherwise the page is (current + step) mod pages, inside the notebook |
| Tabbed.PrevTab | examples/data/uzbl/scripts/uzbl_tabbed.py:1044-1055 | a step below 1 is rejected; with no pages the loop never ends; otherwise the page is current - step, wrapped into the notebook by adding the page count, which is (current - step) mod pages for a current page inside the notebook |
| Tabbed.ModUnique | examples/data/uzbl/scripts/uzbl_tabbed.py:1053 | adding the page count until the value is in range gives the Euclidean remainder |
| Tabbed.NextThenPrev | examples/data/uzbl/scripts/uzbl_tabbed.py:1031-1055 | stepping right by n and then left by n comes back to the starting page |
| Tabbed.TabTitle | examples/data/uzbl/scripts/uzbl_tabbed.py:1167-1169 | a title is cut to the maximum length; with the ellipsis shown, a cut title loses one more character and gains the ellipsis; a title that fits is kept |
| Tabbed.RememberClosed | examples/data/uzbl/scripts/uzbl_tabbed.py:1105-1106 | the closed-tab list gains the tab at its end and keeps only the last ten entries |
| Tabbed.TabLines | examples/data/uzbl/scripts/uzbl_tabbed.py:1219-1220 | one "uri<TAB>title" line per tab, in order |
| Tabbed.SaveSession | examples/data/uzbl/scripts/uzbl_tabbed.py:1218-1222 | the plain session text is the session lines joined by newlines. `SavedLines` proves that splitting it back gives those lines, and `SessionRoundTrip` that `load_session` restores the session |
| Tabbed.SessionLines | examples/data/uzbl/scripts/uzbl_tabbed.py:1218-1222 | the saved session has the "curtab" line followed by one line per tab |
| Tabbed.LastWord | examples/data/uzbl/scripts/uzbl_tabbed.py:1281 | `line.split()[-1]`: a non-empty word without whitespace, or nothing for a blank line |
| Tabbed.TrailRun | examples/data/uzbl/scripts/uzbl_tabbed.py:1281 | the length of the trailing run of non-space characters, preceded by a space when shorter than the line |
| Tabbed.NonBlank | examples/data/uzbl/scripts/uzbl_tabbed.py:1272 | the kept lines are no more than the input lines, and none of them is blank |
| Tabbed.LoadSession | examples/data/uzbl/scripts/uzbl_tabbed.py:1268-1291 | a file with fewer than two non-blank lines is rejected |
| Tabbed.SessionRoundTrip | examples/data/uzbl/scripts/uzbl_tabbed.py:1268-1291 | saving a session with at least one tab whose uri and title are stripped single-line text (the uri non-empty, without a TAB, not starting with "curtab") and loading it back gives the same current page and tabs |
| Tabbed.SavedLoads | examples/data/uzbl/scripts/uzbl_tabbed.py:1268-1291 | loading saved text is loading its lines from the empty session |
| Tabbed.HeadLineLoads | examples/data/uzbl/scripts/uzbl_tabbed.py:1280-1281 | the "curtab = N" line sets the current page to N |
| Tabbed.SavedLines | examples/data/uzbl/scripts/uzbl_tabbed.py:1272 | splitting the saved text at newlines and dropping blank lines gives back exactly the saved lines |
| Tabbed.LinesAreOneLine | examples/data/uzbl/scripts/uzbl_tabbed.py:1218-1222 | every saved line of a restorable session is a single non-blank line |
| Tabbed.TabLinesOneLine | examples/data/uzbl/scripts/uzbl_tabbed.py:1219-1220 | every tab line of restorable tabs is a single non-blank line |
| Tabbed.TabLineReads | examples/data/uzbl/scripts/uzbl_tabbed.py:1284-1285 | a restorable tab's line reads back as that tab, appended to the loaded tabs |
| Tabbed.LoadTabs | examples/data/uzbl/scripts/uzbl_tabbed.py:1279-1285 | loading the lines of restorable tabs appends exactly those tabs, in order |
| Tabbed.NonBlankKeeps | examples/data/uzbl/scripts/uzbl_tabbed.py:1272 | dropping blank lines keeps a list of non-blank lines unchanged |
| Tabbed.SplitJoin | examples/data/uzbl/scripts/uzbl_tabbed.py:1272 | splitting "\n".join(parts) at newlines gives the parts back when none holds a newline |
| Globs.ModRunEnd | uzbl/plugins/bind.py:26 | the end of the longest run of `[A-Za-z0-9-_]` characters from a position |
| Globs.ModStart | uzbl/plugins/bind.py:26 | `MOD_START`: a match is a leading modifier token '<', upper-case letter, modifier characters, '>'; no match means no prefix of the text is such a token |
| Globs.ModStartOfToken | uzbl/plugins/bind.py:26 | a modifier token at the front is matched whole, whatever follows it |
| Globs.SplitGlob | uzbl/plugins/bind.py:161-175 | the rest is a suffix of the glob that does not start with a modifier token, every collected item is a modifier token, and the set is empty exactly when the glob is returned unchanged |
| Globs.SplitGlobOfTokens | uzbl/plugins/bind.py:161-175 | a glob built from modifier tokens followed by a rest that opens no token splits into exactly the set of those tokens and that rest |
| Globs.FindPrompt | uzbl/plugins/bind.py:28-29 | the leftmost position from i where the prompt expression matches, with no match before it; none means no position matches |
| Globs.PromptAt | uzbl/plugins/bind.py:28 | a match at p has '<' at p, the marker ':' or '!' right after group 1, and '>' closing group 3 |
| Globs.MatchesOrdered | uzbl/plugins/bind.py:29 | the matches `re.split` uses lie left to right without overlapping |
| Globs.SplitPromptsRejoin | uzbl/plugins/bind.py:29 | `FIND_PROMPTS`: every marker is ':' or '!', and putting each prompt back between '<' and '>' rebuilds the glob |
| Globs.NoPromptNoSplit | uzbl/plugins/bind.py:29 | a glob without '<' is one piece of text with no prompt |
| Globs.OnePromptSplit | uzbl/plugins/bind.py:209 | "t<p:>u" with a plain prompt name splits into t, the prompt p with marker ':' and empty set text, and u |
| Utf8.Encode | examples/data/uzbl/scripts/extedit.js:58-76 | the UTF-8 form of a string, unit by unit: `EncodeAppend`, `EncodeBytes` and `RoundTrip` state it |
| Utf8.EncodeUnit | examples/data/uzbl/scripts/extedit.js:62-68 | a unit below 128 is kept; below 2048 it becomes a lead byte 192-223 and one continuation byte 128-191; otherwise a lead byte 224-239 and two continuation bytes |
| Utf8.EncodeAppend | examples/data/uzbl/scripts/extedit.js:58-76 | encoding a string with one more unit appends that unit's encoding |
| Utf8.Utf8Encode | examples/data/uzbl/scripts/extedit.js:49-83 | the run-batching loop (ASCII runs copied with `substring`) emits the unit-by-unit encoding |
| Utf8.Decode | examples/data/uzbl/scripts/extedit.js:23-46 | the decoding, group by group, with a cut-off group completed by zero bits: `DecodeAt` and `AsciiDecode` state it, and `RoundTrip` makes it the inverse of `Encode` |
| Utf8.Utf8Decode | examples/data/uzbl/scripts/extedit.js:23-46 | the index-stepping loop, reading past the end as 0, yields the group-by-group decoding |
| Utf8.DecodeAt | examples/data/uzbl/scripts/extedit.js:28-43 | decoding from i yields the unit assembled from the group at i, then the decoding after that group |
| Utf8.UnitRoundTrip | examples/data/uzbl/scripts/extedit.js:30-41 | the lead byte of an encoded unit announces the group's length, and the group decodes back to the unit |
| Utf8.RoundTrip | examples/data/uzbl/scripts/extedit.js:23-83 | `utf8_decode(utf8_encode(s)) == s` for every string of code units |
| Utf8.AsciiEncode | examples/data/uzbl/scripts/extedit.js:62-63 | an ASCII string is its own encoding |
| Utf8.AsciiDecode | examples/data/uzbl/scripts/extedit.js:30-32 | an ASCII string decodes to itself |
| Utf8.EncodeBytes | examples/data/uzbl/scripts/extedit.js:58-76 | the encoding holds only bytes, one extra byte per unit from 128 and two per unit from 2048 |
| Pipermail.IndexOf | examples/data/scripts/pipermail.js:37 | `indexOf` returns -1 or a position of the list |
| Pipermail.IndexOfSpec | examples/data/scripts/pipermail.js:37 | the position found holds the name and no earlier one does; -1 exactly when the name is absent |
| Pipermail.MonthsDistinct | examples/data/scripts/pipermail.js:17-18 | the twelve month names are pairwise different |
| Pipermail.Neighbour | examples/data/scripts/pipermail.js:20-40 | January goes back to December of the year before and on to February; December goes back to November and on to January of the year after; an unknown month gives "undefined" before and January after, in the same year |
| Pipermail.InnerMonth | examples/data/scripts/pipermail.js:36-40 | an inner month has the names before and after it in the same year |
| Pipermail.Before | examples/data/scripts/pipermail.js:28-40 | the previous calendar month is a calendar month |
| Pipermail.After | examples/data/scripts/pipermail.js:28-40 | the next calendar month is a calendar month |
| Pipermail.BeforeAfterInverse | examples/data/scripts/pipermail.js:28-40 | previous and next month undo each other |
| Pipermail.ParseYear | examples/data/scripts/pipermail.js:31 | `parseInt` reads a printed year back |
| Pipermail.NeighbourIsCalendar | examples/data/scripts/pipermail.js:20-40 | on a real month's address the script's neighbours are the calendar's previous and next months |
| Pipermail.EdgeMonths | examples/data/scripts/pipermail.js:28-35 | January and December move the year by one through `parseInt` |
| Pipermail.NeighbourRoundTrip | examples/data/scripts/pipermail.js:20-43 | following the next link and then the previous link, or the other way round, comes back to the month |
| Pipermail.ParsePage | examples/data/scripts/pipermail.js:12-14 | the address fails exactly when it has no '/'; the view is a prefix of the last path segment without '/' or '#' |
| Pipermail.Href | examples/data/scripts/pipermail.js:42-43 | a link starts with "../" and ends with "/" and the view |
| Pipermail.PageLinks | examples/data/scripts/pipermail.js:12-43 | links exist exactly when the address has a '/', and both end with the same view |
| Pipermail.CalendarLinks | examples/data/scripts/pipermail.js:42-43 | the links of a calendar month's page name the previous and next calendar months |

## Left out

- Follower.FilterHintables: `new RegExp("^" + target)` is modelled for literal characters and the `.` wildcard only. A target holding any other regular-expression syntax is excluded by `PlainPattern`. This includes the `SyntaxError` a malformed pattern such as "(" throws.
- HintLabels.ValidCharset: the label functions of `follow.js` require an alphabet of at least two characters. With a shorter one, the loops of `examples/data/scripts/follow.js:198-201` and `209-212` never end, and that non-termination is not modelled.
- Follower.LPad: requires a non-empty padding, or a string already long enough. With an empty padding, `lpad` (`examples/data/scripts/follower.js:69-76`) loops forever.
- Pipermail.ShiftedYear: `parseInt(thisYear)` without a radix also reads a "0x" prefix as hexadecimal. The model reads decimal only, so the year "0x7D9" gives a previous year of "-1" here but 2008 in the script.
- Completion.IsWordChar: `\w` is ASCII letters, digits and '_' here. Python 3's `\w` on text is Unicode, so the partial of "café" is "café" in the plugin but "" here.
- Instance.Upper: `str.upper` is modelled on ASCII only. Python's Unicode upper-casing of other letters, which can also change the length ("ß" becomes "SS"), is not modelled.
- FollowNumbersStrings.Key: JavaScript's Unicode `toLowerCase` is the parameter `lower`. The results hold for whatever case mapping is passed, and nothing is proved about a particular one.
- Tokenizer.SplitQuoted: C strings end at the first NUL. An input string with an embedded '\0' is scanned past it here, while the C code stops there. The same holds for Tokenizer.Tokenize, Commands.Parse and Expand.ExpandNullable.
- Expand.Markup: the text is scanned a byte at a time, and only 0xC2 is paired with the byte after it. On valid UTF-8 this is what `g_markup_escape_text` does. On invalid UTF-8, which glib steps through by the length the lead byte announces, the two can differ. The same holds for Expand.MarkupChar.
- Numerals.PyInt: Python 3.6 and later also accept '_' between digits and non-ASCII decimal digits, so `int('1_0')` is 10 there. Both give `None` here.
- Menu.AddToMenu: for an empty argument `g_strsplit` returns a vector holding only NULL, and the test of `split[1]` (`src/menu.c:131`) reads past that vector. That read is undefined behaviour. The model adds nothing, as it would if the read found NULL.
- Pipermail.ParseYear: `parseInt` returns a double, so a year above 2^53 (some of 16 digits, all longer ones) can come back rounded. The model reads every year back exactly, as unbounded integers.
- Commands.ParseCollapsed: the corrected parse drops every empty word, so it also drops an argument written as `''`.
- Variables.Set: a built-in variable with a custom setter (`var->set`, `src/variables.c:537-562`) passes the value to that setter, and the setter's result becomes `sendev`, so a refusing setter suppresses the `VARIABLE_SET` event (`src/variables.c:198`). The setters are GObject property code that is not part of this model. So `Variables.Set` and `Variables.Toggle` store every value of a writeable variable in the store, as plain storage. Their `ok` is the function's return value, which the source leaves TRUE even when a setter refuses. The `VARIABLE_SET` event and its suppression are not modelled.
- Variables.Toggle: the int, unsigned and double toggles with a value list (`src/variables.c:271-288` and the like) re-read the second value instead of stepping through the list. They give `None` here, and nothing is claimed about them.
- Completion.Format: its contract states the outer span only. The items inside it are stated by Completion.Items.
- CookieManager.PutWithoutEquals: a PUT whose last field has no '=' dereferences NULL (`examples/uzbl-cookie-manager.c:189-190`). It is modelled as a crash outcome, with no corrected version.
- Floating point is not modelled:
  - the `TYPE_DOUBLE` formatting of `src/comm.c`;
  - float variables;
  - the scroll arithmetic.

  Config floats are values of the parameter `toFloat`.
- The command-running expansions `@(…)@`, `@<…>@`, `@/…/@`, `@*…*@` and `@-…-@` are the parameter `run`. It receives the raw contents, not their expansion, and stands for "expand, then run". The nested expansion stage that keeps an expansion from running itself (`EXPAND_IGNORE_SHELL` and the like) is part of `run`. In the current revision `@<…>@`, `@*…*@` and `@-…-@` are not run at all. `src/variables.c` runs them only in the asynchronous expansion, and nothing calls that.
- Regular-expression searches in the cookie matchers are the parameter `found`. So is the visibility of a page element.
- `random.choice(end_messages)` in the history plugin is the parameter `pick`. Its result is proved to be one of the messages.
- Not modelled, because it is I/O, processes, the GUI or the DOM:
  - sockets and fifos;
  - the GTK notebook;
  - the cookie manager's socket loop, pid lock and whitelist reload;
  - `TextStore` file I/O and the `add_cookie` event glue;
  - the JSON session format of `uzbl_tabbed.py`;
  - the DOM work of every script: element discovery, drawing hints, clicking.
- Earlier plugin revisions under `examples/data/plugins/` and `examples/data/uzbl/plugins/` are not part of this model. They duplicate the `uzbl/plugins/` logic that is modelled.

## Findings

| source | as written | input that shows it | evidently intended | confidence | as-written member | corrected member |
|---|---|---|---|---|---|---|
| uzbl-core.c:1309-1312 | `split_quoted` copies the character after a backslash with `*++p` and no end check | `a\` : the loop reads the NUL, steps past it and keeps scanning | a trailing backslash ends the input and is kept, as in the later revisions | high, not executed | Tokenizer.LegacyTrailingBackslashOverruns | Tokenizer.LegacyGuardedIsTotal |
| src/uzbl-core.c:108-111 | `expand` appends `*++s` after a backslash, then `s++`, with no end check | any text ending in a lone `\` | a lone final backslash is copied and the expansion stops, as `src/variables.c:909-915` does | high, not executed | Expand.TrailingBackslashOverruns | Expand.GuardedProtectRoundTrip |
| src/menu.c:185-195 | `remove_from_menu` advances `i` after `g_ptr_array_remove_index` | two matching items in a row: the second survives | every matching item is removed | high, not executed | Menu.RemoveSkipsAdjacentMatch | Menu.RemoveFromMenu |
| uzbl/plugins/keycmd.py:155-156 | `strip_word` sets `keycmd` to `head[:rfind]`, because `+ tail` binds to `''` only, and sets the cursor to `len(head)` | "spam and egg" with the cursor at 9: gives "spam " with the cursor at 8 | readline ^W: "spam egg" with the cursor at 5 | high, not executed | Keylet.StripWordDropsTail | Keylet.StripWordIntendedRemovesWord |
| uzbl/plugins/completion.py:148 | `completion.level` names an undefined variable | "ab" typed with the hints "ab" and "abc": `NameError` | `self.completion.level` | high, not executed | Completion.ExactHintAmongTwoFails | Completion.StartCompletionIntended |
| uzbl/plugins/bind.py:452 | `self.exec_bind(uzbl, …)` passes an undefined `uzbl` | the bind `t<p:>*` with `t` typed: `NameError` | `self.exec_bind(bind, *(args+['',]))` | high, not executed | Binds.PromptThenStarCrashes | Binds.WellFormedNeverCrashes |
| uzbl/plugins/bind.py:362-364 | `mode, bind = mode[1:], None` overwrites `bind` for the rest of the loop | the modes "-a" and "b": "b" is unbound too | only the '-'-prefixed mode is unbound | high, not executed | Binds.ModeBindCarriesUnbind | Binds.AddAllEffect |
| uzbl/plugins/config.py:8 | `^[A-Za-z0-9_\.]+$` lets `$` match before a final newline | `set('foo\n', 'x')` sends "set foo\n = x", two lines | a key is only the listed characters | high, not executed | Config.SetAsWrittenSendsNewline | Config.Set |
| uzbl/plugins/config.py:89 | `parse_set_event` asserts the same `valid_key` | the event `'foo\n' str x` stores the key "foo\n" and raises `CONFIG_CHANGED` | the key is refused | high, not executed | Config.ParseAsWrittenStoresNewlineKey | Config.ParseSetArgs |
| src/commands.c:438-443 | every whitespace character outside quotes ends a word | `toggle  foo  bar  baz`: six arguments, three empty | three arguments, as `tests/core-tests.c:34-45` expects | medium (the code carries a FIXME on it), not executed | Commands.ParseDoubledSpaces | Commands.ParseCollapsedDoubledSpaces |
| examples/uzbl-cookie-manager.c:244-254 | `read` may fill all `MAX_COOKIE_LENGTH` bytes, then `cookie_buffer[r] = 0` | a packet of 4096 bytes or more: the NUL goes one past the buffer | read at most `MAX_COOKIE_LENGTH - 1` bytes | high, not executed | CookieManager.FullPacketOverflows | CookieManager.ReceivedBytes |
