# GoogleBot: the text-handling core in Dafny

GoogleBot is a Discord bot written twice: once in JavaScript (`bot.js`) and once in Python (`discbot.py`). Both versions answer messages that mention the bot. A message is either:
- a `!command`: version, changelog, config, roll, help, Wolfram|Alpha, NOAA, LaTeX forwarding;
- an image search;
- a link search on Google.

The JavaScript bot also reacts with emoji to certain words.

This project models everything the two bots decide from text, with the I/O taken out:
- how a message is routed;
- how a command line is cut into a verb and arguments;
- how the config is read, set, written and listed;
- how a die size is chosen and the roll is worded;
- how links, Wolfram answers and the NOAA image are pulled out of fetched pages;
- how the changelog section is cut;
- how the Python config file is read and rewritten line by line.

Page contents, file contents, the random draw and the URI decoder are parameters.

The model has ten modules:

| Module | What it models |
|---|---|
| `Wrappers` | `Option`, which stands for a thrown error or a missing value. |
| `Strings` | `indexOf`/`search`/`find` and `includes`/`in`, first and global replace, split and join, ASCII lower case, and decimal rendering. Each comes with a lemma saying what it finds. |
| `Js` | The JavaScript built-ins the bot relies on, with their edge cases: `substring` (clamping and swapping), `slice`, `trim` and `parseInt`. |
| `Py` | The Python built-ins: negative-index slicing, `strip`, `split()`, `readlines` and `int()`. |
| `BotConfig` | `configCommand` of bot.js as a function on a settings value. The class `BotSettings` mutates the settings in place and counts writes of `config.json`. |
| `BotCommands` | `commandParser` and `rollCommand` of bot.js. |
| `BotRouting` | The `message` handler of bot.js. Its reaction chain is proved equal to a first-match rule table. |
| `BotScrape` | `findinHtml`, `findLinkInHtml`, the result loops, the query building, `wolframCommand` and `noaaCommand`. |
| `DiscbotConfig` | `readConfig`, `writeConfig`, `safeCast` and `configCommand` of discbot.py. The class `ConfigFile` holds the lines of `GoogleBot.config`. |
| `DiscbotCommands` | `handleMessage`, `commandParser`, the version, changelog, roll and help commands, and the prefix table of `imageSearch` in discbot.py. |

## Model

| member | source | states |
|---|---|---|
| Strings.IndexFrom | bot.js:283-289 | The search gives -1 exactly when the pattern does not occur at or after the start. Otherwise it gives the earliest occurrence. |
| Strings.OccurrenceFound | bot.js:93 | An occurrence at any index makes the text contain the pattern, and the search finds an index no later than it. |
| Strings.ContainsPrefixPart | discbot.py:127 | A text containing an option also contains every leading part of it, so `'-s' in command or '-set' in command` needs only its first test. |
| Strings.ContainsMiddle | bot.js:382 | A text containing a piece in the middle contains that piece. |
| Strings.FirstOccurrence | bot.js:283 | A match with no earlier match is what the search returns. |
| Strings.IndexOfSuffix | bot.js:286-289 | Searching the text after a cut gives the search from that cut, shifted. |
| Strings.AbsentBetween | bot.js:289 | A stretch in which no occurrence of a non-empty pattern starts does not contain that pattern. |
| Strings.IndexOfChar | bot.js:63 | The first index of a character with none before it is where the search stops. |
| Strings.IndexOfCharAbsent | bot.js:63 | A missing character gives -1. |
| Strings.ReplaceFirst | bot.js:58 | A first-occurrence replace leaves a text without the pattern unchanged. Otherwise it changes only the first occurrence. A replacement no longer than the pattern does not lengthen the text, and one of equal length keeps its length. |
| Strings.ReplaceFirstChar | bot.js:58 | The first occurrence of a character is replaced, and what follows it is kept as is. |
| Strings.OccursFramed | bot.js:460-462 | In a one-character frame that the pattern can neither start nor end on, the occurrences are those of the framed text, shifted by one. |
| Strings.FramedAbsent | bot.js:461 | Such a frame adds no occurrence to a text that has none. |
| Strings.FramedAt | bot.js:461 | Inside such a frame, replacing an occurrence that starts nowhere before it keeps the frame around the replaced text. |
| Strings.ReplaceFirstInside | bot.js:460-462 | A first replace of a quoted text replaces inside the quotes, when the pattern can neither start on the left quote nor end on the right one. |
| Strings.ReplaceAllAbsent | bot.js:480 | A global replace leaves a text without the pattern unchanged. |
| Strings.ReplaceAllShrinks | bot.js:480 | A global replace by text no longer than the pattern never lengthens the text. |
| Strings.ReplaceAllAt | bot.js:480 | In `a + p + b`, with no occurrence of `p` starting inside `a`, the global replace keeps `a`, replaces that `p` and goes on in `b`. |
| Strings.ReplaceAllFirst | bot.js:480 | The global replace keeps the text before the first occurrence, replaces that occurrence and goes on after it. It never rescans what it inserted. |
| Strings.Without | bot.js:523 | Deleting a character leaves none of it and keeps every other character present. The result is no longer than the text. |
| Strings.WithoutAppend | bot.js:523 | Deleting distributes over concatenation: a single character is deleted when it is the one named and kept otherwise. Order is therefore kept. |
| Strings.ReplaceAllCharByNothing | bot.js:523 | `replace(/'/g, '')` is deleting the quote character. |
| Strings.Split | bot.js:137 | Splitting gives at least one piece, and no piece contains the separator. |
| Strings.JoinSplit | bot.js:173 | Joining the pieces of a split with the separator gives back the text. |
| Strings.SplitAfter | bot.js:137 | A text led by a separator-free word splits into that word followed by the split of the rest. |
| Strings.SplitSingle | bot.js:137 | The split has a single piece exactly when the separator is absent. |
| Strings.SplitNone | bot.js:137 | A text without the separator splits into itself. |
| Strings.ConcatAppend | discbot.py:114 | Concatenating two lists of lines joins their concatenations. |
| Strings.ToLower | bot.js:93 | Lower-casing keeps the length and lower-cases each character. |
| Strings.DigitChar | discbot.py:363 | A digit's character reads back as that digit. |
| Strings.NatToDecimal | bot.js:344 | The decimal rendering is non-empty, all digits, and has no leading zero. |
| Strings.DecimalValueOfRendering | discbot.py:363 | Reading a rendered number gives it back. |
| Js.Clamp | bot.js:286 | The clamped index lies in 0..length and equals the index when it was already in range. |
| Js.Substring | bot.js:292 | `substring` with ordered bounds in range is the slice. In every case it is no longer than the text. |
| Js.SubstringFrom | bot.js:286 | `substring(start)` is the suffix from `start`. A negative start gives the whole text. A start past the end gives "". |
| Js.SubstringFromIsSubstring | bot.js:286 | `substring(start)` equals `substring(start, length)`. |
| Js.SubstringTo | bot.js:292 | `substring(0, end)` is the prefix up to `end`, with `end` clamped to the text. |
| Js.SubstringToIsSubstring | bot.js:292 | `substring(0, end)` equals `substring` with bounds 0 and `end`. |
| Js.SubstringStands | bot.js:478 | The text of `substring(a, b)` stands in the source at the lower clamped bound. |
| Js.Slice | bot.js:462 | A slice is no longer than the text. `slice(1, -1)` drops the first and last characters, and gives "" for texts shorter than two. |
| Js.SpaceEnd | bot.js:460 | The leading white-space run ends within the text. |
| Js.SpaceStart | bot.js:460 | The trailing white-space run starts within the text. |
| Js.SpaceEndIsRun | bot.js:460 | Everything before the end of the leading run is white space, and the character there is not. |
| Js.SpaceStartIsRun | bot.js:460 | Everything after the start of the trailing run is white space, and the character before it is not. |
| Js.TrimUntouched | bot.js:460 | A text with non-space characters at both ends is trimmed to itself. |
| Js.SpaceStartAfter | bot.js:460 | Leading space followed by a non-space text starts the trailing run after it. |
| Js.TrimTrailing | bot.js:460 | Trimming removes trailing white space after a non-space body. |
| Js.Trim | bot.js:460 | `trim` never lengthens a text, and what it leaves neither starts nor ends with white space. |
| Js.RadixDigit | bot.js:326 | A decimal digit character has its digit value, and non-digits have none. |
| Js.DigitEnd | bot.js:326 | The digit run ends within the text. |
| Js.DigitEndIsRun | bot.js:326 | The leading digit run is all digits, and is followed by a non-digit or the end. |
| Js.RadixTenIsDecimal | bot.js:326 | The base-10 value of a digit run is its decimal value. |
| Js.DigitsRunWhole | bot.js:326 | An all-digit text is one digit run. |
| Js.MagnitudeOfDigits | bot.js:326 | A non-empty digit text parses to its decimal value. |
| Js.ParseInt | bot.js:326 | `parseInt` of blank text is NaN. A negative result comes only from a text whose first non-space character is `-`. |
| Js.ParseIntUnsigned | bot.js:326 | `parseInt` of digits, with any leading space and trailing junk, is the value of the digits. |
| Js.ParseIntMinus | bot.js:326 | A minus sign before digits negates the value. |
| Js.ParseIntDecimal | bot.js:326 | `parseInt` of any non-empty digit text is its decimal value. |
| Js.ParseIntRendering | bot.js:344 | `parseInt` reads back the rendering of every integer. |
| Py.Bound | discbot.py:37 | A Python slice index in range is kept, a negative one in range counts from the end, one below `-length` becomes 0, and one past the end becomes the length. |
| Py.SliceFrom | discbot.py:37 | `s[i:]` is the suffix from `i`, or from `length + i` for a negative `i`. An index below `-length` gives the whole text, and one past the end gives "". |
| Py.SliceTo | discbot.py:130 | `s[:j]` is the prefix up to `j`, or up to `length + j` for a negative `j`, so `-1` drops the last character. An index below `-length` gives "", and one past the end gives the whole text. |
| Py.SpaceEnd | discbot.py:90 | Every character it skips is white space, and it stops at the end or at a character that is not. |
| Py.SpaceStart | discbot.py:90 | Every character after it is white space, and it starts at 0 or after a character that is not. |
| Py.Strip | discbot.py:90 | `strip()` leaves the text with only white space before and after the result, and the result neither starts nor ends with white space. |
| Py.StripIsInside | discbot.py:110 | A stripped text stands inside the text it came from. |
| Py.WordLength | discbot.py:156 | A word runs to the next white space or the end, and is non-empty when it starts on a non-space. |
| Py.Words | discbot.py:156 | `split()` gives only non-empty words, and no word holds white space. |
| Py.WordsSplit | discbot.py:156 | A white-space character separates: the words of `a + [c] + b` are those of `a` followed by those of `b`. |
| Py.WordsSingle | discbot.py:156 | A non-empty text without white space is one word. |
| Py.ReadLines | discbot.py:108 | `readlines` gives non-empty lines that concatenate back to the text. Every line but the last ends in a line break, and no line holds one before its last character. |
| Py.ReadLinesConcat | discbot.py:33 | Lines of the shape `readlines()` gives are exactly what `readlines()` returns for their concatenation, so a file written with `writelines` reads back line for line. |
| Py.ReadLine | discbot.py:90 | `readline` gives a prefix of the text with no line break before its last character. It ends in a line break unless it is the whole text, and it is empty exactly at the end of the file. |
| Py.WithoutAbsent | discbot.py:37 | Dropping underscores from a text without them changes nothing. |
| Py.LiteralOfDigits | discbot.py:37 | A non-empty digit text is an integer literal. |
| Py.StripLine | discbot.py:37 | Stripping a rendered value followed by a line break leaves the value. |
| Py.IntOfUnsigned | discbot.py:37 | `int()` of digits, with optional surrounding white space, is their value. |
| Py.IntOfSigned | discbot.py:37 | `int()` honours a leading `-` or `+`. |
| Py.IntOfDecimalLine | discbot.py:37 | `int()` reads a digit text followed by a line break. |
| Py.IntOfRenderedLine | discbot.py:37 | `int()` reads back every rendered integer followed by a line break. |
| Py.Int | discbot.py:37 | `int()` of blank text raises. A negative result comes only from a text whose stripped form starts with `-`. |
| BotConfig.ClampResults | bot.js:329-335 | A count is clamped to 1..10 and kept when already there. |
| BotConfig.WithCount | bot.js:337-342 | Setting a count changes that count and leaves the other count and every switch as they were. |
| BotConfig.WithSwitch | bot.js:362-375 | Setting a switch changes that switch only. |
| BotConfig.WithSwitchTwice | bot.js:362-375 | Setting a switch to a value it already has changes nothing further. |
| BotConfig.ListingLines | bot.js:380-382 | The listing has one line per configured item, nine in all. |
| BotConfig.ConfigEffect | bot.js:315-391 | No command changes the meme subreddit. A result count that a command changes ends up in 1..10. |
| BotConfig.ConfigPersisted | bot.js:323-388 | `config.json` is written exactly on a read, a parseable count or a `true`/`false` switch. A reply that is not written leaves the settings unchanged. |
| BotConfig.SetCount | bot.js:324-344 | A parseable count sets the clamped value, replies with it and is persisted. |
| BotConfig.SetCountUnparseable | bot.js:345-347 | An unparseable count changes nothing and replies "Cannot parse". |
| BotConfig.SetSwitchLiteral | bot.js:350-377 | `true` or `false` sets that switch and is persisted. |
| BotConfig.SetSwitchInvalid | bot.js:354-360 | Any other word, `True` included, changes nothing and gets the "Invlaid option" reply. |
| BotConfig.ReadLists | bot.js:380-382 | `read` or no argument replies with the listing of the current settings and changes none. |
| BotConfig.UnknownKey | bot.js:383-385 | Any other key is not recognized and changes nothing. |
| BotConfig.ConfigHelpFallsThrough | bot.js:318-321 | `-?` falls through the empty block and is reported as an unrecognized item, with nothing changed or written. |
| BotConfig.SetCountRendered | bot.js:324-344 | Setting a count to a rendered value in range stores exactly that value. |
| BotConfig.SetSwitchRendered | bot.js:354-377 | Setting a switch to the text of a boolean stores that boolean. |
| BotConfig.ConfigIdempotent | bot.js:315-391 | Running the same config command twice gives the same settings as running it once. |
| BotConfig.ListingShowsTextResults | bot.js:382 | The listing shows the rendered `text_results`. |
| BotConfig.SetThenReadTextResults | bot.js:324-382 | After `text_results n` with n in 1..10, `read` shows n. |
| BotConfig.BotSettings.constructor | bot.js:43-44 | A fresh object holds the loaded settings and has written nothing yet. |
| BotConfig.BotSettings.ConfigCommand | bot.js:315-391 | The command mutates the fields into the settings of the config effect and returns its reply. It counts one more write exactly when the effect is persisted. |
| BotConfig.BotSettings.SetCountField | bot.js:337-342 | Assigning a count field changes that count only. |
| BotConfig.BotSettings.SetSwitchField | bot.js:362-375 | Assigning a switch field changes that switch only. |
| BotCommands.Command | bot.js:137-139 | Cutting a verb fails, as the TypeError does, exactly when the content has no space. |
| BotCommands.HandlerFor | bot.js:140-188 | The parser answers itself exactly for `latex` and for a verb outside the switch. Every handler that takes arguments receives them unchanged. |
| BotCommands.Dispatch | bot.js:135-188 | A message with a space reaches the handler of its verb and arguments. One without a space reaches none. |
| BotCommands.CommandWords | bot.js:137-139 | In `<mention> <!verb> <tail>`, the verb loses its first character and the arguments are the words of the tail. |
| BotCommands.CommandBare | bot.js:137-139 | A verb with nothing after it has no arguments. |
| BotCommands.Aliases | bot.js:166-180 | `w` and `wa` reach the Wolfram handler, and `nhc` and `noaa` reach the NOAA handler. |
| BotCommands.UnknownVerb | bot.js:186-187 | A verb outside the switch gets the "not recognized" reply naming it. |
| BotCommands.LatexForwardsTail | bot.js:172-173 | `latex` forwards the tail, spacing included, to the LaTeX bot. |
| BotCommands.DieSides | bot.js:396-409 | `-?` gives no roll. Otherwise the die has at least two sides: the parsed count raised to 2, or 6 when it does not parse. |
| BotCommands.RandomNumber | bot.js:421-423 | `randomNumber(min, max)` lies in min..max-1 when min < max, and is min when they are equal. |
| BotCommands.RollRange | bot.js:421-423 | A roll of an n-sided die lands in 1..n-1, so the top face is never shown. |
| BotCommands.RollReaches | bot.js:421-423 | Every face in 1..n-1 is reached by some draw. |
| BotCommands.RollText | bot.js:411 | The roll sentence for a die of at least two sides names a face from 1 to sides-1. |
| BotCommands.RollReply | bot.js:393-415 | The reply is empty exactly for `-?`. Otherwise it names a face from 1 to sides-1 of the die that `DieSides` picks. |
| BotCommands.RollSmallDie | bot.js:406-411 | A two-sided die, which 0 and 1 become, always shows 1. |
| BotRouting.Sanitize | bot.js:58 | A message without the quotation mark is kept as is. |
| BotRouting.SanitizeFirstOnly | bot.js:58 | Only the first right single quotation mark is removed, and later ones stay. |
| BotRouting.AfterMention | bot.js:63 | The command string is what follows the mention and its space. |
| BotRouting.AfterNoSpace | bot.js:63 | Content without a space is taken whole as the command string. |
| BotRouting.MentionAction | bot.js:61-81 | A mention always leads to a command, an image search or a link search. It is a command exactly when the command string starts with `!`, and an image search exactly when it starts with an image word. |
| BotRouting.Reaction | bot.js:92-115 | Some glyph is sent exactly when one of the keywords occurs, or `store` from the one author. The reaction is a single glyph or the letter chain. |
| BotRouting.SpamReply | bot.js:84-91 | With `spam` on, a message is sent only for the two exact texts, and nothing else happens. |
| BotRouting.Route | bot.js:53-121 | A mention goes to the mention branch whatever the settings. A reaction happens only without a mention, with `spam` off and `emojispam` on, and never reacts with nothing. |
| BotRouting.FirstMatchNone | bot.js:92-115 | When no rule of the table fires, there is no reaction. |
| BotRouting.FirstMatchAt | bot.js:92-115 | The earliest rule that fires decides the reaction. |
| BotRouting.SingleKeyword | bot.js:93 | A one-keyword rule fires exactly when its keyword occurs. |
| BotRouting.RulesFire | bot.js:93-113 | Each table rule fires on exactly the condition of its branch of the `else if` chain. |
| BotRouting.ReactionIsFirstMatch | bot.js:92-115 | The `else if` chain of reactions equals the first-match reading of the rule table. |
| BotRouting.SpamShadowsEmoji | bot.js:84-92 | With `spam` on, a non-mention never gets a reaction, and the emoji settings do not matter. |
| BotRouting.ElonReactions | bot.js:99-112 | The elon rule reacts once under `shortHate`, and otherwise with the eight letters F-U-C-K-E-L-O-N in order. |
| BotRouting.CartOnlyForStoreAuthor | bot.js:113-114 | The cart goes only to the one author, and only for a message mentioning a store. |
| BotRouting.MentionCommand | bot.js:61-69 | `<mention> !verb ...` reaches the command path with the whole sanitized message. |
| BotScrape.FindInHtml | bot.js:281-293 | The text found is no longer than the page. |
| BotScrape.FindInHtmlInside | bot.js:281-293 | What `findinHtml` returns is a piece of the page. |
| BotScrape.FindInHtmlStops | bot.js:286-292 | The text found never contains the end marker. |
| BotScrape.FindInHtmlBetween | bot.js:281-293 | When both markers are found, the result is the text between the first start marker and the next end marker, and the next index is that end marker. |
| BotScrape.FindInHtmlNoEnd | bot.js:281-293 | A missing end marker gives "" and an index one before the text after the start marker. |
| BotScrape.LinkPartShape | bot.js:298 | The link part starts at the first `http`, or is the whole text when there is none. |
| BotScrape.FindLinkInHtml | bot.js:295-305 | The search resumes where `findinHtml` says, or restarts at 0. |
| BotScrape.FindLinkOutcome | bot.js:295-305 | `findLinkInHtml` gives the decoded link and index. When decoding fails it gives the fixed error text and index 0. |
| BotScrape.CollectResults | bot.js:259-264 | The result loop builds the same response as the recursive reading of the result list. |
| BotScrape.NextResult | bot.js:230-233 | One iteration takes one link, cuts the page at its index and leaves the rest of the results to the cut page. |
| BotScrape.FailureRepeats | bot.js:229-234 | When decoding fails, every requested slot holds the error text, because the cut at index 0 keeps the page. |
| BotScrape.Results | bot.js:229-234 | A reply for at least one result has at least one character per result and ends with a line break. |
| BotScrape.ImageCountOfWord | bot.js:205-208 | `image` and `picture` ask for one image, and the plural words ask for the configured number. |
| BotScrape.ImageQueryOf | bot.js:203-216 | `<mention> <word> of <term>` searches for the term, with the `of` removed. |
| BotScrape.TermAfterOf | bot.js:211-216 | Removing the word and a following `of` leaves the term. |
| BotScrape.ImageQueryPlain | bot.js:203-216 | `<mention> <word> <term>` without `of` searches for the term. |
| BotScrape.ImageQuery | bot.js:203-221 | The image count is 1 or the configured count. The query is as long as the term, since only one space becomes `+`. |
| BotScrape.LinkQuery | bot.js:247-252 | The query is as long as the text after the mention, and is that text when it has no space. |
| BotScrape.QueryFirstSpace | bot.js:221 | Only the first space of the query becomes `+`. |
| BotScrape.Unquote | bot.js:460-462 | Unquoting never lengthens the `src` text. |
| BotScrape.UnquoteQuoted | bot.js:459-462 | Any quoted URL followed by a space is unquoted to the URL with its first `&amp;` restored to `&`. |
| BotScrape.WolframAnswer | bot.js:434-482 | Without any known pod the answer is the fixed "don't understand" text. A Result pod wins over every other pod. |
| BotScrape.WolframPlots | bot.js:443-464 | Without a text pod, a Plot pod gives its image link, and otherwise a Plots pod does. |
| BotScrape.TextPodBody | bot.js:469-482 | A closed plaintext gives the unescaped body. |
| BotScrape.TextPodUnclosed | bot.js:475-478 | An unclosed plaintext gives the text before its body, because `substring` swaps its bounds. |
| BotScrape.TextPodEmpty | bot.js:469-473 | A pod with no plaintext after it gives the "don't understand" text. |
| BotScrape.TextPod | bot.js:469-482 | A text pod answers the fixed "don't understand" text or a text no longer than the page. |
| BotScrape.Unescape | bot.js:480 | Unescaping never lengthens the text. |
| BotScrape.UnescapePlain | bot.js:480 | Text without entities is not changed by unescaping. |
| BotScrape.PlotLink | bot.js:455-464 | The plot link is no longer than the page. |
| BotScrape.PlotLinkQuoted | bot.js:456-464 | Any quoted `src` followed by a space and `alt=` yields the URL inside the quotes, with its first `&amp;` restored to `&`. |
| BotScrape.NhcImagePath | bot.js:508-521 | The chart path is no longer than the page. |
| BotScrape.NhcImagePathFound | bot.js:508-521 | With both contents markers, an `<img id=` tag closed by `>` between them, and `src=` then `useMap=` in that tag, the path is exactly the text between `src=` and the first `useMap=` after it. It holds no `useMap=`. |
| BotScrape.NoaaReply | bot.js:491-525 | The mirror option always gives the fixed cone image. Otherwise the reply is the NHC site followed by the chart path with every quote character deleted, and it has no quote characters after the site. |
| BotScrape.NoaaMirrorIgnoresPage | bot.js:493-496 | With the mirror option, the fetched page does not matter. |
| DiscbotConfig.FirstMatching | discbot.py:35-38 | The scan stops at the first line containing the key, and no line before it contains the key. |
| DiscbotConfig.MentionsFirstMatching | discbot.py:35-38 | Some line mentions the lower-cased parameter exactly when the scan stops inside the file. |
| DiscbotConfig.ReadValue | discbot.py:29-43 | With no line mentioning the parameter the value is -1. Otherwise it is `int()` of the first mentioning line after its first len(parameter)+2 characters. |
| DiscbotConfig.Rewritten | discbot.py:359-366 | Every line containing the lower-cased parameter becomes `parameter: value`, spelled as typed. Every other line is kept. The number of lines is unchanged. |
| DiscbotConfig.LineMentionsParameter | discbot.py:363 | A lower-case parameter is found in the line written for it. |
| DiscbotConfig.ValueOfConfigLine | discbot.py:37 | The slice `readConfig` takes from a written line is the rendered value and its line break. |
| DiscbotConfig.RewriteKeepsFirstMatch | discbot.py:361-366 | The first mentioning line stays first after rewriting. |
| DiscbotConfig.WriteThenRead | discbot.py:29-43 | Reading a lower-case parameter from the list of lines `writeConfig` writes gives the value written. |
| DiscbotConfig.RewrittenShaped | discbot.py:360-366 | For a parameter without a line break, the rewritten lines keep the shape `readlines()` gives. |
| DiscbotConfig.WriteThenReadFile | discbot.py:29-43 | The round trip through the file text: for a lower-case parameter without a line break, over lines of `readlines()` shape, `readConfig` after `writeConfig` gives the value written. |
| DiscbotConfig.NewlineParameterSplits | discbot.py:127-131 | `-s 3\n 7` names the parameter `3\n`. The written list reads back 7, but the written file splits into two lines, and `readConfig` raises on the next read. |
| DiscbotConfig.SafeCast | discbot.py:380-384 | `safeCast` is `int()` where that succeeds and the default where it raises. |
| DiscbotConfig.DashSAt | discbot.py:128 | `-s` is found where it first stands when no dash precedes it. |
| DiscbotConfig.SetSectionWords | discbot.py:128-129 | The parameter section is what follows the first space after `-s`. |
| DiscbotConfig.ParamWords | discbot.py:129-131 | The parameter section splits at its first space into the parameter and the value text. |
| DiscbotConfig.ParameterWord | discbot.py:130 | The text before the first space holds no space. A space-free text cut by its last character holds none either. |
| DiscbotConfig.SetRequest | discbot.py:127-132 | The parameter that `-s` names never contains a space. |
| DiscbotConfig.SetRequestWords | discbot.py:127-132 | `-s <parameter> <value>` names that parameter and the `safeCast` of the value. |
| DiscbotConfig.SetRequestNoValue | discbot.py:128-132 | Without a value, the parameter loses its last character and the whole parameter text is cast as the value. |
| DiscbotConfig.SetRequestDefault | discbot.py:131-132 | A value text that is not an integer becomes 1. |
| DiscbotConfig.ResultCount | discbot.py:206-210 | A configured count below 1 becomes 3, above 10 becomes 10, and anything else is kept. |
| DiscbotConfig.ConfigFile.constructor | discbot.py:357-358 | The file object holds the given lines and has been written zero times. |
| DiscbotConfig.ConfigFile.Read | discbot.py:29-43 | `readConfig` gives the value of the first mentioning line, -1 when no line mentions the parameter, and None where `int()` raises. |
| DiscbotConfig.ConfigFile.Write | discbot.py:354-377 | `writeConfig` rewrites every mentioning line and writes the file back once. It succeeds exactly when some line mentions the parameter. |
| DiscbotConfig.ConfigFile.Command | discbot.py:119-144 | `-?` shows the help file and leaves the file alone. `-s` writes the parsed request and reports success or failure. Otherwise the contents of the file are shown. |
| DiscbotConfig.UpperCaseSetLosesLine | discbot.py:362-363 | Setting `TEXT_RESULTS` rewrites the line in upper case, after which `readConfig` no longer finds it. |
| DiscbotCommands.HandleMessage | discbot.py:11-27 | Only messages from others that start with the mention and a space are handled. Commands are the ones continuing with `!`. |
| DiscbotCommands.OwnMessagesIgnored | discbot.py:13-14 | The bot's own messages are never handled. |
| DiscbotCommands.ParseCommand | discbot.py:46-72 | A command matching no prefix is echoed in the "not recognized" reply. |
| DiscbotCommands.AfterFirst | discbot.py:47 | The text after the first `!` (or, for the searches, the first space) is a suffix of the message, and the whole message when that character is absent. |
| DiscbotCommands.CommandAfterBang | discbot.py:47 | The command is everything after the first `!`. |
| DiscbotCommands.UnknownEchoesArguments | discbot.py:70-72 | An unknown command is echoed whole, arguments included. |
| DiscbotCommands.VersionReply | discbot.py:81-92 | Without `-?`, there is a reply exactly when the changelog exists, and it opens a code fence. |
| DiscbotCommands.VersionShowsFirstLine | discbot.py:81-92 | The version reply is the first changelog line, stripped and fenced. |
| DiscbotCommands.FullHasDashF | discbot.py:104 | Any command with `-full` also contains `-f`, so the `-full` test is redundant. |
| DiscbotCommands.SectionEnd | discbot.py:109-112 | The changelog loop stops at the first line that starts with `v` and does not contain the stripped first line, and no earlier line ends the section. |
| DiscbotCommands.FirstLineKept | discbot.py:109-114 | The first line always belongs to the section. |
| DiscbotCommands.SectionUnclosed | discbot.py:107-114 | Without a later version header, the whole file is sent with no closing fence. |
| DiscbotCommands.ConcatStep | discbot.py:114 | Adding the next line extends the concatenation by that line. |
| DiscbotCommands.Section | discbot.py:107-114 | The section opens with the fence and the first changelog line. |
| DiscbotCommands.SectionAt | discbot.py:107-114 | The section is the lines before the first ending line, closed only when such a line exists. |
| DiscbotCommands.ChangelogSection | discbot.py:107-114 | The loop builds exactly that section. |
| DiscbotCommands.ChangelogReply | discbot.py:95-116 | Without `-?`, there is a reply exactly when the changelog exists. Without `-f`, which `-full` contains, the reply is the latest section. |
| DiscbotCommands.DieSize | discbot.py:157-161 | A digit token of value 0 names a two-sided die. A value from 1 to `sys.maxsize` is the size as given, and a larger value is cut to `sys.maxsize`. |
| DiscbotCommands.DieTextNamesSize | discbot.py:158-163 | The die named in the reply is the size rolled. |
| DiscbotCommands.LastDie | discbot.py:156-163 | The last digit token is found, with no digit token after it. |
| DiscbotCommands.RollScan | discbot.py:155-166 | The token loop ends with the roll of the last digit token, the six-sided default, or an error for a unit die. |
| DiscbotCommands.ScanMessage | discbot.py:156-163 | The loop leaves an empty reply exactly when no token is a digit token. |
| DiscbotCommands.ScanMessageIsLast | discbot.py:156-163 | The reply the loop leaves is that of the last digit token. |
| DiscbotCommands.RollOutcome | discbot.py:155-166 | The roll fails exactly when some token has the value 1. Without a digit token, a six-sided die is rolled. |
| DiscbotCommands.UnitDieFails | discbot.py:158-163 | A token of value 1 anywhere makes the scan fail. |
| DiscbotCommands.NoUnitDie | discbot.py:158-163 | Without such a token, the scan does not fail. |
| DiscbotCommands.RollCommand | discbot.py:147-168 | `-?` shows the roll help, and otherwise the result is the outcome of the token loop over the words. |
| DiscbotCommands.LastTokenDecides | discbot.py:156-163 | Without a unit die, the last digit token alone decides the die. |
| DiscbotCommands.NoDigitsRollsSix | discbot.py:165-166 | With no digit token, a six-sided die is rolled. |
| DiscbotCommands.UnitDieErrs | discbot.py:158-163 | Any token of value 1 ends the command with `randrange`'s error. |
| DiscbotCommands.ZeroRollsTwo | discbot.py:158-159 | `roll 0` rolls a two-sided die and says so. |
| DiscbotCommands.HelpReply | discbot.py:171-202 | `help` with no topic shows the overview. |
| DiscbotCommands.HelpTopic | discbot.py:182-197 | `help <topic>` shows the topic's file when it exists, and the overview otherwise. |
| DiscbotCommands.FirstPrefixSpec | discbot.py:298-317 | With no matching row there is no request. A request comes from a matching row with no matching row above it. |
| DiscbotCommands.ImageRequest | discbot.py:298-317 | A request asks for 1 image or the configured count. Its term is a proper suffix of the input. |
| DiscbotCommands.RoutedImageRequest | discbot.py:295-317 | A message that `handleMessage` routes to the image search, with a mention holding no space, always matches a prefix row. So `realInput` is always bound. |
| DiscbotCommands.ImageRequestIsTable | discbot.py:298-317 | The `elif` chain is the prefix table read from the top. |
| DiscbotCommands.PluralRows | discbot.py:306-317 | The plural rows ask for the configured count. |
| DiscbotCommands.ImagesOf | discbot.py:306-308 | `images of <term>` searches for the term with the configured count. |
| DiscbotCommands.PictureOf | discbot.py:302-303 | `picture of <term>` searches for the term with one image. |
| DiscbotCommands.ConfiguredImages | discbot.py:281-285 | The configured image count, when it can be read, lies in 1..10. |

## Left out

- Network fetches (`getHtml`, the Google, Wolfram|Alpha and NHC requests) are not modelled. The fetched page is a parameter.
- File I/O is modelled by parameters:
  - files are maps from name to text, or lists of lines;
  - `config.json` and `GoogleBot.config` writes are a ghost write counter.
- Not modelled: the JSON serialization of the settings, and the `readlines` newline translation.
- ConfigFile.Write: the object keeps the list of lines it wrote, not the text the file holds. A written line that contains a line break, from a parameter holding one, comes back as several lines on the next `readlines()`, while the model keeps it whole. `WriteThenReadFile` states the round trip through the text where the two agree, and `NewlineParameterSplits` shows an input where they differ.
- Discord plumbing, the `async` handlers and the sending of replies are not modelled. The reply is the result.
- The promise chain of the letter reactions is modelled as the sequence of glyphs. Its `.catch` and the order of delivery are left out.
- Logging, `console.log`, and the `DEBUG` and `debug` prints are left out.
- `getNthIndex` and `memeCommand` are not modelled. `memeCommand` fetches the top page of the meme subreddit, writes it to `latestSearch.html` and returns the bare index that `getNthIndex(rawHtml, "<a href=", 3)` gives, not a post. For `n > 1`, `getNthIndex` returns the undeclared `thisidx` (bot.js:541), which throws a ReferenceError once the count is reached.
- The empty `helpCommand` of bot.js (bot.js:417-419) is not modelled. Its callers are TODO comments. The roll command's `-?` branch gives an empty reply. The config command's `-?` block (bot.js:318-321) is empty and falls through to the key chain, so `-?` is reported as an unrecognized item (`ConfigHelpFallsThrough`).
- The HTML result loops of discbot.py (230-256 and 327-338) are not modelled beyond their count clamps. They index fixed-size arrays with markers that do not bear on any decision.
- `quote` and `unquote` of discbot.py are not modelled. `decodeURIComponent` is a parameter that may fail.
- `helpPath.is_file()` is modelled as membership of the help path in the map of files.
- Case folding covers ASCII only, and so does `isdigit`. Python `int()` and `str.isdigit` accepting non-ASCII digits is not modelled.
- Strings are sequences of code points. JavaScript counts UTF-16 code units, which differs for the astral emoji.
- `Math.random()` is a real parameter in [0, 1), and `random.randrange(1, n)` is a function parameter.
- `content.search(pattern)` is modelled as a plain substring search. None of the patterns the bot passes contain regular-expression metacharacters.
- `sys.maxsize` is taken as on a 64-bit build.
- ParseIntUnsigned: JavaScript numbers are modelled as unbounded integers. A `parseInt` result above 2^53 is not rounded to the nearest double as JavaScript does.
- ParseIntMinus: the same unbounded reading, so the rounding of large magnitudes is not modelled.
- ParseIntDecimal: the value is exact for every digit text. JavaScript loses precision above 2^53 and reads more than 309 digits as Infinity.
- ParseIntRendering: the read-back holds for every integer. In JavaScript it holds only up to 2^53, and from 1e21 `String(n)` switches to exponent form, which `parseInt` reads as its leading digits.
- DieSides: the die size is an unbounded integer. Rounding above 2^53 and `Infinity` sides are not modelled.
- RollText: the sides and the face are rendered as unbounded integers. JavaScript renders sides of 1e21 and more in exponent form, and the float arithmetic of `randomNumber` loses precision above 2^53.
- BotRouting.Route: the first mention is a boolean parameter, since who is mentioned comes from Discord.
- Behaviours of the code a reader might not expect, each stated as a lemma:
  - the JavaScript roll never shows the top face (`RollRange`);
  - the boolean literals are case-sensitive (`SetSwitchInvalid`);
  - an upper-case `-s` parameter loses its line (`UpperCaseSetLosesLine`);
  - a `-s` parameter ending in a line break corrupts the config file for the next read (`NewlineParameterSplits`);
  - an unclosed plaintext gives the text before the body (`TextPodUnclosed`);
  - a decode failure repeats in every slot (`FailureRepeats`);
  - an unclosed changelog section has no closing fence (`SectionUnclosed`);
  - a Python roll with a token of value 1 errors (`UnitDieErrs`);
  - `writeConfig` rewrites every matching line (`Rewritten`).
