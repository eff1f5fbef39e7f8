# Text-command engine of BabbleBot-Server, modelled in Dafny

This project models the two classes that turn a line of user input into a command response.

`CommandDispatcher` is the command registry and the dispatch pipeline:
- `addCommand` and `removeCommand` change an `ArrayList` of commands in place, and the list never holds one command twice.
- `execute` runs the pipeline:
  1. It asks a message parser for a context.
  2. It keeps the commands whose type passes `checkType` and that have an alias equal to the context's command name, ignoring case. The last such command in registration order wins.
  3. It asks that command to validate the context, and runs it or answers with its usage text.
- `getCommandByAlias` and `getCommands` are filtered views of the registry.

`TerminalMessageParser` turns one terminal line into a context with four parts:
- the command name: the whole message, untrimmed, when it holds no space, and otherwise the text before the first space, trimmed;
- the parameters, from every match of the pattern `-([a-zA-Z0-9]+)=(([a-zA-Z0-9]+)|("([a-zA-Z0-9/]+)"))`;
- a free-text value, which is what remains once the command name and the matched tokens are deleted, trimmed;
- the source type `"Terminal"`.

Modules, one per file:
- `Wrappers`: `Option`.
- `JavaString`: the `java.lang.String` operations the code relies on: ASCII `toLowerCase`, `trim`, `indexOf`, `replace(t, "")` and `split("|")`.
- `Commands`: the `Command` and `Context` values.
- `Dispatcher`: the class `CommandDispatcher`, over a `seq<Command>` field, and the functions that specify it.
- `TerminalParser`: a deterministic scanner for the fixed pattern, the `while (matcher.find())` loops as methods, and the functions that specify them.
- `TerminalExamples`: messages of known shapes, and the two worked examples `greet -name=Bob extra text` and `greet -name="Bob Jones"`.
- `DispatcherExamples`: registration and `execute` fed by the terminal parser.

Some behaviour of the code is easy to misread; the model follows the code:
- `checkType` splits with `String.split("|")`. That is a regular-expression split on an empty alternation, so it cuts the type into single characters. It does not cut at the bars. So `"Discord|Terminal"` does not accept `"Terminal"`.
- With no space in the message, the command name is the whole message, untrimmed.
- The value is built with `String.replace`, which deletes every occurrence of the command name, not only the first.
- The terminal parser never reports a parse failure. The empty line gives the context `("", {}, "", "Terminal")`.
- `getCommandByAlias` uses `findAny`, so nothing says which of several qualifying commands it returns.

The `Command` implementations are not part of this model, so the model assumes they keep Java's default `equals`, which is identity. A command carries an `id` standing for that identity, and two commands are equal when all of their fields are.

## Model

Source paths are relative to the repository root.

| member | source | states |
|---|---|---|
| Dispatcher.TypeMatches | src/main/java/uk/co/bjdavies/app/commands/CommandDispatcher.java:149-175 | Defines the type rule `checkType` computes: "All", equality ignoring case, or, for a type holding `|`, a source type equal ignoring case to one of its characters. Its contract: a match needs "All", equal lengths, or a one-character source type. |
| Dispatcher.CheckType | src/main/java/uk/co/bjdavies/app/commands/CommandDispatcher.java:149-175 | The loop over the split tokens returns exactly TypeMatches. "All" (case-sensitive) accepts every type. Equality ignoring case accepts. Otherwise, with a `|`, only a source type equal, ignoring case, to one character of the command type accepts. |
| Dispatcher.PlainTypeMatchesIgnoringCase | src/main/java/uk/co/bjdavies/app/commands/CommandDispatcher.java:149-175 | A type other than "All" and without `|` matches exactly the source types equal to it ignoring case. |
| Dispatcher.BarBranchNeedsOneCharacter | src/main/java/uk/co/bjdavies/app/commands/CommandDispatcher.java:157-171 | In the `|` branch, the type matches iff the source type is one character that equals, lowered, some lowered character of the command type. |
| Dispatcher.DiscordOrTerminalRejectsTerminal | src/main/java/uk/co/bjdavies/app/commands/CommandDispatcher.java:157-171 | `"Discord|Terminal"` does not accept `"Terminal"`. |
| Dispatcher.AliasMatches | src/main/java/uk/co/bjdavies/app/commands/CommandDispatcher.java:111-112 | Defines the alias test: some alias equals the command name once both are lowered. A matching alias has the name's length, and an alias spelled exactly like the name always matches. |
| Dispatcher.Handles | src/main/java/uk/co/bjdavies/app/commands/CommandDispatcher.java:111-112 | Defines the handler test of `execute`: the type passes `checkType` and an alias answers to the name. An "All" command handles any context that names one of its aliases exactly. |
| Dispatcher.LastHandler | src/main/java/uk/co/bjdavies/app/commands/CommandDispatcher.java:110-117 | The position left in `command[0]`: a command that passes the type check and answers to the name, after which no command does; or -1. |
| Dispatcher.Selected | src/main/java/uk/co/bjdavies/app/commands/CommandDispatcher.java:110-119 | No command is selected iff no registered command handles the context. A selected command is registered and handles it. |
| Dispatcher.Response | src/main/java/uk/co/bjdavies/app/commands/CommandDispatcher.java:106-137 | Defines the answer of `execute`. It is always one of the two fixed texts, or the rendered `run` result or the usage text of a registered command. |
| Dispatcher.UnparsedIgnoresRegistry | src/main/java/uk/co/bjdavies/app/commands/CommandDispatcher.java:106-137 | A missing context gives "Command could not be parsed." whatever the registry, `validateUsage` and `run`. |
| Dispatcher.NoHandlerIsNotFound | src/main/java/uk/co/bjdavies/app/commands/CommandDispatcher.java:119-131 | With no handler, the answer is "The command couldn't be found.". |
| Dispatcher.LastHandlerAnswers | src/main/java/uk/co/bjdavies/app/commands/CommandDispatcher.java:110-128 | The last handler in registration order is selected. Its `run` result is the answer when it validates the context, and its usage text otherwise. |
| Dispatcher.RunOnlyWhenValid | src/main/java/uk/co/bjdavies/app/commands/CommandDispatcher.java:121-128 | Two `run` plug-ins can change the answer only when a command is selected and accepts the context. |
| Dispatcher.CommandByAlias | src/main/java/uk/co/bjdavies/app/commands/CommandDispatcher.java:89-92 | A returned command is registered, lists the alias exactly and has exactly the type. None comes back iff no registered command qualifies. Which qualifying command comes back is not stated. |
| Dispatcher.CommandsOfType | src/main/java/uk/co/bjdavies/app/commands/CommandDispatcher.java:183-186 | The result holds only commands of exactly that type. It holds each of them as often as the registry does, and in registry order (a subsequence). |
| Dispatcher.FirstIndex | src/main/java/uk/co/bjdavies/app/commands/CommandDispatcher.java:77 | `indexOf`: the first position holding the element. |
| Dispatcher.RemoveFirst | src/main/java/uk/co/bjdavies/app/commands/CommandDispatcher.java:77 | `ArrayList.remove(Object)` removes one copy of the element, and nothing when it is absent (as multisets). |
| Dispatcher.RemoveFirstAt | src/main/java/uk/co/bjdavies/app/commands/CommandDispatcher.java:77 | The list is one shorter. Elements before the first copy stay in place, and those after it move one place forward. |
| Dispatcher.RemoveFromDuplicateFree | src/main/java/uk/co/bjdavies/app/commands/CommandDispatcher.java:70-80 | Removing from a duplicate-free list keeps it duplicate-free. The element is gone, the length drops by one, and every other element stays. |
| Dispatcher.CommandDispatcher.Valid | src/main/java/uk/co/bjdavies/app/commands/CommandDispatcher.java:53-80 | The invariant `addCommand` and `removeCommand` keep: the registry holds no command twice, so `indexOf`, which `remove(Object)` uses, finds every registered command at its own position. |
| Dispatcher.CommandDispatcher.constructor | src/main/java/uk/co/bjdavies/app/commands/CommandDispatcher.java:42-45 | The registry starts empty and duplicate-free. |
| Dispatcher.CommandDispatcher.AddCommand | src/main/java/uk/co/bjdavies/app/commands/CommandDispatcher.java:53-62 | A new command is appended at the end. A registered one leaves the registry unchanged. No duplicates, before and after. |
| Dispatcher.CommandDispatcher.RemoveCommand | src/main/java/uk/co/bjdavies/app/commands/CommandDispatcher.java:70-80 | An absent command leaves the registry unchanged. A present one is deleted, and the others keep their order. Afterwards the command is absent and no duplicates remain. |
| Dispatcher.CommandDispatcher.Execute | src/main/java/uk/co/bjdavies/app/commands/CommandDispatcher.java:103-139 | The answer is Response of the registry and the parse result. The loop's invariant is that `command[0]` is the last handler among the commands scanned so far. |
| JavaString.LowerChar | src/main/java/uk/co/bjdavies/app/commands/CommandDispatcher.java:112 | ASCII `Character.toLowerCase`: an upper-case letter becomes the lower-case letter 32 code points on, any other character stays, and the result is never an upper-case letter. |
| JavaString.Lower | src/main/java/uk/co/bjdavies/app/commands/CommandDispatcher.java:112 | ASCII `toLowerCase`: the length is kept and no upper-case letter remains. |
| JavaString.EqualsIgnoreCase | src/main/java/uk/co/bjdavies/app/commands/CommandDispatcher.java:154 | `a.toLowerCase().equals(b.toLowerCase())`: equal strings qualify, and qualifying strings have equal lengths. |
| JavaString.EqualsIgnoreCaseByPosition | src/main/java/uk/co/bjdavies/app/commands/CommandDispatcher.java:164 | Equality ignoring case holds exactly when the lengths agree and each pair of characters agrees once lowered. |
| JavaString.TrimStart | src/main/java/uk/co/bjdavies/app/commands/TerminalMessageParser.java:47 | The result is a suffix of the input. Everything dropped is at most U+0020. The result does not start with such a character. |
| JavaString.TrimEnd | src/main/java/uk/co/bjdavies/app/commands/TerminalMessageParser.java:47 | The result is a prefix of the input. Everything dropped is at most U+0020. The result does not end with such a character. |
| JavaString.Trim | src/main/java/uk/co/bjdavies/app/commands/TerminalMessageParser.java:47 | `trim()` neither starts nor ends with a character at most U+0020. |
| JavaString.TrimVisible | src/main/java/uk/co/bjdavies/app/commands/TerminalMessageParser.java:67 | `trim()` leaves text of visible characters unchanged. |
| JavaString.IndexOf | src/main/java/uk/co/bjdavies/app/commands/TerminalMessageParser.java:60 | -1 iff the character is absent. Otherwise the position of its first occurrence. |
| JavaString.IndexOfAt | src/main/java/uk/co/bjdavies/app/commands/TerminalMessageParser.java:60 | A position holding the character with none before it is what `indexOf` reports. |
| JavaString.RemoveAll | src/main/java/uk/co/bjdavies/app/commands/TerminalMessageParser.java:42 | `replace(t, "")` never lengthens the text. |
| JavaString.RemoveAllAbsent | src/main/java/uk/co/bjdavies/app/commands/TerminalMessageParser.java:42 | With an empty target, or no occurrence, `replace` returns its input. |
| JavaString.RemoveAllAtStart | src/main/java/uk/co/bjdavies/app/commands/TerminalMessageParser.java:45 | An occurrence at the front is deleted, and the scan resumes after it. |
| JavaString.RemoveAllStep | src/main/java/uk/co/bjdavies/app/commands/TerminalMessageParser.java:45 | A character that does not start an occurrence is kept. |
| JavaString.RemoveAllAtFirst | src/main/java/uk/co/bjdavies/app/commands/TerminalMessageParser.java:45 | Left to right and without overlap: the text before the leftmost occurrence is kept, the occurrence is deleted, and the scan resumes right after it. |
| JavaString.AbsentFirstChar | src/main/java/uk/co/bjdavies/app/commands/TerminalMessageParser.java:45 | A target whose first character is absent does not occur. |
| JavaString.RemoveAllOnce | src/main/java/uk/co/bjdavies/app/commands/TerminalMessageParser.java:45 | A target whose first character appears nowhere else is deleted exactly where it stands. |
| JavaString.SplitOnBar | src/main/java/uk/co/bjdavies/app/commands/CommandDispatcher.java:159 | `split("|")` gives tokens that join back to the input. Each token of a non-empty input is one character, and "" gives [""]. |
| JavaString.ConcatOfSingletons | src/main/java/uk/co/bjdavies/app/commands/CommandDispatcher.java:159 | One-character tokens are exactly the characters of their join, in order. |
| TerminalParser.IsToken | src/main/java/uk/co/bjdavies/app/commands/TerminalMessageParser.java:101 | Defines the text the parameter pattern accepts as a whole. Such text is at least four characters long, starts with `-` and holds `=`. |
| TerminalParser.SplitsAt | src/main/java/uk/co/bjdavies/app/commands/TerminalMessageParser.java:101 | Defines one reading of accepted text: `-`, group 1, `=` at `k`, group 2. The `=` at `k` is the first `=`, so the reading is unique. |
| TerminalParser.Match.Text | src/main/java/uk/co/bjdavies/app/commands/TerminalMessageParser.java:45 | `matcher.group()`: the matched text is `-`, the name, `=` and the value, two characters longer than name and value together. |
| TerminalParser.AlnumRunEnd | src/main/java/uk/co/bjdavies/app/commands/TerminalMessageParser.java:101 | `[a-zA-Z0-9]+` read greedily: the end of the maximal run of letters and digits. |
| TerminalParser.PathRunEnd | src/main/java/uk/co/bjdavies/app/commands/TerminalMessageParser.java:101 | `[a-zA-Z0-9/]+` read greedily: the end of the maximal run of letters, digits and `/`. |
| TerminalParser.MatchSpan | src/main/java/uk/co/bjdavies/app/commands/TerminalMessageParser.java:101 | The text from `-` to the end of the value is the match's text. Its group 1 is a name and its group 2 a value. |
| TerminalParser.MatchAt | src/main/java/uk/co/bjdavies/app/commands/TerminalMessageParser.java:101 | A match found at a position starts there and ends within the message. |
| TerminalParser.MatchAtText | src/main/java/uk/co/bjdavies/app/commands/TerminalMessageParser.java:101 | The matched slice is `-`, group 1, `=` and group 2. Group 1 is a name, and group 2 is a bare or quoted value. |
| TerminalParser.MatchIsToken | src/main/java/uk/co/bjdavies/app/commands/TerminalMessageParser.java:101 | What the scanner matches, the pattern accepts. |
| TerminalParser.AlnumRunEndAt | src/main/java/uk/co/bjdavies/app/commands/TerminalMessageParser.java:101 | A run of letters and digits stopped by another character, or by the end, ends there. |
| TerminalParser.PathRunEndAt | src/main/java/uk/co/bjdavies/app/commands/TerminalMessageParser.java:101 | A run of letters, digits and `/` stopped by another character ends there. |
| TerminalParser.NameValueIsScanned | src/main/java/uk/co/bjdavies/app/commands/TerminalMessageParser.java:101 | An accepted bare value lies within the greedy run the scanner reads. |
| TerminalParser.QuotedValueIsScanned | src/main/java/uk/co/bjdavies/app/commands/TerminalMessageParser.java:101 | An accepted quoted value is exactly what the scanner's quoted branch reads. |
| TerminalParser.TokenName | src/main/java/uk/co/bjdavies/app/commands/TerminalMessageParser.java:101 | In accepted text the name is the greedy run after `-`, followed by `=` and a value. |
| TerminalParser.TokenParts | src/main/java/uk/co/bjdavies/app/commands/TerminalMessageParser.java:101 | The pieces of accepted text, read at their positions in the message. |
| TerminalParser.TokenIsMatched | src/main/java/uk/co/bjdavies/app/commands/TerminalMessageParser.java:101 | Any accepted text at a position is covered by the scanner's match there. |
| TerminalParser.MatchAtAfterName | src/main/java/uk/co/bjdavies/app/commands/TerminalMessageParser.java:101 | Once `-name=` is read, where the match ends for a bare and for a quoted value. |
| TerminalParser.MatchAtIsLongestToken | src/main/java/uk/co/bjdavies/app/commands/TerminalMessageParser.java:101 | The scanner reports no match iff the pattern accepts no text at that position. Otherwise it reports the longest accepted text. |
| TerminalParser.FindFrom | src/main/java/uk/co/bjdavies/app/commands/TerminalMessageParser.java:83 | `find()` from a position returns a genuine match at or after it. |
| TerminalParser.FindFromIsLeftmost | src/main/java/uk/co/bjdavies/app/commands/TerminalMessageParser.java:83 | `find()` never skips a match: it finds one starting at or before any match further on. |
| TerminalParser.FindFromSkips | src/main/java/uk/co/bjdavies/app/commands/TerminalMessageParser.java:83 | `find()` passes over positions without `-`. |
| TerminalParser.AllMatches | src/main/java/uk/co/bjdavies/app/commands/TerminalMessageParser.java:83-88 | The matches the loop visits are genuine matches, in left-to-right order, and do not overlap. |
| TerminalParser.AllMatchesCoverEveryMatch | src/main/java/uk/co/bjdavies/app/commands/TerminalMessageParser.java:83-88 | Every position where the pattern matches lies inside a visited match. |
| TerminalParser.AllMatchesStep | src/main/java/uk/co/bjdavies/app/commands/TerminalMessageParser.java:83-88 | The first `find()` opens the list of matches, and the scan resumes after it. |
| TerminalParser.Unquote | src/main/java/uk/co/bjdavies/app/commands/TerminalMessageParser.java:86 | `group(2).replaceAll("\"", "")`: the value never grows. |
| TerminalParser.UnquoteBare | src/main/java/uk/co/bjdavies/app/commands/TerminalMessageParser.java:86 | `replaceAll("\"", "")` keeps a bare value unchanged. |
| TerminalParser.UnquoteQuoted | src/main/java/uk/co/bjdavies/app/commands/TerminalMessageParser.java:86 | `replaceAll("\"", "")` strips exactly the two quotes of a quoted value. |
| TerminalParser.UnquoteValue | src/main/java/uk/co/bjdavies/app/commands/TerminalMessageParser.java:86 | A stored value is a non-empty run of letters, digits and `/`. |
| TerminalParser.ParamsFrom | src/main/java/uk/co/bjdavies/app/commands/TerminalMessageParser.java:83-88 | The `put` loop from a given map: old keys stay, and the last match's name holds its unquoted value. |
| TerminalParser.ParamsFromKeys | src/main/java/uk/co/bjdavies/app/commands/TerminalMessageParser.java:83-88 | The keys are exactly the old keys plus the names of the matches. |
| TerminalParser.LastNaming | src/main/java/uk/co/bjdavies/app/commands/TerminalMessageParser.java:83-88 | The position of the last match naming a key, with no later one naming it; or -1. |
| TerminalParser.ParamsFromLastWins | src/main/java/uk/co/bjdavies/app/commands/TerminalMessageParser.java:83-88 | A key holds the unquoted value of the last match naming it, or keeps its old value when no match names it. |
| TerminalParser.ParamMapLastWins | src/main/java/uk/co/bjdavies/app/commands/TerminalMessageParser.java:83-88 | Every parameter comes from a match, and holds the value of the last match that names it. |
| TerminalParser.ParamMap | src/main/java/uk/co/bjdavies/app/commands/TerminalMessageParser.java:80-89 | parseParams over a list of matches, from an empty map: the keys are exactly the match names. |
| TerminalParser.ParamsOf | src/main/java/uk/co/bjdavies/app/commands/TerminalMessageParser.java:78-90 | parseParams of a message: there are no parameters exactly when the message has no match. |
| TerminalParser.ParametersWellFormed | src/main/java/uk/co/bjdavies/app/commands/TerminalMessageParser.java:83-88 | Every key is a non-empty run of letters and digits. Every value is a non-empty run of letters, digits and `/`. |
| TerminalParser.CommandName | src/main/java/uk/co/bjdavies/app/commands/TerminalMessageParser.java:58-69 | Without a space, the whole message. Otherwise the trimmed text before the first space, which holds no space. |
| TerminalParser.RemoveMatchesCons | src/main/java/uk/co/bjdavies/app/commands/TerminalMessageParser.java:43-46 | Each match's text is deleted in turn, in the order found. |
| TerminalParser.RemoveMatches | src/main/java/uk/co/bjdavies/app/commands/TerminalMessageParser.java:43-46 | Deletes each match's text in the order found. The text never grows, and no match leaves it unchanged. |
| TerminalParser.ValueOf | src/main/java/uk/co/bjdavies/app/commands/TerminalMessageParser.java:39-49 | The value neither starts nor ends with a character at most U+0020. |
| TerminalParser.TerminalContext | src/main/java/uk/co/bjdavies/app/commands/TerminalMessageParser.java:27-30 | parseString: the source type is "Terminal", the command name holds no space, and the value neither starts nor ends with a character at most U+0020. |
| TerminalParser.ParseParams | src/main/java/uk/co/bjdavies/app/commands/TerminalMessageParser.java:78-90 | The `while (matcher.find())` loop builds exactly ParamsOf. |
| TerminalParser.ParseValue | src/main/java/uk/co/bjdavies/app/commands/TerminalMessageParser.java:39-49 | The loop, using matches of the original message, builds exactly ValueOf. |
| TerminalParser.ParseString | src/main/java/uk/co/bjdavies/app/commands/TerminalMessageParser.java:27-30 | Always a context, of source type "Terminal", holding the command name and the parameters. |
| TerminalParser.MatchHasNoSpace | src/main/java/uk/co/bjdavies/app/commands/TerminalMessageParser.java:101 | Matched text never holds a space. |
| TerminalParser.TextHasNoSpace | src/main/java/uk/co/bjdavies/app/commands/TerminalMessageParser.java:101 | `-`, a name, `=` and a value hold no space. |
| TerminalParser.Group2HasNoSpace | src/main/java/uk/co/bjdavies/app/commands/TerminalMessageParser.java:101 | Neither value form admits a space. |
| TerminalParser.NameBeforeSpace | src/main/java/uk/co/bjdavies/app/commands/TerminalMessageParser.java:58-69 | A first word of visible characters, followed by a space, is the command name. |
| TerminalParser.OneWordMessage | src/main/java/uk/co/bjdavies/app/commands/TerminalMessageParser.java:39-69 | A message without a space is its own command name, and its value is empty. |
| TerminalParser.RemoveMatchesOfEmpty | src/main/java/uk/co/bjdavies/app/commands/TerminalMessageParser.java:43-46 | Deleting tokens from empty text leaves it empty. |
| TerminalParser.EmptyMessageExample | src/main/java/uk/co/bjdavies/app/commands/TerminalMessageParser.java:27-30 | The empty line gives the context ("", {}, "", "Terminal"). |
| TerminalExamples.BareMatchAt | src/main/java/uk/co/bjdavies/app/commands/TerminalMessageParser.java:101 | `-name=value` with a bare value ended by a non-alphanumeric character, or by the end, is matched with exactly that name and value. |
| TerminalExamples.BareValueAfterName | src/main/java/uk/co/bjdavies/app/commands/TerminalMessageParser.java:101 | Once `-name=` has been read, a non-empty run of letters and digits after the `=` is the value, and the match ends where that run ends. |
| TerminalExamples.OnlyMatch | src/main/java/uk/co/bjdavies/app/commands/TerminalMessageParser.java:83-88 | A match with no `-` before or after it is the only match of the line. |
| TerminalExamples.SingleParameterAt | src/main/java/uk/co/bjdavies/app/commands/TerminalMessageParser.java:83-88 | A line with one bare `-key=value` token and no other `-` has exactly that match. |
| TerminalExamples.GreetShape | src/main/java/uk/co/bjdavies/app/commands/TerminalMessageParser.java:101 | `greet -name=Bob extra text` holds one bare parameter token, at position 6. |
| TerminalExamples.GreetMatches | src/main/java/uk/co/bjdavies/app/commands/TerminalMessageParser.java:83-88 | Its only match is `name` = `Bob`, spanning positions 6 to 15. |
| TerminalExamples.GreetName | src/main/java/uk/co/bjdavies/app/commands/TerminalMessageParser.java:58-69 | Its command name is `greet`. |
| TerminalExamples.GreetParams | src/main/java/uk/co/bjdavies/app/commands/TerminalMessageParser.java:78-90 | Its parameters are {name: Bob}. |
| TerminalExamples.GreetDropName | src/main/java/uk/co/bjdavies/app/commands/TerminalMessageParser.java:42 | Deleting `greet` leaves ` -name=Bob extra text`. |
| TerminalExamples.GreetDropParameter | src/main/java/uk/co/bjdavies/app/commands/TerminalMessageParser.java:45 | Deleting `-name=Bob` then leaves `  extra text`. |
| TerminalExamples.GreetAroundParameter | src/main/java/uk/co/bjdavies/app/commands/TerminalMessageParser.java:45 | The text around `-name=Bob` holds no `-`. |
| TerminalExamples.GreetTrim | src/main/java/uk/co/bjdavies/app/commands/TerminalMessageParser.java:47 | Trimming `  extra text` gives `extra text`. |
| TerminalExamples.GreetParameterText | src/main/java/uk/co/bjdavies/app/commands/TerminalMessageParser.java:45 | The matched text `group()` is `-name=Bob`. |
| TerminalExamples.GreetValue | src/main/java/uk/co/bjdavies/app/commands/TerminalMessageParser.java:39-49 | Its value is `extra text`. |
| TerminalExamples.GreetExample | src/main/java/uk/co/bjdavies/app/commands/TerminalMessageParser.java:27-30 | `greet -name=Bob extra text` gives ("greet", {name: Bob}, "extra text", "Terminal"). |
| TerminalExamples.QuotedValueCutOff | src/main/java/uk/co/bjdavies/app/commands/TerminalMessageParser.java:101 | A quoted value cut off by a character that is neither a letter, a digit, `/` nor `"` gives no match. |
| TerminalExamples.OnlyDashUnmatched | src/main/java/uk/co/bjdavies/app/commands/TerminalMessageParser.java:83-88 | When the only `-` of a line starts no match, the line has no match. |
| TerminalExamples.QuotedSpaceShape | src/main/java/uk/co/bjdavies/app/commands/TerminalMessageParser.java:101 | In `greet -name="Bob Jones"` the quoted run is cut off by the space, at position 16. |
| TerminalExamples.QuotedSpaceMatches | src/main/java/uk/co/bjdavies/app/commands/TerminalMessageParser.java:83-88 | `greet -name="Bob Jones"` has no match. |
| TerminalExamples.QuotedSpaceParams | src/main/java/uk/co/bjdavies/app/commands/TerminalMessageParser.java:78-90 | It has no parameter. |
| TerminalExamples.QuotedSpaceName | src/main/java/uk/co/bjdavies/app/commands/TerminalMessageParser.java:58-69 | Its command name is `greet`. |
| TerminalExamples.QuotedSpaceDropName | src/main/java/uk/co/bjdavies/app/commands/TerminalMessageParser.java:42 | Deleting `greet` leaves ` -name="Bob Jones"`. |
| TerminalExamples.QuotedSpaceTrim | src/main/java/uk/co/bjdavies/app/commands/TerminalMessageParser.java:47 | Trimming gives `-name="Bob Jones"`. |
| TerminalExamples.QuotedSpaceValue | src/main/java/uk/co/bjdavies/app/commands/TerminalMessageParser.java:39-49 | Its value is the unmatched token `-name="Bob Jones"`. |
| TerminalExamples.QuotedSpaceExample | src/main/java/uk/co/bjdavies/app/commands/TerminalMessageParser.java:27-30 | `greet -name="Bob Jones"` gives ("greet", {}, "-name=\"Bob Jones\"", "Terminal"). |
| TerminalExamples.NoDashNoParameters | src/main/java/uk/co/bjdavies/app/commands/TerminalMessageParser.java:78-90 | A line without `-` has no match and no parameter. |
| TerminalExamples.SingleWordContext | src/main/java/uk/co/bjdavies/app/commands/TerminalMessageParser.java:27-30 | A word without space or `-` gives the context (word, {}, "", "Terminal"). |
| DispatcherExamples.LaterRegistrationWins | src/main/java/uk/co/bjdavies/app/commands/CommandDispatcher.java:110-117 | A handler registered after all the others is the one selected. |
| DispatcherExamples.PingLine | src/main/java/uk/co/bjdavies/app/commands/TerminalMessageParser.java:27-30 | The terminal line `PING` gives ("PING", {}, "", "Terminal"). |
| DispatcherExamples.BothHandlePing | src/main/java/uk/co/bjdavies/app/commands/CommandDispatcher.java:111-112 | A "Terminal" command with alias `ping` and an "All" command with alias `Ping` both answer to `PING`: aliases compare ignoring case. |
| DispatcherExamples.RegisterTwice | src/main/java/uk/co/bjdavies/app/commands/CommandDispatcher.java:53-62 | Adding the same command twice leaves it registered once. |
| DispatcherExamples.PingResponse | src/main/java/uk/co/bjdavies/app/commands/CommandDispatcher.java:103-139 | With `ping` ("Terminal") registered before `Ping` ("All"), the answer to `PING` is the later command's: its rendered result when its validation passes, its usage text otherwise. |
| DispatcherExamples.PingAtTerminal | src/main/java/uk/co/bjdavies/app/commands/CommandDispatcher.java:103-139 | `execute` of `PING` through the terminal parser, with both commands registered: the later one answers. |
| DispatcherExamples.RegisterThenRemove | src/main/java/uk/co/bjdavies/app/commands/CommandDispatcher.java:70-80 | Removing the first of two registered commands leaves the other alone. |

## Left out

- Logging through slf4j, and the `BabbleBotException` built only for a log line, have no effect on any result and are not modelled.
- `MessageParser` as an interface is a function parameter of `Execute`. The terminal parser is one such function. Other parsers are not part of this model.
- `Command.validateUsage` and `Command.run` are plug-ins whose code is not part of this model. They are function parameters. So is the rendering of `run`'s result by `VariableParser`, whose `Application` argument is left out with it.
- The general regular-expression engine (`Pattern`, `Matcher`) is not modelled. Only the one fixed parameter pattern is, as a deterministic scanner.
- `toLowerCase` is modelled on ASCII letters only. Locale-dependent and other Unicode case mappings are left out.
- The `HashMap` of parameters is a Dafny `map`, so it has no iteration order.
- The registry has no locking, and concurrent use is not modelled.
- The `Bindable` interface carries no behaviour here and is left out.
- The `Command` classes are not part of this model, and an overriding `equals` in them would change what `contains` and `remove` find. The model assumes Java's default `equals`, which compares identities, and compares `Command` values, which carry an `id` standing for the identity. Two distinct objects with equal fields are therefore distinct only through their ids.
- Strings are sequences of Unicode scalar values, while Java strings are UTF-16 code units. `split("|")` steps one code unit at a time, so in Java a supplementary character in a command type becomes two lone-surrogate tokens, where SplitOnBar keeps it one token. The model also assumes the Java 8 and later `split`. On Java 7 a leading "" token appears, and a type holding `|` would then also accept the empty source type.
- JavaString.Trim: states only that neither end is at most U+0020. That the result is the slice between the dropped runs is stated on TrimStart and TrimEnd, not on Trim itself.
- JavaString.RemoveAll: its own contract states only the length bound. What it deletes is stated by RemoveAllAbsent, RemoveAllAtStart, RemoveAllStep, RemoveAllAtFirst and RemoveAllOnce.
