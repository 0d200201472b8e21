# Verified models of the discovery server tool and three small stateful parts of Fast RTPS

The project models, in Dafny 4.11, what these parts of the repository compute and proves
properties over all their inputs and runs. `dafny verify dfyconfig.toml` checks everything.

- **The option parser** (`tools/fds/optionparser.h`). `OptionSyntax` and `WordSyntax` say what a
  word of the command line stands for, and `WordMeaning` says it once more, independently of how the
  parser finds it; `ArgPass` says what a whole pass over an argument vector comes to, also when its
  action refuses an option. `Workhorse` is the pass itself, in place, with its rotations, nested
  loops and early exits, and is proved to compute exactly that. `OptionLists` and `OptionStore` are
  the circular lists with tagged links and the two actions, counting and storing. `ArgParser` is the
  count-allocate-parse protocol, for one vector and for two. `Reordering`, `Rewriting` and
  `LongArguments` relate different vectors: the one a GNU-mode pass leaves behind, and those with an
  option spelled differently.
- **The usage formatter** (same file). `Utf8` reads characters and measures them; `LineParts` and
  `PartIterator` are the grid of a usage row and the one-pointer iterator over it;
  `LineWrapping` and `WrapQueue` are the greedy line wrapper and its ring buffer;
  `ColumnLayout` is the loop that finds the column widths.
- **The discovery server's command line** (`tools/fds/server.cpp` and `server.h`): `ServerLocators`
  is what the tool does with the parsed options, and `ServerCommandLine` what it does for any list
  of items a user writes.
- **The tracker of received sequence numbers** (`utils/futureCode/ReceivedChanges.cpp`) and
  **the skip list's append** (`utils/futureCode/SkipList.cpp`).
- **The request/reply example** (`examples/C++/ClientServerTest`): `Calculator` runs any number of
  clients and one server over a network that loses, duplicates and reorders.

`Common` holds what several modules need. Objects that the original updates in place are classes
whose methods are proved against functions on values; what the original promises is then proved
about those functions.

## Where the code and its documentation disagree

The model follows the code; each disagreement is a lemma with the input that shows it and one with
the exact condition under which the promise holds.

- The gnu flag "has no further effect" on a reordered vector only for tables whose option words do not
  care which of the words they leave alone follows, which holds when checks decline separate
  arguments always or never, as the stock checks do (`ReorderingCanChangeTheParse`,
  `ReorderingIsFinalIff`, `SteadyIsFinal`).
- "As a service" a too large argc is corrected only if the pass gets to the end of the vector;
  a pass that stops earlier without failing reports too many non-options (`TooLargeArgcCounts`,
  `ArgcMatters`).
- The counting action starts at 1 and the storing action at 0, with the same limit, so the
  sentinel slot can be used when there are 2^31 - 1 options or more. It is, unless a non-option
  comes between a refused option and its argument and stops the second pass
  (`SentinelCanBeUsed`, `SentinelCanStayFree`, `SizedRight`).
- The client compares guids, but no client ever sets one; and an id that wraps to 0 equals that of
  a reset result. One client with fewer than 2^32 calls is exactly what is safe
  (`TwoClientsMixUp`, `IdsWrap`, `SafeIff`).
- A `=` in the name of a long option does not "work": the argument starts behind the first `=` of
  the word, so such an option never takes a separate argument and finds a part of its name in an
  attached one. An option `name=...` also takes attached arguments away from an option `name`
  that is not in front of it. An attached and a separate argument come to the same exactly if
  neither happens, or both are rejected (`EqualsBelongToTheArgument`, `EqualsNeverSeparates`,
  `LookupIgnoresArgument`, `LongArgumentSeparates`, `EveryArgumentSeparates`).
- A division with a non-zero divisor is never computed: the result stays 0 and is reported as good,
  which is right exactly if the quotient is 0 (`DivisionWrong`, `DivisionRight`).

## Model

| member | source | states |
|---|---|---|
| `OptionSyntax.StrEq` | tools/fds/optionparser.h:1315-1321 | true exactly if the second string is the first one, or starts with it and a `=` |
| `OptionSyntax.StrEqAbbr` | tools/fds/optionparser.h:1347-1357 | true exactly if the common prefix is the whole first string, or long enough when abbreviations are on, and is ended by the end or `=` of the second |
| `OptionSyntax.AbbreviationMeans` | tools/fds/optionparser.h:1323-1357 | the match holds if and only if the name up to its end, or up to a `=` the long option does not have there, is the long option or, when abbreviations are on, a beginning of it of at least the minimum length |
| `OptionSyntax.FindLongOption` | tools/fds/optionparser.h:1601-1621 | the three search loops compute the long-name resolution |
| `OptionSyntax.LongNameResolution` | tools/fds/optionparser.h:1601-1627 | a name resolves to a descriptor if and only if that is the first exact match, or there is no exact match, abbreviations are on and it is the only abbreviation match |
| `OptionSyntax.FindShortOption` | tools/fds/optionparser.h:1645-1647 | the first descriptor whose short options include the character, anywhere among them, or none if no descriptor has it |
| `OptionSyntax.ShortNameResolution` | tools/fds/optionparser.h:346-347 | a character stands for a descriptor if and only if that is the first to list it; for none if and only if no descriptor lists it |
| `OptionSyntax.FindDummy` | tools/fds/optionparser.h:1658-1665 | the first descriptor with neither short nor long name, or none if all have one |
| `OptionSyntax.DummyResolution` | tools/fds/optionparser.h:1658-1665 | unknown options go to a descriptor if and only if that is the first one without any name |
| `OptionSyntax.ComputeNameLength` | tools/fds/optionparser.h:843-850 | one character, or up to the `=` or the end after a minus |
| `WordSyntax.WordCoherent` | tools/fds/optionparser.h:1594-1698 | for every word, table and two candidates for a separate argument: a candidate that is left alone leaves no trace in the parse; one that is taken exists and shows in the last option |
| `WordMeaning.GroupMeaning` | tools/fds/optionparser.h:1639-1698 | the options of a group of short options stand at increasing characters of the word: each belongs to the first descriptor that lists its character, or to the first unnamed one if none does, is offered the rest of the word or else the next one, and has that argument exactly if its check accepts it; the characters passed over are nobody's; the group ends behind the first accepted argument, at an illegal one, or with the word |
| `WordMeaning.WordReads` | tools/fds/optionparser.h:1590-1698 | every word with a minus and more is read as one long option or as such a group: a long option belongs to the descriptor its name resolves to, is offered what follows the first `=` or else the next word, and is performed, dropped or fatal as its check says |
| `WordMeaning.OptionsInOrder` | tools/fds/optionparser.h:1543-1705 | the options of a pass are those of the option words it gets to, word by word in order |
| `WordMeaning.Performed` | tools/fds/optionparser.h:1645-1698 | every option a pass performs comes from an option word it gets to, and has descriptor, name and argument as `GroupMeaning` and `WordReads` say |
| `WordMeaning.OptionalMustBeAttached` | tools/fds/optionparser.h:190-191 | with the stock check for optional arguments a short option takes an attached argument and never a separate one |
| `ArgPass.StablePartition` | tools/fds/optionparser.h:1539-1718 | front and back of the vector after a pass are the words at complementary positions, each in original order |
| `ArgPass.PartitionMeaning` | tools/fds/optionparser.h:1548-1705 | a word is moved to the front if and only if the pass reads it as an option word, or as the argument that the option word before it takes, or it is a `--` the pass gets to, which is then the last word before the stopping point; up to that point all other words are non-options, behind it nothing moves |
| `ArgPass.TailAtStop` | tools/fds/optionparser.h:1707-1717 | the words behind the stopping point are those the final count still has to look at |
| `ArgPass.ScanPermutes` | tools/fds/optionparser.h:1377-1385 | no pass, successful or not, loses or duplicates a word |
| `ArgPass.LeftFits` | tools/fds/optionparser.h:1694-1717 | when the action refuses no option, the vector holds the front and then the back of the pass |
| `ArgPass.LeftPermutes` | tools/fds/optionparser.h:1672-1695 | wherever an action refuses an option, the words stay the same, and without the gnu flag their order too |
| `ArgPass.PosixKeepsOrder` | tools/fds/optionparser.h:1552-1566 | without the gnu flag nothing moves |
| `Workhorse.Shift` | tools/fds/optionparser.h:1377-1385 | the in-place swaps move one element in front of the `count` elements before it and leave the others in place and order |
| `Workhorse.FindLongArgument` | tools/fds/optionparser.h:1629-1637 | the argument of a long option is what follows the first `=`, else the next word |
| `Workhorse.NextOption` | tools/fds/optionparser.h:1594-1698 | one round of the loop over a word: the option found and the remaining parse of the word |
| `Workhorse.WordOptions` | tools/fds/optionparser.h:1594-1698 | the loop over the options of one word performs exactly the options the word stands for, and moves its separate argument to the front |
| `Workhorse.CountRest` | tools/fds/optionparser.h:1707-1715 | the number of arguments left: corrected at the end of the vector, counted when unknown |
| `Workhorse.Pass` | tools/fds/optionparser.h:1539-1718 | the whole in-place pass, for either action: outcome, options performed, contents of the vector and non-options reported are those of the functional description, also when an illegal argument or a refused option aborts it |
| `Workhorse.PassArranges` | tools/fds/optionparser.h:1700-1717 | when no option is refused, the vector after a pass is the front, then the back, then what stood behind the words |
| `Workhorse.PassPermutes` | tools/fds/optionparser.h:1377-1385 | no pass, whether it succeeds, aborts or is refused an option, loses or duplicates an argument; a POSIX pass leaves the vector as it is |
| `Reordering.ReorderingIsFinalIff` | tools/fds/optionparser.h:1134-1139 | the documented promise (after a GNU-mode pass a POSIX-mode pass gives the same options, arguments and non-options) holds for a table if and only if its option words are indifferent to the words they leave alone |
| `Reordering.StockChecksSteady` | tools/fds/optionparser.h:923-939 | both stock checks, and every check that requires an acceptable argument, decline separate arguments always or never; the rows below call these "such checks" |
| `Reordering.SteadyIsFinal` | tools/fds/optionparser.h:1134-1139 | the promise holds for every table of such checks |
| `Reordering.ReorderingCanChangeTheParse` | tools/fds/optionparser.h:1134-1139 | a table for which the promise fails, with an optional argument that is accepted even when separate: `file -x` parses without argument and becomes `-x file`, which parses with one and without non-option |
| `Reordering.SecondPass` | tools/fds/optionparser.h:1134-1139 | with such checks, a second pass over the vector a successful first one left parses the same, in either mode; after a first one that aborted it performs no more options, and the same ones in the same mode |
| `Reordering.RefusedTwice` | tools/fds/optionparser.h:1442-1448 | with such checks, after a pass that was refused an option, a second one stays within the same limit if and only if a non-option has come between: the refused option was moved away from its argument and rejects the non-option it now stands before, or the second pass is in POSIX mode and stops at it |
| `Rewriting.SplitWord` | tools/fds/optionparser.h:166 | with single-minus long options off and no `-` as an option character, `-Xrest` parses like `-X` and `-rest` together when X never takes an argument |
| `Rewriting.ReachesEither` | tools/fds/optionparser.h:1594-1698 | with such checks, whether the pass gets to a word and reads it as a word of its own does not depend on that word |
| `Rewriting.SplittingKeepsTheParse` | tools/fds/optionparser.h:1594-1698 | with such checks, single-minus long options off and no `-` as an option character, splitting the flag off, or joining it, anywhere the pass gets to keeps options, arguments, non-options and outcome |
| `Rewriting.RequiredInsists` | tools/fds/server.cpp:263-348 | a check that requires an acceptable argument, the shape of the tool's own checks, judges the argument by its text alone and never declines one |
| `Rewriting.ShortSpelling` | tools/fds/optionparser.h:167-172 | with single-minus long options off, for an option other than `-` that requires an argument, `-Xfoo` and `-X foo` spell the same option, also when foo starts with a minus |
| `Rewriting.ShortArgumentSeparates` | tools/fds/optionparser.h:1639-1698 | with such checks, single-minus long options off and an option character other than `-`, `-Xfoo` and `-X foo` are interchangeable anywhere the pass gets to: same options, arguments, non-options and outcome |
| `Rewriting.GroupSplits` | tools/fds/optionparser.h:166 | under the same conditions a group of any number of flags can be split into single words, with the rest of the group in a word of its own, anywhere the pass gets to |
| `Rewriting.GroupedArgument` | tools/fds/optionparser.h:171-172 | under the same conditions, for any number of flags A, B, C and an option X that requires an argument, `-ABCXfoo` (with foo not empty) and `-ABCX foo` parse like `-A -B -C -X foo` anywhere the pass gets to one of the three |
| `LongArguments.LookupIgnoresArgument` | tools/fds/optionparser.h:1315-1357 | for a name without `=`: what follows `name=` never has an influence on which descriptor is found if and only if every long option that starts with `name=` comes after one that is `name` |
| `LongArguments.EqualsNeverSeparates` | tools/fds/optionparser.h:1629-1637 | a word whose name has a `=` parses the same whatever follows it and never takes a separate argument |
| `LongArguments.LongSpelling` | tools/fds/optionparser.h:182-185 | for an option that requires an argument, `--name=foo` and `--name foo` spell the same option when they are interchangeable: the name has no `=` and is looked up alike both ways, or both are rejected; also with an empty argument or one that starts with a minus |
| `LongArguments.LongArgumentAlone` | tools/fds/optionparser.h:1600-1637 | alone on the command line `--name=foo` and `--name foo` parse alike if and only if they are interchangeable |
| `LongArguments.LongArgumentSeparates` | tools/fds/optionparser.h:1600-1698 | with such checks, `--name=foo` and `--name foo` can be exchanged everywhere the pass gets to if and only if they are interchangeable |
| `LongArguments.ShieldedSeparates` | tools/fds/optionparser.h:182-189 | with such checks, for an option that requires an argument and a name as in the row of `LookupIgnoresArgument`, every argument can be attached or separate everywhere the pass gets to |
| `LongArguments.EveryArgumentSeparates` | tools/fds/optionparser.h:176-183 | for an option that accepts every argument, all of them can be attached or separate if and only if the name has no `=` and every long option that starts with `name=` comes after one that is `name` |
| `LongArguments.EqualsBelongToTheArgument` | tools/fds/optionparser.h:176-177 | an option named `a=b`: `--a=b=foo` gives it the argument `b=foo`, and `--a=b foo` the argument `b`, with foo left as a non-option |
| `OptionLists.OptionArrays.First` | tools/fds/optionparser.h:608-614 | from any node of a well-formed list, its first node |
| `OptionLists.OptionArrays.Last` | tools/fds/optionparser.h:640-643 | from any node of a well-formed list, its last node |
| `OptionLists.OptionArrays.Next` | tools/fds/optionparser.h:695-698 | the following node, or NULL at the last |
| `OptionLists.OptionArrays.Count` | tools/fds/optionparser.h:559-569 | the length of the list, 0 for an unused one |
| `OptionLists.OptionArrays.Append` | tools/fds/optionparser.h:731-739 | the new node ends the list, which stays circular and tagged at its ends only; no other node changes |
| `OptionLists.OptionArrays.Walk` | tools/fds/optionparser.h:741-781 | walking `options[k]` by `next` gives exactly the stored options with index k in command-line order |
| `OptionLists.CountAndLast` | tools/fds/optionparser.h:559-643 | `count` is the number of stored options with that index and `last` the last of them |
| `OptionLists.ListsDisjoint` | tools/fds/optionparser.h:1482-1498 | no node is in two lists, or twice in one |
| `OptionStore.StoreOption` | tools/fds/optionparser.h:1489-1495 | storing one more option keeps all lists well formed and appends it to the list of its index |
| `OptionStore.StoreOptionAction.constructor` | tools/fds/optionparser.h:1470-1480 | finds the first free slot of the buffer |
| `OptionStore.StoreOptionAction.Perform` | tools/fds/optionparser.h:1482-1498 | stores the option if there is room; a full buffer is not fatal, a count that no longer fits an int is |
| `OptionStore.CountOptionsAction.Perform` | tools/fds/optionparser.h:1442-1448 | counts the option unless the count no longer fits an int |
| `ArgParser.SizeOptions` | tools/fds/optionparser.h:1525-1533 | one slot for every index of the table and a sentinel, and no more than some index needs |
| `ArgParser.AddStats` | tools/fds/optionparser.h:1522-1537 | the counts, and the vector that a GNU-mode count reorders |
| `ArgParser.Parse` | tools/fds/optionparser.h:1515-1520 | the arrays hold the options they held and then the parsed ones, in order, as far as they fit and no less; error flag, counts and non-options as parsed; the vector stays a permutation |
| `ArgParser.ArgcMatters` | tools/fds/optionparser.h:1142-1146 | for a NULL-terminated vector argc -1, exact or larger gives the same words, hence options, vector and outcome; the parser's number of non-options is the same if and only if the pass fails, argc is not too large or the pass gets to the end of the vector |
| `ArgParser.TooLargeArgcCounts` | tools/fds/optionparser.h:1707-1717 | a vector and an argc one too large for which one non-option too many is reported |
| `ArgParser.SizedRight` | tools/fds/optionparser.h:1522-1537 | with such checks, the slots counted by a first pass suffice for a second one over what it left; one stays free if and only if there are fewer than 2^31 - 1 options or a non-option has come between as above |
| `ArgParser.SameAgain` | tools/fds/optionparser.h:1134-1139 | with such checks and fewer than 2^31 - 1 options, the second pass finds the options, arguments and non-options of the first, even if only that one was in GNU mode; or it fails like the first in the same mode |
| `ArgParser.SentinelCanBeUsed` | tools/fds/optionparser.h:1442-1447 | a flag given 2^31 - 1 times fills every counted slot, the sentinel included, in either mode |
| `ArgParser.SentinelCanStayFree` | tools/fds/optionparser.h:1674-1682 | in GNU mode as many options can leave it free: the last one is refused after it was moved away from its argument |
| `ArgParser.CountAndParse` | tools/fds/optionparser.h:1442-1537 | count, allocate, parse, with such checks: no write outside either array, even if a pass aborts; the sentinel slot stays unused exactly when `SizedRight` says; below 2^31 - 1 options the parser ends up with the options and non-options of a successful count, or with the options and the error of one that failed in the same mode |
| `ArgParser.CountAndParseBoth` | tools/fds/optionparser.h:947-948 | two different vectors counted into one `Stats` and then parsed into one pair of arrays, with such checks and fewer than 2^31 - 1 options in all: no write outside either array, the lists hold the options of the first vector and then those of the second, the sentinel slot stays unused |
| `ServerLocators.ServerTableSteady` | tools/fds/server.h:46-95 | the tool's own table has checks of the kinds for which reordering and sizing are safe |
| `ServerLocators.ScanComplete` | tools/fds/server.cpp:100-210 | every server id, address and port option that survives parsing has an argument |
| `ServerLocators.PairLocators` | tools/fds/server.cpp:171-209 | two list cursors in step: address i gets port i, or the last port when ports run out, or the default; nothing if one of the texts is not usable |
| `ServerLocators.BuildLocators` | tools/fds/server.cpp:138-210 | the locators for any addresses and ports; without address one any-address locator on the first port or the default |
| `ServerLocators.Decide` | tools/fds/server.cpp:87-210 | help, rejection, or the locators and the backup flag, from the parser's lists |
| `ServerCommandLine.CommandLineParsed` | tools/fds/server.h:51-69 | for any list of items, each written in any of the short and long, attached and separate forms: every item becomes one option of its own kind with its own text, in order, or the parse fails because some text does not pass the check of its kind |
| `ServerCommandLine.CommandLineExpected` | tools/fds/server.cpp:50-210 | the decision for such a command line, from the items alone: rejected if a text does not pass, usage if there is no item or help is asked for, else one server id is needed and one locator results per address, in order, with the port given in the same place or else the last one, 11811 if there is none, and 0.0.0.0 if there is no address |
| `ServerCommandLine.Configure` | tools/fds/server.cpp:50-210 | from the command line to the decision, through count, allocate and parse; for every list of items that the command line spells, the outcome is the one of `CommandLineExpected`; the command line itself is unchanged |
| `ReceivedChanges.Tracker.Add` | utils/futureCode/ReceivedChanges.cpp:35-50 | the number is received from now on and nothing else changes; true exactly if it was not received before; missing numbers stay strictly increasing and below the largest |
| `ReceivedChanges.Tracker.InsertMissing` | utils/futureCode/ReceivedChanges.cpp:52-62 | everything between the old and the new largest number becomes missing |
| `ReceivedChanges.Tracker.MissingReceived` | utils/futureCode/ReceivedChanges.cpp:64-79 | the backward search with its early exit finds the number if and only if it is missing |
| `ReceivedChanges.ReceivedExactly` | utils/futureCode/ReceivedChanges.cpp:35-79 | after any calls, exactly the positive numbers presented have been received |
| `ReceivedChanges.TrueOnFirstPresentation` | utils/futureCode/ReceivedChanges.cpp:35-79 | in any sequence of calls, one returns true exactly on the first presentation of a positive number |
| `ReceivedChanges.Replay` | utils/futureCode/ReceivedChanges.cpp:26-79 | the same two facts for the object itself, for every sequence of calls |
| `ReceivedChanges.RecordDetermined` | utils/futureCode/ReceivedChanges.cpp:35-79 | the record is a function of the set of numbers received: order and repetition of the calls leave no trace |
| `SkipList.SkipList.constructor` | utils/futureCode/SkipList.cpp:57-72 | an empty list: every tail is the head |
| `SkipList.SkipList.AppendToLevel` | utils/futureCode/SkipList.cpp:93-97 | one round of the loop makes the new node the last of one level and touches no other level |
| `SkipList.SkipList.InsertAtEnd` | utils/futureCode/SkipList.cpp:89-99 | for any height the node joins at the end; on every level each node leads to the next taller one and the tail is the last taller one |
| `SkipList.SkipList.WalkLevel` | utils/futureCode/SkipList.cpp:76-85 | following level x from the head visits exactly the nodes taller than x in insertion order |
| `SkipList.SkipList.Destroy` | utils/futureCode/SkipList.cpp:74-87 | the walk over level 0 visits every node exactly once |
| `SkipList.Build` | utils/futureCode/SkipList.cpp:57-99 | any sequence of insertions with any heights gives such a list of the inserted objects in insertion order |
| `Calculator.CalculateMeans` | examples/C++/ClientServerTest/EprosimaServer.cpp:132-166 | only a division by zero is an error; the outcome is the exact sum, difference or product when it fits 32 bits and congruent to it otherwise |
| `Calculator.DivisionRight` | examples/C++/ClientServerTest/EprosimaServer.cpp:156-163 | for a non-zero divisor the answer is reported as good, and is the truncated quotient if and only if the dividend is smaller in magnitude than the divisor |
| `Calculator.DivisionWrong` | examples/C++/ClientServerTest/EprosimaServer.cpp:156-163 | six divided by three is delivered as 0, with success |
| `Calculator.OperationListener.OnNewDataMessage` | examples/C++/ClientServerTest/EprosimaServer.cpp:168-185 | a take, possibly failed, and the result published for the operation it leaves, with its ids; every publication is counted |
| `Calculator.Client.Calculate` | examples/C++/ClientServerTest/EprosimaClient.cpp:116-144 | a call over any sequence of takes: it publishes the operation and the operands it was given, and returns once a take matches |
| `Calculator.CoherentStep` | examples/C++/ClientServerTest/EprosimaServer.cpp:132-185 | every step of one client, the server and the network keeps the invariant that every result answers the operation with its id |
| `Calculator.OneClientCorrect` | examples/C++/ClientServerTest/EprosimaClient.cpp:116-151 | in every run of one client with fewer than 2^32 calls, with loss, duplication, reordering and failed takes, every call that returns delivers the server's outcome for the operation it sent |
| `Calculator.ReturnsInOrder` | examples/C++/ClientServerTest/EprosimaClient.cpp:116-144 | in every run of any number of clients, the k-th return to a client is for the operation and operands of its k-th call, and at most the last call is still waiting |
| `Calculator.EveryCallRight` | examples/C++/ClientServerTest/EprosimaClient.cpp:116-144 | in every run of one client with fewer than 2^32 calls, the k-th call returns the sum, difference or product of its own operands if that fits 32 bits and a 32-bit number congruent to it otherwise; a division by 0 returns an error, any other division 0 |
| `Calculator.TwoClientsMixUp` | examples/C++/ClientServerTest/EprosimaClient.cpp:132-138 | with a second client a call can return the answer to the other client's operation, since no client sets its guid |
| `Calculator.IdsWrap` | examples/C++/ClientServerTest/EprosimaClient.cpp:126-139 | call number 2^32 has id 0 and can return without any answer |
| `Calculator.SafeIff` | examples/C++/ClientServerTest/EprosimaClient.cpp:116-151 | calls deliver only right answers if and only if there is at most one client with fewer than 2^32 calls, or no call at all |
| `Utf8.LeadingZeros` | tools/fds/optionparser.h:1977-1979 | the number of leading zeros of a byte in a 32-bit word |
| `Utf8.ReadChar` | tools/fds/optionparser.h:2368-2391 | the line wrapper's decoder reads the first character: its bytes and whether it is wide |
| `Utf8.FirstCharacter` | tools/fds/optionparser.h:2368-2391 | an encoded code point followed by anything but a continuation byte is read as that code point, with its length and its one or two columns |
| `Utf8.DecodeInverts` | tools/fds/optionparser.h:1974-1986 | decoding inverts the encoding of section 3 of RFC 3629 on every text of Unicode scalar values |
| `Utf8.WidthIsSum` | tools/fds/optionparser.h:1968-1991 | the width of a well-formed text is the sum over its code points of one or two columns |
| `Utf8.WideRanges` | tools/fds/optionparser.h:1884-1914 | which code points take two columns and which one, range by range |
| `Utf8.EncodedExamples` | tools/fds/optionparser.h:1974-1986 | the encoding is that of RFC 3629 on examples of its section 7 |
| `Utf8.LoneBytes` | tools/fds/optionparser.h:1972-1987 | how any text is cut into characters: bytes up to 0xC1 stand alone, a higher one takes all bytes 0x80 to 0xBF behind it |
| `Utf8.WidthAtMostBytes` | tools/fds/optionparser.h:2357 | no text is wider than its number of bytes, which is what the quick test relies on |
| `Utf8.WidthSplits` | tools/fds/optionparser.h:2364-2392 | widths add up at every character boundary |
| `Utf8.AsciiBoundary` | tools/fds/optionparser.h:2404-2419 | a space always stands on a character boundary, and so does what follows it |
| `LineWrapping.FitLine` | tools/fds/optionparser.h:2364-2392 | the scan for the end of the line |
| `LineWrapping.FindSpace` | tools/fds/optionparser.h:2404-2407 | the last space up to that point |
| `LineWrapping.SplitOff` | tools/fds/optionparser.h:2355-2421 | one round of the splitting loop, with its quick test, makes the cut of the functional description |
| `LineWrapping.CutIsGreedy` | tools/fds/optionparser.h:2355-2421 | that cut is the greedy one: all that fits, else the text before the last space that still has a fitting text before it, else the longest fitting text |
| `LineWrapping.GreedyIsUnique` | tools/fds/optionparser.h:2355-2421 | there is only one greedy cut |
| `LineWrapping.WrapRejoins` | tools/fds/optionparser.h:2355-2423 | rejoined with the one space dropped at each split at a space, the pieces are the text |
| `LineWrapping.WrapIsGreedy` | tools/fds/optionparser.h:2355-2423 | every piece starts and ends on a character boundary of the text, is at most as wide as the column, and is the greedy choice for the rest of the text |
| `WrapQueue.LineWrapper.constructor` | tools/fds/optionparser.h:2434-2439 | an empty ring; a column narrower than 2 counts as 2 |
| `WrapQueue.LineWrapper.BufEmpty` | tools/fds/optionparser.h:2259-2262 | the index test says whether the queue is empty |
| `WrapQueue.LineWrapper.BufFull` | tools/fds/optionparser.h:2264-2267 | the index test says whether it holds 15 lines |
| `WrapQueue.LineWrapper.BufStore` | tools/fds/optionparser.h:2269-2274 | the line joins the end of the queue |
| `WrapQueue.LineWrapper.BufNext` | tools/fds/optionparser.h:2276-2280 | the oldest line leaves the queue and is the one to read |
| `WrapQueue.LineWrapper.WriteOneLine` | tools/fds/optionparser.h:2297-2313 | writes the oldest line, on a new indented line if something was written before |
| `WrapQueue.LineWrapper.Output` | tools/fds/optionparser.h:2286-2292 | queues a line, writing the oldest first if the ring is full |
| `WrapQueue.LineWrapper.Process` | tools/fds/optionparser.h:2351-2426 | of the queued lines and the new pieces, those the ring of 15 has no room for are written, but at least one if there is any, and the others stay queued in order; for x >= 0 the lines written appear one per screen line, all but the first behind x spaces |
| `WrapQueue.LineWrapper.Flush` | tools/fds/optionparser.h:2321-2331 | writes all queued lines in order and leaves the queue empty; for x >= 0 every line appears on a screen line of its own behind x spaces, and the last one is ended |
| `WrapQueue.FlushShows` | tools/fds/optionparser.h:2316-2331 | the writes of a flush, split at the newlines, are the queued lines, each behind x spaces, and an empty rest |
| `WrapQueue.RunConserves` | tools/fds/optionparser.h:2225-2440 | over any run of process and flush, the lines written and then those queued are all pieces of all texts, each once and in order; the ring never holds more than 15 |
| `WrapQueue.Run` | tools/fds/optionparser.h:2225-2440 | the same for the object itself; after a final flush everything is written |
| `LineParts.SplitAt` | tools/fds/optionparser.h:1928-1929 | the part that starts at a position is the one with as many separators before it |
| `LineParts.SplitJoined` | tools/fds/optionparser.h:1928-1929 | splitting undoes joining: parts without the separator, written with it in between, are found again |
| `LineParts.WrittenRow` | tools/fds/optionparser.h:1928-1947 | cells of lines written with bytes 9 between cells and bytes 11 between lines make a row with exactly these cells and lines |
| `LineParts.GridIndex` | tools/fds/optionparser.h:1936-1947 | columns times lines parts, the k-th in line k / columns and column k % columns |
| `LineParts.StartIsPart` | tools/fds/optionparser.h:2102-2154 | a part that starts at a position is the grid's part in the line and column counted up to there |
| `LineParts.EndCountsLines` | tools/fds/optionparser.h:2123-2142 | at the end of a cell all its lines have been counted |
| `LineParts.MaxLineIsHeight` | tools/fds/optionparser.h:2106-2108 | the greatest line met by the first scan is the last line of the grid |
| `PartIterator.DecodeOn` | tools/fds/optionparser.h:1974-1986 | the part iterator's decoder reads the same character: its last byte and its code point |
| `PartIterator.Measure` | tools/fds/optionparser.h:1968-1991 | the bytes of a part up to its separator, and its screen width |
| `PartIterator.LinePartIterator.NextRow` | tools/fds/optionparser.h:2039-2065 | moves from row to row of the help texts split at newlines, and says when there is none |
| `PartIterator.WrittenText` | tools/fds/optionparser.h:2039-2065 | rows written with bytes 10 in between are the rows found |
| `PartIterator.LinePartIterator.RestartRow` | tools/fds/optionparser.h:2070-2080 | back to the state before the first part of the row |
| `PartIterator.LinePartIterator.Next` | tools/fds/optionparser.h:2089-2155 | moves to the next part in line-major order; false behind the last part, and from then on |
| `PartIterator.ReturnedIsPart` | tools/fds/optionparser.h:2110-2121 | what stands at the pointer is the grid's part, or the padding of a cell with fewer lines |
| `PartIterator.RowParts` | tools/fds/optionparser.h:2070-2155 | repeated calls return exactly the row split on tabs, split on vertical tabs, transposed and padded, and then false |
| `ColumnLayout.Widen` | tools/fds/optionparser.h:2483-2493 | a part widens its column unless it is overlong or belongs to a row without separators |
| `ColumnLayout.WidestIsGreatest` | tools/fds/optionparser.h:2486-2492 | a column is as wide as the widest part that counts |
| `ColumnLayout.ItemsOfRow` | tools/fds/optionparser.h:2480-2492 | the parts of a row as the layout sees them: column and width of each, none of which counts if it is the only one |
| `ColumnLayout.LastIsLast` | tools/fds/optionparser.h:2483-2485 | the last column is the greatest, of the first eight, that any part is in |
| `ColumnLayout.TotalsAligned` | tools/fds/optionparser.h:2519-2525 | for every threshold, the sums of column widths leave room for every part that counts and no more than one of them needs |
| `ColumnLayout.MeasureTable` | tools/fds/optionparser.h:2474-2495 | one pass over all rows gives the last column and the widths of all columns |
| `ColumnLayout.SumLeft` | tools/fds/optionparser.h:2508-2514 | the width of the columns left of the last one, and the widest of them |
| `ColumnLayout.ThresholdFalls` | tools/fds/optionparser.h:2509-2516 | while the columns do not fit, the threshold strictly falls |
| `ColumnLayout.ColumnWidths` | tools/fds/optionparser.h:2472-2516 | the loop ends for every table, with columns that fit; of all thresholds up to 10000 exactly those up to the final one would do, so no part is ignored without need |
| `ColumnLayout.LayOut` | tools/fds/optionparser.h:2450-2525 | with the guards on the width: the first tab stop is 0, every next one leaves room for each part of the column that counts and no more than one of them needs, up to the last column any part is in; what is left of the screen is never negative; of all thresholds up to 10000 exactly those up to the final one would do |

## Left out

- Error messages: the `msg` flag of check functions, the writer classes and all printing; check functions are functions of the option's name and argument, and what the wrapper writes is a sequence of writes.
- Whether an argument is separate is known from where it came from; the original compares its pointer with `args[1]`, which could also hold for an attached argument only if strings overlap in memory.
- Byte 0xFF in help texts: the decoder shifts by an undefined amount there, so the byte type excludes it.
- Integer widths outside the places where the code guards them (option counts, operation ids, 32-bit results): indices, widths, sequence numbers and counters are unbounded; signed overflow in the server's arithmetic, undefined in C++, wraps around.
- ArgParser.CountAndParseBoth: says nothing about 2^31 - 1 options or more in both vectors together, because the first one can then fill every slot and the second parse searches for a free one behind the end of the buffer.
- `prev`, `prevwrap`, `nextwrap`, `type` and the conversion operators of options other than the test for NULL: single reads of a link or a field.
- The MSVC replacement of `__builtin_clz`, and `Parser` and `Stats` constructors that only call `parse` and `add`.
- `printUsage` beyond column widths and tab stops, moving from table to table, and the cursor position that `indent` keeps: page layout has no clean law, since the cursor is not reset when the wanted column is 0.
- `SkipList::insert` and `remove`: the first does not compile and does not keep the tails, the second is empty; `newLevel` and its random numbers are any height in 1..maxHeight; deletion itself is the visit of each node.
- Reading numbers, addresses and ids from strings, the locator setters, signals and participant creation in `server.cpp`: parameters, or not part of this model.
- Time-outs, history depth and matching of the example's publishers and subscribers: every published sample stays available, and a take may fail at any time; a call that never finds its answer just stays waiting.
- Generated types, the other examples, `Domain.h`, `fastdds.py` and `mapableKey.h`: serialization of fields, declarations, configuration, input and output, and the comparison of two 16-byte keys.
