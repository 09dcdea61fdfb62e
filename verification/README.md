# A model of the switch-chassis command-line client

The client turns typed commands into JSON requests and prints the MessagePack
replies. This project models the parts of it that compute: the generator of the
keyword table and the lookup of abbreviations, the printing and reading of
slot/module/port lists, the incremental request builders, the rule commands, the
reply walker, the tab-completion generator and the banner painter. Everything is
modelled for all inputs; the methods follow the loops and the in-place updates of the
C and Python code, and each is proved against a function or predicate about which the
lemmas then speak.

| module | models |
|---|---|
| `Keywords`, `BnfParser`, `Lookup` | `bnf_parser.py` (keyword table) and `lookup.c.footer` |
| `Text` | the C library functions the client leans on: `%d`, `atoi`, `sscanf("%d")`, `strsep`, padding |
| `MemberList`, `ListParser`, `SmpText`, `SmpPattern`, `SmpReads` | the mask printers of `cli_trans.c`, the list readers of `lexer.l` and its pattern for slot/module/port texts; `SmpReads` says what every text of the pattern is read as |
| `JsonTokens`, `JsonBuilder`, `JsonText`, `RpcJson`, `CommandJson` | `rpc_common.c` and the request globals of `parser.y.footer`; `JsonTokens` holds the independent reader, `JsonText` the notation character by character and the reading of numbers |
| `ClassCommand` | the `ADD RULE` and `DELETE RULE` commands of `parser.y.footer` with their class entries |
| `ReplyWalker`, `ReplyTables`, `ReplyKinds`, `ReplyDomains`, `ReplyLeftovers`, `ReplyCells`, `ReplyReader` | `unpack_by_type`, the printers and `process_show_cmds` of `cli_trans.c`; `ReplyDomains` and `ReplyLeftovers` say exactly which replies are consumed, `ReplyCells` reads the printed text back, `ReplyReader` holds the reader that works in place |
| `RuleCommand` | the `SET RULE` commands of `parser.y.footer` with their list of output ports |
| `Completion` | `readline.c` |
| `Banner` | `banner.c` |

## Conventions

- A 64-bit mask word is a sequence of 64 booleans; element k is the bit that
  `1ull << k` selects. A port mask is an array of four words. The TCP flag word is
  32 booleans.
- A C string is a `string` without its NUL. `%lld` and `%ld` of an unsigned value
  print the signed reading of its 64 bits; a `long long` passed as `int` keeps its
  low 32 bits, read as signed (`Text.Int32`).
- Constants whose values are in headers outside the repository are parameters
  (`SLOT_NUMBER_PER_SYSTEM`, `SLOT_BIT_MASK`, `MODULE_BIT_MASK`, `KEY_UD`,
  `KEY_RANGE`, the reply kinds, the limits on rule and port ids). `MAX_PORT_NUMBER` is 128, the ports of the two words
  that `*` fills, and `MODULE_BACK` is 6, the module whose letter is `b`.
- `variable_match_check` and the decoders of the specifications that read cells of
  their own are function values about which nothing is assumed, except that a
  decoder does not move the reader backwards.
- A reply is a stream of tags and string bytes. Reading a tag where a byte stands, or
  past the end, sets the reader's error.

## What the proofs found

- A run of slots is printed as a range and a slot above 9 with two digits, and the
  reader of slots skips every element that is not one character long. A slot mask
  therefore comes back exactly when its slots are at most 9 and have no neighbours
  (`SlotsReadBackIff`), a module mask exactly when it holds only modules 4 to 6
  without neighbours (`ModulesReadBackIff`). Port masks always come back if they hold
  a port (`PortRoundTrip`). The scanner's pattern wants a slot, a module and a port;
  the printed texts that match it are those with a slot and a port whose modules are
  letters without neighbours (`PrintedMatchesIff`).
- Of the slot lists that the pattern admits only the one-digit numbers count: longer
  numbers and ranges are skipped without a check (`SlotPartMeans`). A star sets all 64
  bits and is therefore refused unless the mask for slots or modules has all of them
  (`StarAdmittedIff`).
- The members printer remembers an open range by its first number, so a range cannot
  start at 0; its elements are the maximal runs exactly when 0 and 1 are not both
  members (`GappedIff`). It still denotes its mask (`ItemsDenote`).
- Closing with user data or ranges alone would leave out the outer list, and text with
  keys before values is not readable either: a command's text is readable exactly when
  some value or key came first and the order was legal (`CommandReadsBack`). The
  commands that take class entries write the rule id first, so with any list of clauses
  they are readable (`RuleReadable`).
- The guard on ranges admits 33 of them (`RangesIndexed`).
- A keyword that the generator lists twice, which it does not check for its built-in
  words, gets a first row that asks for the whole word and a second that nothing
  matches. Every row has its shortest length exactly when no word is repeated
  (`ShortestIffDistinct`), and every unambiguous abbreviation is still found exactly
  when the repeated words had none to lose (`AllResolveIff`). Those that a repeated word
  has are lost (`RepeatedLosesAbbreviations`): should the grammar name `size`, which is
  built in, `siz` would find nothing (`SizeListedTwice`).
- A map key with `%l`, `%o`, `%S` or `%d` is shown with the value 0 and its own value is
  left in the stream; a link key also leaves the link flag down
  (`InterpretedKeyLeavesValue`). What is left over is then walked in place of later
  values, as keys or as values. A value or a whole headless reply whose strings hold no
  other specification is still consumed exactly if and only if no string key of it, at
  any depth, has one (`ValueConsumedIff`, `PlainReplyConsumedIff`).
- A cell under a sparse head with one of these specifications is left unread
  (`SparseCellConsumedIff`); under such a head of a table a cell is consumed exactly when
  it is not an array with elements (`HeadedCellConsumedIff`).
- An element of a domain without heads is walked as often as its tag counts: an array as
  often as it has elements, a string as it has bytes, a number as it says. Whatever
  follows, it is consumed exactly if and only if it is a number or counts at most one
  (`ElementConsumedIff`); later walks would take the values after it. A reply without
  percent signs is consumed exactly if and only if every domain is an array of a title
  and such elements (`DomainedReplyConsumedIff`).
- A range of output ports given the wrong way round is accepted and adds no port
  (`IntervalHolds`), unlike a range of the range actions, which is refused. A rule that
  forwards to no port is still told apart from one that drops (`SetRule`), and an
  omitted vlan from a given one, since vlan ids start at 2 (`DecodeNumbers`). The array
  of ports is written past its end exactly when the ports before the first refused item
  do not fit it, since the code does not check (`AddItems`, `SetRule`).
- A printed number determines the value (`NumberShown`); a printed string does so only
  up to the blanks at its end, which the padding hides (`StringCellsAlike`).
- A speed cell shows dashes not only when the link is down but also for speed code 0
  (`DashedIff`).
- Completion ends at the first row that the line already fills, even if a later row
  would offer another word: a word is returned from the rows exactly when a row before
  the first filled one offers it (`Complete`, `FilledRowHides`), so after `show ` a row
  `show` hides `show system` (`ShowHidesShowSystem`).

## Model

| member | source | states |
|---|---|---|
| Keywords.UpperAllInjective | client/cli/bnf_parser.py:110-113 | distinct keywords get distinct token macros |
| Keywords.MacroName | client/cli/bnf_parser.py:110-113 | a macro name has no small letter, keeps digits and underscores, and is its keyword again in lower case |
| Keywords.LessIff | client/cli/bnf_parser.py:269 | words are ordered by the first place where they differ, a beginning before what goes on |
| Keywords.SortedOrdered | client/cli/bnf_parser.py:269 | sorting puts any words in order and keeps each as often as it is there |
| Keywords.LcpSandwich | client/cli/bnf_parser.py:276-285 | in sorted order no word shares a longer prefix than the neighbours do |
| Keywords.MatchLengthUnique | client/cli/bnf_parser.py:272-301 | the globally shortest unambiguous length of a keyword is unique |
| Keywords.ResolvesUnique | client/cli/lookup.c.footer:22-39 | an input resolves to at most one keyword |
| BnfParser.NeighboursDecide | client/cli/bnf_parser.py:277-298 | for a word that differs from its two sorted neighbours, comparing with them decides whether a prefix is shared with any word |
| BnfParser.NeighbourMatchLength | client/cli/bnf_parser.py:287-301 | the value carried by the pass is the shortest length at which the word stops abbreviating another |
| BnfParser.BucketMatchLength | client/cli/bnf_parser.py:143-301 | a length found within one letter's list is right among the keywords of all letters |
| BnfParser.FirstDifference | client/cli/bnf_parser.py:283-285 | the inner loop finds the longest common prefix |
| BnfParser.CopiesAdjacent | client/cli/bnf_parser.py:269 | in sorted order a word is repeated exactly when a neighbour is the same word |
| BnfParser.EmitLetter | client/cli/bnf_parser.py:272-301 | one pass over sorted words emits every word once listed with its shortest unambiguous length, the first of several copies with its whole length, the others with one more |
| BnfParser.Generator.GetPureWord | client/cli/bnf_parser.py:38-43 | the word is added once, to the list of its letter, and nothing else changes |
| BnfParser.Generator.CollectTokens | client/cli/bnf_parser.py:93-99 | all words of the grammar are collected, without repetition |
| BnfParser.Generator.GenLookup | client/cli/bnf_parser.py:110-311 | the table holds exactly the collected and built-in words, as often as they are listed, in order over all letters, each row with its keyword in capitals and its length, then the terminator |
| BnfParser.ShortestIffDistinct | client/cli/bnf_parser.py:275-301 | every row of a table has its keyword's globally shortest length exactly when no keyword is repeated |
| Lookup.StrMatch | client/cli/lookup.c.footer:2-20 | 0 exactly for a case-insensitive prefix of at least the minimum length; 2 exactly when the input goes on after the name |
| Lookup.NothingFurther | client/cli/lookup.c.footer:33-34 | when the break is taken no entry from here on accepts the input |
| Lookup.Scan | client/cli/lookup.c.footer:22-39 | the early-exit scan finds what a scan of the whole table finds |
| Lookup.CaseFolds | client/cli/lookup.c.footer:2-20 | inputs that differ in letter case find the same entry |
| Lookup.FindToken | client/cli/lookup.c.footer:22-39 | the token of the entry that a full scan finds, or none |
| Lookup.BackTokenStr | client/cli/lookup.c.footer:41-58 | the name of the entry that a full scan finds, or none |
| Lookup.TableScannable | client/cli/bnf_parser.py:143-311 | a generated table, repeated words included, has no real entry of length 0 and is in order of initial letters |
| Lookup.MatchesIffResolves | client/cli/lookup.c.footer:2-20 | an entry accepts exactly the inputs that, in any case, spell its keyword or begin it and no other |
| Lookup.RowMatchesIff | client/cli/lookup.c.footer:2-20 | the first row of a keyword accepts exactly the inputs that select it, further rows of it nothing |
| Lookup.TableFinds | client/cli/lookup.c.footer:22-39 | on any generated table an input finds a keyword if and only if it resolves to it and, for a repeated keyword, spells it out |
| Lookup.AbbreviationsResolve | client/cli/lookup.c.footer:22-39 | with distinct keywords an input finds a keyword if and only if it resolves to it among all keywords |
| Lookup.AllResolveIff | client/cli/lookup.c.footer:22-39 | every resolving input finds its keyword exactly when each repeated keyword shares all its proper beginnings with other keywords |
| Lookup.RepeatedLosesAbbreviations | client/cli/bnf_parser.py:287-301 | an abbreviation that resolves to a repeated word, without spelling it out, finds nothing in the table |
| Lookup.SizeListedTwice | client/cli/bnf_parser.py:233 | with `size` collected beside the built-in one, `siz` resolves to it among all keywords and the lookup returns no token |
| Lookup.CompileAndFind | client/cli/bnf_parser.py:80-311 | generator and lookup composed, for any collected and built-in words: the capitals of the one keyword the input selects, none if there is none |
| MemberList.SprintMembersFromMask | client/cli/cli_trans.c:321-346 | the loop prints the list of elements of the mask, including the look at bit max |
| MemberList.CheckPortInPorts | client/cli/cli_trans.c:348-366 | the bit of ports 0 to 128, -1 outside |
| MemberList.SprintPortsFromMask | client/cli/cli_trans.c:369-394 | the loop prints the list of elements of ports 1 to 128, including the look at bit 0 of word 2 |
| MemberList.PrintingTurns | client/cli/cli_trans.c:374-388 | each turn keeps what is printed and what remains together the whole list |
| MemberList.ItemsDenote | client/cli/cli_trans.c:321-394 | the printed elements cover exactly the members, for every mask of either printer |
| MemberList.ItemsCanonical | client/cli/cli_trans.c:321-394 | elements ascend, start at members and leave gaps; only a run from 0 is broken |
| MemberList.GappedIff | client/cli/cli_trans.c:321-346 | the elements are the maximal runs exactly when members 0 and 1 are not both printed |
| MemberList.AloneIff | client/cli/cli_trans.c:321-346 | which members are printed by themselves |
| ListParser.InsertPortToP | client/cli/lexer.l:80-96 | ports 1 to 128 set exactly their bit, others nothing and -1 |
| ListParser.InsertRange | client/cli/lexer.l:168-171 | exactly the ports of the range are added |
| ListParser.AddPortElement | client/cli/lexer.l:160-189 | an element is refused exactly when it is not a range or number in 1..128 nor a star; otherwise its ports are added |
| ListParser.Str2MapPorts | client/cli/lexer.l:141-193 | succeeds exactly when every element is acceptable; the mask is the union of the elements before the first refused one |
| ListParser.AtoiOneChar | client/cli/lexer.l:129 | a one-character element is its digit or 0 |
| Text.ScanDigits | client/cli/lexer.l:160-181 | a sign or none and digits are read as their number, up to the first other character |
| Text.ScanBlanks | client/cli/lexer.l:160-181 | blanks before a number are skipped |
| Text.ScanNothing | client/cli/lexer.l:160-181 | without a digit after blanks and sign there is no number |
| Text.ScanDecInt | client/cli/lexer.l:160-181 | a number printed with `%d` is read back whatever other text follows |
| ListParser.AddSlotElement | client/cli/lexer.l:117-134 | letters, star and slot numbers set their bits; other single characters are refused; longer elements are skipped |
| ListParser.Str2MapSlotModule | client/cli/lexer.l:99-138 | succeeds exactly when every element is acceptable; the word is the union of the elements before the first refused one |
| SmpText.PortListUnion | client/cli/lexer.l:141-193 | any list of numbers and ranges is accepted exactly when all lie in 1..128 the right way round, and names exactly the ports covered, whatever the order or overlap |
| SmpText.PortTextReads | client/cli/cli_trans.c:369-394 | the text of a mask is accepted exactly when the mask has a port, and names exactly its ports |
| SmpText.PortTextInjective | client/cli/cli_trans.c:369-394 | masks that print alike agree on all 128 ports |
| SmpText.PortRoundTrip | client/cli/lexer.l:141-193 | parse after print gives words 0 and 1 back and clears words 2 and 3 |
| SmpText.SlotTextReads | client/cli/lexer.l:99-138 | reading a slot text succeeds and keeps exactly the one-digit slots that stand alone |
| SmpText.SlotsReadBackIff | client/cli/lexer.l:99-138 | a slot mask comes back exactly when its slots are one digit long and have no neighbours |
| SmpText.LetterModules | client/cli/cli_trans.c:418-425 | digits 4, 5, 6 become r, f, b and nothing else changes |
| SmpText.ModulesReadBackIff | client/cli/cli_trans.c:417-425 | a module mask comes back exactly when it holds only modules 4 to 6 without neighbours |
| SmpText.PrintSmpBufNew | client/cli/cli_trans.c:409-434 | three lists between slashes, a star for full ports |
| SmpText.SplitSmp | client/cli/lexer.l:301-303 | cutting the printed text at slashes gives back its three parts |
| SmpText.PortPartReads | client/cli/cli_trans.c:396-432 | the port part, star included, is accepted exactly when there is a port and names exactly the ports |
| SmpText.Smps.Scan | client/cli/lexer.l:304-320 | which part is refused, which fields are zeroed and which are left as they were |
| SmpText.Smps.Lex | client/cli/lexer.l:295-321 | the fields hold the unions of their parts exactly when all three are acceptable |
| SmpPattern.SlotsMatchIff | client/cli/lexer.l:257-263 | a printed slot list matches the pattern of an element list exactly when it shows some slot |
| SmpPattern.ModulesMatchIff | client/cli/lexer.l:258-260 | a printed module list matches the pattern of module letters exactly when it is nonempty and holds only modules 4 to 6 without neighbours |
| SmpPattern.PrintedMatchesIff | client/cli/lexer.l:257-267 | a printed text matches the scanner's pattern exactly when it shows a slot and a port and its modules are letters without neighbours |
| SmpPattern.SmpRoundTrip | client/cli/lexer.l:295-321 | a printed text matches the pattern, is accepted and gives back slots, modules and the port words 0 and 1 exactly for readable masks |
| SmpReads.PortPartMeans | client/cli/lexer.l:141-193 | any port list of the pattern is accepted exactly when its numbers and ranges lie in 1..128 the right way round, and names exactly their ports, a star all |
| SmpReads.SlotPartMeans | client/cli/lexer.l:99-138 | any slot list of the pattern is accepted exactly when its one-digit numbers are slots of the system, and sets exactly the bits below them |
| SmpReads.StarAdmittedIff | client/cli/lexer.l:304-313 | a star for slots or modules is accepted exactly when the mask has all 64 bits |
| SmpReads.ModulePartOkIff | client/cli/lexer.l:99-138 | any module list of the pattern is accepted exactly when its modules are in the mask; r, f and b in either case are modules 4, 5 and 6, a star sets every bit |
| SmpReads.CaseOfModules | client/cli/lexer.l:118-123 | a module list and its lower-case form name the same modules |
| SmpReads.LexMatching | client/cli/lexer.l:295-321 | on any text of the pattern: which part is refused, and what the words hold when none is, in terms of the numbers, ranges, letters and stars of the text |
| SmpReads.SlotTextNames | client/cli/cli_trans.c:416 | a printed slot list names exactly the set slots of the system |
| SmpReads.PortPartNames | client/cli/cli_trans.c:409-434 | a printed port part names exactly the ports of the mask and is a star exactly for all 128 |
| JsonBuilder.RequestReadsBack | client/rpc/rpc_common.c:52-196 | for every call sequence the output is read back as its values, pairs and side lists exactly when a call was made and the order was values, then keys each with a value |
| JsonBuilder.ReadAfterPair | client/rpc/rpc_common.c:101-182 | inside the map the reader finds the remaining pairs, or fails at the first call out of order |
| JsonBuilder.RequestTokens | client/rpc/rpc_common.c:52-196 | a legal run writes exactly its list, with brackets, commas and colons nowhere else; no call writes nothing |
| JsonBuilder.RequestTextReadsBack | client/rpc/rpc_common.c:52-196 | the same on the characters, for quote-free strings and bare keys without punctuation |
| JsonText.RequestText | client/rpc/rpc_common.c:52-196 | the text of a legal run, to the character: values between commas in brackets, pairs in braces |
| JsonBuilder.ReadClosingList | client/cli/parser.y.footer:3478-3515 | closing after values puts all side lists into one map that ends the list |
| JsonBuilder.ReadClosingMap | client/cli/parser.y.footer:3478-3515 | closing inside the map adds one entry a nonempty side list, in order |
| RpcJson.Request.Separate | client/rpc/rpc_common.c:63-69 | the list bracket first, a comma later unless a key is waiting |
| RpcJson.Request.ConvertVal | client/rpc/rpc_common.c:52-76 | appends the value's tokens and leaves the flags of a value |
| RpcJson.Request.ConvertSpecStr | client/rpc/rpc_common.c:78-99 | appends the quoted string's tokens and leaves the flags of a value |
| RpcJson.Request.ConvertStrKey | client/rpc/rpc_common.c:101-128 | appends the bare key's tokens and leaves the flags of a key |
| RpcJson.Request.ConvertIntKey | client/rpc/rpc_common.c:130-154 | appends the number key's tokens and leaves the flags of a key |
| RpcJson.Request.ConvertSpecKey | client/rpc/rpc_common.c:157-182 | appends the quoted key's tokens and leaves the flags of a key |
| RpcJson.Request.Close | client/rpc/rpc_common.c:184-196 | closes the map and the list if they are open |
| RpcJson.ArgumentBack | client/rpc/rpc_common.c:52-170 | the number or string that a call writes is read back as its argument |
| RpcJson.Build | client/rpc/rpc_common.c:52-196 | any run of calls and the close write the run's output; in legal order that is the list of the values and the map of the pairs |
| RpcJson.BuildAndRead | client/rpc/rpc_common.c:52-196 | what is built reads back exactly when the order was legal |
| RpcJson.ValuesDistinct | client/rpc/rpc_common.c:60 | different 64-bit values are written differently, although as signed |
| CommandJson.Command.Reset | client/cli/parser.y.footer:3177-3202 | empties the request, the side lists, the range count and the flags |
| CommandJson.Command.ConvertValMask | client/cli/parser.y.footer:3284-3310 | a pair of a value and a mask is written as one value |
| CommandJson.Command.ConvertSpecValMask | client/cli/parser.y.footer:3312-3332 | a pair of quoted strings is written as one value |
| CommandJson.Command.ConvertUdData | client/cli/parser.y.footer:3248-3263 | the user data buffer grows by exactly one item |
| CommandJson.Command.ConvertRangeData | client/cli/parser.y.footer:3265-3280 | the range buffer grows by exactly one item, with the present count as index |
| CommandJson.Command.UserDataAction | client/cli/parser.y.footer:2788-2801 | refused exactly above 32 bits, else one item with the arguments as ints |
| CommandJson.DataBack | client/cli/parser.y.footer:3248-3263 | number, data and mask of a user data item are read from their own places |
| CommandJson.RangeBack | client/cli/parser.y.footer:3265-3280 | index, kind, bounds and inversion of a range item are read from their own places |
| Text.Int32Is | client/cli/parser.y.footer:3248-3280 | a number passed as `int` keeps its low 32 bits, read as signed |
| CommandJson.Command.RangeAction | client/cli/parser.y.footer:2504-2543 | accepted exactly for a range in order within its limits while fewer than 33 are held |
| CommandJson.Command.CloseSide | client/cli/parser.y.footer:3480-3491 | what one side list adds to the closing text |
| CommandJson.Command.CloseJson | client/cli/parser.y.footer:3478-3515 | appends exactly the closing text of the flags and side lists |
| CommandJson.Command.TcpFlags | client/cli/parser.y.footer:2653-2707 | after any flag lists since the reset, each flag is as its last mention left it and no other bit is set |
| CommandJson.OneMoreMention | client/cli/parser.y.footer:2653-2702 | one mention decides its own flag and no other |
| CommandJson.FlagsWritten | client/cli/parser.y.footer:2644-2650 | the number written for the flags is that of their last mentions |
| CommandJson.FlagsReadable | client/cli/parser.y.footer:2653-2702 | the number tells of each flag whether its last mention set it |
| CommandJson.ApplyFlags | client/cli/parser.y.footer:2644-2650 | a flag list writes its key and the word of all mentions so far |
| CommandJson.RangesIndexed | client/cli/parser.y.footer:2513-2522 | range item i carries index i and there are at most 33 |
| CommandJson.CommandElementsAre | client/cli/parser.y.footer:3478-3515 | closing adds exactly one user data entry and one range entry, with the items in order |
| CommandJson.CommandReadsBack | client/cli/parser.y.footer:3248-3515 | a command's text reads back as its values, pairs and side lists exactly when a value or key was written and the order was legal |
| CommandJson.BuildCommand | client/cli/parser.y.footer:3177-3515 | reset, parts and close write the command's output, or the command is given up at the first refused part |
| CommandJson.RunCommand | client/cli/parser.y.footer:3177-3515 | accepted exactly when every part is; the text then reads back as the command |
| ClassCommand.PairCallsLegal | client/cli/parser.y.footer:2352-2365 | keys each followed by a value are a legal order, and their pairs are read in it |
| ClassCommand.OneMoreClause | client/cli/parser.y.footer:2367-2850 | a clause adds its pair, its mentions, its user data or its range, and nothing else |
| ClassCommand.RulePartsDo | client/cli/parser.y.footer:2352-2365 | the parts of a command do what its rule id and clauses say |
| ClassCommand.RuleReadable | client/cli/parser.y.footer:545-554 | any list of clauses after a rule id is in legal order and read back as the id, the keyed pairs and the two side entries |
| ClassCommand.RuleDescribed | client/cli/parser.y.footer:2352-2850 | with keys apart from those of the side lists, the document gives back the id, every keyed field, and the user data and ranges with all their parts |
| ClassCommand.AddRule | client/cli/parser.y.footer:540-554 | refused exactly when the id or a clause is out of its limits; otherwise the text reads back as what the clauses say, and a reader of the fields gets the numbers of the command |
| RuleCommand.IntervalHolds | client/cli/parser.y.footer:2333-2340 | a range of output ports stands for exactly the ids between its ends in order, none if reversed |
| RuleCommand.PortsCovered | client/cli/parser.y.footer:2327-2348 | an accepted list names exactly the ports that some item covers |
| RuleCommand.PortList.AddItem | client/cli/parser.y.footer:2310-2340 | refused exactly when an id is out of 1 to the limit; past the end exactly when its ports have no room left; otherwise they are appended in order |
| RuleCommand.PortList.AddItems | client/cli/parser.y.footer:2327-2348 | past the end exactly when the ports before the first refused item do not fit the array; otherwise accepted exactly when all ids are in the limits; the array holds those ports, as far as they fit |
| RuleCommand.AcceptedIff | client/cli/parser.y.footer:2276-2325 | accepted exactly when rule, inport and output port ids lie in their limits and vlans in 2..4095 |
| RuleCommand.PutIds | client/cli/parser.y.footer:2276-2288 | rule id and inport are written exactly when both are in their limits |
| RuleCommand.PutVlans | client/cli/parser.y.footer:375-386 | the vlans are written exactly when all are in 2..4095 |
| RuleCommand.PutPorts | client/cli/parser.y.footer:628-632 | the count and then every port of the array are written in order |
| RuleCommand.DecodeNumbers | client/cli/parser.y.footer:606-659 | the six forms of the command are told apart by their numbers alone: ids, vlans and ports can be recovered |
| JsonText.NumberBack | client/cli/parser.y.footer:3342 | the signed text of a 64-bit value determines the value |
| RuleCommand.RuleReadsBack | client/cli/parser.y.footer:606-659 | a reader of the closed text of a rule gets the rule back |
| RuleCommand.SetRule | client/cli/parser.y.footer:606-659 | carried out exactly when every id is in its limits and the ports fit the array; then the text reads back as the rule with its expanded port list; the other outcomes are told apart |
| ReplyWalker.WalkValue | client/cli/cli_trans.c:800-886 | a value at any depth without percent signs in its string keys is consumed exactly and shown as rendered |
| ReplyCells.WalkShows | client/cli/cli_trans.c:800-886 | the text added for a plain value shows it: numbers and strings in their cells, captions indented by depth, parts in order |
| ReplyCells.NumberCellReads | client/cli/cli_trans.c:819 | a printed number is read back whatever follows its cell |
| ReplyCells.NumberShown | client/cli/cli_trans.c:819 | a text shows at most one number |
| ReplyCells.StringCellsAlike | client/cli/cli_trans.c:830 | strings shown by the same cell differ at most in blanks at their ends |
| ReplyWalker.WalkOneEntry | client/cli/cli_trans.c:853-881 | key and value of a map entry are consumed exactly, with string keys as captions |
| ReplyWalker.InterpretedKeyLeavesValue | client/cli/cli_trans.c:865-873 | a key with `%l`, `%o`, `%S` or `%d` shows the value 0, leaves its own value unread, and for `%l` the link down |
| ReplyWalker.EntryConsumedIff | client/cli/cli_trans.c:853-881 | an otherwise plain entry is consumed exactly when its key has none of these specifications |
| ReplyTables.ShowPlainRows | client/cli/cli_trans.c:888-903 | a reply of n plain rows is consumed whole, one line a row |
| ReplyTables.WalkCell | client/cli/cli_trans.c:98-198 | a cell under a head is consumed exactly, shown under the present link flag, and only numbers and strings of link columns set the flag |
| ReplyTables.HeadedCellConsumedIff | client/cli/cli_trans.c:800-852 | under an interpreting head a plain cell of any kind is consumed exactly when it is not an array with elements |
| ReplyTables.WalkTable | client/cli/cli_trans.c:939-948 | the rows are consumed exactly and every cell is shown with the flag before it |
| ReplyTables.LatestLinkDecides | client/cli/cli_trans.c:98-198 | that flag is the most recent link cell's in row-major order, or the initial one |
| ReplyTables.DashedIff | client/cli/cli_trans.c:122-198 | a number or string is dashed as duplex exactly when the link is down, as speed also for code 0, which every string counts as |
| ReplyCells.CellWords | client/cli/cli_trans.c:98-198 | the word read in a link, switch or duplex cell, by the number and the link flag |
| ReplyCells.SpeedReads | client/cli/cli_trans.c:122-183 | a speed cell of a link that is up reads as the gigabits of its code, nothing for other codes |
| ReplyCells.TitleAndSpec | client/cli/cli_trans.c:915-934 | a column name is its title, without a percent sign, and its specification |
| ReplyCells.HeadShown | client/cli/cli_trans.c:915-934 | a printed head shows the title alone in its column |
| ReplyCells.RuleIs | client/cli/cli_trans.c:936 | a rule is 76 dashes and the end of the line |
| ReplyTables.ReadAllHeads | client/cli/cli_trans.c:920-934 | the head row is consumed exactly; titles are printed and specifications kept by column |
| ReplyTables.TableConsumed | client/cli/cli_trans.c:905-951 | head and rows are consumed exactly; the flag stays for the next table |
| ReplyKinds.PlainReplyConsumed | client/cli/cli_trans.c:1171-1180 | a whole reply of either headless kind is consumed exactly |
| ReplyKinds.HeadedReplyConsumed | client/cli/cli_trans.c:1171-1184 | a whole reply with one head is consumed exactly and shown as its table |
| ReplyKinds.GroupedReplyConsumed | client/cli/cli_trans.c:1189-1200 | a whole reply in groups is consumed exactly and shown group by group, the link flag going on from group to group |
| ReplyKinds.SparseReplyConsumed | client/cli/cli_trans.c:1082-1157 | a whole sparse reply none of whose keys has a specification is consumed exactly, each value after its key's name |
| ReplyCells.CaptionOf | client/cli/cli_trans.c:1053-1071 | the caption of every key |
| ReplyKinds.SparseSpecLeavesValue | client/cli/cli_trans.c:1072-1073 | a sparse cell under `%l`, `%o`, `%S` or `%d` leaves its value unread |
| ReplyKinds.SparseCellConsumedIff | client/cli/cli_trans.c:1072-1077 | a sparse cell with a plain value, under no head or one of these, is consumed exactly when there is no head |
| ReplyDomains.ElementConsumed | client/cli/cli_trans.c:1013-1019 | an element that is a number or counts at most one is consumed exactly and shown as often as its tag counts |
| ReplyCells.NumberRepeated | client/cli/cli_trans.c:1013-1019 | a number among the elements is shown once for each unit of its low 32 bits |
| ReplyDomains.ElementConsumedIff | client/cli/cli_trans.c:1013-1019 | a plain element of any kind, whatever follows it, is consumed exactly if and only if it is a number or counts at most one |
| ReplyDomains.DomainConsumed | client/cli/cli_trans.c:1000-1026 | a domain of a plain title and such elements is consumed exactly, with its rules only around elements |
| ReplyDomains.DomainedReplyConsumed | client/cli/cli_trans.c:1201-1204 | a whole reply of such domains is consumed exactly and shown domain by domain |
| ReplyDomains.DomainedReplyConsumedIff | client/cli/cli_trans.c:994-1029 | a whole reply without percent signs is consumed exactly if and only if every value of it is such a domain |
| ReplyLeftovers.LeftOne | client/cli/cli_trans.c:800-886 | walking a value leaves a list of whole values unread: those after it exactly when it is plain, more otherwise |
| ReplyLeftovers.ValueConsumedIff | client/cli/cli_trans.c:853-881 | a value with no specifications but the interpreting ones is consumed exactly if and only if none of its string keys has one, and never in error |
| ReplyLeftovers.PlainReplyConsumedIff | client/cli/cli_trans.c:888-903 | the same for a whole reply of rows of either headless kind |
| ReplyReader.Reader.UnpackSpecVal | client/cli/cli_trans.c:745-798 | on any stream, the specified step of the walk |
| ReplyReader.Reader.UnpackByType | client/cli/cli_trans.c:800-886 | on any stream, well formed or not, the reader walks as specified and ends |
| ReplyReader.Reader.UnpackEntry | client/cli/cli_trans.c:853-880 | on any stream, one entry of the walk |
| ReplyReader.Reader.ShowSimpleDimensionalWithoutHead | client/cli/cli_trans.c:888-903 | on any stream, the rows of the walk, stopping at an error |
| ReplyReader.Reader.ReadHeadRow | client/cli/cli_trans.c:915-934 | on any stream, the head row, with titles or without, and empty specifications after an error |
| ReplyReader.Reader.UnpackRow | client/cli/cli_trans.c:940-946 | on any stream, one row cell by cell under its heads |
| ReplyReader.Reader.ShowSimpleDimensionalWithPrintHead | client/cli/cli_trans.c:905-951 | on any stream, head row, rule and rows |
| ReplyReader.Reader.UnpackNamed | client/cli/cli_trans.c:865-880 | on any stream, the part of an entry after its string key |
| ReplyReader.Reader.ShowMulDimensionalWithNotPrintHead | client/cli/cli_trans.c:953-992 | on any stream, one group: heads not printed, rows between rules |
| ReplyReader.Reader.ShowMulDimensionalWithoutHead | client/cli/cli_trans.c:994-1029 | on any stream, the domains, with every element walked as often as its tag counts |
| ReplyReader.Reader.ShowSimpleDimensionalWithSparseHead | client/cli/cli_trans.c:1082-1157 | on any stream, the sparse rows |
| ReplyReader.Reader.ProcessShowCmds | client/cli/cli_trans.c:1160-1208 | on any stream, the printer of the reply's kind; nothing for other kinds |
| Completion.Generator.GetHistoryMatchedNumber | client/cli/readline.c:48-87 | all words are counted exactly when every word fits the row; at_end exactly when then the last word is unfinished |
| Completion.AllCounted | client/cli/readline.c:56-85 | the count reaches the number of words exactly when every word fits, although a variable counts only after words that all did |
| Completion.GetHistoryNumber | client/cli/readline.c:11-37 | the loop over the line collects its words |
| Completion.WordsOfLaid | client/cli/readline.c:26-33 | words laid out with any blanks around them come back in order |
| Completion.LineIsLaid | client/cli/readline.c:26-33 | every line is its words, which hold no blank, with blanks around them |
| Completion.ExtendsIff | client/cli/readline.c:162 | a token extends the text when it begins with its letters in either case |
| Completion.VariableIff | client/cli/readline.c:39-46 | a word is a variable exactly when it does not begin with a small letter |
| Completion.Generator.IsNew | client/cli/readline.c:163-186 | a word is new exactly when it has not been returned and, for a variable under typed text, nothing returned begins with the text and at first no keyword does |
| Completion.Generator.ScanOneMore | client/cli/readline.c:121-206 | one more row keeps the returned words equal to the words offered by the rows scanned |
| Completion.Generator.Finish | client/cli/readline.c:125-154 | the row that the line fills gives its one last answer, later calls none |
| Completion.Generator.Candidate | client/cli/readline.c:162-199 | an offered word is given out unless it already was; a variable is hinted exactly when it is new and admissible |
| Completion.Generator.HintIff | client/cli/readline.c:156-196 | an empty hint is given exactly for an admissible variable at the typed place, when nothing returned and at first no keyword begins with the text |
| Completion.Generator.LastIff | client/cli/readline.c:125-149 | the one answer for a filled row: none, the inside of the brackets, or empty, exactly as its last word and the typed text decide |
| Completion.Generator.TryRow | client/cli/readline.c:122-202 | one turn answers, ends or passes over exactly as the row calls for, and the scan's invariant is kept |
| Completion.Generator.OutcomeSound | client/cli/readline.c:125-199 | whatever a row calls for is empty or extends the typed text and comes from that row |
| Completion.Generator.Advance | client/cli/readline.c:121-208 | every row before the one acted upon called for nothing; answer and static variables are what that row calls for |
| Completion.Generator.Generate | client/cli/readline.c:89-209 | every answer is empty or extends the typed text; every answer is progress; NULL only at the end or at a filled row, and always after the last answer |
| Completion.OneMoreMatch | client/cli/readline.c:189-197 | the matches that are not empty stay the words taken from rows, with the last answer after them |
| Completion.Complete | client/cli/readline.c:211-216 | a completion ends with at most as many matches as rows, all sound; those not empty are first the distinct words of exactly the rows that offer one before the first filled row, then at most one answer for that row; an empty one only if some row admits the text or is filled |
| Completion.FilledRowHides | client/cli/readline.c:125-161 | a word that only rows after a filled one offer is not among the words returned |
| Completion.ShowHidesShowSystem | client/cli/readline.c:125-161 | after `show `, with rows `show` and `show system`, no word is returned |
| Completion.ShowSysGivesSystem | client/cli/readline.c:162-196 | `show sys` is completed to `system` |
| Banner.Banset | client/cli/banner.c:354-361 | all columns but the last hold the character |
| Banner.Banfil | client/cli/banner.c:343-352 | seen from its offset, exactly the glyph's points are painted and nothing else changes |
| Banner.PaintBanner | client/cli/banner.c:326-341 | whatever the buffer held, afterwards a column is a point exactly when its glyph has it, for the first ten characters |
| Banner.OneMoreGlyph | client/cli/banner.c:335-340 | a glyph at the next offset extends the shown text by its character |
| Banner.TrimLine | client/cli/banner.c:368-373 | the printed line is the line without its trailing blanks; other lines stay |
| Banner.PrintBanner | client/cli/banner.c:363-376 | all seven lines without their trailing blanks, then an empty line |
| Banner.BannerMaker | client/cli/banner.c:378-384 | the printed lines are the trimmed points of the text and an empty line, independent of earlier banners |
| Banner.RestDoesNotShow | client/cli/banner.c:336 | characters after the tenth do not show |
| Banner.BannerPoint | client/cli/banner.c:326-352 | seven lines of 84 columns, eight a character for ten characters, a point where the glyph has one |
| Banner.TrimRightIs | client/cli/banner.c:369-372 | trimming removes all blanks at the end and nothing else |

## Left out

- Network, broker, database and `json2msgpack` calls, terminal output, confirmation prompts and file reads.
- The flex and bison engines, including which rule wins on a given text; the named C functions are modelled on the text handed to them.
- `add_name_table` and the help printing of `ahelp.c`.
- Uppercase first letters in the command grammar, for which `get_pure_word` computes an index outside the alphabet; words are lowercase keywords.
- The columns of the help table (`var_list`, `help_col_list`, `gen_ahelp_file`); the completion takes its tables as given.
- Fixed buffer sizes (80, 128 and 16 bytes), out-of-range `int` conversions of digit strings in `sscanf`, and all pointer safety.
- SmpText.PrintSmpBufNew: takes slot and module masks as 64-bit words; the narrowing to `int` on the way in is not modelled, and at most 61 slots are considered.
- The decoders of the specifications other than `%l`, `%o`, `%S` and `%d`: they are unknown functions on the reader.
- Which keys and limits the words of a class entry have: a clause of `ClassCommand` carries its own.
- Bin and ext payloads; for tags other than arrays, maps, strings and unsigned numbers the count read from a row's tag is 0.
- Reads past the heads of a table and past the names of sparse keys, which the code does not guard: they give the empty string.
- The `DELETE RULE a-b` loop, which reuses the request without a reset.
- RuleCommand.SetRule: what happens after the array of ports is written past its end (the outcome `PastEnd`), its size, which is not in the repository, and the narrowing of ids to `int`.
- The flag `int_key`, which the builders only clear.
- The glyph shapes of `ctbl`: the font is any table of 256 glyphs.
