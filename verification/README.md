# A verified model of the Linux kernel security suite

Two parts of the suite carry logic that can go wrong quietly: the whitelist of `netlog`, which
decides which connections are left out of the log, and the system call table monitor of
`the-drip-dry-carbonite`. This project models both in Dafny, with the constants and branches of the
C code, and proves what they are for. `dafny verify dfyconfig.toml` checks everything.

## The whitelist

- `Basics`, `CStrings`, `InetUtils`, `PortNumber`: optional values, C strings in memory, the address
  printers and recognisers, the port field in 32-bit arithmetic.
- `Connection`: the record (`executable[951]`, `ip[50]`, a port), the parser that fills it through
  loops over the arrays, and wildcard matching. The function `Parse` works on memory: a string, its
  terminator and whatever lies behind it, because the parser steps over the character that ended an
  IP field even when that is the terminator.
- `Grammar`: an independent definition of what a connection string means (its fields, with any
  choice of the optional brackets) and the theorem that the parser finds exactly that.
- `AddressText`: what the printed addresses say, read back from their characters.
- `AddressMatching`: the string written for a rule applies to the sockets of that rule only.
- `ConnectionStrings`, `ConfigText`, `WhitelistModel`: the list as a value, its invariant, the set of
  lookups it stands for, whole runs, reloading, order independence.
- `Netlog`: the imperative state, 150 entries on the heap and a 4096-byte text buffer that mirrors
  them, with the operations of `whitelist.c`, `proc_config.c` and `do_whitelist`.
- `Service`: arbitrary sequences of insertions, writes, reads and lookups, served by that state: what
  the list stands for, what becomes of the mirror, and which lists parse alike everywhere.
- `RoundTrip`: reading the configuration and writing it back, after runs and for every spelling.
- `Probes`: the pairing of the two probes on connect, and which connections they log.

## The monitor

- `Words`, `SuperFastHash`: 32-bit words with their bits, the hash as a loop, and counting bounds on
  how many inputs can share a hash.
- `HashByBits`: the hash once more, from bits and plain arithmetic with every amount written out, and
  the theorem that it is the same.
- `Kallsyms`: the search that fixes the hashed range.
- `MonitorModel`: the checker, its initialisation and the dispatcher as a state machine whose
  initialisation advances one assignment at a time.
- `MonitorRuns`: when the initialisation ends and how, what the monitor answers to before and after,
  and which calls it makes, over whole runs from module insertion on.
- `Monitor`: the static variables, the methods that update them, and whole runs of them, tied to the
  state machine and to the list of dumps.
- `TaskDumpList`, `TaskDumpSeqFile`: the linked list with its tail pointer and the report iterator.

## Conventions

A `char` stands for a byte; C's `char` is signed, which matters for non-digits in a port field and
for the last bytes of the hash. Signed 32-bit overflow in the port field wraps, as in a kernel built
without strict overflow. Each operation under a lock, each timer tick and each probe handler is
atomic; only the initialisation of the checker is interruptible. Executable paths, socket addresses,
the symbol list, the memory of the table and the processes of a snapshot are inputs.

Memory is explicit where the parser can read it. A configuration write copies its segments one after
the other into a 512-byte buffer on the stack; `stack` is the memory that starts at this buffer as
the write finds it, and each segment leaves its bytes there for the next. The only assumption is that
the memory goes on behind the buffer and ends in a NUL, so that no segment makes the parser run out
of it (`StackCallsStayInside`).

## Where the code and its documentation differ

The model follows the code.

- Brackets are documented as ignorable (netlog/readme.markdown:52). An IP field that ends a string
  needs its `>`: without it the parser takes what lies behind the terminator for the next field.
  `ParseMeetsGrammar` gives the exact condition, `UnclosedIpIsMisread` and `UnclosedIpExample` the
  failing family and a member of it.
- For the same reason a list may not come back when the text that was read is written again:
  `WriteBackOfSpellings` gives the exact condition on strings and memory, and
  `UnclosedRoundTripExample` a write that makes an open string a rule for port 22, while writing back
  what is then read makes it a rule for every port, whatever is on the stack.
- The opening `<` of an address shifts the window in which the parser looks for a colon.
  `BracketsMatterIff` says exactly when two spellings of a string parse differently,
  `LateColonExample` gives an input.
- Only the first 16 characters of an address without a colon are checked
  (netlog/src/inet_utils.c:316); `Grammar.AcceptableIp` says so.
- A port outside 1..65535 is meant to be refused. Ten digits and more can fold onto a port;
  `PortAcceptance` gives the exact condition, `TenDigitsCanFold` an example. Characters that are not
  digits count as well (`OneCharacterPort`).
- A write that is too long is reported as ignored (netlog/src/proc_config.c:141). The list and the
  text stay, but the recorded size of the text does not; see `ProcfileWrite`.
- The configuration file shows one line, separated by commas, not one connection per line
  (netlog/readme.markdown:72).
- The buffer is meant to be consistent with the list (netlog/src/proc_config.c:36-40). Reading the
  file cuts off the last comma, and that can break it: `ProcfileRead` and `MirrorSurvivesIff` say
  exactly when, `TrailingCommaExample` and `ReadBetweenInsertionsExample` give inputs.

## What the shipped code avoids

- `destroy_sys_call_table_integrity_checker` clears every static variable except the handler.
  `RestartMisfiresIff` says exactly when a second initialisation could then raise a false alarm. The
  module never enters that state: it initialises once (the-drip-dry-carbonite/src/carbonite.c:160)
  and destroys only on exit (the-drip-dry-carbonite/src/carbonite.c:215).

## Model

| member | source | states |
|---|---|---|
| InetUtils.LooksLikeIpv6 | netlog/src/inet_utils.c:246-264 | the scan answers whether a colon stands in the first 48 characters of the string, and stays inside it |
| InetUtils.LooksLikeValidIp | netlog/src/inet_utils.c:291-329 | the scans accept exactly the texts whose first 50 (IPv6) or 16 (IPv4) characters are legal |
| InetUtils.PrintersDoNotTruncate | netlog/src/inet_utils.c:167-190 | 16 and 50 bytes hold the text of every address: `snprintf` never cuts one |
| InetUtils.PrintAddressInjective | netlog/src/inet_utils.c:167-190 | two sockets print the same text only if they have the same family and address |
| InetUtils.AnyIpAddressIsUnspecified | netlog/src/inet_utils.c:235-244 | a printed text counts as "any address" if and only if the address is all zeroes |
| AddressText.PrintedReads | netlog/src/inet_utils.c:13-30 | a printed IPv4 text is exactly the four octets in order, in decimal with dots between them; an IPv6 text exactly the eight words in order, in four lower-case hexadecimal digits with colons between them and square brackets around them |
| AddressText.Ipv4Example | netlog/src/inet_utils.c:167-190 | 10.0.0.1 is printed as "10.0.0.1" |
| PortNumber.ReadPort | netlog/src/connection.c:181-198 | the right-to-left loop in 32-bit arithmetic computes the left-to-right decimal value of the text, wrapped, for every text |
| PortNumber.NineDigitsDoNotWrap | netlog/src/connection.c:193-198 | for up to nine digits neither the partial ports nor the bases, the last one included, leave a 32-bit int |
| PortNumber.PortAcceptance | netlog/src/connection.c:200-203 | for digit texts of any length the port is accepted with its value exactly when that is 1..65535, if and only if the value does not fold onto a port; up to nine digits it never does |
| PortNumber.TenDigitsCanFold | netlog/src/connection.c:193-203 | 4294967318 is accepted as port 22 |
| PortNumber.OneCharacterPort | netlog/src/connection.c:191-203 | any single character from '1' to 127 is a port, "A" is port 17, and none above 127 is, because `char` is signed |
| Connections.ParseStores | netlog/src/connection.c:67-154 | for every input, an accepted record has a path of at most 949 and an IP of at most 49 characters without NUL, and no port or a legal one |
| Connections.InitializeConnectionFromString | netlog/src/connection.c:49-211 | the parser, with all writes inside its two buffers, leaves a terminated record that denotes what `Parse` says, or fails when `Parse` rejects |
| Connections.Connection.CopyPath | netlog/src/connection.c:67-86 | the path loop stores the text up to the separator, and fails exactly from 950 characters on |
| Connections.Connection.CopyIp | netlog/src/connection.c:97-156 | the IP loop stores the text, bracketed if IPv6, fails exactly when it does not fit or is not legal, and ends one behind whatever stopped it |
| Connections.Connection.TakePort | netlog/src/connection.c:158-204 | the port field is read as `ParsePort` says from any position |
| Connections.MatchingIsWildcardEquality | netlog/src/connection.c:214-248 | on stored records the bounded comparisons decide equality of whole strings, with empty IPs and NO_PORT as wildcards on both sides |
| Connections.OverlapIsSharedConnection | netlog/src/connection.c:250-258 | two records are "equal" if and only if some connection with a known address and port is matched by both |
| Connections.OverlapIsNotTransitive | netlog/src/connection.c:250-258 | overlap is not transitive |
| Grammar.BracketsAreOptional | netlog/src/connection.c:36-206 | whichever brackets are written and whatever lies behind the string, the parser accepts exactly the strings with acceptable fields (path, address and port, each decided from the field alone) and finds those fields, if the IP field is closed or followed by a port |
| Grammar.AcceptedIff | netlog/src/inet_utils.c:246-329 | the strings of the grammar that are taken, from their characters: lengths, the letters, digits, colons and brackets allowed in an IPv6 text, the digits and dots of the first 16 characters of any other, and the port |
| Grammar.LocalhostIsRefused | netlog/src/inet_utils.c:274-329 | "/bin/a&#124;i<localhost>" is refused |
| Grammar.BracketsMatterIff | netlog/src/connection.c:105-114 | two spellings of the same fields, IP field closed or followed by a port, in any memory, parse differently if and only if they differ in the opening bracket of an address whose first colon is the 47th character, the string being acceptable otherwise |
| Grammar.LateColonExample | netlog/src/connection.c:105-114 | 46 digits and a colon parse to an address with square brackets without the `<` and to one without them with it |
| Grammar.UnclosedIpReadsOn | netlog/src/connection.c:148-206 | an IP field left open at the end makes the parser continue in the memory behind the string |
| Grammar.ParseMeetsGrammar | netlog/src/connection.c:36-47 | for every string of the grammar, bracket choice and surrounding memory: the parse is the denoted one if and only if the string does not end in an open acceptable IP field with the bytes behind it starting a port field or running out |
| Grammar.UnclosedIpIsMisread | netlog/src/connection.c:148-206 | with `p<22>` left over behind it, every such string becomes a rule for port 22 only |
| Grammar.UnclosedIpExample | netlog/src/connection.c:148-206 | "/bin/a&#124;i1.2.3.4" parsed as a rule for port 22 |
| AddressMatching.RuleMatchesItsSocketsOnly | netlog/src/connection.c:36-248 | for every program with, perhaps, an IPv4 or IPv6 address and a port 1..65535: the string with address and port in their usual form, whatever its brackets and the memory behind it, matches a socket exactly when program, address and port are the same as far as the rule gives them |
| ConnectionStrings.ParseIsOfTheString | netlog/src/connection.c:72-206 | a string whose IP field is closed parses alike in every memory and never leads out of it |
| ConfigText.JoinOfSplit | netlog/src/proc_config.c:52-101 | joining the segments gives the text back |
| ConfigText.SplitOfJoin | netlog/src/proc_config.c:52-101 | splitting joined comma-free strings gives the strings back |
| ConfigText.TrimIsStable | netlog/src/proc_config.c:121-127 | a second read trims nothing more, if and only if the last string is not empty |
| WhitelistModel.StackCallsStayInside | netlog/src/proc_config.c:55-72 | no segment of fewer than 512 characters, copied over its predecessors, makes the parser leave the stack memory |
| WhitelistModel.LoadKeepsConsistent | netlog/src/whitelist.c:30-57 | any sequence of calls, whatever the parser makes of the strings, keeps at most 150 entries, each storable and pairwise without overlap |
| WhitelistModel.AllTakenFrom | netlog/src/whitelist.c:23-70 | strings that parse, overlap neither each other nor the list, and fit its 150 places are all taken, in order, behind the entries that are there |
| WhitelistModel.NoneTakenWhenFull | netlog/src/whitelist.c:30-35 | with 150 entries no further string is taken |
| WhitelistModel.AtMostOneEntryMatches | netlog/src/whitelist.c:46-57 | no actual connection is matched by two entries |
| WhitelistModel.LookupIsMembership | netlog/src/whitelist.c:72-123 | a lookup answers membership in the union of the match sets, for paths of 1..949 characters and known families |
| WhitelistModel.AdmitRefinesTakeRule | netlog/src/whitelist.c:23-70 | a call succeeds exactly when there is room and the new match set shares no actual connection with the old ones; it then adds that set, else it changes nothing |
| WhitelistModel.RunRefines | netlog/src/whitelist.c:17-139 | over every run of calls, clears and configuration writes, for all strings and all memory behind them, the list stands for the set of rules taken since the last clear, at most 150 of them |
| WhitelistModel.ReloadRebuildsIff | netlog/src/proc_config.c:30-104 | calls on the strings of a list rebuild it in order if and only if the parser finds the same records again |
| WhitelistModel.TextRoundTrip | netlog/src/proc_config.c:30-104 | the joined strings of a list split and load back to that list if and only if they parse as before, which strings with closed IP fields always do |
| WhitelistModel.LoadedMirrorFits | netlog/src/proc_config.c:43-104 | what any text loads needs at most one character more in the mirror than the text |
| WhitelistModel.OrderDoesNotMatter | netlog/src/proc_config.c:55-101 | compatible strings with closed IP fields, written in any order over any stack memory, are all accepted and give the same answer to every lookup, wildcards included |
| Netlog.State.AddConnectionStringToProcConfig | netlog/src/proc_config.c:12-22 | `snprintf` at the end of the buffer: what fits is appended and terminated, what does not is cut but counted |
| Netlog.State.Whitelist | netlog/src/whitelist.c:23-70 | for every string in memory the list becomes what `Admit` says of the parse, the return value tells which, and an accepted string is appended to the buffer with a comma |
| Netlog.State.IsWhitelisted | netlog/src/whitelist.c:72-123 | the search over the entries answers `Lookup` |
| Netlog.State.UpdateWhitelist | netlog/src/proc_config.c:30-104 | `whitelist` is called on exactly the comma-separated segments, in order and once each, in the one reused buffer; the text buffer ends as the accepted strings in list order, each with a comma, not truncated |
| Netlog.WrittenTextEnds | netlog/src/proc_config.c:139-151 | a write means the text before its last byte, or before its first NUL |
| Netlog.State.ProcfileWrite | netlog/src/proc_config.c:135-156 | an accepted write rebuilds list and mirror from the text before the first NUL, its last byte dropped; a write that is too long fails, leaves list and text alone and loses the mirror |
| Netlog.State.ProcfileRead | netlog/src/proc_config.c:106-133 | a read returns the text without its last comma and with a newline, cut to the reader's buffer; the buffer still mirrors the list if and only if it was untrimmed before or the last string is not empty |
| Netlog.TrailingCommaExample | netlog/src/proc_config.c:121-127 | after the write "a," a first read returns "a," and a second one "a", and the mirror is lost |
| Netlog.State.DoWhitelist | netlog/src/probes.c:561-591 | the first 150 parameters are whitelisted in order, the others not looked at |
| Netlog.ReadThenWriteBack | netlog/src/proc_config.c:106-156 | writing back what a full read returned loads exactly its strings again; it rebuilds the same entries in the same order if and only if every string parses as before; the next read returns the strings that were taken |
| Service.AfterIsRun | netlog/src/proc_config.c:30-156 | over every run of requests the list is the one of the calls and writes in it, so that the results on runs of the list hold for it |
| Service.AnswerIsMembership | netlog/src/whitelist.c:72-123 | every lookup of a run answers membership in the set of rules taken since the last accepted write |
| Service.ClosedRunIsReloadable | netlog/src/proc_config.c:30-156 | over every run of strings that close their IP fields, each listed string parses to its entry wherever it stands |
| Service.MirrorSurvivesIff | netlog/src/proc_config.c:106-156 | over every run of insertions, writes, reads and lookups the buffer mirrors the list at the end if and only if every request that damages the mirror (an accepted non-empty string or a second read behind an empty last string, on a trimmed text; a refused write) is followed by an accepted write |
| Service.ReadBetweenInsertionsExample | netlog/src/probes.c:575-590 | a read between two strings of `do_whitelist` leaves "ab," for the list [a, b] |
| Service.Serve | netlog/src/proc_config.c:106-156 | over every such run list, text and recorded size in memory are the ones of the run, each lookup answers membership in the set of rules taken since the last accepted write, and the buffer mirrors the list exactly when no damage is unrepaired |
| RoundTrip.RoundTripAfterRun | netlog/src/proc_config.c:106-156 | after every undamaged run of closed strings, the last one of the list not empty: what is read can be written back over any stack memory, and list and text are the same again |
| RoundTrip.WriteBackOfSpellings | netlog/src/proc_config.c:30-156 | a list that holds what the grammar denotes comes back if and only if no string that ends in an open IP field finds the start of a port field, or no memory, in what the strings before it have left behind it |
| RoundTrip.UnclosedRoundTripExample | netlog/src/proc_config.c:30-156 | one write and its write-back that give the same string port 22 first and no port then, for every stack memory |
| Probes.ReturnFindsItsSocket | netlog/src/probes.c:53-127 | events of other processes between a process's entry and return leave its socket in place |
| Probes.LoggedIff | netlog/src/probes.c:76-127 | for every list, socket and program: logged if and only if the protocol is 6, the family IPv4 or IPv6, and not both the path known with 1..949 characters and the printed connection in the union of the match sets |
| Probes.OneRuleSilencesItsConnections | netlog/src/probes.c:76-127 | with one rule, address and port optional, in any spelling, a TCP connect is left out of the log if and only if program, address and port are those of the rule |
| Probes.ConnectProbes.PostConnect | netlog/src/probes.c:76-127 | the connect of the process's own socket is logged if and only if the protocol is 6, the family IPv4 or IPv6, and no rule of the list stands for its path, address and port; the slot is cleared in every case |
| FastHash.SuperFastHash | the-drip-dry-carbonite/src/super-fast-hash.c:20-58 | the loop, tail cases and final mixing compute `Hash` for every length |
| HashByBits.HashIsByBits | the-drip-dry-carbonite/src/super-fast-hash.c:20-58 | for every input the hash is the one value that the exclusive ors, given bit by bit, the shifts by 16, 11, 18, 10, 3, 4, 25 and 11, 17, 1, 5, 6, given as products and quotients, and the sums modulo 2^32 lead to |
| FastHash.PreimageBound | the-drip-dry-carbonite/src/super-fast-hash.c:28-57 | with m blocks to come at most 2^(m+3) loop states lead to one hash, twice that if a tail follows |
| FastHash.HalfwordCollisions | the-drip-dry-carbonite/src/super-fast-hash.c:28-57 | of the 65536 values of any halfword with m blocks behind its block, at most 2^(m+4) share a hash, twice that if a tail follows |
| FastHash.LastHalfwordCollisions | the-drip-dry-carbonite/src/super-fast-hash.c:28-57 | at most 16 values of the last halfword share a hash |
| Words.XorShiftInjective | the-drip-dry-carbonite/src/super-fast-hash.c:51-55 | `h ^= h << k` is one-to-one on 32-bit words |
| Words.FoldInjective | the-drip-dry-carbonite/src/super-fast-hash.c:30-31 | the mixing of a block is one-to-one in the state |
| Words.AddShiftImage | the-drip-dry-carbonite/src/super-fast-hash.c:33 | `h += h >> k` at most halves the number of distinct words |
| Kallsyms.SymbolSearch.FindNextSymbol | the-drip-dry-carbonite/src/my-kallsyms.c:45-74 | the callback search computes the first address behind the target that differs from it |
| Kallsyms.NextSymbolIsLeastAbove | the-drip-dry-carbonite/src/my-kallsyms.c:66-74 | over ascending symbols, duplicates allowed, the result is the least address above the target, or 0 if there is none |
| MonitorRuns.InitialisationEnds | the-drip-dry-carbonite/src/sys-call-table-integrity-check.c:148-199 | over every run from insertion the initialisation can go on until it has taken its steps (9, or 1, 4 or 5 without interval, table or next symbol) and then has succeeded if and only if all three are there |
| MonitorRuns.NineStepsStartTheMonitor | the-drip-dry-carbonite/src/sys-call-table-integrity-check.c:113-199 | with all three, nine steps, however interleaved, set the handler, timer and notifier with the interval, table and size given, and an overwrite is reported by the next tick if and only if the watched bytes hash differently |
| MonitorRuns.RemovedIsOff | the-drip-dry-carbonite/src/sys-call-table-integrity-check.c:201-215 | after the removal neither timer nor notifier calls, and all static variables but the handler are 0 |
| MonitorRuns.CallsAreEvents | the-drip-dry-carbonite/src/carbonite.c:80-117 | over every run each module event and each other call is served once, in order and with its reason |
| MonitorRuns.SnapshotIff | the-drip-dry-carbonite/src/carbonite.c:87-97 | over every run a call takes a snapshot if and only if it is not an incident call (1) right behind a module call (2) |
| MonitorModel.HashedRange | the-drip-dry-carbonite/src/sys-call-table-integrity-check.c:180-192 | over every run that ends in a successful initialisation on an unmodified table, the stored hash is the hash of exactly the bytes from the table to the next distinct symbol |
| MonitorModel.DifferenceOnlyBeforeHash | the-drip-dry-carbonite/src/sys-call-table-integrity-check.c:166-196 | over every run from insertion on an unmodified table a tick would see a difference only between the assignments of size and hash, and then exactly if the table does not hash to 0 |
| MonitorModel.NoFalseDispatch | the-drip-dry-carbonite/src/sys-call-table-integrity-check.c:113-199 | from fresh static state and on an unmodified table no interleaving of initialisation, ticks, module events and other calls makes the checker dispatch |
| MonitorModel.RestartMisfiresIff | the-drip-dry-carbonite/src/sys-call-table-integrity-check.c:201-215 | after a destroy, initialising again can raise a false alarm if and only if the handler was still set and the table does not hash to 0 |
| MonitorModel.IncidentAtMostOnce | the-drip-dry-carbonite/src/sys-call-table-integrity-check.c:130-139 | over every run from insertion on the checker dispatches at most once |
| MonitorModel.DispatchAtFirstDifference | the-drip-dry-carbonite/src/sys-call-table-integrity-check.c:123-139 | over every run from insertion, overwrites and removal included, the one dispatch happens at the first tick that finds the hash different when the initialisation is over, with a snapshot unless a module event was the previous reason |
| MonitorModel.DispatchIffDifference | the-drip-dry-carbonite/src/sys-call-table-integrity-check.c:123-139 | over every run from insertion an incident is dispatched if and only if some tick finds the hash different when the initialisation is over |
| MonitorModel.InitialisedWatches | the-drip-dry-carbonite/src/sys-call-table-integrity-check.c:148-199 | a successful initialisation on an unmodified table, however interleaved, leaves the right hash, the handler waiting, the timer running and nothing dispatched |
| MonitorModel.OverwriteIsReportedIff | the-drip-dry-carbonite/src/sys-call-table-integrity-check.c:113-199 | after such an initialisation, an overwrite is reported by the next tick if and only if the watched bytes hash differently |
| MonitorModel.IncidentIsDocumented | the-drip-dry-carbonite/src/carbonite.c:80-117 | over every run, an incident call or the module event call right before it takes a snapshot |
| MonitorModel.UnnoticedOverwrites | the-drip-dry-carbonite/src/sys-call-table-integrity-check.c:123-126 | at most 2^(m+4) values written over a halfword of the watched bytes go unnoticed by the next tick |
| MonitorModel.UnnoticedLastHalfword | the-drip-dry-carbonite/src/sys-call-table-integrity-check.c:123-126 | for the last halfword at most 16, the original included |
| MonitorModel.UnreportedLastHalfword | the-drip-dry-carbonite/src/sys-call-table-integrity-check.c:113-199 | from insertion to alarm: of the values the last halfword of the table is overwritten with after such an initialisation, at most 16 are not reported by the next tick |
| Monitor.Checker.Tick | the-drip-dry-carbonite/src/sys-call-table-integrity-check.c:113-146 | one tick is the model's step, and a snapshot appends the dumps of all processes |
| Monitor.Checker.ModuleEvent | the-drip-dry-carbonite/src/sys-call-table-integrity-check.c:68-105 | a foreign module going live calls the handler and always takes a snapshot; other events do nothing |
| Monitor.KeptByPosition | the-drip-dry-carbonite/src/carbonite.c:104-112 | a snapshot leaves for every process with memory for its node the dump of that process, at the place given by the number of such processes before it, and nothing else |
| Monitor.KeptAll | the-drip-dry-carbonite/src/carbonite.c:104-112 | with memory for all, one dump per process in order |
| Monitor.Checker.Carbonite | the-drip-dry-carbonite/src/carbonite.c:80-117 | a suppressed call leaves the list alone, any other appends one dump per process in order, skipping those without memory for their node |
| Monitor.Drive | the-drip-dry-carbonite/src/sys-call-table-integrity-check.c:68-215 | over every run of initialisation steps, ticks, module events, other calls, overwrites and the removal, the static variables end as the state machine says, and the list of dumps has gained exactly the dumps of the calls that took a snapshot, in call order |
| TaskDumpLists.TaskDumpList.Add | the-drip-dry-carbonite/src/task-dump-list.c:104-134 | appends one node behind the tail, keeps the chain acyclic and its size right, or changes nothing without memory |
| TaskDumpLists.TaskDumpList.GetTaskDump | the-drip-dry-carbonite/src/task-dump-list.c:142-162 | the n-th appended dump, or NULL for every n outside the list |
| TaskDumpLists.TaskDumpList.Destroy | the-drip-dry-carbonite/src/task-dump-list.c:165-188 | every node is freed once, in list order |
| TaskDumpSeqFile.SeqFile.Pass | the-drip-dry-carbonite/src/task-dump-seq-file.c:38-137 | which positions one read shows from any start, what it prints and where it stops |
| TaskDumpSeqFile.ShowsReport | the-drip-dry-carbonite/src/task-dump-seq-file.c:91-137 | the shows of a whole pass print the header once and then each non-NULL dump once in insertion order |
| TaskDumpSeqFile.ReportByPosition | the-drip-dry-carbonite/src/task-dump-seq-file.c:91-137 | the report is the header and the record of every dump that is not NULL, at the place given by the number of such dumps before it, and nothing else |
| TaskDumpSeqFile.WholePass | the-drip-dry-carbonite/src/task-dump-seq-file.c:38-137 | a pass prints the report and ends after n + 3 shows |
| TaskDumpSeqFile.RemainingRecords | the-drip-dry-carbonite/src/task-dump-seq-file.c:91-137 | a read that resumes at 1..n prints exactly the remaining records |
| TaskDumpSeqFile.ReadAll | the-drip-dry-carbonite/src/task-dump-seq-file.c:38-137 | a report read in any number of pieces of any sizes up to the first read without a show is the report, nothing lost or repeated; n + 2 reads always get there |

## Left out

- Kernel services: probe and timer registration, proc and character devices, spinlocks, `exe_from_mm`, `d_path`, log text and log levels.
- Failing allocations, except for a list node and for a dump that is NULL; failing user copies.
- Preemption inside an operation. Changes to the memory behind the segment buffer while one write is loaded.
- A write of no bytes and a read of an empty text, both of which index in front of the buffer; a read that trusts the size a refused write has recorded; segments of 512 characters and more; insertions for which the buffer has no room left.
- An insertion after a refused write: the recorded size then lies behind the buffer, and the code calls `snprintf` there with a size that wraps.
- Parameters with a comma in them: the kernel splits the parameter array at commas.
- OrderDoesNotMatter: strings whose IP field runs into the terminator are not covered, because what they mean depends on the memory behind them.
- Freeing of connection records; the record of a refused duplicate is not freed by the code, and allocations are not counted here.
- A module event before the handler is set or after it is cleared, which calls a null pointer.
- The pointer that the report iterator hands out and frees: positions are values here.
- The shared static buffers of the address printers; the printed texts are values.
- The copy of the module's name (`checking_module`) and the return value of timer calls, which only reach the log.
- `dresden`, `logger.c`, `command-chrdev.c`, `proc-entry.c`, `task-utils.c`, `trigger-carbonite.c` and the example attack: plumbing without state worth a theorem.
