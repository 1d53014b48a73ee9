# wzdftpd: verified models of its algorithms

wzdftpd is an FTP server in C. This project models the parts of it that compute something
hard to get right, and proves what they compute.

- **The regular expression engine** of gnu_regex/regex.c (`Regex*.dfy`). The pattern
  compiler writes byte code into a growing buffer. The matcher interprets it with a failure
  stack and rewrites its own loop jumps while it runs. A fastmap lets the search skip. The
  main results run from the pattern text to the answer: `CompileAndMatch` and
  `CompileAndSearch`. They are about the language that a pattern denotes, defined the
  textbook way in `RegexLanguage` and `RegexSyntax`, and about the order in which its
  matches are tried, defined on the pattern in `RegexOrder`.
- **Address text** (`Inet*.dfy`): printing an address and parsing it back, which addresses
  show a dotted quad, and exactly which texts are accepted.
- **The transfer lifecycle of a session** (`Session*.dfy`): what holds between any two
  turns of the main loop, exactly which runs break it, and what the fields say about the
  turns that led there.
- **The cron scheduler** (`Cron*.dfy`): the sorted job list and the date of the next run,
  stated on the calendar and the clock.
- **The configuration file** (`Config*.dfy`): loading in blocks, printing, reloading.
- **Path normalisation** (`Path*.dfy`), the **chained hash table** (`HashTable.dfy`),
  **DES** (`Des*.dfy`), **CRC-32** (`Crc32.dfy`), the streaming of **MD5 and SHA-1**
  (`Digest.dfy`, `Md5.dfy`, `Sha1.dfy`) and **base64** (`Base64.dfy`).

Code that updates things in place is modelled by methods over arrays and class fields, each
proved against a specification function. The laws are lemmas about those functions.

`dafny verify dfyconfig.toml` checks everything.

## How the models read the source

Regular expressions. A pattern is an alternation of nonempty sequences of items. An item is
a character, `.` or a bracket set, followed by any run of `*`, `+` and `?`. The syntax is
RE_SYNTAX_POSIX_EXTENDED without translation. The text is one string and the search goes
forward. Compiled code is below 2^15 bytes, the range of a jump offset; the compiler itself
only refuses above 2^16 (`Compile`, `NumberRoundTrip`). The buffer is an array, pointers
are offsets. In the matcher the failure stack is a list of whole failure points with a
count of slots, and no register is active. `RegexFailStack` models the flat array with
registers, and `RegexFrames` shows that pushing and popping there is pushing and popping on
the list, with the same overflow.

One guarantee of the engine is false of the code. At regex.c:4035 the length of a full
32-byte bitmap is multiplied by 8 in an unsigned char and becomes 0. maybe_pop_jump then
takes a set that holds the next character for one that does not, and the loop drops its way
out after every round. It is left only where its body refuses, and there the character that
must follow is refused too. So an alternative with such a loop (`Misread`) matches nothing,
and the engine answers for the others (`LiveAlts`): `CompileAndMatch` and
`CompileAndSearch`, for every pattern. `FindsExactly` and `AnswersExactly` say exactly when
that is the right answer on all texts; for a pattern of one alternative it is exactly when
the pattern is safe (`OneAlternative`). `FooledPatternFails` is a run that shows the
failure.

What length is returned. The ways through a program are tried in a fixed order: a repeated
item once more before leaving it, an earlier alternative before a later one. Some of these
trials match (`Trials`, and `PatternTrials` on the pattern; `CompiledOrder` shows that they
are the same). A trial that reaches the end of the text wins. Otherwise the longest of all
trials but the last is returned; the last one, made when no failure point is left, counts
only if no other matches (regex.c:3386-3423). So the longest match is returned, except
exactly when the last trial goes further than the earlier ones, one of which matches, and
still not to the end of the text (`LongestExactly`); `LongerLost` is such a pattern. The
failure stack holds 2560 failure points. The value is -2 exactly if a trial needs more
before one has reached the end of the text (`Overflows`), which cannot be while the pieces
of the program and the bytes of the text are no more than that (`NotDeep`).

Addresses. The comment on inet_pton6 says that `::` in a full address is ignored. The code
clears every word after it: `FullAddressColon`, and `LastWordLost` for one text. It also
says that only valid addresses are accepted, but a colon after a last word is ignored
(`ColonAtEnd`). `Quad4Exactly` and `Address6Exactly` say exactly what is accepted, by the
parts of the text between dots and colons.

Sessions. What the network, the file system, the permission checks and the hooks decide is
input. Hooks do not change the context. A file is named by the number of files opened
before it. MKD, RNFR, DELE, STAT and MLST do not check for a running transfer. `RunExact`
shows that the invariant holds throughout a run exactly when none of them takes effect in
mid-transfer. What a session is to guarantee can survive that: `AllClosedOnce` says exactly
which runs close every file once, and `NoAssertionFails` exactly which fail no assertion.
`OverwriteLosesFile` and `StatusBreaksTransfer` show runs that do not. `SessionHistory`
reads the fields off the turns: which turn started the transfer that is on, which passive
socket and port were given last, which turn ended the session.

Cron. mktime is Gregorian normalisation of its fields at a fixed distance from UTC. The day
of the week is never looked at by the code. The run is in the first later minute, hour, day
or month that the most significant field asks for (`MinuteJob`, `HourJob`, `DayJob`,
`MonthJob`). For a day of 29 to 31 that holds exactly when the month has it. A time of day
is put off when its own hour or day has begun: `HourFirstMoment` and `DayUnderWay` say
exactly when the run is not the first later moment asked for, and `HourUnderWay` shows one.
A job for an explicit month and any day asks for day 0, so it can be dated before the
start: `MonthAnyDay` says exactly when, and `MonthAnyDayMissed` shows a date. A job that is
redated to before 1970 stops the requeue loop: `RequeuedExact` says exactly when that
leaves other jobs marked. `FarBackBlocks` shows an input for any clock up to the year 3000;
`BlockedByMonth` says exactly which month fields do it in UTC, when the other fields are in
range, and jobs with all fields in range never do after the first day of 1970
(`InRangeNotBlocked`). The jobs are a chain of heap nodes (`LinkedList`), which a run
relinks.

Hash table. Its buckets are an array of linked lists of heap nodes with head, tail and size
(`LinkedList`, `ListArray`). Every operation on one list leaves the others alone.

Configuration. A newline at the start of a block does not see a CR or a backslash at the
end of the block before: `SplitExact`, and `TornBlocks` for one text. Errors in a last line
without a newline are ignored, as in the code. Blanks before a key or a group shorten the
length of the line but stay in the line, so that such a key keeps its blanks and its value
loses its end. Where that makes the code look for a bracket or a value outside the line,
nothing is claimed (`Inside`). For a line of the form key, ` = `, value that is exactly
when there are one or two more blanks before the key than characters in the value
(`OutsideExactly`, and `ValueOutside` for one line). Printing and loading again does not
always give the configuration back. `ConfigRoundTrips` says exactly when; `TornRemarkLost`
and `IndentedLost` give texts that load as configurations which do not come back, with
`BackslashLost` and `IndentLost` for one text each.

Paths. `Simplified` is what an absolute path becomes; `NameAndBackCancel` and
`NothingDropped` say what each kind of component does to it. In a relative path the code
treats the first name differently: a `..` after it drops it together with the slash that
follows, and at the end of the path, where there is none, the read index passes the NUL.
`Simplify` says exactly when (`Overruns`), and what the buffer holds otherwise. A name of
one character at the start of the path is not dropped (`NameAndBack`).

DES. The round function and the cipher are those of FIPS 46-3, with its tables as it prints
them (`DesStandard`). The expansion table is a parameter, since salting changes it.

Digests. The function of one block is a parameter. sha1_context_endstream writes four of
the eight length bytes: `WrittenLengthExact`.

## Model

| member | source | states |
|---|---|---|
| `RegexLanguage.CollapseKeepsLanguage` | gnu_regex/regex.c:1239-1283 | any nonempty run of `*`, `+`, `?` collapsed into the two flags denotes the same language as the operators applied one after the other |
| `RegexCode.NumberRoundTrip` | gnu_regex/regex.c:384-407 | a jump offset stored in two bytes is read back if and only if it fits 16 signed bits |
| `RegexCode.DecideKeepsHolds` | gnu_regex/regex.c:3977-4055 | rewriting a loop jump leaves code that still holds the same program |
| `RegexCode.DecideKeepsPopSet` | gnu_regex/regex.c:3977-4055 | deciding a jump the way it is bound to go changes for no loop whether it pops |
| `RegexTrials.TrialsSound` | gnu_regex/regex.c:3374-4340 | every trial that matches ends where the live program can end |
| `RegexTrials.TrialsComplete` | gnu_regex/regex.c:3374-4340 | wherever the live program can end, some trial ends there or later, unless one overflows |
| `RegexTrials.NotDeep` | gnu_regex/regex.c:2299-2424 | every failure point goes with a piece or a byte of its own, so no trial overflows while pieces and text are no more than 2560 |
| `RegexTrials.DroppedIsShorter` | gnu_regex/regex.c:3983-4111 | a harmless loop that drops its failure point where its body goes on ends the program, so what is dropped is a shorter match |
| `RegexTrials.FooledMisses` | gnu_regex/regex.c:3977-4111 | no trial gets out of a loop whose full bitmap fooled the decision |
| `RegexTrials.SettledBeats` | gnu_regex/regex.c:3378-3433 | the match settled on is at least as long as the first in order of trial and as every one but the last |
| `RegexTrials.LongestExactly` | gnu_regex/regex.c:3378-3433 | the longest match is settled on, except exactly when the last trial goes further than the earlier ones, one of which matches, but not to the end of the text |
| `RegexInvariant.InitialInvariant` | gnu_regex/regex.c:3160-3373 | the invariant of the matcher holds when it starts: the trials made and those to come are all trials, in order |
| `RegexInvariant.FailGood` | gnu_regex/regex.c:4287-4340 | backtracking keeps the invariant, or returns the longest match made when the stack is empty |
| `RegexInvariant.AcceptGood` | gnu_regex/regex.c:3378-3433 | at the end of the pattern the matcher returns what the trials amount to, or goes on with the longest match saved |
| `RegexInvariant.RoomExactly` | gnu_regex/regex.c:2299-2377 | there is room for one more failure point if and only if fewer than 2560 are pending |
| `RegexRounds.DecisionIsPopDecided` | gnu_regex/regex.c:3977-4047 | the byte-level decision is the one of the program |
| `RegexRounds.BackStep` | gnu_regex/regex.c:3977-4111 | the loop jump, decided or undecided, pops if and only if its loop is bound to, and goes back |
| `RegexRounds.RoundGood` | gnu_regex/regex.c:3374-4333 | every round of the main loop keeps the invariant and lowers the measure, or returns what the trials amount to |
| `RegexLength.HeldWays` | gnu_regex/regex.c:3977-4111 | in a buffer that holds a program, loops pop only where that is harmless or they are fooled, and all fooled ones do |
| `RegexLength.AnsweredCorrect` | gnu_regex/regex.c:3135-4341 | what the trials amount to is right about the program: whether it matches, and whether to the end of the text; it is long enough, and -2 exactly on an overflow |
| `RegexLength.OnlyLastMayBeat` | gnu_regex/regex.c:3378-3433 | every match of the program is no longer than the one returned or than that of the last trial |
| `RegexLength.DecisionUnseen` | gnu_regex/regex.c:3977-4111 | where popping is harmless, a run with jump at the loop and one with pop_failure_jump agree on whether there is a match and on whether it reaches the end |
| `RegexMatch.ExtractNumber` | gnu_regex/regex.c:403-407 | reads the signed offset |
| `RegexMatch.MatchExactn` | gnu_regex/regex.c:3549-3556 | compares a run of characters with the text |
| `RegexMatch.TestMap` | gnu_regex/regex.c:3590-3592 | tests a bitmap |
| `RegexMatch.BodyRefuses` | gnu_regex/regex.c:4033-4041 | the test of the loop body in maybe_pop_jump, wrap-around included |
| `RegexMatch.DecidePop` | gnu_regex/regex.c:3977-4048 | computes the pop decision from the bytes |
| `RegexMatch.MakeRoom` | gnu_regex/regex.c:2352-2377 | doubles the failure stack until a failure point fits, or fails over the limit |
| `RegexMatch.TestLoopJump` | gnu_regex/regex.c:4307-4325 | whether a failure point resumes at the backward jump of a loop |
| `RegexMatch.PopToResume` | gnu_regex/regex.c:4287-4333 | pops failure points, skipping dummies and loop jumps, until one can be resumed |
| `RegexMatch.ExecuteText` | gnu_regex/regex.c:3529-3601 | the opcodes that consume text |
| `RegexMatch.ExecuteJump` | gnu_regex/regex.c:3934-4111 | the opcodes that push, jump and rewrite |
| `RegexMatch.ReMatch` | gnu_regex/regex.c:3135-4341 | for every program and text the value is exactly what the trials amount to. With fooled loops taken as matching nothing: n >= 0 only for a match of n characters, -1 exactly when there is none, the end of the text whenever some match reaches it; at least as long as the first match in order of trial and as every one but the last; -2 exactly if a trial needs more than 2560 failure points, and only if pieces and text exceed that. The run is a run of the machine and the code still holds the program |
| `RegexSyntax.AtomOfMatches` | gnu_regex/regex.c:1350-1526 | the compiled form of a character, `.` or set accepts exactly the characters it covers |
| `RegexMeaning.CompiledWellFormed` | gnu_regex/regex.c:1175-2045 | the compiled program is well formed |
| `RegexMeaning.CompiledMeaning` | gnu_regex/regex.c:1175-2045 | the compiled program matches a stretch of text if and only if the pattern denotes it |
| `RegexLayout.PatternCodeHolds` | gnu_regex/regex.c:1175-2045 | the bytes laid out for a pattern hold its program, with every jump in range and every loop undecided |
| `RegexBuffer.StoreNumber` | gnu_regex/regex.c:384-388 | stores an offset low byte first |
| `RegexBuffer.StoreOp1` | gnu_regex/regex.c:2062-2070 | stores a jump |
| `RegexBuffer.InsertOp1` | gnu_regex/regex.c:2090-2104 | opens three bytes for a jump, moving the rest up |
| `RegexBuffer.PatternBuffer.GetBufferSpace` | gnu_regex/regex.c:882-964 | grows the buffer, keeping its code |
| `RegexBuffer.PatternBuffer.InsertJump` | gnu_regex/regex.c:2090-2104 | the code with a jump inserted |
| `RegexBuffer.PatternBuffer.FillJump` | gnu_regex/regex.c:2062-2070 | the code with a reserved jump filled in |
| `RegexBracket.SetListBitAt` | gnu_regex/regex.c:1011-1013 | sets the bit of one character |
| `RegexBracket.SetRangeAt` | gnu_regex/regex.c:2199-2242 | sets the bits of a range |
| `RegexBracket.TrimMap` | gnu_regex/regex.c:1520-1523 | drops the zero bytes at the end of the bitmap |
| `RegexBracket.ReadElems` | gnu_regex/regex.c:1383-1518 | reads the elements of a set up to its bracket |
| `RegexBracket.CompileBracket` | gnu_regex/regex.c:1350-1526 | a bracket set compiles to its trimmed bitmap |
| `RegexCompile.ReadOps` | gnu_regex/regex.c:1239-1274 | reads a run of repetition operators into the two flags |
| `RegexCompile.EmitRepeat` | gnu_regex/regex.c:1283-1339 | wraps the last item in the jumps of its repetition |
| `RegexCompile.EmitChar` | gnu_regex/regex.c:1999-2029 | extends or starts a run of characters |
| `RegexCompile.EmitBar` | gnu_regex/regex.c:1692-1731 | closes an alternative and fixes the jumps between alternatives |
| `RegexCompile.Compile` | gnu_regex/regex.c:1061-2056 | the one-pass compiler writes exactly the code of the pattern, or fails; it fails only when the code comes within 34 bytes of the 2^16 of the largest buffer |
| `RegexFastmap.MatchStartsWithFirst` | gnu_regex/regex.c:2531-2801 | a match of a program that cannot be empty starts with a character of its first set |
| `RegexFastmap.NullableIsEmptyMatch` | gnu_regex/regex.c:2531-2801 | a program is nullable if and only if it matches the empty string |
| `RegexFastmap.MarkSet` | gnu_regex/regex.c:2605-2620 | marks the characters of a set |
| `RegexFastmap.MarkOp` | gnu_regex/regex.c:2597-2652 | marks the characters an opcode can start with |
| `RegexFastmap.WalkJump` | gnu_regex/regex.c:2696-2754 | follows the jumps, stacking the other way |
| `RegexFastmap.ReCompileFastmap` | gnu_regex/regex.c:2531-2801 | the fastmap holds exactly the first characters and can_be_null is exactly nullability; no internal error up to 2000 pieces |
| `RegexSearch.FastmapSound` | gnu_regex/regex.c:2531-2801 | any match is at a position the fastmap lets through |
| `RegexSearch.SkipAhead` | gnu_regex/regex.c:2946-2949 | skips only positions without a match |
| `RegexSearch.UseFastmap` | gnu_regex/regex.c:2925-2965 | what the fastmap passes over does not match |
| `RegexSearch.ReSearch` | gnu_regex/regex.c:2843-2990 | for every program: returns the first start that the matcher matches at, with a fastmap or without; -2 only if pieces and text, or the pieces of a fastmap, are too many |
| `RegexSearch.SearchBothWays` | gnu_regex/regex.c:2876-2990 | a search without a fastmap and one with it, run one after the other on the same buffer, return the same start |
| `RegexLive.FullMapReaches` | gnu_regex/regex.c:1520-1523 | a bitmap is full if and only if its set holds a byte of 248 or more |
| `RegexLive.LiveOfSafe` | gnu_regex/regex.c:4030-4046 | no alternative is misread if and only if the pattern repeats no such set before one of its characters |
| `RegexLive.LiveFlat` | gnu_regex/regex.c:4030-4046 | an alternative keeps exactly its words if none of its loops is misread, and has none left otherwise |
| `RegexLive.LiveMeaning` | gnu_regex/regex.c:1175-2045 | what the matcher makes of the compiled program: it matches a stretch of text if and only if an alternative that is not misread denotes it |
| `RegexOrder.CompiledOrder` | gnu_regex/regex.c:1175-2045 | the trials of the compiled program are those of the pattern: an earlier alternative before a later one, and each item as often as it may first |
| `RegexOrder.OptionalTried` | gnu_regex/regex.c:3378-3433 | `ab?` on abc tries ab before a and settles on it |
| `RegexOrder.LongerLost` | gnu_regex/regex.c:3378-3433 | an input whose longest match is not returned: a pattern with the alternatives a and ab gives a on abc |
| `RegexAnswer.CompileAndMatch` | gnu_regex/regex.c:1061-4341 | for every pattern: compiling and matching answers exactly for the language of the alternatives that are not misread, so for that of the pattern if none is; the value is exactly what the trials of the pattern amount to, at least as long as the first match in order of trial and as every one but the last; finding or not finding a match is right if and only if those alternatives and the pattern agree there; -2 exactly if a trial needs more than 2560 failure points, and only if pieces and text exceed that |
| `RegexAnswer.CompileAndSearch` | gnu_regex/regex.c:2843-2990 | for every pattern: compiling and searching finds the first start of a word of an alternative that is not misread, or none if there is none; -2 only if pieces and text are too long |
| `RegexAnswer.FindsExactly` | gnu_regex/regex.c:4030-4046 | finding a match is right on every text if and only if every word of the pattern begins with a word of an alternative that is not misread |
| `RegexAnswer.AnswersExactly` | gnu_regex/regex.c:4030-4046 | the whole answer is right on every text if and only if every word of the pattern is one of an alternative that is not misread |
| `RegexAnswer.OneAlternative` | gnu_regex/regex.c:4030-4046 | a pattern of one alternative is matched rightly on every text if and only if it is safe; otherwise each of its words gets the answer -1 |
| `RegexFooled.FooledPatternFails` | gnu_regex/regex.c:4030-4046 | inputs that show it: a set with a byte of 248 or more, `*`, and a character of the set; the run on that character returns -1 after five rounds |
| `RegexFailStack.FailStack.constructor` | gnu_regex/regex.c:2279-2289 | the stack starts empty |
| `RegexFailStack.FailStack.Double` | gnu_regex/regex.c:2299-2310 | doubles the array with its contents, and fails exactly over the limit; the size never passes twice the limit |
| `RegexFailStack.FailStack.Push` | gnu_regex/regex.c:2352-2424 | adds one whole failure point of any size, or fails with the points as they were |
| `RegexFailStack.FailStack.Pop` | gnu_regex/regex.c:2461-2516 | restores registers, bounds and places of the matching push, a NULL string keeping the position, and leaves other registers alone |
| `RegexFrames.PushFrame` | gnu_regex/regex.c:3934-3976 | pushing a failure point of the matcher on the flat array is the push of the machine, with the same size and the same overflow |
| `RegexFrames.PopFrame` | gnu_regex/regex.c:4287-4301 | popping from the flat array gives the last failure point of the machine |
| `InetText.TextFits` | libwzd-core/inet_ntop.c:132-198 | the text of any address and its NUL fit 46 bytes |
| `InetForm.NumeralForm` | libwzd-core/inet_ntop.c:105-192 | numbers are written in lower case without leading zeros |
| `InetForm.TextLetters` | libwzd-core/inet_ntop.c:171-198 | an address is written in lower-case digits, colons and dots only |
| `InetForm.DottedExactly` | libwzd-core/inet_ntop.c:183-191 | dots are printed if and only if the first twelve bytes are zero and the next two are not, or the first ten are zero and the next two 0xff; the text is then `::` or `::ffff:` and the dotted quad |
| `InetNtop.Ntop4` | libwzd-core/inet_ntop.c:99-113 | prints a dotted quad, or fails exactly when it does not fit |
| `InetNtop.ReadWords` | libwzd-core/inet_ntop.c:142-144 | the eight words of an address |
| `InetNtop.FindGap` | libwzd-core/inet_ntop.c:145-166 | finds the first longest run of two or more zero words, or that there is none |
| `InetNtop.Format` | libwzd-core/inet_ntop.c:171-198 | writes the text of the address and a NUL into the buffer; for the gap that was found, dots for exactly the compatible and mapped addresses |
| `InetNtop.Ntop6` | libwzd-core/inet_ntop.c:122-209 | prints an address, or fails exactly when it does not fit, leaving the buffer alone; dots for exactly the compatible and mapped addresses, after `::` or `::ffff:` |
| `InetPton.Pton4` | libwzd-core/inet_pton.c:99-137 | parses a dotted quad as the scanner does |
| `InetPton.ShiftUp` | libwzd-core/inet_pton.c:218-231 | the shift by hand spreads the bytes over the gap |
| `InetPton.Pton6` | libwzd-core/inet_pton.c:153-236 | parses an address as the scanner does |
| `InetGrammar.Quad4Exactly` | libwzd-core/inet_pton.c:99-137 | inet_pton4 accepts exactly four numbers up to 255 between dots, as these numbers |
| `InetGrammar.Address6Exactly` | libwzd-core/inet_pton.c:153-236 | for every text: what inet_pton6 makes of it, by the parts between colons: words, one empty part at most before the last, and at the end a word, nothing or a dotted quad; sixteen bytes or a gap |
| `InetGrammar.ColonAtEnd` | libwzd-core/inet_pton.c:139-238 | a text that ends with a word is taken for the same with a colon after it |
| `InetRoundTrip.QuadRoundTrip` | libwzd-core/inet_pton.c:99-137 | parsing a printed dotted quad gives the four bytes back |
| `InetRoundTrip.GapRoundTrips` | libwzd-core/inet_pton.c:153-236 | parsing gives the address back whichever run of zeros was left out |
| `InetRoundTrip.RoundTrip6` | libwzd-core/inet_pton.c:153-236 | parsing what inet_ntop6 prints gives every address back |
| `InetRoundTrip.TextIdentifies` | libwzd-core/inet_ntop.c:122-209 | two addresses never print alike |
| `InetRoundTrip.TextNoNul` | libwzd-core/inet_ntop.c:171-198 | the text holds no NUL |
| `InetRoundTrip.FullAddressColon` | libwzd-core/inet_pton.c:146-238 | a text with all eight words, or six and a dotted quad, and `::` before word j gives the address with the words from j on cleared; it gives the address if and only if those words are zero |
| `InetRoundTrip.LastWordLost` | libwzd-core/inet_pton.c:146-238 | the text 1:2:3:4:5:6:7::8 loses its last word |
| `Session.StepExact` | libwzd-core/wzd_ClientThread.c:3373-3539 | a turn keeps the invariant if and only if it does not disturb a transfer |
| `Session.RunExact` | libwzd-core/wzd_ClientThread.c:3373-3539 | the invariant holds between all turns of a run if and only if no command disturbs a transfer |
| `Session.NoAssertionFails` | libwzd-core/wzd_data.c:278-317 | between all turns of a run no assertion branch is reached, if and only if no STAT or MLST resets the state while data moves |
| `Session.AllClosedOnce` | libwzd-core/wzd_ClientThread.c:236-295 | however a session ends, every file opened is closed exactly once, if and only if no turn dropped an open file (MKD, RNFR, RNTO after RNFR, or a transfer started beside another) |
| `Session.OverwriteLosesFile` | libwzd-core/wzd_ClientThread.c:1368-1370 | after MKD or RNFR in mid-transfer the file is never closed, whatever follows |
| `Session.StatusBreaksTransfer` | libwzd-core/wzd_ClientThread.c:988-1040 | after STAT or MLST in mid-transfer the assertion fails, and a second transfer loses the first file |
| `SessionHistory.TransferExplained` | libwzd-core/wzd_ClientThread.c:2018-2406 | in every undisturbed run: data moves if and only if some turn started a transfer that no turn since has ended; it is a download if and only if that turn was one, over the socket that its wait gave, with the file it opened |
| `SessionHistory.PassiveExplained` | libwzd-core/wzd_ClientThread.c:479-638 | in every undisturbed run the passive socket is the one last given, or the connection accepted on it, until it is lost, listed over, or the transfer ends |
| `SessionHistory.PortAndExit` | libwzd-core/wzd_ClientThread.c:3373-3539 | in every run the data port is the last one given, and the session is over if and only if some turn ended it |
| `SessionHistory.RenameExplained` | libwzd-core/wzd_ClientThread.c:2981-3076 | in every run RNTO finds a rename under way if and only if an RNFR got through and no command since took its place |
| `SessionHistory.FilesOpened` | libwzd-core/wzd_ClientThread.c:2018-2406 | as many files were opened as turns opened one |
| `SessionContext.Context.constructor` | libwzd-core/wzd_libmain.c:278-302 | the fresh context |
| `SessionContext.Context.DataEndTransfer` | libwzd-core/wzd_data.c:242-256 | closes file and data connection and leaves the transfer |
| `SessionContext.Context.DataSetFd` | libwzd-core/wzd_data.c:278-317 | logs exactly in the failing states, else gives the data socket |
| `SessionContext.Context.DataExecute` | libwzd-core/wzd_data.c:341-458 | goes on with a transfer or ends it |
| `SessionContext.Context.AwaitData` | libwzd-core/wzd_ClientThread.c:479-638 | all sockets after waiting for a data connection |
| `SessionContext.Context.DoRetr` | libwzd-core/wzd_ClientThread.c:2018-2214 | starts a download with that token, the socket of the wait and a new file if and only if every check passes and the connection comes up, and else leaves token, file, state and data socket as they were |
| `SessionContext.Context.DoStor` | libwzd-core/wzd_ClientThread.c:2225-2406 | starts an upload, likewise |
| `SessionContext.Context.DoList` | libwzd-core/wzd_ClientThread.c:656-846 | a listing leaves no data connection behind |
| `SessionContext.Context.DoAbor` | libwzd-core/wzd_ClientThread.c:2600-2624 | ends a transfer if one is on |
| `SessionContext.Context.CheckTime` | libwzd-core/wzd_ClientThread.c:299-424 | ends a transfer that is late, or the session |
| `SessionContext.Context.ClientDie` | libwzd-core/wzd_ClientThread.c:236-295 | ends a transfer and closes the sockets |
| `SessionContext.Context.Turn` | libwzd-core/wzd_ClientThread.c:3373-3539 | one turn of the main loop |
| `SessionContext.Context.ClientThread` | libwzd-core/wzd_ClientThread.c:3290-3553 | over a whole session: in an undisturbed one each turn waits on the socket of the transfer that is on, or on none; an assertion is logged if and only if STAT or MLST interrupts a transfer before the last turn; every file is closed exactly once if and only if none was dropped |
| `CronDate.NextMonth` | libwzd-core/wzd_crontab.c:189-190 | every month begins where the one before it ends, across years and leap years |
| `CronDate.NextRunLater` | libwzd-core/wzd_crontab.c:116-164 | the next run is strictly later, for every specification in range but a month with any day; which moment it is: the rows of CronFirst |
| `CronDate.MonthAnyDay` | libwzd-core/wzd_crontab.c:116-127 | with a month and any day it is later if and only if the last day before the month, at that time, has not come |
| `CronDate.MonthAnyDayMissed` | libwzd-core/wzd_crontab.c:116-127 | a date that fails: at noon on 31 January 2024 a job for February and any day is not dated later |
| `CronDate.LessThanADayBefore` | libwzd-core/wzd_crontab.c:116-191 | for all fields in range the next run is less than a day before the start |
| `CronDate.RedatedBack` | libwzd-core/wzd_crontab.c:86-191 | with time of day and day in range, in UTC: a job is redated to before 1970 if and only if its month field reaches back that far from the clock |
| `CronDate.RunsOnTheMinute` | libwzd-core/wzd_crontab.c:116-151 | an explicit hour is met to the second |
| `CronDate.Localtime` | libwzd-core/wzd_crontab.c:114-114 | normal fields that mktime takes back to the time |
| `CronDate.RunsLater` | libwzd-core/wzd_crontab.c:86-191 | from a clock reading and the text of the fields: a repeating job runs strictly later; which moment it is: the rows of CronFirst |
| `CronFirst.EveryMinute` | libwzd-core/wzd_crontab.c:161-164 | with `*` everywhere the next run is a minute later |
| `CronFirst.MinuteJob` | libwzd-core/wzd_crontab.c:155-160 | a job for a minute runs in the first later minute so numbered, to the second |
| `CronFirst.HourJob` | libwzd-core/wzd_crontab.c:144-151 | a job for an hour runs in the first later hour so numbered, at its minute |
| `CronFirst.DayJob` | libwzd-core/wzd_crontab.c:131-140 | a job for a day runs on the first later day so numbered, at its time, if and only if the month it asks for has that day; for days 1 to 28 always |
| `CronFirst.FirstDay` | libwzd-core/wzd_crontab.c:131-140 | that day, on the calendar: the first later one, or counted on into the next month |
| `CronFirst.MonthJob` | libwzd-core/wzd_crontab.c:116-127 | a job for a month runs in the first later month so numbered, on its day and at its time |
| `CronFirst.DayUnderWay` | libwzd-core/wzd_crontab.c:131-140 | a run is the first later moment of its time on such a day, if and only if the start is not on such a day before that time |
| `CronFirst.HourFirstMoment` | libwzd-core/wzd_crontab.c:144-151 | a run is the first later moment of its time, if and only if the start is not in its hour before that time |
| `CronFirst.HourUnderWay` | libwzd-core/wzd_crontab.c:144-151 | a start that shows it: at ten, a job for half past ten is put off to the next day |
| `CronFirst.StrtolDecimal` | libwzd-core/wzd_crontab.c:96-112 | a field in decimal stands for its number |
| `CronTab.InsertedSorted` | libwzd-core/wzd_crontab.c:51-81 | insertion keeps the list sorted |
| `CronTab.InsertedContents` | libwzd-core/wzd_crontab.c:51-81 | insertion adds just the job |
| `CronTab.PlaceExactly` | libwzd-core/wzd_crontab.c:51-81 | a job goes after the earlier ones and before the others, except after a head of the same time |
| `CronTab.DueExactly` | libwzd-core/wzd_crontab.c:297-314 | in a sorted list the jobs before the first that is not due are exactly those due |
| `CronTab.RequeuedKeeps` | libwzd-core/wzd_crontab.c:316-334 | requeueing keeps the list sorted and what is to become of every job |
| `CronTab.RequeuedExact` | libwzd-core/wzd_crontab.c:316-334 | it gets through if and only if no due job but the last is redated to before 1970 |
| `CronTab.RunOutcome` | libwzd-core/wzd_crontab.c:283-342 | a run leaves the old jobs, the due ones with new dates, minus those whose new date is 0, exactly when it is not blocked |
| `CronTab.InRangeNotBlocked` | libwzd-core/wzd_crontab.c:283-342 | from the second day of 1970 on, jobs whose fields are in range, or that run once, never block |
| `CronTab.BlockedByMonth` | libwzd-core/wzd_crontab.c:316-334 | with time of day and day in range, in UTC: the loop is blocked if and only if the month field of a due job but the last reaches back before 1970 |
| `CronTab.FarBackBlocks` | libwzd-core/wzd_crontab.c:316-334 | an input that blocks, at any time up to the year 3000: a due job for month -24000 leaves the job due after it marked |
| `CronTab.Crontab.InsertSorted` | libwzd-core/wzd_crontab.c:51-81 | relinks the node of a job into the chain at the sorted place, and no other node moves |
| `CronTab.Crontab.Run` | libwzd-core/wzd_crontab.c:283-342 | executes exactly the due jobs, each once and in order; their nodes are relinked into the list or into the list to be freed, and no node is lost or in both |
| `CronTab.Crontab.Requeue` | libwzd-core/wzd_crontab.c:316-334 | the requeue loop over the nodes computes the requeued list |
| `ConfigCut.CutContinues` | libwzd-core/wzd_configfile.c:833-870 | lines of a text go on after those of a prefix |
| `ConfigCut.FirstMatters` | libwzd-core/wzd_configfile.c:843-853 | beginning a block changes nothing if and only if it tears no CR or backslash from its newline |
| `ConfigCut.SplitExact` | libwzd-core/wzd_configfile.c:600-641 | two blocks give the lines of the whole if and only if nothing is torn |
| `ConfigCut.TornBlocks` | libwzd-core/wzd_configfile.c:600-641 | two blocks that fail: a hash and a CR, and a newline |
| `ConfigCut.BlocksDontMatter` | libwzd-core/wzd_configfile.c:600-641 | any number of blocks that tear nothing give the lines of the whole text |
| `ConfigCut.NoEscapesUntorn` | libwzd-core/wzd_configfile.c:600-641 | a text without CR and backslash may be cut into any blocks |
| `ConfigRoundTrip.SettingReadBack` | libwzd-core/wzd_configfile.c:962-1005 | a printed key and value are read back |
| `ConfigRoundTrip.GroupReadBack` | libwzd-core/wzd_configfile.c:941-960 | a printed group name is read back |
| `ConfigRoundTrip.PrintReadBack` | libwzd-core/wzd_configfile.c:678-715 | the printed lines of a clean configuration are read back as it |
| `ConfigRoundTrip.LoadedTidy` | libwzd-core/wzd_configfile.c:647-674 | whatever loads is tidy: keys without blanks at the end and without `=`, values trimmed, keys distinct in their group, only remarks before the first group |
| `ConfigErrors.LoadExactly` | libwzd-core/wzd_configfile.c:902-1073 | for every list of lines: loading succeeds if and only if no line is in error, judged by the lines before it, and otherwise returns the error of the first that is |
| `ConfigRoundTrip.PrintedCut` | libwzd-core/wzd_configfile.c:678-870 | the lines read from a printed configuration: those printed, joined after a backslash |
| `ConfigReload.Reread` | libwzd-core/wzd_configfile.c:678-1005 | if a printed configuration loads as itself, its lines were read one by one |
| `ConfigReload.ConfigRoundTrips` | libwzd-core/wzd_configfile.c:678-1005 | for every text: loading, printing and loading again gives the same groups, keys, values and comments, if and only if no loaded key begins with a blank, no comment ends with a CR or backslash and no value with a backslash; an empty configuration prints as a text that cannot be loaded. For a text with a line that the code reads outside of, this is about the model only |
| `ConfigLost.TornRemarkLost` | libwzd-core/wzd_configfile.c:678-870 | every text of one comment that ends with a CR or backslash and has no newline loads as it is and does not come back |
| `ConfigLost.BackslashLost` | libwzd-core/wzd_configfile.c:678-870 | one such text: a hash and a backslash |
| `ConfigLost.IndentedSetting` | libwzd-core/wzd_configfile.c:962-1005 | in a line of the form key, ` = `, value, with no more blanks before the key than characters in the value: the key keeps them, and the value loses as many characters at its end |
| `ConfigLost.IndentedLost` | libwzd-core/wzd_configfile.c:678-1005 | every group with one such key loads and does not come back |
| `ConfigLost.IndentLost` | libwzd-core/wzd_configfile.c:678-1005 | one such text, with the line " k = v" |
| `ConfigLost.OutsideExactly` | libwzd-core/wzd_configfile.c:962-1005 | for every line of the form key, ` = `, value, the value trimmed: the code reads outside it if and only if there are one or two more blanks before the key than characters in the value |
| `ConfigLost.ValueOutside` | libwzd-core/wzd_configfile.c:990-995 | one such line: "  k = v" |
| `ConfigFile.Config.ParseGroup` | libwzd-core/wzd_configfile.c:941-960 | adds the group up to the last bracket within the shortened line |
| `ConfigFile.Config.AddKey` | libwzd-core/wzd_configfile.c:1040-1073 | adds a key unless its group has it |
| `ConfigFile.SplitKey` | libwzd-core/wzd_configfile.c:971-984 | the key of a line, failing if it is longer than the shortened line |
| `ConfigFile.SplitValue` | libwzd-core/wzd_configfile.c:986-995 | the trimmed value within the shortened line |
| `ConfigFile.Config.ParseKeyvalue` | libwzd-core/wzd_configfile.c:962-1005 | what a key line does, errors included |
| `ConfigFile.Config.ParseOne` | libwzd-core/wzd_configfile.c:902-924 | what a line does, errors included |
| `ConfigFile.Config.FlushBuffer` | libwzd-core/wzd_configfile.c:872-900 | parses what is left |
| `ConfigFile.Config.ParseData` | libwzd-core/wzd_configfile.c:833-870 | parses the lines that a block completes, up to the first that fails, and keeps the rest |
| `ConfigFile.Config.LoadFromData` | libwzd-core/wzd_configfile.c:647-674 | the configuration of a text |
| `ConfigFile.Config.LoadFromBlocks` | libwzd-core/wzd_configfile.c:600-641 | for any blocks: the configuration of a file is that of the lines of its blocks, and that of its text if they tear nothing |
| `ConfigFile.Config.ToData` | libwzd-core/wzd_configfile.c:678-715 | the printed configuration |
| `PathComponents.SimplifiedNames` | libwzd-core/wzd_dir.c:472-483 | what is left are proper names: no empty, `.` or `..` component, and a slash at the end only if there was one or nothing else is left |
| `PathComponents.SimplifiedTwice` | libwzd-core/wzd_dir.c:483-532 | simplifying twice is simplifying once |
| `PathComponents.NameAndBackCancel` | libwzd-core/wzd_dir.c:500-510 | a name and the `..` after it may be left out before a slash |
| `PathComponents.NothingDropped` | libwzd-core/wzd_dir.c:495-510 | an empty component and `.` may be left out before a slash, and `..` at the root |
| `PathSimplify.Look` | libwzd-core/wzd_dir.c:496-501 | the string comparisons after a slash, none past the NUL |
| `PathWalk.AbsoluteResult` | libwzd-core/wzd_dir.c:483-532 | an absolute path never overruns and becomes the simplified path |
| `PathWalk.DropsFirst` | libwzd-core/wzd_dir.c:500-510 | the first name is dropped by the last component if and only if that is `..` and nothing but a first name that can be dropped was written |
| `PathWalk.OverrunEnds` | libwzd-core/wzd_dir.c:500-510 | only a relative path that ends with `/..` can overrun |
| `PathWalk.NameAndBack` | libwzd-core/wzd_dir.c:500-510 | a path of one name and `/..` overruns if and only if the name has more than one character; a name of one stays |
| `PathWalk.TotoOverruns` | libwzd-core/wzd_dir.c:500-510 | the paths toto/.. and a/.. |
| `PathSimplify.Back` | libwzd-core/wzd_dir.c:503-506 | the write index goes back to the last slash before the last character, or to the beginning |
| `PathSimplify.StepBack` | libwzd-core/wzd_dir.c:500-510 | the case of `..`: the last name is dropped, or the first one with the slash after it, passing the NUL only if the path overruns |
| `PathSimplify.AtASlash` | libwzd-core/wzd_dir.c:495-516 | one slash of the loop |
| `PathSimplify.Simplify` | libwzd-core/wzd_dir.c:483-532 | for every path: the read index stays inside the string if and only if the last component does not drop the first name, and then the buffer holds what the walk over the components gives |
| `LinkedList.List.InsNext` | libwzd-base/list.c:67-97 | links a new node after an element or at the head: size, head and tail are those of the longer chain, and the other nodes keep order and data |
| `LinkedList.List.RemNext` | libwzd-base/list.c:99-134 | unlinks the node after an element or the head, or fails exactly when there is none |
| `ListArray.Lists.InsNext` | libwzd-base/hash.c:131-131 | inserting into one list leaves the other lists of the array alone, and no two share a node |
| `ListArray.Lists.RemNext` | libwzd-base/hash.c:153-153 | removing from one list leaves the others alone |
| `HashTable.Table.Find` | libwzd-base/hash.c:178-186 | the walk along the nodes of a chain |
| `HashTable.InsertSorted` | libwzd-base/hash.c:253-272 | links an entry into a list so that it stays in key order |
| `HashTable.Table.constructor` | libwzd-base/hash.c:61-82 | the empty map |
| `HashTable.Table.Lookup` | libwzd-base/hash.c:168-189 | agrees with the map |
| `HashTable.Table.Insert` | libwzd-base/hash.c:111-137 | adds a key, or refuses one that is there |
| `HashTable.Table.Remove` | libwzd-base/hash.c:139-166 | removes a key, or says it is not there |
| `HashTable.Table.Change` | libwzd-base/hash.c:191-214 | changes the data of a key, NULL leaving them |
| `HashTable.Table.InsertOrChange` | libwzd-base/hash.c:216-222 | puts a key |
| `HashTable.Table.Run` | libwzd-base/hash.c:111-222 | under any sequence of operations each key sits once in its bucket, the size is the number of keys, and the contents follow the map |
| `HashTable.Table.Extract` | libwzd-base/hash.c:274-330 | the data of the matching entries, each once, in key order |
| `DesTables.PermutationsInverse` | libwzd-auth/wzd_crypt.c:71-94 | the final permutation undoes the initial one up to the swap of the halves |
| `Des.RoundsUndone` | libwzd-auth/wzd_crypt.c:217-229 | the rounds under reversed keys undo the rounds, for any keys and expansion |
| `Des.DecryptUndoes` | libwzd-auth/wzd_crypt.c:208-232 | for every block, schedule and expansion table |
| `Des.RotatedAtOnce` | libwzd-auth/wzd_crypt.c:246-262 | one rotation by the total shift is all rotations one after the other |
| `Des.KeyIndexRotates` | libwzd-auth/wzd_crypt.c:252-259 | the index arithmetic of the code finds the rotated bit |
| `DesTables.ExpansionIs` | libwzd-auth/wzd_crypt.c:97-105 | the expansion takes each four bits with their two neighbours |
| `DesStandard.SboxIs` | libwzd-auth/wzd_crypt.c:120-170 | the S-boxes are those of FIPS 46-3, rows and columns interleaved |
| `DesStandard.RoundFunctionIs` | libwzd-auth/wzd_crypt.c:182-206 | for every half, round key and expansion: the round function is f of FIPS 46-3, with rows, columns and P as printed there |
| `DesStandard.CipherIs` | libwzd-auth/wzd_crypt.c:208-232 | for every block, schedule and expansion: the cipher is that of FIPS 46-3 between its printed permutations |
| `DesStandard.Complementation` | libwzd-auth/wzd_crypt.c:182-232 | encrypting the complement under complemented round keys gives the complement, for every block, schedule and expansion |
| `DesStandard.KeyComplementation` | libwzd-auth/wzd_crypt.c:182-263 | the same for a complemented key |
| `DesCipher.Cipher.CryptMain` | libwzd-auth/wzd_crypt.c:182-206 | one half mixed with f of the other, as FIPS 46-3 states it |
| `DesCipher.Cipher.Encrypt` | libwzd-auth/wzd_crypt.c:208-232 | the cipher of FIPS 46-3 with the keys in order or reversed; the other direction takes the block back; complementing block and round keys complements the result |
| `DesCipher.Cipher.Undoes` | libwzd-auth/wzd_crypt.c:208-232 | each direction undoes the other, whatever the tables hold |
| `DesCipher.Cipher.SetKey` | libwzd-auth/wzd_crypt.c:234-263 | the sixteen round keys of FIPS 46-3 |
| `DesCipher.Cipher.Salt` | libwzd-auth/wzd_crypt.c:292-309 | salting swaps entries of the table |
| `Crc32.TableIsDivision` | libwzd-core/wzd_crc32.c:39-76 | each of the 256 entries is its index divided by eight shifts |
| `Crc32.Shift8Splits` | libwzd-core/wzd_crc32.c:101-104 | eight shifts act on the low byte alone |
| `Crc32.TableStepDivides` | libwzd-core/wzd_crc32.c:101-104 | one byte by table is its eight bits divided |
| `Crc32.ChecksumContinues` | libwzd-core/wzd_crc32.c:87-89 | continuing from the checksum of a over b gives that of both |
| `Crc32.Residue` | libwzd-core/wzd_crc32.c:117-134 | a message with its own checksum after it always has the checksum 0x2144DF1C |
| `Crc32.BufferChecksum` | libwzd-core/wzd_crc32.c:117-134 | the bit-by-bit checksum of the buffer |
| `Crc32.FileChecksum` | libwzd-core/wzd_crc32.c:81-112 | the loop over blocks is one pass over the selected part of the file |
| `Digest.FoldContinues` | libwzd-auth/wzd_md5.c:75-117 | what follows a message only meets its tail |
| `Digest.PaddedLeast` | libwzd-auth/wzd_md5.c:123-158 | padding fills up to the first end of a block that leaves room for a byte and the length |
| `Md5.LengthRead` | libwzd-auth/wzd_md5.c:154-156 | the length bytes are the bits modulo 2^64, low byte first |
| `Md5.PaddingIdentifies` | libwzd-auth/wzd_md5.c:123-158 | no two messages under 2^61 bytes have the same padded form |
| `Sha1.LengthRead` | libwzd-auth/wzd_sha1.c:134-139 | the length bytes of the standard are the bits modulo 2^64, high byte first |
| `Md5.CountAdds` | libwzd-auth/wzd_md5.c:79-84 | the 64-bit count, with the carry found by comparing |
| `Md5.Context.Update` | libwzd-auth/wzd_md5.c:75-117 | the context holds the fold over complete blocks, the tail and the count |
| `Md5.Context.Final` | libwzd-auth/wzd_md5.c:123-158 | the digest of the padded message |
| `Md5.HashParts` | libwzd-auth/wzd_md5.c:60-162 | the digest does not depend on how the message is split |
| `Sha1.WrittenLengthExact` | libwzd-auth/wzd_sha1.c:134-139 | the length bytes are right if and only if the message is under 2^29 bytes |
| `Sha1.Context.HashStream` | libwzd-auth/wzd_sha1.c:85-113 | the context holds the fold over complete blocks and the tail |
| `Sha1.Context.EndStream` | libwzd-auth/wzd_sha1.c:115-142 | the context ends up folded over the padded message |
| `Sha1.HashParts` | libwzd-auth/wzd_sha1.c:177-185 | the digest does not depend on how the message is split |
| `Base64.EncodedLength` | libwzd-auth/wzd_base64.c:79-99 | the encoded length is four for every three bytes begun |
| `Base64.DigitsInOrder` | libwzd-auth/wzd_base64.c:39-39 | the characters are those of RFC 4648, in its order |
| `Base64.ThreeIsNumber` | libwzd-auth/wzd_base64.c:79-99 | three bytes and their four characters are the same number of 24 bits |
| `Base64.DecodeUndoesEncode` | libwzd-auth/wzd_base64.c:47-100 | decoding gives every byte string back |
| `Base64.Encode` | libwzd-auth/wzd_base64.c:78-99 | the encoding loop computes the encoding of RFC 4648 |
| `Base64.Decode` | libwzd-auth/wzd_base64.c:47-77 | the decoding loop, stopping at the padding, failing outside the alphabet |

## Left out

- Back-references, groups, intervals, anchors, word operators, character classes, empty alternatives, translation tables, two-part strings and backward search of the regular expression engine.
- Compile: malformed patterns and their error codes are not modelled; the pattern is the text of a pattern of the modelled form.
- PopToResume: the skip of a failure point at a loop jump is modelled, and never taken for the modelled patterns.
- ReSearch: an internal error while a fastmap is built leaves one marked accurate, as in the code; it needs more than 2000 pieces.
- ClientThread: transfer threads, SITE and external commands, TLS and the closing of sockets are not modelled.
- Credits, statistics and speed limits of transfers.
- Localtime: years before 0 and daylight saving time are not modelled.
- Crontab.Run: what a job's hook does, and the locking of the list.
- CF_FILE_MERGE_MULTIPLE, and changing a configuration after loading.
- ParseOne: lines for which the code looks outside the line (Inside).
- ParseGroup: such group lines.
- ParseKeyvalue: such key lines.
- SplitValue: such key lines.
- FlushBuffer: such a last line.
- ParseData: texts with such lines.
- LoadFromData: texts with such lines.
- LoadFromBlocks: texts with such lines.
- RedatedBack: zones other than UTC.
- BlockedByMonth: zones other than UTC.
- Simplify: what the code reads once its index has passed the NUL.
- Table.Remove: freeing of keys and data, and running out of memory; keys are compared by equality and are not NULL.
- Extract: the unsorted form, and the overwriting of entries by their data in the nodes of the result, which is a sequence here.
- The rounds of MD5 and SHA-1.
- Update: big-endian machines, where the code reverses the bytes of each word.
- des_crypt around the cipher, the password file and every other use of the algorithms.
- wzd_cache.c, wzd_backend.c, wzd_fs.c, wzd_tls.c, wzd_pam.c, wzd_krb5.c, wzd_file.c and wzd_ip.c: input, output and foreign libraries.
