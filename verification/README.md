# A model of GNU Make's hard cores

This project models parts of the GNU Make 4.4.1 sources (directory `gnumake/`, Unix
configuration) and the initramfs writer of `mk/gen_assets.py`, and proves what they promise.
`dafny verify dfyconfig.toml` checks all of it.

| files | what they model |
|---|---|
| `Powers`, `RoundUp`, `Probing`, `HashTable`, `HashTableRuns` | the open-addressing hash table: an odd step visits every slot, lookups end, any run answers like a finite map |
| `CommandLine`, `ArgBuffer`, `ShellWords`, `FastLines`, `SlowPath`, `ConstructArgv` | a recipe line becomes an argv: the one-pass tokenizer, the same in its buffers, its agreement with the quoting rules of POSIX, which lines it takes, and the escaping of a line that needs a shell with its way back |
| `Scheduler` | running and waiting children, job slots, jobserver tokens |
| `PatternRules`, `TryRules`, `PatternSearch` | the search for an implicit rule |
| `GetoptExchange`, `Getopt` | the permuting option scanner |
| `Fnmatch` | the wildcard matcher |
| `DirCache` | the lazily read directory cache |
| `Filter`, `Abspath` | `$(filter)`, `$(filter-out)` and `$(abspath)` |
| `AutoVars`, `Recipe` | `$+ $^ $? $\|`, and the splitting of recipes into lines |
| `IntBits` | the bound on decimal lengths |
| `Wrappers`, `WordLists` | optional values, and lists of words as text |
| `Cpio` | the cpio "new ASCII" writer, with a reader after cpio(5) |

Code that changes things step by step is modelled by classes, arrays and loops, each proved
against a function or relation that says what it computes. What the operating system answers
is a parameter: `World` for the scheduler and for the rule search, `Disk` for the directory cache.

Some of what one would expect of the code does not hold. Each time the model keeps the code as
it is, gives an input, and proves when the expectation is met:

- the probe sequence misses slots of a table with more than 2^32 slots, because the index is a 32-bit number (`Probing.VisitsAllIff`, `Probing.VisitsIff`);
- an empty quoted word before a backslash-newline is swallowed by the word after it (`ShellWords.GluedExample`, `ShellWords.FastPathIsReference`);
- for a line that needs a shell one nested call is not always enough. For a shell that starts with a word, and no single quotes and backslashes in shell and flags, it is if and only if the first word of the shell is neither an assignment nor a builtin, and the flags, which are not escaped, have no character that is special to a shell (`ConstructArgv.OneCallIff`): a SHELL such as `A=1 sh` or .SHELLFLAGS such as `-c;` needs a second one, by which `/bin/sh` gets the rebuilt line (`ConstructArgv.AssignmentShell`, `ConstructArgv.SpecialFlags`); two are always enough (`ConstructArgv.TwoCallsAtMost`);
- the test for an empty line compares with the length of the unescaped shell, and counts newlines that are not looked for: a shell is started with nothing to run if the name of the shell needs escaping, or for bare newlines from `$(shell)` (`ConstructArgv.EmptyLineRuns`, `ConstructArgv.TildeShell`, `ConstructArgv.NewlineRuns`);
- with a load limit, and in a build without the jobserver (else `job_slots` is at most one, `gnumake/src/main.c:2186-2226`), any number of slots above the limit can be in use (`Scheduler.Exceeds`); without a load limit, or with jobs run one by one, no more slots are in use than there are;
- and yet any number of jobs can run then without a slot, if their first command lines cannot be started and that is ignored (`Scheduler.Uncounted`); no more jobs run than there are slots and such failures, and with the jobserver no more than there are tokens (`Scheduler.Make.RunningLimit`);
- an implicit rule without prerequisites is given the prerequisites found for the rule tried before it (`PatternSearch.LeftoverExample`, `PatternSearch.LeftoverEmptyIff`);
- the other targets of an implicit rule are not made in the directory of the file if they have something before the %: for `lib%.a lib%.so` and `d/libx.a` make expects `libd/x.so` (`PatternSearch.Searcher.LibraryExample`, `PatternSearch.Searcher.AlsoMadeIff`);
- a directory name that comes to denote another directory may go on being answered from the old one (`DirCache.StaleAlias`), exactly when the old one has been read again, by another name, since the last command (`DirCache.Cache.FileExists`);
- the buffer of `$?` can be too short: an order-only prerequisite that is newer lends its place to a normal one of the same name that is not (`AutoVars.QmarkOverrun`, `AutoVars.QmarkFitsIff`);
- a file named like the trailer ends a cpio archive (`Cpio.NamedLikeTrailer`, `Cpio.RoundTrip`).

## Model

| member | source | states |
|---|---|---|
| RoundUp.RoundUp2Correct | gnumake/src/hash.c:315-330 | round_up_2 gives the least power of two strictly above its argument when that fits in 64 bits, and 0 for exactly the other arguments |
| Probing.OddStepSolves | gnumake/src/hash.c:29-34 | an odd step reaches any target modulo a power of two |
| Probing.SlotClosed | gnumake/src/hash.c:100-116 | the loop that adds the step and masks is at start + n * step, modulo the table size |
| Probing.VisitsSlot | gnumake/src/hash.c:93-116 | in a table of up to 2^32 slots every slot is probed sooner or later |
| Probing.VisitsAllIff | gnumake/src/hash.c:93-116 | all slots are probed if and only if the table has at most 2^32 of them |
| Probing.VisitsIff | gnumake/src/hash.c:93-116 | in a table of any size exactly the slots below 2^32 are probed |
| HashTable.TerminatesIff | gnumake/src/hash.c:93-116 | a lookup ends if and only if a slot that a 32-bit index can name is null or an equal item is stored |
| HashTable.NoMatchBeforeNull | gnumake/src/hash.c:98-116 | a null slot on the probe path proves that no equal item is stored |
| HashTable.StoreKeepsLayout | gnumake/src/hash.c:135-154 | storing in the slot that was found keeps every item reachable and every two items different |
| HashTable.DeleteKeepsLayout | gnumake/src/hash.c:163-175 | a tombstone keeps every other item reachable |
| HashTable.TableSize | gnumake/src/hash.c:41-47 | the size is the least power of two above the number of items announced, at least 16 for eight items or more; it wraps around to 0 from 2^63 items on |
| HashTable.Table.constructor | gnumake/src/hash.c:41-63 | an empty table with all slots null and the counters to match |
| HashTable.Search | gnumake/src/hash.c:84-117 | the probe loop: the slot of the equal item if there is one, else the first slot on the probe path that holds no item, be it a tombstone or null |
| HashTable.Table.FindSlot | gnumake/src/hash.c:84-117 | the same for the table, which is not changed |
| HashTable.Table.FindItem | gnumake/src/hash.c:119-124 | the equal item if and only if one is stored |
| HashTable.Table.LookupTerminates | gnumake/src/hash.c:136-154 | in tables of 16 to 2^32 slots always, in smaller ones up to the announced number of inserts, in larger ones up to 2^32 - 1 inserts, a slot in reach is null and every lookup ends |
| HashTable.Table.Rehash | gnumake/src/hash.c:250-275 | same size or double; nothing is lost, no tombstone is left, the counters are exact |
| HashTable.Table.InsertAt | gnumake/src/hash.c:135-154 | the item takes the place of an equal one, fill and empty-slot counters stay exact, and the slot returned holds it also after a rehash; in a table of more than 2^32 slots there is none, and no other slot changes |
| HashTable.Table.Insert | gnumake/src/hash.c:126-133 | the contents lose the equal item and gain the new one, and the old one is returned |
| HashTable.Table.Delete | gnumake/src/hash.c:156-175 | the contents lose exactly the equal item, which is returned |
| HashTable.Table.DeleteAt | gnumake/src/hash.c:163-175 | the slot becomes a tombstone, and the counters stay exact |
| HashTableRuns.AnswerIsLastStored | gnumake/src/hash.c:119-124 | an answer from contents that track a history is the item last stored under an equal key |
| HashTableRuns.TracksStep | gnumake/src/hash.c:126-175 | each operation keeps the contents in step with the history |
| HashTableRuns.Run | gnumake/src/hash.c:41-175 | after any sequence of inserts, deletes and lookups, of any length, every answer is the item last stored under an equal key, and every lookup ends |
| HashTableRuns.OutOfReach | gnumake/src/hash.c:93-175 | in every table created with more than 2^32 slots there is a run of 2^32 inserts, each followed by a delete, after which no lookup ends: one insert fewer is the most that LookupTerminates can allow |
| CommandLine.SkipBlanks | gnumake/src/job.c:3165-3166 | the first position that holds no blank, everything before it being blank |
| ArgBuffer.Buffer.Put | gnumake/src/job.c:3169-3171 | the character is added to the argument being written, within the buffer |
| ArgBuffer.Buffer.EndArg | gnumake/src/job.c:3129-3134 | the argument is closed by a NUL and the next one starts behind it |
| ArgBuffer.ArgumentAt | gnumake/src/job.c:3181-3187 | the pointer of each argument points at its text, followed by a NUL |
| ArgBuffer.Round | gnumake/src/job.c:2985-3172 | one character of the line changes buffer and flags as one step of Scan, without leaving the buffers |
| ArgBuffer.CloseList | gnumake/src/job.c:3174-3195 | at the end of the line the last argument counts if it is nonempty or quoted, the list is closed by a null pointer, and a lone builtin is left to the shell |
| ArgBuffer.FastPath | gnumake/src/job.c:2961-3203 | buffers of strlen + 1 entries suffice, the shell is asked for exactly when Scan asks for it, and otherwise the C strings in the buffer are the arguments of Scan |
| ShellWords.Agree | gnumake/src/job.c:2985-3172 | from any state the tokenizer continues with the reference words, up to words glued at a continuation |
| ShellWords.FastPathIsReference | gnumake/src/job.c:2961-3203 | an accepted line has no unquoted character that section 2.2 of POSIX.1-2017 XCU says is to be quoted, nor one that is special elsewhere in a shell, and gives the words of that section if and only if no empty quoted word is glued to a later one; the line ends where the first newline outside of continuations is |
| ShellWords.NoContinuationNoGlue | gnumake/src/job.c:2961-3203 | without backslash-newline the argv is always that of the reference |
| ShellWords.SpecialIff | gnumake/src/job.c:2844 | the characters that are left to a shell are the operators and quoting characters of the standard, those of patterns, comments and tildes, and five more |
| FastLines.BuiltinIff | gnumake/src/job.c:2845-2850 | the commands that are left to a shell are the special built-ins of the standard, utilities that work on the shell itself, four reserved words and three more |
| FastLines.AcceptedIff | gnumake/src/job.c:2961-3203 | a line without newline is run without a shell if and only if it has a meaning without one, its first word has no unquoted equals sign, and is none of those commands |
| FastLines.NoShellCommand | gnumake/src/job.c:3145-3195 | whatever the line, the command that is run is none of those |
| ShellWords.GluedReference | gnumake/src/job.c:3055-3070 | two words in the reference |
| ShellWords.GluedExample | gnumake/src/job.c:3055-3070 | the same line gives one word |
| SlowPath.ScanEscaped | gnumake/src/job.c:3488-3535 | the tokenizer undoes the escaping of the line |
| SlowPath.ScanHead | gnumake/src/job.c:3470-3485 | the tokenizer splits shell and flags at blanks and undoes the escaping of the shell |
| SlowPath.ScanToSpecial | gnumake/src/job.c:2985-3172 | a special character right behind the escaped head sends the line to the slow path |
| ConstructArgv.ReadsBack | gnumake/src/job.c:3467-3542 | the new line never goes to the slow path again |
| ConstructArgv.ScriptIsPrefix | gnumake/src/job.c:3488-3516 | the text handed to the shell is the line up to the first newline that no backslash precedes, or all of it |
| ConstructArgv.SeenAsEmptyTest | gnumake/src/job.c:3536-3541 | the test for an empty line succeeds if and only if the text is empty and nothing of the shell was escaped |
| ConstructArgv.SlowRoundTrip | gnumake/src/job.c:3467-3601 | one nested call gives the words of shell and flags followed by the text |
| ConstructArgv.SimpleShell | gnumake/src/job.c:3467-3601 | for a one-word shell and -c or -ec that is [shell, flags, text] |
| ConstructArgv.SlowWhen | gnumake/src/job.c:2732-3605 | with another shell than /bin/sh, other flags than -c and -ec, an unusual IFS or a line that the tokenizer refuses, the argv is the words of the shell and flags that were given and the line, from its first character that is no blank; without flags these are -ec in POSIX mode and -c else |
| ConstructArgv.OneWordShell | gnumake/src/job.c:2945-2946 | so a shell of one word is called with flags and line |
| ConstructArgv.DefaultShell | gnumake/src/job.c:2950-2959 | and so is /bin/sh, given or not, by an unusual IFS or unusual flags |
| ConstructArgv.FastWhen | gnumake/src/job.c:2961-3203 | otherwise the argv is the words of the tokenizer |
| ConstructArgv.BlankLine | gnumake/src/job.c:2884-2892 | a line of blanks is no command, whatever the shell |
| ConstructArgv.OneCallIff | gnumake/src/job.c:3599-3601 | the first nested call needs no other if and only if the first word of the shell is neither an assignment nor a builtin and the flags have no character special to a shell |
| ConstructArgv.TwoCallsAtMost | gnumake/src/job.c:3205-3605 | for every shell and all flags the result is the words of the rebuilt line or, if the tokenizer refuses that, a call of the default shell with the rebuilt line: there are at most two nested calls |
| ConstructArgv.SecondCall | gnumake/src/job.c:3599-3601 | in the other cases the default shell is left to run the rebuilt line |
| ConstructArgv.AssignmentShell | gnumake/src/job.c:3599-3601 | A=1 sh is a shell of which the first word is an assignment |
| ConstructArgv.SpecialFlags | gnumake/src/job.c:3480-3485 | -c; are flags with a special character, for any shell |
| ConstructArgv.EmptyLineRuns | gnumake/src/job.c:3488-3541 | a shell is started with nothing to run if and only if the line is empty up to the newline looked for, or all newlines, and either the name of the shell needs escaping or there are newlines that are not looked for |
| ConstructArgv.TildeShell | gnumake/src/job.c:3536-3541 | an empty line starts ~sh with nothing to run |
| ConstructArgv.NewlineRuns | gnumake/src/job.c:3488-3541 | without a newline to look for, a line of one newline starts any shell of one word with nothing to run |
| Scheduler.Make.FreeChild | gnumake/src/job.c:1128-1147 | never called without a token; one token fewer, and one pool token given back if more than one was counted |
| Scheduler.Make.StartCommand | gnumake/src/job.c:1173-1345 | the first line that has something to run, those before it having nothing, is started, and the child has the lines after it left; without such a line the child is not running |
| Scheduler.LaunchIff | gnumake/src/job.c:1323-1345 | the same of the function that the contracts of the scheduler use |
| Scheduler.Make.Process | gnumake/src/job.c:914-1094 | a child that succeeded, or whose failure is ignored, goes on with its next line, with its slot or without one; any other one leaves the chain, and its slot and token are free |
| Scheduler.Make.Deceased | gnumake/src/job.c:700-770 | children that never started come before those that wait reports |
| Scheduler.Make.StartWaitingJob | gnumake/src/job.c:1617-1682 | the child waits, in front of the others, if and only if it is local, another holds a job slot and the load is high; else it is in front of the chain with its first line running, or done |
| Scheduler.Make.Reap | gnumake/src/job.c:632-1110 | the invariant is kept, slots are only freed, a blocking call makes progress, with nobody dead nothing changes, and make gives up if and only if a child it cares for has gone after a failure and neither err nor -k is set |
| Scheduler.Make.StartWaitingJobs | gnumake/src/job.c:2181-2204 | jobs are left waiting only while some child holds a job slot |
| Scheduler.Make.WaitForSlot | gnumake/src/job.c:1833-1835 | ends, with the number of slots in use different from the limit |
| Scheduler.Make.AcquireToken | gnumake/src/job.c:1850-1891 | make never goes to sleep without children, and ends with the token for one more child |
| Scheduler.Make.NewJob | gnumake/src/job.c:1686-1970 | the invariant is kept: tokens count running, waiting and in-flight children, pool tokens held are one fewer, used slots count the children that have one, no job is lost or doubled, and without load limit the slot limit holds |
| Scheduler.Make.CleanJobserver | gnumake/src/main.c:3764-3799 | with status 2 every pool token is given back; with another status make complains exactly when children or waiting jobs are left; the make that owns the pool complains of it exactly when it or somebody else still holds a token |
| Scheduler.Make.Die | gnumake/src/main.c:3804-3840 | make waits until no child holds a job slot; if all children hold one, it complains exactly when jobs are waiting and the status is not 2; only with status 0 can a child that fails meanwhile cut the cleaning short |
| Scheduler.Run | gnumake/src/job.c:1686-2204 | the invariant holds after any run in any world, every submitted job is running, waiting or finished, the run ends early if and only if a child that make cares for has failed and -k is not set, and if no failure to start a line is ignored, none is counted as such |
| Scheduler.Make.RunningLimit | gnumake/src/job.c:1652-1660 | in every reachable state the children with a process are no more than the job slots, where these limit, and the failures to start a line that were ignored; with the jobserver no more than the tokens; run one by one, at most one |
| Scheduler.Uncounted | gnumake/src/job.c:1652-1658 | for every limit of two slots or more and every m there is a run without load limit in which m children run and no slot is in use |
| Scheduler.Exceeds | gnumake/src/job.c:1833-1835 | for every limit n of two slots or more and every m there is a run with a load limit that uses n + m slots |
| PatternRules.StemRebuilds | gnumake/src/implicit.c:342-402 | a pattern fits with a stem if and only if directory, prefix, stem and suffix make up the name and directory and stem are not both empty |
| PatternRules.SubstitutedFits | gnumake/src/implicit.c:547-580 | a prerequisite with a % fits the pattern it is written as, with the stem and directory of the target; a word without % stays as it is |
| PatternRules.PrereqsInOrder | gnumake/src/implicit.c:538-600 | each word of a rule gives one prerequisite, in order |
| PatternRules.Accept | gnumake/src/implicit.c:809-875 | an accepted prerequisite qualifies by the case given, and one that is not accepted qualifies by none |
| TryRules.Collect | gnumake/src/implicit.c:314-422 | the list has exactly the rules that fit and may be used, in definition order |
| TryRules.FitsIff | gnumake/src/implicit.c:323-402 | a rule fits if and only if it is not in use, has commands or no prerequisites, its target makes up the name with some stem, and below the top level a lone % is terminal |
| TryRules.CandidateIff | gnumake/src/implicit.c:404-447 | of these the ones with commands are tried, except that next to a more specific rule one with a lone % has to be terminal |
| TryRules.StemLengthIs | gnumake/src/implicit.c:417 | the length by which rules are sorted is that of the name without prefix and suffix |
| TryRules.Sort | gnumake/src/implicit.c:428-431 | a permutation sorted by stem length, then definition order |
| TryRules.Prepare | gnumake/src/implicit.c:314-447 | the list is sorted, complete, and marks as live exactly the candidates |
| PatternSearch.Searcher.TryPrereqs | gnumake/src/implicit.c:755-937 | every prerequisite found qualifies or is made by a sound derivation; on the first pass these are the accepted ones up to the first that is not |
| PatternSearch.Searcher.TryRule | gnumake/src/implicit.c:532-947 | the rule is in use only while its prerequisites are looked for |
| PatternSearch.Searcher.Pass | gnumake/src/implicit.c:448-963 | the first pass finds the least rule that applies, by stem length and definition order, if any applies; the second is sound |
| PatternSearch.LeastIs | gnumake/src/implicit.c:428-431 | the least rule leaves the least of the name for the %, and of equal ones is defined first |
| PatternSearch.ShortIff | gnumake/src/implicit.c:506-511 | a rule is tried only if that is no longer than a path may be |
| PatternSearch.Searcher.Commit | gnumake/src/implicit.c:977-1142 | the intermediate files of the derivation are targets afterwards |
| PatternSearch.Searcher.AlsoMadeIff | gnumake/src/implicit.c:1103-1117 | the name built for another target of the rule is the one in the directory that was set aside if and only if none was, or the target has nothing before the % |
| PatternSearch.Searcher.LibraryExample | gnumake/src/implicit.c:1103-1117 | an example of the other case |
| PatternSearch.Searcher.Search | gnumake/src/implicit.c:209-1163 | the search ends on every set of rules, restores the rules in use, retries only once; what it finds is sound and, if a rule applies without intermediate files, least; it finds nothing only if no rule applies directly, mentioned files included |
| PatternSearch.Searcher.TryImplicitRule | gnumake/src/implicit.c:38-72 | the member's name of an archive member is tried only if no rule was found by the whole name: if a rule applies by the whole name, the least such is chosen; a search in vain means that no rule applies by either name |
| PatternSearch.NoBetter | gnumake/src/implicit.c:839-862 | a rule whose prerequisites did not call for the compatibility retry would not apply in it |
| PatternSearch.AppliesStays | gnumake/src/implicit.c:915-927 | marking names impossible does not stop a rule that applies directly |
| PatternSearch.SoundStays | gnumake/src/implicit.c:970-1015 | what make learns during a search does not undo a derivation |
| PatternSearch.NoRuleTwice | gnumake/src/implicit.c:323-331 | no rule comes back along a chain of intermediate files |
| PatternSearch.LeftoverEmptyIff | gnumake/src/implicit.c:526-540 | a rule without prerequisites gets none if and only if the rule tried last before it had none accepted, or there was none |
| PatternSearch.LeftoverExample | gnumake/src/implicit.c:526-540 | a search in which such a rule is given another rule's prerequisite |
| GetoptExchange.RotatedBlocks | gnumake/src/getopt.c:295-372 | the rotation swaps two adjacent blocks and leaves the rest alone |
| GetoptExchange.ShortBottom | gnumake/src/getopt.c:332-349 | swapping the shorter bottom block with the end of the top leaves a rotation of a smaller range |
| GetoptExchange.ShortTop | gnumake/src/getopt.c:350-366 | the same for a shorter top block |
| GetoptExchange.Exchange | gnumake/src/getopt.c:295-372 | argv is rotated in place |
| Getopt.ReadInterleaves | gnumake/src/getopt.c:502-949 | options and operands of the left-to-right reading are order-preserving parts of the arguments, and together all of them |
| Getopt.RunPermutes | gnumake/src/getopt.c:502-949 | so the final argv is a permutation of the arguments |
| Getopt.KindListed | gnumake/src/getopt.c:902-946 | no colon after an option character stands for no argument, one for an argument, two for an optional one |
| Getopt.KindUnlisted | gnumake/src/getopt.c:763-799 | a character that is not listed, or a colon, is no option |
| Getopt.ReadWritten | gnumake/src/getopt.c:753-949 | clusters of flags, options with the arguments their kinds allow, unknown characters and operands, written in any order and perhaps followed by -- and more, are read as what they were written for |
| Getopt.ReadMissing | gnumake/src/getopt.c:921-940 | an argument that is missing is reported, as a colon if the option string starts with one |
| Getopt.Scanner.Advance | gnumake/src/getopt.c:528-603 | moving on gathers options in front of operands and ends exactly when the arguments do |
| Getopt.Scanner.ShortOption | gnumake/src/getopt.c:753-949 | the option delivered is the next one of the left-to-right reading |
| Getopt.Scanner.Next | gnumake/src/getopt.c:502-949 | one call delivers the next option, or leaves argv as options followed by operands |
| Getopt.Run | gnumake/src/getopt.c:502-949 | a full run delivers all options in order and leaves options, any "--", and operands in original order with optind at the first operand |
| Getopt.RunWritten | gnumake/src/getopt.c:502-949 | so a run on what was written delivers it, and leaves the operands in order behind optind |
| Fnmatch.FitsIsSpells | gnumake/lib/fnmatch.c:133-263 | matching token by token is the same as cutting the string into pieces |
| Fnmatch.StarAny | gnumake/lib/fnmatch.c:183-199 | a star followed by a question mark needs one character, which may be the first |
| Fnmatch.FoldIff | gnumake/lib/fnmatch.c:142-144 | characters are told apart, except that with CASEFOLD the two forms of a letter are not |
| Fnmatch.MatchStar | gnumake/lib/fnmatch.c:177-260 | after a star, true if and only if the rest matches some suffix |
| Fnmatch.InternalFnmatch | gnumake/lib/fnmatch.c:133-448 | true if and only if the rest of the pattern matches the rest of the string |
| Fnmatch.Fnmatch | gnumake/lib/fnmatch.c:454-458 | decides the matching relation of section 2.13 of POSIX.1-2017 XCU for every pattern without an unquoted bracket, under any of the flags NOESCAPE, PERIOD and CASEFOLD |
| DirCache.Cache.ClearContents | gnumake/src/dir.c:276-290 | the stream is closed and counted, and nothing is left |
| DirCache.Cache.Read | gnumake/src/dir.c:726-795 | true if and only if the file is still unread; what is cached and what is unread make up the directory; a stream read to its end is closed |
| DirCache.Cache.OpenStream | gnumake/src/dir.c:613-628 | at most nine streams stay open, and their number is the counter |
| DirCache.Cache.FindDirectory | gnumake/src/dir.c:466-631 | a current entry is left alone, any other one is linked to what its name denotes and is fresh |
| DirCache.Cache.FileExists | gnumake/src/dir.c:636-810 | true if and only if the linked directory has the file and no mark says it is impossible; the linked directory is the one the name denotes if and only if the name is not linked to another one that has been read since the last command |
| DirCache.Cache.MarkImpossible | gnumake/src/dir.c:892-987 | the file is marked in the directory that the name is linked to, and no other mark changes |
| DirCache.Run | gnumake/src/dir.c:466-987 | in any run every answer is right about the directory that the name is linked to, except that a file may be denied that was marked impossible in that directory since the last command; never more than nine streams are open between two calls |
| DirCache.UsedIsDenoted | gnumake/src/dir.c:486-530 | as long as directories stay where they are, that directory is the one the name denotes |
| DirCache.StaleAlias | gnumake/src/dir.c:486-498 | a run with a wrong answer after a directory name has moved |
| Filter.PatternMatchesIff | gnumake/src/function.c:292-316 | a word matches if and only if it is prefix, some stem, and suffix |
| Filter.Words.Insert | gnumake/src/function.c:1080-1090 | each word is chained to the last equal word before it |
| Filter.Words.MarkHashed | gnumake/src/function.c:1099-1110 | following the chain marks all equal words and no other, and ends |
| Filter.Words.MarkAll | gnumake/src/function.c:1078-1115 | with and without the table a word is marked if and only if some pattern matches it |
| Filter.FilterFilterout | gnumake/src/function.c:1003-1140 | the result is the text of the words kept, in order |
| Filter.Partition | gnumake/src/function.c:1117-1124 | every word is kept by exactly one of filter and filter-out |
| Abspath.BackUp | gnumake/src/function.c:2236-2242 | the buffer goes from a path to its parent, the root staying the root |
| Abspath.Append | gnumake/src/function.c:2243-2254 | the component is added, or refused if and only if the name would reach the limit |
| Abspath.AbsoluteName | gnumake/src/function.c:2151-2263 | the buffer ends up holding the fold over the components, or nothing exactly for an empty name, a missing starting directory or a name too long |
| Abspath.ResolvePlain | gnumake/src/function.c:2148-2149 | no empty, "." or ".." component is left |
| Abspath.RelativeName | gnumake/src/function.c:2162-2190 | a relative name resolves like the absolute one that it makes with the starting directory |
| Abspath.Idempotent | gnumake/src/function.c:2151-2263 | applied to its own result, from any starting directory, it gives that result |
| AutoVars.CaretAndBar | gnumake/src/commands.c:241-300 | $^ has exactly the names with a normal occurrence, $\| those with order-only ones alone, no name twice |
| AutoVars.QmarkOfCaret | gnumake/src/commands.c:286-299 | $? is a sublist of $^, and all of it under --always-make |
| AutoVars.CaretFits | gnumake/src/commands.c:230 | $^ needs no more room than the buffer sized for $+ |
| AutoVars.BarFits | gnumake/src/commands.c:177-191 | $\| needs no more room than was counted for it |
| AutoVars.QmarkFitsIff | gnumake/src/commands.c:202-223 | the length computed for $? is enough if and only if the names that an order-only prerequisite lends to $? take at most one byte more than the normal prerequisites that are counted without need |
| AutoVars.NothingLent | gnumake/src/commands.c:202-223 | under --always-make, and when the occurrences of each name are all newer or all not, nothing is lent |
| AutoVars.QmarkOverrun | gnumake/src/commands.c:202-223 | an order-only x that is newer and then a normal x that is not: the length is one, and the text needs more |
| AutoVars.Upgrade | gnumake/src/commands.c:246-264 | the table has the first occurrence of each name, order-only if and only if no normal one was met |
| AutoVars.SetFileVariables | gnumake/src/commands.c:177-313 | the four values, with $^ written into the buffer of $+; the buffer of $? is overrun if and only if the length computed is not enough and no earlier call has left a buffer large enough; the others never are |
| Recipe.ChopCommands | gnumake/src/commands.c:349-391 | the lines end at the newlines before which the backslashes pair up; fatal if and only if there are more than 65535 |
| Recipe.EndsIff | gnumake/src/commands.c:349-391 | a newline ends a line if and only if an even number of backslashes stands before it |
| Recipe.PrintCommands | gnumake/src/commands.c:681-711 | the same lines, each with the prefix |
| Recipe.JoinRestores | gnumake/src/commands.c:349-391 | joining the lines gives the text back, with a newline added if and only if the text is not empty and its last character is not a newline that ends a line |
| Recipe.ChopUndoesJoin | gnumake/src/commands.c:349-391 | lines whose newlines are all quoted and whose last backslashes pair up are found again |
| IntBits.BoundHolds | gnumake/lib/intprops.h:52-55 | a value below 2^b prints in at most (b*146+484)/485 digits |
| IntBits.TightBelow | gnumake/lib/intprops.h:52-55 | for fewer than 2621 bits some value needs all of them |
| IntBits.NotTight | gnumake/lib/intprops.h:52-55 | for 2621 bits none does |
| Cpio.NewcEntry | mk/gen_assets.py:10-21 | an entry is a multiple of four bytes |
| Cpio.WriteInitramfs | mk/gen_assets.py:24-29 | the archive is the entries of the stripped names and the trailer |
| Cpio.StripIs | mk/gen_assets.py:28 | all slashes at the start of a name are dropped, and nothing else |
| Cpio.StrippedAt | mk/gen_assets.py:26-28 | the files keep their order and data |
| Cpio.Constants | mk/gen_assets.py:12 | the magic number and the name of the trailer |
| Cpio.HexDigitIs | mk/gen_assets.py:12-16 | digits are written in lower case |
| Cpio.EntryRead | mk/gen_assets.py:10-21 | a reader that aligns by offset in the archive finds name and data of an entry, and the next entry behind it |
| Cpio.EntryFields | mk/gen_assets.py:12-16 | the reader finds every field of a header as written: zero but for mode, link count and lengths |
| Cpio.DecodeEntries | mk/gen_assets.py:24-29 | reading gives the files up to one named like the trailer |
| Cpio.RoundTrip | mk/gen_assets.py:24-29 | an archive of names and data below 2^32 bytes is read back as written if and only if no stripped name is TRAILER!!! |
| Cpio.WritesRegular | mk/gen_assets.py:24-29 | to the reader every entry of an archive is a regular file of mode 0644 with one link |
| Cpio.NamedLikeTrailer | mk/gen_assets.py:24-29 | an archive of one file of that name is read back as empty |

## Left out

- Hash table: statistics counters, hash_map, hash_dump, hash_free and hash_load.
- HashTable.Table.constructor: not for hints of 2^63 items and more, for which the size wraps around to 0 and there is no table.
- HashTableRuns.Run: does not go beyond 2^32 - 1 inserts in a table that outgrows 2^32 slots, because tombstones may then take all slots in reach and the lookup does not end (HashTableRuns.OutOfReach).
- Recipe lines: .ONESHELL, batch-mode shells, IFS other than the default, and the steps of start_job_command that only print or open files.
- ConstructArgv.OneCallIff: not for a shell that does not start with a word, nor with single quotes or backslashes in shell or flags, whose meaning for the tokenizer is left to ConstructArgv.TwoCallsAtMost.
- Scheduler.Make.Die: the tokens in the pool when the waiting is over are given, since other processes take and return them meanwhile.
- Scheduler: signals, the children of $(shell), deaths of processes that make did not start, and wait calls that fail. A blocking wait is taken to report some child.
- Scheduler.Make.AcquireToken: the number of times the wait for a token is interrupted is finite, but arbitrary.
- Rule search: second expansion, wildcards and VPATH are given functions; what else is copied into struct file (stem, commands, flags) and the shuffling of prerequisites.
- PatternSearch.Searcher.Search: no claim that a rule is found whenever one could be by way of intermediate files, since names are marked impossible depending on the rules in use at the time.
- Getopt: long options, -W foo, orderings other than PERMUTE, and messages.
- Fnmatch: bracket expressions, FNM_FILE_NAME and FNM_LEADING_DIR.
- DirCache: the splitting of file names into directory and file, archive members, and entries that are not real (inode 0).
- Filter: the splitting of text into words and the quoting of percent signs; the hash table of the words is a map, which is what HashTableRuns.Run shows it to be.
- Abspath.AbsoluteName: the starting directory is taken to be a normalized path that fits, as getcwd gives it.
- Abspath.Idempotent: likewise.
- AutoVars: archive members appear by their full name; $< $@ $* $% and the D and F variants.
- Recipe: the flags of recipe lines.
- Jobserver pipes, load averages, process creation, $(shell), $(eval), $(wildcard), guile.c, load.c, arscan.c, default.c and the parser: system calls, tables or plumbing that would add only easy members.
- purec.py and the other scripts of mk/: user interface and text generation.
