# Verified model of libaem's text and collection machinery

libaem is a C library. This project models the parts of it that carry an algorithm, states what each
part is for, and proves it for all inputs:

* **Regular expressions** (`regex.c`, `nfa-compile.c`, `nfa.c`). A pattern is parsed into a tree, the
  tree is compiled into a flat program of RANGE, CLASS, CAPTURE, MATCH, JMP and FORK instructions, any
  number of patterns share one program, an optimizer rewrites it, and a virtual machine runs all
  threads side by side, byte by byte, with three bitmaps. `Ast.Matches` says what a tree matches: a
  relation between an input, two positions in it and the capture events in between (positions and not
  strings, because frontier classes look at the bytes on both sides). `NfaSemantics.Step` says what one
  instruction does to one thread. The proofs run all the way through: text spells one tree
  (`RegexGrammar`, `RegexTokens`, `RegexUnambiguous`, `RegexShape`) and the parser finds it exactly when
  there is one (`RegexParser`, `Patterns`), tree and code mean the same (`CompileComplete`, `CompileSound`)
  or the code stands for a tree that can be written down (`CompiledTree`), programs keep their meaning
  while patterns are added and optimized (`NfaProgram`, `NfaObject`, `NfaOptimize`, `StrayJumps`),
  the virtual machine computes exactly the per-byte closures (`VmTheory`, `NfaVm`) and returns the longest
  match (`NfaRun`) with captures that are where its groups matched (`CaptureSpans`). What the characters of a
  pattern match is stated in bytes (`CharClasses`, `AtomMeaning`, `ItemMeaning`, `BracketMeaning`,
  `StringMeaning`).
* **The mark/sweep collector** (`gc.c` with `iter_gen.h` and `linked_list.h`), on heap objects linked
  into a circular list, over an arbitrary and possibly cyclic object graph.
* **The resumable line splitter** (`stringslice.c`), whose lines do not depend on how a stream is cut.
* **The path normaliser** (`pathutil.c`), which uses a string buffer as a stack of names.
* **Escaping and unescaping** (`translate.c`) over **the 32-bit UTF-8 scheme** (`utf8.c`), which extends
  section 3 of RFC 3629.

Functions that change things step by step in C are methods here, with the same loops; each is proved
against a specification, and what the specification is good for is proved in lemmas beside it.
Conventions: bytes are integers from 0 to 255 and `U32` is a 32-bit word whose wrap-around is written
out; `signedChar` says whether plain `char` is signed on the platform; a captures array is the fold
(`NfaVm.Replay`) of the capture events along a path; a bitmap is a sequence of words of 32 bits whose
meaning is the set `Bitfield.Members`.

Some things the code does turn out not to be what its comments or names promise. The model follows the
code, and says exactly when the promise holds:

* ranges above a byte (`CompilerLimits.RangeExact`), non-ASCII atoms where `char` is signed
  (`CompilerLimits.AtomExact`), alternations without children (`CompilerLimits.EmptyAlternation`). In each
  case the code is that of another tree, `CompiledTree.Effective`, and this is what the pattern then matches
  (`CompiledTree.EffectiveCode`, `NfaProgram.MeaningIsOwn`);
* bounds out of order and reluctant repetitions fail to compile: exactly the trees for which
  `CompileFailure.Fails` holds do (`CompileFailure.EmitStatus`). Inside an alternation the failure goes
  unnoticed. Alternatives behind it are lost (`CompileFailure.AlternativesLost`), and forks and jumps that
  were never patched lead to address 0, into another pattern's code, exactly if the tree is
  `CompileFailure.Dangling` (`CompileFailure.EscapesExactly`). Patterns that are not dangling never
  interfere, supported or not (`NfaProgram.AddAccepts`); one that is can (`CompilerLimits.Interference`):
  it adds what the old code accepts from where it strays into it, and loses nothing
  (`StrayJumps.AddAnything`), which does no harm if the strays are threads at the start of the input and
  address 0 is initial, as with `a*?|b` (`StrayJumps.LoneForkIsHarmless`);
* a call with input left over behind the pattern adds nothing and returns 0, which is also the id of the
  first pattern (`Patterns.AddRegex`);
* non-ASCII bytes in string patterns, which are encoded twice (`StringMeaning.StringExact`);
* the complement of a bracket expression (`RangeComplement.CoverExact`, `RangeComplement.ComplementExact`)
  and the comparison that sorts its ranges (`RangeComplement.CompareExact`);
* bracket expressions once they are compiled: the clamp adds the byte 0xFF exactly if some range of the
  output starts above a byte, and without any output the code takes the empty string. So
  `[^\x80-\xff]` takes 0xFF (`BracketMeaning.LastByteSlipsIn`). `BracketMeaning.PlainBrackets` and
  `BracketMeaning.NegatedBrackets` say exactly when the code takes the bytes it should, and
  `BracketMeaning.NegatedAsWritten` says it in terms of the ranges in the text;
* `^` and `$` match where a run of printable bytes and tabs begins and ends, and `\A` and `\z` where one of
  ASCII bytes does (`AtomMeaning.LineEdges`, `AtomMeaning.TextEdges`): none of them matches in an empty line or
  text, nor at the edges of text outside ASCII;
* `\W` is the same class as `\w`, while `\D` and `\S` are complements (`RegexLimits.UpperCaseComplements`);
* a `{` behind an atom leaves no trace in the tree exactly if neither a number nor a comma follows it
  (`RegexLimits.BraceLeavesNoTrace`, `RegexLimits.SwallowedBrace`);
* numbers of 2^64 and more, some of which are taken for small ones (`RegexLimits.NumberIsRight`,
  `RegexLimits.WrapsUnseen`);
* UTF-8 sequences longer than they need be, which the comment in `utf8.c` calls illegal and the decoder
  accepts (`Runes.Reencode`), and escaping of strings that hold such sequences or stray bytes
  (`Translate.RoundTrip`);
* instruction arguments of more than 29 bits (`InsnWords.DecodeEncode`);
* a path extension without a file name to carry it, which is noticed exactly if the path does not end in
  `.` or `..` with something left of it (`SandboxPath.NoNameExactly`): for any `a/b/..` the extension goes
  to the slash behind `a`, and the result does not say so (`SandboxPath.DotsCarryExtension`).

## Model

| member | source | states |
|---|---|---|
| `CompileComplete.Complete` | nfa-compile.c:249-415 | If a supported tree matches from i to j with some capture events, the code emitted for it, wherever it lies in a program, leads from its entry at i to its end at j with those events |
| `CompileSound.Sound` | nfa-compile.c:249-415 | Conversely, any path from the entry of the code to a MATCH passes the end of the code, at a position and with events that the tree matches |
| `CompileComplete.AlternationComplete` | nfa-compile.c:191-248 | Each alternative reaches the end of the alternation through the forks and the patched jumps |
| `CompileSound.AlternationSound` | nfa-compile.c:191-248 | Whatever gets through an alternation matched one of the alternatives |
| `CompileComplete.PlusComplete` | nfa-compile.c:317-360 | `{m,}`: n >= m copies in a row can be walked through m copies and the fork back to the last |
| `CompileSound.LoopSound` | nfa-compile.c:357-372 | A loop through one copy of a tree matches it as often as it goes round, whatever the path |
| `CompileSound.OptionalSound` | nfa-compile.c:345-354 | `{m,n}` as m copies and n-m optional ones matches between m and n times |
| `CompileComplete.OptionalComplete` | nfa-compile.c:345-354 | and every number of times in between has a path |
| `NfaProgram.FragmentCorrect` | nfa-compile.c:417-493 | Behind a MATCH at the end of its code, a tree's fragment accepts exactly the tree's matches |
| `NfaProgram.AddAccepts` | nfa-compile.c:417-493 | Patterns in one program do not interfere: appending one that is not dangling adds exactly what it means to what the program accepts: the matches of the tree its code stands for, or, where an alternative fails to compile, what its code accepts alone |
| `NfaProgram.AddAcceptsOwn` | nfa-compile.c:417-493 | and that is what its code accepts as a program of its own, wherever it lies |
| `NfaProgram.AddKeeps` | nfa-compile.c:417-493 | Whatever is appended, dangling or not, nothing the program accepted is lost |
| `NfaProgram.MeaningIsOwn` | nfa-compile.c:417-493 | What a pattern means is what its code accepts as a program of its own: if no part of it fails to compile, exactly the matches of its effective tree |
| `NfaProgram.MeaningOfSupported` | nfa-compile.c:417-493 | and for a supported tree those of the tree itself |
| `CompiledTree.EffectiveCode` | nfa-compile.c:249-415 | Wherever it lies, the code of a tree no part of which fails is that of its effective tree |
| `CompiledTree.EffectiveSupported` | nfa-compile.c:249-415 | and that tree is supported |
| `CompiledTree.SupportedExactly` | nfa-compile.c:249-415 | Exactly the supported trees are their own effective tree |
| `CompiledTree.WholeExactly` | nfa-compile.c:249-415 | Without lone alternatives that fail, no part of a tree fails if and only if it neither fails nor dangles |
| `RegexShape.PatternShaped` | regex.c:505-533 | and no text spells a tree with such an alternative |
| `StrayJumps.AddAnything` | nfa-compile.c:417-493 | For every tree: an appended pattern adds what gets to its MATCH, and what the old code accepts from where a thread of the new code leaves it for address 0; nothing else |
| `StrayJumps.EarlyStrayIsHarmless` | nfa-compile.c:191-248 | Where address 0 is initial and only threads that have done nothing leave, the old code's part is what it accepted anyway |
| `StrayJumps.LoneForkIsHarmless` | nfa-compile.c:191-248 | A pattern compiled to a lone fork, like `a*?\|b`, is of that kind |
| `NfaProgram.AddServes` | nfa-compile.c:417-493 | What a program owes its patterns holds for one more: each pattern that is not dangling is found, and while none is dangling nothing else is accepted |
| `NfaProgram.AddWellFormed` | nfa-compile.c:466-489 | A pattern keeps every jump, fork, initial bit and capture index in range and control from running off the end |
| `NfaProgram.AddImplements` | nfa-compile.c:417-493 | A program that accepts exactly what its patterns mean does so with one more that is not dangling |
| `NfaProgram.AcceptsExtend` | nfa-compile.c:417-493 | Code after the end of a program changes nothing the program accepts |
| `NfaObject.Nfa.constructor` | nfa.c:75-83 | The empty NFA is valid and holds no patterns |
| `NfaObject.Nfa.PutInsn` | nfa.c:118-152 | Overwrites one instruction or extends the program to it, growing the program and its bitmap, and keeps the initial set |
| `NfaObject.Nfa.AppendInsn` | nfa.c:153-158 | Puts an instruction behind the program |
| `NfaObject.Nfa.CompileNode` | nfa-compile.c:249-415 | Appends exactly the code the specification emits, and fails exactly when it does |
| `NfaObject.Nfa.CompileAtom` | nfa-compile.c:274-286 | Appends one instruction for every byte of the rune's encoding |
| `NfaObject.Nfa.CompileCapture` | nfa-compile.c:378-396 | Appends the code of the child between its two capture instructions, the second only if the child compiles |
| `NfaObject.Nfa.CompileBranch` | nfa-compile.c:397-404 | Appends the code of the children in order, up to the first failure |
| `NfaObject.Nfa.CompileRepeat` | nfa-compile.c:294-377 | Appends the copies, optional copies or loop of a repetition, or fails on bounds out of order and reluctance |
| `NfaObject.Nfa.CompileStar` | nfa-compile.c:360-372 | Fork past the end, one copy, jump back |
| `NfaObject.Nfa.GenAlternation` | nfa-compile.c:191-248 | Emits all alternatives, threading each jump to the end through the next, and back-patches the forks |
| `NfaObject.Nfa.Add` | nfa-compile.c:417-500 | After any history: either the pattern is added whole, with its id, initial bit and captures, or program, initial set, capture count and matching are as before and the return value tells the cause; the NFA stays valid, so that each pattern keeps its meaning beside the others |
| `NfaObject.Nfa.Rollback` | nfa-compile.c:495-499 | Restoring the counters restores the program |
| `CompilerLimits.SupportedIsRight` | nfa-compile.c:249-415 | Every supported tree is compiled right |
| `CompilerLimits.RangeExact` | nfa.c:181-195 | A range is compiled right if and only if the clamp of its bounds to a byte changes nothing it matches |
| `CompilerLimits.AtomExact` | nfa-compile.c:274-286 | An atom is compiled right if and only if it is ASCII or plain char is unsigned |
| `CompilerLimits.EmptyAlternation` | nfa-compile.c:191-248 | An alternation without children matches nothing, but its code accepts the empty string, and only that |
| `CompilerLimits.FailureInsideAlternation` | nfa-compile.c:405-408 | `a*?\|b` compiles without complaint, to a lone fork |
| `CompilerLimits.Interference` | nfa-compile.c:405-408 | With `y(?:a\|b*?)` added behind `c`, the text `yac` is taken for a match of `c` |
| `CompileFailure.EmitStatus` | nfa-compile.c:249-415 | Compiling a tree fails if and only if `Fails` holds of it, and leaves no code if and only if `EmptyCode` does, wherever the code lies |
| `CompileFailure.EmitConfined` | nfa-compile.c:249-415 | For every tree, forks and jumps stay in its code or lead right behind it, except that exactly the dangling trees also have some that lead to 0 |
| `CompileFailure.EscapesExactly` | nfa-compile.c:191-248 | Code that does not lie at 0 has a target outside itself if and only if its tree is dangling |
| `CompileFailure.AlternativesLost` | nfa-compile.c:226-232 | Whatever alternatives follow one that fails, the code is the same |
| `CompileFailure.EmitMoves` | nfa-compile.c:249-415 | The code of a tree that is not dangling is the same everywhere, with its targets moved along |
| `CompileFailure.SupportedIsSafe` | nfa-compile.c:249-415 | Supported trees neither fail nor dangle |
| `InsnWords.DecodeEncode` | nfa.c:171-240 | A 32-bit word gives back its instruction if and only if the argument fits its 29-bit field |
| `InsnWords.ProgramWords` | nfa.c:171-240 | A program below 2^29 instructions with ids and captures in range survives encoding |
| `Bitfield.Set` | nfa.c:19-24 | Setting a bit adds one member |
| `Bitfield.Clear` | nfa.c:25-30 | Clearing a bit removes one member |
| `Bitfield.Test` | nfa.c:31-36 | Testing a bit decides membership |
| `Bitfield.EmptyMembers` | nfa.c:1009-1018 | All words are zero if and only if there are no members |
| `VmTheory.GeneratesStart` | nfa.c:986-1001 | The initial bitmap generates exactly the pcs reachable at position 0 |
| `VmTheory.StartClosure` | nfa.c:986-1001 | What is reachable at position 0 lies in the closure of the initial bitmap |
| `VmTheory.GeneratesNext` | nfa.c:1005-1027 | If the queued pcs generate what is reachable at one position, the consuming successors of their closure generate the next |
| `VmTheory.NextClosure` | nfa.c:1005-1141 | What is reachable at the next position lies in the closure of the consuming successors |
| `VmTheory.DeadStaysDead` | nfa.c:1030-1035 | With no thread left at a position, nothing is reachable at or after it, so stopping early loses nothing |
| `VmTheory.ClosedContains` | nfa.c:693-855 | A set closed under non-consuming steps holds everything they reach |
| `NfaVm.Run.InitThreads` | nfa.c:986-1001 | One thread for every initial bit, none of them captured anything |
| `NfaVm.Run.NextByte` | nfa.c:1007-1035 | Swaps the queues, clears the bitmaps and finds out whether a thread is left |
| `NfaVm.Run.ThreadAdd` | nfa.c:648-685 | The first thread at a pc is queued, later ones are dropped |
| `NfaVm.Run.AddChild` | nfa.c:811-837 | The thread a fork creates, with a copy of the captures, is queued unless its pc was run or is waiting |
| `NfaVm.Run.RunInsn` | nfa.c:705-848 | One instruction has exactly its specified effect on thread, queues and bitmaps, and none of the error returns is reachable in a well-formed program |
| `NfaVm.Run.ThreadStep` | nfa.c:693-855 | A thread runs until it consumes the byte, matches or dies, and at most once through any pc |
| `NfaVm.Run.RunByte` | nfa.c:1042-1136 | The growing queue is worked off (also for empty loops) with at most one execution per pc; map_done ends as the exact non-consuming closure and map_next as the exact set of consuming successors |
| `NfaVm.SetsRun` | nfa.c:693-855 | Running one instruction keeps the account of what has been run, what waits and what comes next |
| `NfaVm.SetsDone` | nfa.c:1052-1127 | With the queue empty, that account is the closure and its successors |
| `NfaVm.GenuineStep` | nfa.c:811-837 | A thread's captures are the fold of the events of a real path, through every step and every fork |
| `NfaVm.GenuineCapture` | nfa.c:774-790 | and through every capture instruction |
| `NfaVm.EffectGenuine` | nfa.c:693-855 | One instruction keeps captures genuine, before and after the byte |
| `NfaVm.ForkKeepsQueue` | nfa.c:669-684 | Dropping duplicates keeps pcs distinct and captures genuine |
| `NfaRun.RunNfa` | nfa.c:951-1192 | -1 and the input left alone if nothing is accepted; else the input advances by the largest accepted length and id, captures and length belong to one accepting path; no pattern that is not dangling matches a longer prefix, and while none is dangling the id is that of a pattern matching it with these captures: every group of the pattern has a span in which its content matches, or none |
| `CaptureSpans.ReplayIsLast` | nfa.c:774-790 | The start of a capture is the position of the last event that begins it on the path, its end that of the last event that ends it, and each is unset without one |
| `CaptureSpans.GroupsMatch` | nfa-compile.c:378-396 | Whatever a tree matches, a group in it has captured nothing or something that its content matches, with start and end in order and within the match |
| `CaptureSpans.SpanFits` | nfa.c:774-790 | and that is what the captures array holds; a group that lies on every way through the tree is captured |
| `CaptureSpans.WholeSpan` | nfa.c:774-790 | A pattern that is one group captures from the beginning to the end of the match |
| `CaptureSpans.ReplayFits` | nfa.c:774-790 | The same for a pattern whose code is that of another tree |
| `NfaRun.BestIsLongest` | nfa.c:1106-1160 | What the run has recorded when it stops is the longest match |
| `NfaRun.RunFindsPatterns` | nfa.c:951-1192 | The longest match of a program is the longest match of the patterns it serves |
| `JumpThreading.LongChainIsEndless` | nfa.c:286-304 | A chain of as many jumps as there are instructions visits one twice and never ends |
| `JumpThreading.EndUnique` | nfa.c:286-304 | A chain of jumps has at most one end |
| `JumpThreading.ThreadedSameAccepts` | nfa.c:305-308 | Sending one jump or fork to the end of its chain changes nothing the program accepts |
| `JumpThreading.ThreadedEnds` | nfa.c:274-315 | nor where any chain of jumps ends |
| `JumpThreading.SplitSameAccepts` | nfa.c:348-375 | Replacing an initial fork by its two successors changes nothing the program accepts |
| `NfaOptimize.FollowJumps` | nfa.c:284-304 | Finds the end of a chain, and gives up if and only if the chain is endless |
| `NfaOptimize.ThreadJumps` | nfa.c:274-315 | Every instruction is threaded or left as the specification says |
| `NfaOptimize.NoJumpsLeft` | nfa.c:274-315 | Afterwards no jump or fork leads to a jump, except into an endless chain |
| `NfaOptimize.SplitInitialForks` | nfa.c:347-375 | The initial set becomes the one in which each initial fork, in turn, gave way to its successors; the program stays well-formed and keeps its meaning |
| `NfaOptimize.LeftoverFork` | nfa.c:347-375 | An initial fork is left over only where a fork at or behind it leads back to it |
| `NfaOptimize.NoForkLeft` | nfa.c:347-375 | Without forks that lead back, no initial fork is left |
| `NfaOptimize.Optimize` | nfa.c:267-409 | The optimized program accepts the same (input, position, id, captures) as before and stays valid for further patterns; every instruction is threaded and the initial forks are split as specified; the bitmap of reachable instructions is exact |
| `ControlFlow.MarkReachable` | nfa.c:242-266 | The recursive walk marks its start and all that follows, nothing else |
| `ControlFlow.FindReachable` | nfa.c:378-392 | The bitmap is exactly the control-flow closure of the initial pcs |
| `ControlFlow.RunStaysReachable` | nfa.c:378-407 | No run on any input executes an instruction outside it |
| `RegexParser.FlagsParse` | nfa-compile.c:134-149 | The letters consumed are all the flag letters there are (in a sandbox, letters not allowed there are skipped one at a time) and the result holds exactly those it may set |
| `RegexParser.FlagsAdj` | nfa-compile.c:150-157 | The text consumed spells the change of flags, and is the only one that does (`RegexTokens.FlagChangeUnique`) |
| `RegexTokens.FlagChangeUnique` | nfa-compile.c:134-157 | From a given place, one text spells a change of flags, and one change is spelled |
| `RegexParser.MatchUint` | stringslice.c:331-423 | All digits there are are consumed and give the number; it fails, consuming nothing, only on no digit or where the code's arithmetic finds the value too large |
| `RegexLimits.NumberIsRight` | stringslice.c:331-365 | A number that is accepted has the value of its digits if and only if that is below 2^64 |
| `RegexLimits.NumberFits` | stringslice.c:402-423 | Digits are taken for their value if and only if it fits 32 bits |
| `RegexLimits.WrapsUnseen` | stringslice.c:345-352 | The four values from 2^64 on are taken for 0 to 3 |
| `RegexParser.Context.ParseNamedClass` | regex.c:25-60 | The text consumed spells the class; it fails, consuming nothing, only where no text spells one |
| `RegexGrammar.OnlyOneName` | regex.c:25-60 | There is only one way to read a named class |
| `RegexParser.Context.ParseRange` | regex.c:61-97 | The text consumed spells the range; it fails, consuming nothing, only where there is no rune, or none after a dash |
| `RegexParser.Context.ParseBrackets` | regex.c:118-215 | The text consumed is a bracket expression and the tree its ranges or their complement, sorted wherever the comparison is an order; it fails, consuming nothing, only at a place where a range has to begin and none does, or at a class behind `^` |
| `RegexParser.Context.ParseGroup` | regex.c:229-275 | The text consumed spells the group, whose number comes before those inside; it fails, restoring number, flags and input, only if its pattern was read to its end and no parenthesis follows |
| `RegexParser.Context.ParseAtom` | regex.c:218-386 | The text consumed spells the atom; captures are numbered from the left; it fails, changing nothing, only where no atom begins |
| `AtomMeaning.LineEdges` | regex.c:292-299 | `^` spells one atom, which matches the empty string exactly where the next byte is a line byte and the one before, if any, is not; `$` exactly where the one before is and the next, if any, is not |
| `AtomMeaning.TextEdges` | regex.c:316-332 | The same for `\<` and `\>` with letters and digits, and for `\A` and `\z` with ASCII |
| `AtomMeaning.Dot` | regex.c:288-291 | A dot matches one line byte, or one ASCII byte with the flag for binary |
| `AtomMeaning.LetterClasses` | regex.c:334-350 | The bytes that `\w`, `\d` and `\s` and their upper-case forms match |
| `AtomMeaning.PlainByte` | regex.c:308-311 | Every other ASCII byte that is no metacharacter matches exactly itself |
| `AtomMeaning.EscapedByte` | regex.c:313-365 | Behind a backslash, every other ASCII byte matches exactly the byte its letter stands for, or itself |
| `AtomMeaning.WideRune` | regex.c:278-311 | A rune outside ASCII matches its encoding |
| `AtomMeaning.EscapedWideRune` | regex.c:352-365 | also behind a backslash |
| `AtomMeaning.NumberAtom` | regex.c:313-314 | A numeric escape matches the encoding of its value |
| `AtomMeaning.NoAtomHere` | regex.c:300-307 | The remaining metacharacters, a backslash at the end of the text and the end itself begin no atom |
| `ItemMeaning.StarPlusQuestion` | regex.c:399-443 | An atom with `*`, `+` or `?` spells one item, which matches it any number of times, at least once, at most once |
| `ItemMeaning.Braces` | regex.c:409-436 | With braces it matches as many times as the numbers say, each of which can be left out |
| `ItemMeaning.CapturingGroup` | regex.c:229-275 | A group matches what its pattern matches and records where it begins and ends; an alternation with the flag for explicit captures does not |
| `ItemMeaning.PlainGroup` | regex.c:229-275 | A group with `?:` is its pattern, read under the flags given before the colon |
| `ItemMeaning.FlagsMean` | nfa-compile.c:134-157 | A flag is on if it was on or has a letter before the minus, and has none behind it |
| `ItemMeaning.TwoItems` | regex.c:479-503 | One item behind another matches what they match in turn |
| `ItemMeaning.TwoBranches` | regex.c:505-533 | Branches with a bar between them match what one of them matches |
| `ItemMeaning.NameRead` | regex.c:25-60 | A name is read as a class if and only if it is the name of that class |
| `ItemMeaning.NamedBrackets` | regex.c:25-60 | `[[:digit:]]` and so on match exactly one of the bytes the class is named for, or with a caret one of the others |
| `CharClasses.DigitsAndLetters` | nfa.c:51-61 | Digits, letters of either case and both together, in bytes and in terms of each other |
| `CharClasses.HexDigits` | nfa.c:62 | The class of hexadecimal digits holds those that have a value, which does not depend on the case |
| `CharClasses.PrintedBytes` | nfa.c:51-59 | Graph is the disjoint union of Alnum and Punct, Print is Graph and the space, and Cntrl is the rest of ASCII |
| `CharClasses.SpacesAndLines` | nfa.c:53-65 | The bytes of Space, Blank, Line and Any |
| `ItemMeaning.BytesHeld` | nfa.c:44-72 | Every class holds exactly the bytes it is named for |
| `CharClasses.OnlyAscii` | nfa.c:41-71 | No class holds a byte outside ASCII or the end of the input; negation is the complement everywhere |
| `RegexUnambiguous.AtomExcludes` | regex.c:218-386 | No place has both an atom and a reason to find none, however groups and brackets are nested |
| `RegexTokens.BracketsExclude` | regex.c:118-215 | No bracket expression is both well-formed and malformed |
| `RegexLimits.UpperCaseComplements` | regex.c:336-350 | For w, d and s, the upper-case escape stands for the complement of the lower-case one if and only if the letter is not w |
| `BracketMeaning.RangesAccept` | nfa.c:181-195 | The code of an alternation of ranges takes exactly the bytes in them, and 0xFF if one that starts above a byte reaches that far; without ranges it takes the empty string |
| `BracketMeaning.TakesExactly` | regex.c:118-215 | So a list of ranges is compiled to the bytes asked for if and only if it is not empty and its ranges, with that byte, are these |
| `BracketMeaning.PlainBrackets` | regex.c:118-145 | The code of a bracket expression of ranges takes one byte in one of them if and only if there is a range and the clamp adds no byte |
| `BracketMeaning.NegatedBrackets` | regex.c:118-215 | The code of a negated one whose ranges the comparison can order takes one byte in none of them if and only if the output is not empty, no range meets a later gap in a byte, and 0xFF is not both in a range and added by the clamp |
| `BracketMeaning.NegatedAsWritten` | regex.c:118-215 | Where no range reaches into a later gap: if and only if the ranges leave something out and, if they hold 0xFF, hold everything above it |
| `BracketMeaning.LastByteSlipsIn` | regex.c:118-215 | `[^\x80-\xff]` spells a tree that does not match the byte 0xFF, but its code takes it |
| `RegexParser.Context.ParseBounds` | regex.c:399-443 | The text consumed spells bounds in order; without bounds nothing but a stray brace is consumed; it fails, staying where it was, only at a brace that begins neither a repetition in order nor nothing |
| `RegexTokens.QuantifierUnique` | regex.c:399-443 | From a given place, one text spells a quantifier, with one pair of bounds |
| `RegexLimits.BraceCases` | regex.c:409-436 | Every brace is one of three: passed over, the beginning of a repetition in order, or where reading stops |
| `RegexLimits.BraceLeavesNoTrace` | regex.c:409-422 | A brace behind an atom leaves no trace in the tree if and only if neither a number nor a comma follows it |
| `RegexLimits.SwallowedBrace` | regex.c:409-422 | `a{x` spells the tree that `ax` spells |
| `RegexParser.Context.ParsePostfix` | regex.c:389-476 | The text consumed spells the item; deleting an explicit capture frees its number only if it was the last; it fails only where no atom begins or behind an atom at a bad brace |
| `RegexParser.Context.ParseBranch` | regex.c:479-503 | The branch spells the text up to a place from which no item can be read; the input is left there, or behind one more atom at a bad brace |
| `RegexParser.Context.ParsePattern` | regex.c:505-533 | For every input the parser terminates; the pattern spells the text up to where no item and no bar follows; capture numbers strictly increase from the left and lie below n_captures (consecutive unless explicit captures were deleted or an atom was dropped at a bad brace) |
| `RegexUnambiguous.EndsUnique` | regex.c:505-533 | From a given place, a pattern is read in one way: it has one end and one tree, up to the numbers of captures and the sorting of ranges |
| `RegexUnambiguous.TreeUnique` | regex.c:505-533 | A text spells one tree, in that sense |
| `RegexUnambiguous.SpelledExactly` | nfa-compile.c:453-461 | However a text has been read, nothing is left over if and only if the whole text spells a pattern |
| `CaptureNumbers.DropTop` | regex.c:449-459 | Removing the outermost capture keeps the numbers increasing and in range, whether or not its number is reused |
| `CaptureNumbers.BelowAll` | regex.c:479-533 | Numbers below n along the walk mean numbers below n in the tree, as aem_nfa_add needs |
| `Patterns.AddRegex` | regex.c:536-545 | A pattern is added if and only if the flag text spells flags, the whole text spells a tree under them and the tree compiles; what is added is that tree, with room for all its captures, and no part of it fails to compile unless it is dangling; otherwise the NFA is as before, and the return value is 0 for input left over and -1 for the other causes |
| `Patterns.FlagTextShape` | nfa-compile.c:150-157 | A text spells flags if and only if it is made of flag letters and at most one minus |
| `Patterns.ParseString` | regex.c:547-576 | Every byte becomes one atom |
| `Patterns.AddString` | regex.c:547-577 | A string is added, with every byte as one atom, if and only if the flag text spells flags; otherwise the NFA is as before |
| `StringMeaning.StringMeans` | regex.c:547-576 | The effective tree of a string pattern takes the encodings of its bytes, each taken as a rune, with 0xFF for every byte of those outside ASCII where char is signed |
| `StringMeaning.StringAccepts` | regex.c:547-576 | and so does its code, and nothing else |
| `StringMeaning.StringExact` | regex.c:547-576 | The code accepts exactly the bytes of the string if and only if they are all ASCII |
| `RangeComplement.Complement` | regex.c:147-199 | Computes the specified gaps, and gives up if and only if a child is not a range |
| `RangeComplement.CoverExact` | regex.c:147-199 | For a nonempty list sorted by lower bound, ranges the wrong way round included, the output covers exactly the values in no input range if and only if no range meets a later gap |
| `RangeComplement.ComplementExact` | regex.c:147-199 | For ranges the right way round, the output is moreover ascending and disjoint if and only if no range reaches over a later gap and nothing but a range from 0 follows one that ends at UINT_MAX |
| `RangeComplement.NegatedRangesMatch` | regex.c:147-199 | Then the output as an alternation matches one byte outside all the ranges |
| `RangeComplement.IncreasingIsChained` | regex.c:147-199 | Non-decreasing upper bounds, only the last at UINT_MAX, meet that condition |
| `RangeComplement.ComplementOfNothing` | regex.c:147-199 | No ranges give no output, which is not the complement |
| `RangeComplement.CompareExact` | regex.c:98-117 | The comparison orders two lower bounds if and only if they are less than half the 32-bit range apart |
| `RangeComplement.SortedAlike` | regex.c:98-117 | Where it orders all of a list, sorted by it means sorted by lower bound |
| `Gc.Context.constructor` | gc.c:47-55 | An empty context is valid |
| `Gc.Context.IterGenInit` | iter_gen.h:38-42 | A new object counts as stamped, and its id is new |
| `Gc.Context.IterGenId` | iter_gen.h:57-67 | Stamps an object with the next id, or returns -1 if and only if it is stamped; ids stay distinct and below the count |
| `Gc.Context.Mark` | gc.c:133-146 | Terminates on cyclic graphs; stamps the object and only objects reachable from it, and leaves no newly stamped object with an unstamped child |
| `Gc.Context.MarkedAll` | gc.c:96-107 | Once every start is stamped, the stamped objects are the live ones |
| `Gc.Context.MarkReferenced` | gc.c:96-101 | Every object with references is stamped |
| `Gc.Context.MarkRoots` | gc.c:103-107 | Every object that a root marks is stamped |
| `Gc.Context.MarkAll` | gc.c:91-107 | The stamped objects are exactly those reachable from a referenced object or a root |
| `Gc.Context.DestructDead` | gc.c:109-118 | The unmarked objects are destructed in list order |
| `Gc.Context.SweepOne` | linked_list.h:95-102 | One round of the filtering loop: the two nodes it reads were not freed in an earlier round, and the list loses the next node or keeps it |
| `Gc.Context.FreeDead` | gc.c:120-130 | The list becomes the marked objects in their old order; the others are freed in list order |
| `Gc.Context.Unlink` | linked_list.h:100-102 | Removing a node through its predecessor keeps the circle |
| `Gc.Context.Run` | gc.c:91-131 | With everything registered that is pointed to, an object stays if and only if it was reachable from an object with references or a root; survivors keep their order; the dead are all destructed and then all freed; a second run would find nothing to collect; ids stay distinct and dense |
| `Gc.OnceEach` | gc.c:109-130 | Each dead object is destructed once and freed once, every destructor before any free, and nothing else is touched |
| `Gc.IdsAreDense` | iter_gen.h:44-67 | The ids of k stamped objects are exactly 0 to k-1 |
| `Gc.ReachStaysIn` | gc.c:133-146 | A set that holds the starts and the children of its members holds everything reachable |
| `Gc.PathSurvives` | gc.c:91-131 | Nothing live becomes unreachable when dead objects leave |
| `Gc.Context.Register` | gc.c:78-89 | The object joins the head of the list with one reference and a new id, whether or not what it points to is registered yet |
| `Gc.Context.InsertAfter` | linked_list.h:24-30 | Insertion behind the sentinel keeps the circle |
| `Gc.Context.Ref` | gc.c:149-153 | One reference more |
| `Gc.Context.Unref` | gc.c:155-160 | One reference less, if there is one |
| `Gc.Context.RootRegister` | gc.c:27-35 | The root joins the end of the doubly linked list, whether or not what it marks is registered yet |
| `Gc.Context.RootDeregister` | gc.c:37-43 | The root leaves the list, which stays linked both ways, and is linked to itself |
| `Gc.Context.Dtor` | gc.c:57-76 | All roots leave, and exactly what is reachable from references survives |
| `Lines.MatchNewline` | stringslice.c:85-99 | Consumes one CR, LF or CRLF and returns 2, 1 or 3 for it, or 0 without one |
| `Lines.MatchLineMulti` | stringslice.c:149-213 | Whatever bytes come later, the lines still to come are the one returned and those of the new state and remainder; a complete line is never held back |
| `Lines.BreakEndsLine` | stringslice.c:176-196 | A break ends a line whatever follows, up to the LF that may follow a final CR |
| `Lines.Feed` | stringslice.c:149-213 | All lines of a chunk, with remainder and state carried over |
| `Lines.SplitStream` | stringslice.c:149-213 | For every stream and every way to cut it into chunks, the lines are those of the whole stream split on CR, LF and CRLF |
| `Lines.CutCrlf` | stringslice.c:156-163 | A CRLF cut in two ends one line |
| `Lines.LinesHaveNoBreaks` | stringslice.c:149-213 | No line contains a CR or an LF |
| `StringSlice.Slice.MatchPrefix` | stringslice.c:215-233 | Skips a string if and only if the slice begins with it |
| `StringSlice.Slice.Getc` | stringslice.h:59-65 | The next byte, or -1 at the end |
| `SandboxPath.MatchPathComponent` | pathutil.c:7-27 | The bytes up to the first slash, and all slashes after them |
| `SandboxPath.DropLast` | pathutil.c:63-72 | Backing up to the previous slash drops exactly the last name; the slash the code insists on is there; nothing happens if and only if the stack is empty |
| `SandboxPath.Apply` | pathutil.c:55-78 | One component does to the text what it does to the stack |
| `SandboxPath.AddComponents` | pathutil.c:44-79 | The text after the base is the rendering of the components folded through a stack |
| `SandboxPath.Join` | pathutil.c:28-98 | Base, folded subpath and extension: with an extension the text ends with it and begins with base and subpath, and is longer by exactly the extension unless these ended with it; the result bits say that a ".." met an empty stack, and that an extension was asked for and the subpath ends with a slash or nothing is left of it |
| `SandboxPath.AddExtension` | pathutil.c:89-93 | The same for the last step |
| `SandboxPath.ExtendedUnique` | pathutil.c:89-93 | There is only one such text |
| `SandboxPath.RootExactly` | pathutil.c:30-39 | The base is copied, or "." if it is empty, and one slash added unless it ends with one |
| `SandboxPath.PlainFile` | pathutil.c:44-95 | A subpath that is one name is left as it is, and is a file that can carry an extension |
| `SandboxPath.NoNameExactly` | pathutil.c:81-95 | That is the same as there being no file name to carry the extension, if and only if the subpath does not end in dots, without a slash, and leave something |
| `SandboxPath.DotsCarryExtension` | pathutil.c:63-95 | For all names a and b, `a/b/..` ends like that: what is left is the directory a, and the final text is root, a, its slash and the extension, for any extension that does not end with a slash |
| `SandboxPath.ResolveKeepsNames` | pathutil.c:47-79 | No surviving component is empty, "." or ".." or contains a slash |
| `SandboxPath.ResolveAbove` | pathutil.c:60-72 | Bit 1 is set if and only if some prefix of the components goes up more often than down |
| `SandboxPath.ComponentsOfRender` | pathutil.c:7-27 | Reading a rendered stack gives the stack back |
| `SandboxPath.ResolveTwice` | pathutil.c:28-79 | A normalised path normalises to itself, and no longer climbs |
| `Translate.EscapeRune` | translate.c:4-34 | Appends the escape of a rune |
| `Translate.Escape` | translate.c:35-54 | Appends the escapes of all runes, bytes that start no rune standing for themselves |
| `Translate.ReadNumber` | translate.c:99-113 | The digits of a numeric escape, of fixed number or up to a brace |
| `Translate.UnescapeRune` | translate.c:56-134 | Rune, kind of escape and length as specified; failure leaves the slice unmoved |
| `Translate.Unescape` | translate.c:136-152 | Appends the encodings of all runes, copying what makes none |
| `Translate.LetterEscapes` | translate.c:76-86 | A backslash and one of the seven letters is an escape of the first kind for the byte that goes with it; any other ASCII byte but x, u and U is one of the second kind for itself |
| `Translate.LettersUnescape` | translate.c:76-152 | and the seven are unescaped to these bytes |
| `Translate.RuneFront` | translate.c:63-71 | Any rune but the backslash stands for itself |
| `Translate.EscapedRuneFront` | translate.c:115-118 | also one outside ASCII behind a backslash, as an escape of the second kind |
| `Translate.NumberEscapes` | translate.c:87-114 | A numeric escape is one of the first kind, for the number that its digits are, in either case, modulo 2^32 |
| `Translate.EscapeShape` | translate.c:4-34 | Exactly the printable bytes other than the space, the double quote and the backslash are shown as they are; what form the escape of any other rune has, with lower-case digits |
| `Translate.UnescapeEscape` | translate.c:4-134 | Whatever follows the escape of a rune, unescaping finds the rune and stops at its end, for all named escapes, `\xHH`, `\uHHHH` and `\UHHHHHHHH` |
| `Translate.UnescapeEscapeRunes` | translate.c:35-152 | Unescaping the escape of any runes gives their encodings |
| `Translate.RoundTrip` | translate.c:35-152 | unescape(escape(s)) is s if and only if every byte of s belongs to a sequence that decodes and none of these is overlong by its first two bytes |
| `Translate.RoundTripShortens` | translate.c:35-152 | The two-byte form of NUL comes back as one byte |
| `Translate.EscapedIsPrintable` | translate.c:4-34 | An escaped string is printable ASCII |
| `Runes.PutRune` | utf8.c:66-88 | Appends the encoding of any 32-bit value |
| `Runes.GetRune` | utf8.c:90-140 | Rune and length as specified; failure leaves the slice unmoved; the accumulator never overflows |
| `Runes.DecodeEncode` | utf8.c:57-140 | Every 32-bit value comes back from its encoding, whatever bytes follow, and decoding stops at the boundary |
| `Runes.EncodingForms` | utf8.c:57-88 | The bytes of every encoding, by length, from the bits of the value: up to four as in section 3 of RFC 3629 |
| `Runes.DecodeEncodeAll` | utf8.c:57-140 | Any sequence of encodings decodes to the sequence of values |
| `Runes.Reencode` | utf8.c:37-54 | Decoded bytes are the encoding of their value if and only if their first two bytes are none of the overlong ones (C0, C1, E0 80-9F, F0 80-8F, F8 80-87, FC 80-83), and they are never fewer |
| `Runes.WellEncodedExactly` | utf8.c:57-140 | A text without stray bytes and overlong sequences is a sequence of encodings, and conversely |
| `Runes.OverlongNul` | utf8.c:37-43 | The two-byte form of NUL, called illegal in the comment, is decoded |

## Left out

- Sockets, terminals, module loading, logging, streams, polling, registries, plain containers: not part of this model. Allocation succeeds, and a growing array is a sequence.
- Threads of the virtual machine are values and not heap objects, so that malloc, free and the sharing of capture arrays are not modelled; tracing bitmaps, debug slices, disassembly and printing are dropped.
- Instructions are kept decoded; `InsnWords.DecodeEncode` says when the 32-bit words lose nothing.
- Helper methods split long C functions (for example `RunThread`, `Apply`, `NextLine`, `SweepOne`); the order of the steps is the source's.
- CompileSound.Sound: assumes supported trees (no reluctant repetition, bounds in order, no empty alternation, ranges and atoms that fit a byte). Of the others, those that `CompileFailure.Fails` names are refused, unless they stand inside an alternation. The rest compile: those without a failing part to the code of their effective tree, which is supported; for the others `NfaProgram.AddAccepts` takes what their own code accepts for their meaning. Reluctance is not implemented in the source either.
- NfaRun.RunNfa: which of several patterns matching the same longest prefix gives the id is not stated, only that it is one of them; the code takes the last MATCH executed. Which of several ways to match a prefix supplies the captures is not stated either, and once a pattern is dangling they are only said to belong to a path (`CaptureSpans.ReplayIsLast`).
- NfaObject.Nfa.Add: the parsed pattern is a parameter, as the parser is a callback in the source.
- Ids, program lengths and positions are unbounded integers.
- RegexParser.Context.ParsePattern: an atom in front of a bad brace is dropped by the source without giving back the numbers of its captures; how many are lost is not stated (the pattern is then refused as a whole).
- RegexParser.Context.ParseBrackets: where the comparison is no order, any order may be what qsort leaves; the UTF-8 expansion of ranges is not implemented in the source either.
- Gc.Context.Run: everything a registered object or root points to has to be registered when a run starts (in the source, an object that never was has no generation stamp to look at); a mark callback is modelled as marking every child, and destructor and free callbacks as entries of a log, so callbacks that change references or the graph during a run are not covered; the generation counter is taken not to wrap.
- Gc.Context.Dtor: the warnings about remaining roots and objects are dropped.
- SandboxPath.Join: with an extension and an empty subpath the source reads an uninitialised flag; the result does not depend on it, and the model gives it an arbitrary value.
- Translate.ReadNumber: the digit counter of a braced escape is unbounded, where the source's int would overflow after 2^31 digits.
- Lines.SplitStream: is a caller of the line splitter written for this model; the source leaves the carrying over of remainder and state to its callers.
