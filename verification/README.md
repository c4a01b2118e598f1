# Clipboard for MINIX: verification model

The repository adds a clipboard to MINIX: a character driver with a table of entries, two library
calls that talk to it through message sizes, a process-manager query deciding who may paste what, and
`copy_safely`/`paste_safely`, which cipher and run-length compress the text on its way through. This
project models these parts in Dafny and proves what they promise each other.

| file | what it holds |
|---|---|
| `Chars.dfy`, `Decimal.dfy` | signed 8-bit characters, C remainder, decimal digits and their value |
| `RunLength.dfy` | the run-length format as printing and parsing of token lists; when it loses something |
| `Vigenere.dfy` | the key schedule and the cipher; when deciphering restores |
| `Codec.dfy` | the procedures of `compress.c`, in place on arrays |
| `SizeCheck.dfy` | the library's own parser of the format, in 32-bit arithmetic |
| `Clipboard.dfy` | driver state, request handlers as functions, the invariant |
| `LiveUpdate.dfy` | saving to and restoring from the data store |
| `DriverRuns.dfy` | runs of many processes' requests: invariant, lock stability, conservation, refinement of a map |
| `Ledger.dfy` | which store each hand-over delivers: a one-to-one matching over every run |
| `Driver.dfy`, `Service.dfy` | the free-id stack and the driver as classes, tied to those functions; serving a run |
| `Ancestor.dfy` | the ancestor walk and the relation it decides |
| `Client.dfy` | the library calls and `copy_safely`/`paste_safely` on arrays |
| `EndToEnd.dfy` | copy and paste through all layers |

What the code does, where it is not what one would expect:

- `decompress` keeps counts modulo 26 (`test/asm/compress.c:136`), so a run of n characters comes back
  as n mod 26 of them, and as one when 26 divides n. The round trip is therefore stated with its exact
  condition: no digit in the text and no run of 26 or more. `EndToEnd.LongRunWitness` is a text that is lost.
- Digits in front of the first other character join that character's count when decompressing but
  are a token of their own for the size check. The check can then promise too little
  (`SizeCheck.LeadingDigitWitness`). It does so exactly for the strings `RunLength.Short` describes: digits in
  front, no later count of 26 or more, and a joined count that writes more than its two parts announce
  (`RunLength.SizeCheckConservative`).
- The size check sums in 32 bits. Even when every count fits, the sum can wrap
  (`SizeCheck.WrappedSumWitness`); it is exact precisely when the announced total fits.
- `cipher` refuses keys longer than 1024 characters, and both callers ignore the refusal
  (`test/asm/compress.c:233` and `:259`). The text then travels as it is, and the round trip still holds, so
  the results about copy and paste need no bound on the key.
- `char` is signed and 8 bits wide, and every store into one is truncated explicitly. On letters no
  store truncates (`Vigenere.LetterShifted`).
- A hand-over to a process without a lock makes `clipboard_read` answer 1
  (`bw386389.c:173`), although the repository's README promises -1.
- A lock request gives up the caller's older lock even when the request itself fails.
- The owner query answers for empty slots too, with the owner last recorded there.
- `paste_safely` passes the library the address of the length (`test/asm/compress.c:249`,
  `test/asm/compress.asm:381-387`), while the library takes the length itself (`new/usr/include/unistd.h:132`).
  Linked together, the driver then compares the announced size with an address. That is practically never
  smaller, so the check that should refuse small buffers accepts them (`EndToEnd.PassedAddressWitness`,
  `EndToEnd.PassedAddressMisfit`). In `Client.PasteSafely` the number the library receives is a parameter of
  its own, and every refusal is stated about that number. The test build has a library of its own that
  takes the pointer, but its driver compares the buffer with the compressed length
  (`test/asm/clipboard.c:63`).
- The result of `push_int` added to a pointer in `push_char_count` (`test/asm/compress.c:68`) has no effect.

Modelling choices: the table size and the stack size are parameters, 100 in the source, and
`Clipboard.InitExactly` shows the invariant needs them equal. An entry's `buffer` is the bytes the slot
owns; an empty slot owns none. The stack's `current` pointer is an index. The id in a lock request is
below the table size and a stored message has at most 1024 bytes, as the library makes sure before
sending. What an uninitialised scratch buffer contains is a parameter. Process ids in messages are taken
as the signed numbers they are compared with. Positions in arrays are unbounded numbers that the proofs
keep inside the arrays.

## Model

| member | source | states |
|---|---|---|
| `Decimal.ValueOfDigits` | test/asm/compress.c:43-62 | printing a number in decimal and reading the digits gives the number back |
| `Decimal.U32Digits` | test/asm/compress.c:53-55 | a 32-bit count prints to at most ten digits, so the 16-byte scratch suffices |
| `Decimal.DigitCount` | test/asm/compress.c:43-51 | a number has at most k digits exactly when it is below 10^k |
| `Decimal.DigitsShortest` | test/asm/compress.c:43-51 | no digit string with the same value is shorter than the printed digits |
| `Decimal.HornerStep` | test/asm/compress.c:129-136 | reducing modulo 26 after every digit reads the value of the whole digit string modulo 26 |
| `Decimal.DigitsShort` | test/asm/compress.c:64-69 | a count of two or more takes fewer characters than the run it replaces |
| `Decimal.NumeralInjective` | new/usr/src/minix/drivers/examples/clipboard/bw386389.c:251 | `%d` prints different numbers differently |
| `RunLength.FlattenRuns` | test/asm/compress.c:72-90 | the maximal runs of a text, written out, are the text |
| `RunLength.ParseConcat` | test/asm/compress.c:119-138 | reading distributes over concatenation in front of a non-digit |
| `RunLength.ParsePrint` | test/asm/compress.c:64-69 | the written form of any list of non-digit characters with positive counts reads back as that list |
| `RunLength.ParseEncode` | test/asm/compress.c:72-90 | compression of digit-free text loses nothing: its tokens are the runs, and honouring every count gives the text |
| `RunLength.DistinctNeighbours` | test/asm/compress.c:64-69 | text without equal neighbours is its own encoding |
| `RunLength.RunsConcat` | test/asm/compress.c:78-87 | runs on the two sides of a change of character are independent, which is why flushing at each change is right |
| `RunLength.EncodeShort` | test/asm/compress.c:234 | compression never lengthens any text, digits included |
| `RunLength.EncodedRun` | test/asm/compress.c:64-69 | a run of n equal characters, digits included, is written as the character alone when n is 1 and as the character followed by the plain decimal number n otherwise |
| `RunLength.EncodeConcat` | test/asm/compress.c:78-87 | at a change of character the encoding is the encodings of both sides, joined; with `EncodedRun` this determines it for every text |
| `RunLength.EncodeShortest` | test/asm/compress.c:64-69 | no string that reads as the runs of a text is shorter than its encoding |
| `RunLength.EncodeInstance` | test/asm/asm_tester.c:127 | "zzZmwww" becomes "z2Zmw3" |
| `RunLength.DecodeEncode` | test/asm/compress.c:112-140 | on digit-free text decompression gives every run at its length modulo 26 (at least one), never more than the text, and the whole text exactly when no run reaches 26 |
| `RunLength.RoundTripExactly` | test/asm/compress.c:72-140 | for every text: decompressing the compressed text gives it back if and only if it has no digit and no 26 equal characters in a row |
| `RunLength.DecodeDigitFree` | test/asm/compress.c:112-140 | decompression never writes a digit, whatever the input |
| `RunLength.DecodedToken` | test/asm/compress.c:104-110 | a character with a count is written that often modulo 26, and once when that is zero or no count is there |
| `RunLength.DecodeConcat` | test/asm/compress.c:119-138 | strings starting with a non-digit decompress piece by piece; with `DecodedToken` this determines what is written for them |
| `RunLength.DecodedLead` | test/asm/compress.c:121-127 | digits in front of the first character act as if they stood behind it |
| `RunLength.DecodedDigits` | test/asm/compress.c:112-139 | digits alone write NULs, one fewer than their value modulo 26, and none when that is zero |
| `RunLength.NoLongRunMeansSmallCounts` | test/asm/compress.c:78-87 | no window of 26 equal characters means every run count is below 26, and conversely |
| `RunLength.ExpandAgainstTotal` | test/asm/compress.c:104-110 | the written length is at most the announced total, equal exactly when every count is below 26 |
| `RunLength.ExpectedSizeExact` | new/usr/src/lib/libc/misc/copy_paste_clipboard.c:21-37 | for every string, the 32-bit size is the announced size exactly when that fits in 32 bits |
| `RunLength.SizeOfToken` | new/usr/src/lib/libc/misc/copy_paste_clipboard.c:12-19 | a character and its digits add the count in 32 bits, or one when that is zero or missing |
| `RunLength.SizeOfLead` | new/usr/src/lib/libc/misc/copy_paste_clipboard.c:26-35 | digits in front of the first character add their value in 32 bits, or one when that is zero; with `SizeOfToken` and zero for nothing this determines every size |
| `RunLength.OnlyDigitsAreSafe` | new/usr/src/lib/libc/misc/copy_paste_clipboard.c:26-35 | a string of digits decompresses to no more than it announces |
| `RunLength.DecodeOfParts` | test/asm/compress.c:119-138 | what is written for a string with digits in front: the joined count's copies and what follows |
| `RunLength.AnnouncedOfParts` | new/usr/src/lib/libc/misc/copy_paste_clipboard.c:26-35 | what such a string announces: its leading digits, its first count and what follows |
| `RunLength.Slack` | test/asm/compress.c:136 | one count of 26 or more announces at least 25 characters that are never written |
| `RunLength.AnnouncedExactly` | new/usr/src/lib/libc/misc/copy_paste_clipboard.c:26-35 | a string with a non-digit decompresses to no more than it announces exactly when it is not short |
| `RunLength.SizeCheckConservative` | new/usr/src/lib/libc/misc/copy_paste_clipboard.c:12-37 | for every string whose announced size fits in 32 bits, enough room is promised if and only if it is all digits or not short; a string starting with a non-digit always gets enough, and exactly enough precisely when every count is below 26 |
| `RunLength.ShortBelow25` | test/asm/compress.c:121-136 | a short string's lead and first count announce less than 25 characters |
| `RunLength.LargeSizesAreSafe` | test/asm/compress.c:112-140 | no string, wrapped sums included, decompresses to more than 25 times its length, so a reckoned size of that much is enough |
| `RunLength.ExpectedSizeOfEncode` | new/usr/src/lib/libc/misc/copy_paste_clipboard.c:98 | the two parsers agree: the size reckoned for compressed digit-free text is the length of the text, also for runs above 25 |
| `Vigenere.ShiftsLength` | test/asm/compress.c:149-176 | a key has at most as many shifts as characters, and at least one when it is not empty |
| `Vigenere.ShiftsRange` | test/asm/compress.c:157-172 | every shift of an alphanumeric key is in 0..25 |
| `Vigenere.ShiftsConcat` | test/asm/compress.c:156-174 | the shifts of a key are those of its parts unless a digit run crosses the cut |
| `Vigenere.ShiftCount` | test/asm/compress.c:156-174 | a key has as many shifts as tokens: characters that are no digits, and unextendable digit runs |
| `Vigenere.ShiftAt` | test/asm/compress.c:157-172 | each token's shift stands behind those of the tokens before it: a lower-case letter less 97, another non-digit less 65 in 8 bits, a digit run's value modulo 26 |
| `Vigenere.ShiftsOfLetters` | test/asm/compress.c:169-170 | a key without digits keeps its length, each letter giving its place in the alphabet |
| `Vigenere.KeyInstance` | test/asm/asm_tester.c:124 | "de35" stands for the shifts 3, 4 and 9 |
| `Vigenere.LetterShifted` | test/asm/compress.c:202-209 | on letters no intermediate value leaves the signed char range, the case is kept, and the letter moves cyclically |
| `Vigenere.CharRoundTripExactly` | test/asm/compress.c:201-211 | deciphering restores exactly letters, digits whose shift keeps them digits, and codes below 26 |
| `Vigenere.CipheredAt` | test/asm/compress.c:201-211 | position by position and in plain numbers: letters and digits move cyclically modulo 26 from 97, 65 or 48 by the shift, or by 26 minus it when deciphering; other characters from zero with the sum truncated |
| `Vigenere.CipherMoves` | test/asm/compress.c:201-211 | under an alphanumeric key every letter of any text moves by its shift in that way |
| `Vigenere.CipherInstance` | test/asm/asm_tester.c:124 | "abCzX" under the key "de35" becomes "dfLcB" |
| `Vigenere.CipherInverse` | test/asm/compress.c:188-216 | ciphering and deciphering undo each other on letters, in both orders, for every non-empty alphanumeric key |
| `Vigenere.CipherInverseExactly` | test/asm/compress.c:188-216 | for arbitrary buffers: restored if and only if every position is restorable under its shift |
| `Vigenere.CipheredLetters` | test/asm/compress.c:178-211 | letters stay letters of the same case |
| `Codec.ItoaInverse` | test/asm/compress.c:43-51 | the scratch buffer holds the digits, least significant first |
| `Codec.PushInt` | test/asm/compress.c:53-62 | the digits are appended most significant first and nothing else changes |
| `Codec.PushCharCount` | test/asm/compress.c:64-69 | one token is appended: nothing for an empty run, the character alone for one, else the character and the plain decimal count |
| `Codec.RunEnds` | test/asm/compress.c:80-88 | the flushed token completes the encoding of what has been read, and ends at or before the cursor |
| `Codec.Compress` | test/asm/compress.c:72-90 | the encoding of the original input is written at the front and nothing behind it changes, with `dst` equal to `src` or not |
| `Codec.TokenEnds` | test/asm/compress.c:104-124 | the owed copies complete the token read last and stay within the whole output |
| `Codec.FirstCharacter` | test/asm/compress.c:121-127 | digits before the first non-digit behave as if they stood behind it |
| `Codec.Decompress` | test/asm/compress.c:112-140 | for every input, the decoded text is written at the front and nothing behind it changes |
| `Codec.NormalizeKey` | test/asm/compress.c:149-176 | in place, the key becomes its shifts, token by token: letters less 97 or 65, digit runs modulo 26; without digits length and places are kept |
| `Codec.CipherChar` | test/asm/compress.c:202-209 | one turn of the cipher loop, store by store |
| `Codec.RunCipher` | test/asm/compress.c:188-216 | every letter moves within its case by shift i modulo the number of shifts, or 26 minus it when deciphering; the whole buffer is as the cipher function says and nothing behind it changes; too long a key changes nothing and is refused |
| `Codec.CyclingIndex` | test/asm/compress.c:210 | stepping the key index modulo n keeps it equal to the position modulo n |
| `SizeCheck.IncludeChar` | new/usr/src/lib/libc/misc/copy_paste_clipboard.c:12-19 | adds the count read, or one for a missing count behind the first position, and clears the counter |
| `SizeCheck.ReckonToken` | new/usr/src/lib/libc/misc/copy_paste_clipboard.c:26-35 | closing a token brings the running size to the reckoning of everything read |
| `SizeCheck.ExpectedDecompressedSize` | new/usr/src/lib/libc/misc/copy_paste_clipboard.c:21-37 | the returned size is the sum over the parsed tokens, wrapped at 32 bits, for every string |
| `SizeCheck.LeadingDigitWitness` | new/usr/src/lib/libc/misc/copy_paste_clipboard.c:26-35 | "3a2" decompresses to six characters and is announced as five |
| `SizeCheck.WrappedSumWitness` | new/usr/src/lib/libc/misc/copy_paste_clipboard.c:12-19 | counts that each fit can wrap in the sum and announce one character for 23 |
| `Clipboard.LockFrom` | new/usr/src/minix/drivers/examples/clipboard/bw386389.c:59-68 | the search returns the first entry locked by the process, or none |
| `Clipboard.TheLock` | new/usr/src/minix/drivers/examples/clipboard/bw386389.c:59-68 | the first match is the only one |
| `Clipboard.InitExactly` | new/usr/src/minix/drivers/examples/clipboard/bw386389.c:234-239 | a fresh driver satisfies the invariant exactly when the stack is as large as the table |
| `Clipboard.SetKeeps` | new/usr/src/minix/drivers/examples/clipboard/bw386389.c:81-98 | storing keeps the invariant, uses an empty slot, and fails exactly when no id is free; the id taken is never found in use |
| `Clipboard.FullExactly` | new/usr/src/minix/drivers/examples/clipboard/bw386389.c:84-87 | no id is free exactly when every slot is in use |
| `Clipboard.LockKeeps` | new/usr/src/minix/drivers/examples/clipboard/bw386389.c:100-123 | locking keeps the invariant; it succeeds exactly when the entry is in use, not held by another process and announced no larger than the buffer; afterwards the process holds that entry or nothing |
| `Clipboard.GetKeeps` | new/usr/src/minix/drivers/examples/clipboard/bw386389.c:125-139 | a hand-over keeps the invariant, happens exactly when the process holds a lock, empties that slot and never drops its id |
| `LiveUpdate.BufferNamesDistinct` | new/usr/src/minix/drivers/examples/clipboard/bw386389.c:251 | different slots are published under different names |
| `LiveUpdate.NamesSpelled` | new/usr/src/minix/drivers/examples/clipboard/bw386389.c:243-251 | the names are "clipboard", and "buf_" with the slot's number in decimal without leading zeros |
| `LiveUpdate.SavedStore` | new/usr/src/minix/drivers/examples/clipboard/bw386389.c:241-258 | saving publishes the table without its bytes, the bytes of exactly the slots in use under their names, and leaves every other name alone |
| `LiveUpdate.LiveUpdateRoundTrip` | new/usr/src/minix/drivers/examples/clipboard/bw386389.c:241-283 | restoring what was saved gives the same slots, owners, locks, bytes and free list, and leaves the store without the clipboard's names and otherwise untouched |
| `DriverRuns.Next` | new/usr/src/minix/drivers/examples/clipboard/bw386389.c:141-208 | every request, answered as the read and write entry points answer it, and every live update keeps the invariant and the table size |
| `DriverRuns.OwnerRemembered` | new/usr/src/minix/drivers/examples/clipboard/bw386389.c:150-159 | the owner answered for a slot is that of the last store into it, whatever else happens in between, and -1 outside the table; asking changes nothing |
| `DriverRuns.ReachableStates` | new/usr/src/minix/drivers/examples/clipboard/stack.c:13-39 | in every reachable state the live stack is exactly the empty slots, each process holds at most one lock, and free, used and locked slots add up to the table |
| `DriverRuns.LockStability` | new/usr/src/minix/drivers/examples/clipboard/bw386389.c:100-139 | whatever others do, a locked entry keeps its bytes and lock, and the holder's next hand-over delivers them and empties the slot |
| `DriverRuns.UsedStability` | new/usr/src/minix/drivers/examples/clipboard/bw386389.c:81-139 | an entry nobody asks for stays as it is |
| `DriverRuns.StoredThenDelivered` | new/usr/src/lib/libc/misc/copy_paste_clipboard.c:68-76 | from store through lock to hand-over, with other requests in both gaps: the lock succeeds exactly when the size fits, and then exactly the stored bytes arrive |
| `DriverRuns.Conservation` | new/usr/src/minix/drivers/examples/clipboard/bw386389.c:81-139 | over any run, what was there plus what was stored is what was delivered plus what is there, as multisets |
| `DriverRuns.DeliveryCounts` | new/usr/src/minix/drivers/examples/clipboard/bw386389.c:81-139 | from a fresh start, successful stores minus deliveries is the number of slots in use, and no payload is delivered more often than it was stored |
| `Ledger.RunStepByStep` | new/usr/src/minix/drivers/examples/clipboard/bw386389.c:342 | taking a run step by step gives the run's states and replies |
| `Ledger.ExactlyOnce` | new/usr/src/minix/drivers/examples/clipboard/bw386389.c:81-139 | over every run from a fresh start, each hand-over delivers the entry one earlier store put into that slot, with its id, owner and payload; no two hand-overs deliver the same store's entry; every store's entry is either delivered or still in the table |
| `DriverRuns.Refinement` | new/usr/src/minix/drivers/examples/clipboard/bw386389.c:59-139 | every step is a step of a map from ids to items with an optional lock holder |
| `DriverRuns.RunRefinement` | new/usr/src/minix/drivers/examples/clipboard/bw386389.c:59-139 | every run, with its replies, is a run of that map |
| `Driver.Stack.Push` | new/usr/src/minix/drivers/examples/clipboard/stack.c:13-18 | appends, or does nothing on a full stack |
| `Driver.Stack.Top` | new/usr/src/minix/drivers/examples/clipboard/stack.c:24-28 | the last live value |
| `Driver.Stack.Pop` | new/usr/src/minix/drivers/examples/clipboard/stack.c:30-32 | drops the last live value |
| `Driver.Stack.Init` | new/usr/src/minix/drivers/examples/clipboard/stack.c:34-39 | every index of the array is live, in order |
| `Driver.PidRoundTrip` | new/usr/src/minix/drivers/examples/clipboard/clipboard_protocol.h:18-24 | a pid is encoded as 1032 plus itself, survives the trip, and is never taken for an owner query |
| `Driver.StartFresh` | new/usr/src/minix/drivers/examples/clipboard/bw386389.c:308-314 | a fresh start with the source's sizes is valid and all ids are free |
| `Driver.ClipboardDriver.ClipboardInit` | new/usr/src/minix/drivers/examples/clipboard/bw386389.c:234-239 | the table is emptied and the stack filled |
| `Driver.ClipboardDriver.GetLockId` | new/usr/src/minix/drivers/examples/clipboard/bw386389.c:59-68 | the loop computes the first lock of the process |
| `Driver.ClipboardDriver.DeleteEntry` | new/usr/src/minix/drivers/examples/clipboard/bw386389.c:38-43 | the slot is emptied and its id pushed |
| `Driver.ClipboardDriver.DoRealSet` | new/usr/src/minix/drivers/examples/clipboard/bw386389.c:70-78 | the slot owns a copy of the message's bytes, sizes and owner |
| `Driver.ClipboardDriver.DoSet` | new/usr/src/minix/drivers/examples/clipboard/bw386389.c:81-98 | the in-place handler is the state function, and the driver stays valid |
| `Driver.ClipboardDriver.DoLock` | new/usr/src/minix/drivers/examples/clipboard/bw386389.c:100-123 | the in-place handler is the state function, and the driver stays valid |
| `Driver.ClipboardDriver.DoGet` | new/usr/src/minix/drivers/examples/clipboard/bw386389.c:125-139 | the stored bytes are copied into the reply, which they fit; without a lock the reply is untouched |
| `Driver.ClipboardDriver.ClipboardRead` | new/usr/src/minix/drivers/examples/clipboard/bw386389.c:141-180 | the size decides between owner query and hand-over; a hand-over without a lock answers 1 |
| `Driver.ClipboardDriver.ClipboardWrite` | new/usr/src/minix/drivers/examples/clipboard/bw386389.c:182-208 | the size decides between lock and store; any other size is refused without effect |
| `Driver.ClipboardDriver.Save` | new/usr/src/minix/drivers/examples/clipboard/bw386389.c:241-258 | the store receives the structure and every owned buffer under its name |
| `Driver.ClipboardDriver.Restore` | new/usr/src/minix/drivers/examples/clipboard/bw386389.c:260-283 | the structure and the buffers are fetched and deleted |
| `Driver.Update` | new/usr/src/minix/drivers/examples/clipboard/bw386389.c:241-283 | after a live update the new instance is in the old one's state and the store is clean |
| `Service.ServeOne` | new/usr/src/minix/drivers/examples/clipboard/bw386389.c:141-208 | serving one request, or replacing the instance, is one step of the state machine |
| `Service.Serve` | new/usr/src/minix/drivers/examples/clipboard/bw386389.c:342 | serving a sequence of requests is a run of the state machine, reply for reply |
| `Ancestor.DoCheckIfAncestor` | new/usr/src/minix/servers/pm/do_check_if_ancestor.c:8-36 | on every process forest the walk ends and answers 1 exactly for an ancestor, the relation `ParentStep`, `NoneAboveInit` and `NotAlive` determine, else 0 |
| `Ancestor.ParentStep` | new/usr/src/minix/servers/pm/do_check_if_ancestor.c:28-33 | another process is above a process exactly when it is, or is above, that process's parent |
| `Ancestor.NoneAboveInit` | new/usr/src/minix/servers/pm/do_check_if_ancestor.c:33-35 | nobody else is above init |
| `Ancestor.NotAlive` | new/usr/src/minix/servers/pm/do_check_if_ancestor.c:18-26 | nobody else is above a process that is not alive |
| `Ancestor.FamilyInstance` | new/usr/src/minix/servers/pm/do_check_if_ancestor.c:28-35 | init with a child 5 and its child 9: 5 is above 9, 9 is above neither 5 nor init |
| `Ancestor.StaysAtInit` | new/usr/src/minix/servers/pm/do_check_if_ancestor.c:28-33 | a chain that has reached init stays there, so stopping at init misses nothing |
| `Ancestor.NeverMet` | new/usr/src/minix/servers/pm/do_check_if_ancestor.c:28-35 | a walk that meets init first never would have met the process asked for |
| `Ancestor.AncestorReflexive` | new/usr/src/minix/servers/pm/do_check_if_ancestor.c:12 | every process counts as its own ancestor |
| `Ancestor.AncestorTransitive` | new/usr/src/minix/servers/pm/do_check_if_ancestor.c:12-35 | the decided relation is transitive |
| `Ancestor.AncestorAntisymmetric` | new/usr/src/minix/servers/pm/do_check_if_ancestor.c:12-35 | the decided relation is antisymmetric |
| `Ancestor.InitAboveAll` | new/usr/src/minix/servers/pm/do_check_if_ancestor.c:28-33 | init is an ancestor of every process alive |
| `Client.CopyToClipboard` | new/usr/src/lib/libc/misc/copy_paste_clipboard.c:82-106 | stores the bytes with their reckoned size, or refuses more than 1024 of them |
| `Client.EntryCopied` | new/usr/src/lib/libc/misc/copy_paste_clipboard.c:92-106 | the entry a copy makes holds exactly the bytes, their reckoned size and the owner; it fails exactly when no id is free |
| `Client.LockThenGet` | new/usr/src/lib/libc/misc/copy_paste_clipboard.c:68-74 | a hand-over after a successful lock delivers the requested entry and no other |
| `Client.PasteFromClipboard` | new/usr/src/lib/libc/misc/copy_paste_clipboard.c:39-80 | succeeds exactly for a descendant of the owner, an entry in use and not held by others, and a large enough buffer; then the bytes are copied and the slot emptied, else the buffer is untouched; a process that does not descend from the owner gets -1 and leaves the driver as it was, a refused descendant leaves it as its lock request does |
| `Client.CopySafely` | test/asm/compress.c:226-240 | the entry that reaches the driver holds the compressed ciphertext of the text, its size and its owner, and its length is reported; more than 1024 characters are refused without effect |
| `Client.StringLength` | test/asm/compress.c:243 | the length of the text in the first characters of an array, up to a NUL or the bound |
| `Client.DecodeNulFree` | test/asm/compress.c:256-257 | text without NULs decompresses to text without NULs, so its end is found |
| `Client.PasteSafely` | test/asm/compress.c:244-264 | succeeds exactly when owner, entry and the number the library was passed allow it; a process that does not descend from the owner gets -1 with buffer and driver as they were; on success the buffer holds what unpacking the text seen in the scratch buffer gives, and nothing behind it changes; asks only that the search and the decompression stay inside their arrays |
| `Client.Unpack` | test/asm/compress.c:255-259 | zeroes, decompresses and deciphers up to the first NUL |
| `Client.SeenAt` | test/asm/compress.c:252 | what is taken for the compressed text ends at the first NUL of the scratch buffer or where the caller's buffer ends |
| `Client.SeenInPart` | test/asm/compress.c:252 | of stored text no shorter than the caller's buffer exactly the buffer's length is seen |
| `Client.UnpackedAt` | test/asm/compress.c:255-259 | the decompressed text is deciphered up to its first NUL, and what is behind it stays as it was |
| `Client.ReadableFits` | test/asm/compress.c:252-259 | a payload as `copy_safely` stores them is seen whole, fits, and unpacks to its deciphered text followed by zeros |
| `EndToEnd.CodeFits` | new/usr/src/lib/libc/misc/copy_paste_clipboard.c:68-76 | compressed text of at most 1024 characters can be stored, is announced with the text's length and decompresses to no more |
| `EndToEnd.TextRestoredExactly` | test/asm/compress.c:226-264 | pasting what was copied gives the text back if and only if its ciphertext has no run of 26 or more, and something shorter otherwise |
| `EndToEnd.CopiedIsReadable` | test/asm/compress.c:233-236 | what is copied meets what pasting needs |
| `EndToEnd.BufferRestoredExactly` | test/asm/compress.c:252-259 | a copied payload in a scratch buffer where a NUL follows it is seen whole, fits, and leaves the text at the front of the caller's buffer if and only if its ciphertext has no run of 26 or more |
| `EndToEnd.CopyThenPaste` | test/asm/compress.c:226-264 | copy, lock and hand-over with other processes' requests and live updates in between, down to the caller's buffer: the lock succeeds exactly when the announced length holds the text, and what is delivered unpacks to the text exactly without long runs |
| `EndToEnd.RefusedThenGranted` | new/usr/src/minix/drivers/examples/clipboard/bw386389.c:114-117 | a descendant's paste is granted exactly when it announces at least the stored size; a refusal leaves the entry for a later one |
| `EndToEnd.TakenOnce` | new/usr/src/minix/drivers/examples/clipboard/bw386389.c:125-139 | taking an entry empties its slot and makes its id the next to be used |
| `EndToEnd.NothingLeft` | new/usr/src/minix/drivers/examples/clipboard/bw386389.c:109-112 | an empty slot is granted to nobody, whatever is announced, and stays empty |
| `EndToEnd.PasteTwice` | test/asm/asm_tester.c:155-162 | the first paste of an entry that is there delivers it, the second finds nothing |
| `EndToEnd.ClipboardTest` | test/asm/asm_tester.c:136-166 | the steps of the repository's clipboard test, over the real library and driver, for every text, key, buffer and passed number: the first paste is refused exactly when it passes less than the text's length; a refused entry is delivered to the second paste, a granted one is gone; the third finds nothing |
| `EndToEnd.StrangerThenDescendant` | new/usr/src/lib/libc/misc/copy_paste_clipboard.c:63-66 | after a copy, a paste by a process that does not descend from the owner gets -1 and changes nothing, whatever it announces; a descendant then receives the entry |
| `EndToEnd.PassedAddressWitness` | test/asm/compress.c:248-250 | "abcd" announced as four, pasted into a buffer of one with a larger number passed, fits and leaves one character |
| `EndToEnd.PassedAddressMisfit` | test/asm/compress.c:248-256 | "a25" against a buffer of three is seen whole and stands for 25 characters, so nothing but the length refuses it |
| `EndToEnd.CopiedInstance` | test/asm/compress.c:226-240 | "abCzX" copied under the key "de35" is stored as "dfLcB" |
| `EndToEnd.LongRunWitness` | test/asm/compress.c:136 | 26 times 'a' under key "a" is stored as "a26" and pasted as one 'a' |

## Left out

- VFS, kernel copies, grants and `open`/`close`: message transfer is an exact copy and each driver request is one atomic step.
- `test/asm/clipboard.c`: the test's stand-in driver never returns ids to its stack and checks the compressed length; copy and paste are proved over the real library and driver.
- `compress.asm`, `test/compress.c`, `test/asm/compress_source.c`: other forms of the algorithms of `test/asm/compress.c`.
- `clear` of `stack.c`: nothing in the driver calls it.
- `SEF_INIT_RESTART`, logging and the driver's registration: a restart leaves the zeroed memory as it is, and the rest has no effect on the state.
- Fork, exit and reparenting are not part of this model: that the process table is a forest rooted at init is assumed where the walk is used.
- Client.PasteFromClipboard: the owner query, the lock and the hand-over run without other requests in between; other requests between lock and hand-over are covered by `DriverRuns.LockStability` and `EndToEnd.CopyThenPaste`, and nothing is claimed about a slot that is reused between the owner query and the lock.
- RunLength.SizeCheckConservative: sums that wrap at 32 bits are outside it, because whether a wrapped sum is still large enough depends on its residue and nothing else; `RunLength.ExpectedSizeExact` says exactly when none wraps, and `RunLength.LargeSizesAreSafe` holds in every case.
- DriverRuns.Conservation: entries count by their bytes and size here; `Ledger.ExactlyOnce` tells them apart by the step that stored them.
- Driver.ClipboardDriver.DoLock: an id outside the table would make the C code read outside its array; the library checks the id before it sends the request (`new/usr/src/lib/libc/misc/copy_paste_clipboard.c:52-55`).
- Driver.ClipboardDriver.ClipboardWrite: as for the lock request it passes on.
- Client.PasteSafely: what the C code does when it leaves its arrays is not modelled; its only condition on the entry and the scratch buffer is that it stays inside them. A key lying in the caller's buffer, which the C code would overwrite before using it, is not covered.
- Driver.ClipboardDriver.Restore: a name missing from the store yields no bytes here, where the C code would leave an uninitialised buffer.
- Freed and dangling pointers: an entry owns its bytes as a value, and the raw stack pointer saved by a live update is an index.
