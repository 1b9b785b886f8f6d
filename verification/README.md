# Verified models of the OpenSSH, detector and signal-controller cores

The repository bundles OpenSSH 7.2p2 with a pedestrian detector (`Pvd`) and a traffic-signal service
(`fvd-new`). This project models the parts of it whose logic is closed and hard, and proves what they
promise for every input, every run or every reachable state. `dafny verify dfyconfig.toml` checks all of it.

## What is modelled

**User authentication** (`AuthLists`, `AuthMachine`, `AuthRuns`, `AuthBudget`, `AuthKeys`, `AuthKbdint`,
`AuthEvidence`, `AuthExits`, `AuthSteps`, `AuthDevices`, `AuthContext`). The server side of sections 4, 5 and 7 of RFC 4252 and of section 3 of RFC 4256,
as a state machine that takes one packet at a time. `AuthMachine` is the machine as functions; the class
`Authctxt` updates its fields as the source does, and each of its methods is proved to do what the machine
does, a whole connection included (`AuthContext.Serve`). The verdicts of passwords, signatures, devices, PAM and the root policy arrive with the packet and may be
anything. `Exec` is a whole connection. The theorems are about `Exec`: success comes exactly when the
successes so far contain some configured list as a subsequence; the number of answers is bounded; keys are
never reused; no keyboard-interactive device is started twice, and which one is started when is given exactly;
every success rests on its own packet's verdicts; the failure counter is the number of charged answers;
and of the three exits that the source treats as internal errors two are unreachable, while the third is reached
exactly by a success that no list is waiting for (a list such as `password:x`, or any other method but keyboard-interactive with a submethod, passes
configuration and produces one).

**CRC and attack detector** (`Crc`, `Deattack`, `Verdicts`). The 256-entry table against division bit by bit; the
linear-probing table that grows over a connection against a plain scan, for any hash function; and the verdict of
that scan against a closed description of the packet.

**Window scoring** (`Sums`, `Scoring`, `WindowScan`, `Bins`, `Pixels`, `CensusTransform`). The in-place integral image and the
in-place four-corner differences, over exact reals, against the dot product of the weights with the histogram
that is built for the same window, every bin of which holds the number of its cell's pixels with its value.

**Bitmap** (`BitmapSet`), **argument vectors** (`Argv`), **framing** (`Framing`), **vectored transfer**
(`Atomicio`), **CIDR matching** (`Addrmatch`), **CBC** (`Cbc`), **ChaCha** (`Chacha`, `ChachaCore`, `ChachaStream`,
`ChachaValues`, `ChachaVector`) and the **chachapoly packet transform** (`Chachapoly`, `Nonces`). `Bits` and `Values`
hold machine words as naturals.

Three properties one might expect are false of the code, and their exact conditions are proved: an argument
vector survives printing and parsing if and only if no argument is empty (`Argv.RoundTripIff`); a bitmap survives
export into a buffer that reaches its largest element, and import with memory to be had, if and only if it does
not hold `BITMAP_MAX` (`BitmapSet.Reload`), which can be set and then keeps the set from coming back
(`BitmapSet.MaxIsLost`); a
vectored transfer that ends without an error is complete unless its first entry is empty and a later one is not
(`Atomicio.TransferMeaning`).

Where a comment and the code differ, the code is followed: `retop` in bitmap.c is described as pointing `top`
at the most significant set bit, and moves it to a word, stopping at word 0 even when that is zero; the comment above `addr_hostmask`
describes the netmask.

## Model

| member | source | states |
|---|---|---|
| AuthLists.RemoveMethodTakesHead | openssh-7.2p2/auth2.c:576-594 | cutting text off a list removes exactly its first comma-separated element, and does so if and only if that element is the method alone or the method with this submethod |
| AuthLists.ElementsJoin | openssh-7.2p2/auth2.c:471-478 | the elements of a list hold no comma, and with commas between them they are the list again |
| AuthLists.ListStartsWithMeaning | openssh-7.2p2/auth2.c:544-570 | a list lets a method be tried if and only if its head element fits, or the submethod is still unknown and the head starts with the method and a colon |
| AuthRuns.SuccessIffListCompleted | openssh-7.2p2/auth2.c:299-363 | in every run with lists configured, success (or the PAM refusal right behind it) is reached if and only if some surviving list is a subsequence of the run's successes, its last element then being matched by the last success |
| AuthRuns.SuccessWithoutLists | openssh-7.2p2/auth2.c:320-363 | in every run without lists, one success is enough and there is never a second |
| AuthSteps.LoginEnds | openssh-7.2p2/auth2.c:327-363 | the packet that brings a run through ends it in Success if PAM does not deny and in the PAM refusal if it does, and no other packet ends it in either; any other success is answered as partial |
| AuthSteps.FailuresAreCharged | openssh-7.2p2/auth2.c:366-370 | in every run the failure counter is the number of failures answered, the initial "none" excepted |
| AuthSteps.TooManyFailuresIff | openssh-7.2p2/auth2.c:371-376 | a run is closed for too many failures by exactly those failures and partial successes that find the counter at the limit |
| AuthSteps.RequestAnswers | openssh-7.2p2/auth2.c:214-391 | after any run, a request that is not admitted closes it with the reason; an admitted one is left open exactly for an acceptable key query or a ready device, fails exactly when it neither succeeds nor is left open nor ends in the "not in lists" exit, and the run goes on exactly below the limit |
| AuthSteps.NoneSucceedsOnce | openssh-7.2p2/auth2-none.c:57-70 | no run has two successes by "none" |
| AuthRuns.GreedyIsOptimal | openssh-7.2p2/auth2.c:602-625 | consuming the head whenever it fits loses nothing: any prefix of a list that can be embedded in the successes is no longer owed |
| AuthRuns.OwedNothingIffEmbeds | openssh-7.2p2/auth2.c:602-625 | a list is used up by a run of successes if and only if it is a subsequence of them |
| AuthRuns.UpdateMeaning | openssh-7.2p2/auth2.c:602-625 | one update consumes the head of every list it fits unless it completes one; completion and "found" hold exactly when some list was completed or taken |
| AuthRuns.SurvivorsValid | openssh-7.2p2/auth2.c:513-538 | a list that survives pruning was configured, names enabled methods only and has no empty element |
| AuthRuns.SurvivorsExactly | openssh-7.2p2/auth2.c:513-538 | pruning keeps every valid list, as often as it is configured and in order, and no other |
| AuthRuns.ValidMeaning | openssh-7.2p2/auth2.c:464-504 | a list is valid if and only if it is not empty and the method of each element is one of the five of the table and switched on |
| AuthRuns.MethodPartMeaning | openssh-7.2p2/auth2.c:476-477 | the method of an element is what precedes its first colon, or all of it |
| AuthRuns.RunKeepsLists | openssh-7.2p2/auth2.c:214-297 | at every point of every run the text of each list is what the successes so far leave owed of the configured one |
| AuthBudget.AnswersAreBounded | openssh-7.2p2/auth2.c:366-375 | every run gives at most max_authtries plus the elements of the surviving lists plus one answers, and failures stay below max_authtries while it goes on |
| AuthBudget.PartialSpends | openssh-7.2p2/auth2.c:321-326 | every partial success uses up at least one list element |
| AuthKeys.KeysNeverReused | openssh-7.2p2/auth2-pubkey.c:1081-1107 | in every run recorded keys, and the keys of publickey successes, are pairwise unequal, whatever key equality is |
| AuthKeys.ListTakesDistinctKeys | openssh-7.2p2/auth2-pubkey.c:130-185 | a completed list that names publickey several times took a different key each time |
| AuthKeys.OneIdentityPerRun | openssh-7.2p2/auth2.c:239-272 | every success is for the user and service of the first request, a known user asking for ssh-connection |
| AuthKbdint.NoDeviceStartedTwice | openssh-7.2p2/auth2-chall.c:157-191 | since the last request no device was started twice, whatever device string was sent |
| AuthKbdint.StartedDeviceAllowed | openssh-7.2p2/auth2-chall.c:224-252 | in every reachable state, a device that is started is allowed by the method lists as they stand |
| AuthKbdint.NextChooses | openssh-7.2p2/auth2-chall.c:157-191 | choosing a device only uses devices up, and chooses one that was unused and allowed |
| AuthDevices.ScanMeaning | openssh-7.2p2/auth2-chall.c:171-182 | one wanted text uses up every unused, allowed device whose name starts with it, and chooses the last |
| AuthDevices.NextMeaning | openssh-7.2p2/auth2-chall.c:157-191 | a device is chosen if and only if some wanted text, with no empty one up to it, has a device; the first such text decides, and what follows it is kept |
| AuthDevices.JoinedElements | openssh-7.2p2/auth2-chall.c:105-130 | with no device asked for, the device string names every device in table order |
| AuthDevices.RunStarts | openssh-7.2p2/auth2-chall.c:197-252 | after any run, an admitted request starts a device exactly when the method is looked up with tries left and some wanted text is usable: the last device that fits the first such text |
| AuthDevices.ResponseAnswers | openssh-7.2p2/auth2-chall.c:287-353 | after any run, a right answer of a known user is a success unless the root policy objects, a wrong one moves on to the next usable device, and one that asks for more keeps the device; a malformed or unasked-for one closes the run |
| AuthExits.RequestExits | openssh-7.2p2/auth2.c:305-309 | a request never ends "authenticated invalid user" or "authenticated and postponed", and ends "method not in AuthenticationMethods" if and only if it succeeds while no list's head is that method |
| AuthExits.ResponseExits | openssh-7.2p2/auth2-chall.c:287-353 | an info-response reaches none of the three internal errors, because the device it answers was allowed by the same lists |
| AuthExits.ExitsUnreachable | openssh-7.2p2/auth2.c:305-326 | no run reaches the first two internal errors, nor the third as long as only keyboard-interactive elements carry a submethod |
| AuthExits.StrandedRun | openssh-7.2p2/auth2.c:544-570 | after any run, a request that is convincing, enabled and within its tries, by any method but keyboard-interactive, ends in the third internal error if and only if some list starts with the method and a submethod and none with the method alone |
| AuthExits.OneElementStranded | openssh-7.2p2/auth2.c:464-504 | with only `name:x` configured, for any such method and any x, every success ends there |
| AuthEvidence.EventsAreEarned | openssh-7.2p2/auth2.c:286-319 | in every run each success rests on its own packet: a request that names an enabled method and convinces it, or a correct answer on a configured device, and no root refusal |
| AuthEvidence.GoodRequestCounts | openssh-7.2p2/auth2.c:286-326 | after any run, a convincing request within its tries is a success if and only if no list is configured or some list's head is its method |
| AuthEvidence.FoundIffHeadFits | openssh-7.2p2/auth2.c:602-625 | an update finds its method if and only if some list's head element fits |
| AuthContext.Serve | openssh-7.2p2/auth2.c:170-297 | a fresh context that is fed any packets goes through exactly the states and answers of the machine's run |
| AuthContext.Dispatch | openssh-7.2p2/auth2-chall.c:212-252 | one packet of either kind, with or without a registered handler, is one step of the machine |
| AuthContext.Authctxt.CheckMethods | openssh-7.2p2/auth2.c:464-504 | the splitting loop accepts a list if and only if it is not empty and all its elements name enabled methods |
| AuthContext.Authctxt.CheckMethod | openssh-7.2p2/auth2.c:441-455 | the table search agrees with "known and enabled" |
| AuthContext.Authctxt.SetupMethodsLists | openssh-7.2p2/auth2.c:513-538 | the pruning loop leaves exactly the valid lists in order, and fails if and only if lists were configured and none is left |
| AuthContext.Authctxt.UpdateMethodsLists | openssh-7.2p2/auth2.c:602-625 | the loop with its early return makes the update of the machine |
| AuthContext.Authctxt.CheckAllowed | openssh-7.2p2/auth2.c:393-411 | allowed if and only if nothing is configured or some list starts with the method |
| AuthContext.Authctxt.UserauthFinish | openssh-7.2p2/auth2.c:299-391 | new state and answer are those of the machine, in every way the function can end |
| AuthContext.Authctxt.KbdintNextDevice | openssh-7.2p2/auth2-chall.c:157-191 | the nested loops over device string and device table end, with the machine's choice |
| AuthContext.Authctxt.StartChallenge | openssh-7.2p2/auth2-chall.c:224-252 | postpones, or drops the challenge when no device is left or the query fails |
| AuthContext.Authctxt.UserkeyAlreadyUsed | openssh-7.2p2/auth2-pubkey.c:1096-1107 | true if and only if some recorded key equals this one |
| AuthContext.Authctxt.UserauthPubkey | openssh-7.2p2/auth2-pubkey.c:77-214 | records the key exactly on a verified signature, postpones exactly on an acceptable query |
| AuthContext.Authctxt.InputUserauthRequest | openssh-7.2p2/auth2.c:214-297 | one request takes the context from one state of the machine to the next |
| AuthContext.Authctxt.InputInfoResponse | openssh-7.2p2/auth2-chall.c:287-353 | one info-response does too |
| AuthContext.NotFoundUnchanged | openssh-7.2p2/auth2.c:602-625 | an update that finds nothing changes no list |
| Crc.TableIsDivision | openssh-7.2p2/crc32.c:29-94 | each of the 256 table entries is its index divided bit by bit by 0xEDB88320 |
| Crc.TableStepIsDivision | openssh-7.2p2/crc32.c:100-103 | one lookup advances the bitwise division by eight bits, for every register and byte |
| Crc.SshCrc32 | openssh-7.2p2/crc32.c:96-105 | the loop computes the remainder of bitwise reflected division with zero start |
| Crc.DivideLinear | openssh-7.2p2/crc32.c:96-105 | the CRC of the XOR of two equal-length buffers is the XOR of their CRCs |
| Crc.WordStepsLinear | openssh-7.2p2/deattack.c:70-75 | any number of four-byte register steps is XOR-linear |
| Deattack.CrcUpdate | openssh-7.2p2/deattack.c:70-75 | folds a word into the register by four bytes of division |
| Deattack.CheckCrc | openssh-7.2p2/deattack.c:77-95 | true if and only if the XOR, over the positions holding the block, of 2(n-p) word steps applied to 1 is zero |
| Deattack.FreeSlot | openssh-7.2p2/deattack.c:150-152 | a table with more slots than stored indices has a free one, so probing ends |
| Deattack.FreeMeansNew | openssh-7.2p2/deattack.c:151-161 | a free slot met on the way from home proves that no equal block came earlier |
| Deattack.StoreKeepsTable | openssh-7.2p2/deattack.c:162-162 | writing at the slot where probing stopped keeps every stored block reachable, unique and covered |
| Deattack.DeattackCtx.Reserve | openssh-7.2p2/deattack.c:115-133 | fails if and only if memory is refused and the table is missing or too small; the size is quadrupled just until it is at least 3/2 of the block count and stays a power of two; a failure loses the table and keeps the size |
| Deattack.DeattackCtx.ScanShort | openssh-7.2p2/deattack.c:135-147 | the quadratic scan of up to seven blocks gives the reference verdict |
| Deattack.DeattackCtx.Probe | openssh-7.2p2/deattack.c:151-161 | probing terminates, and hits if and only if an equal block came earlier |
| Deattack.DeattackCtx.ScanLong | openssh-7.2p2/deattack.c:148-164 | the hash-table scan gives the reference verdict, OK, DETECTED or DOS |
| Verdicts.VerdictMeaning | openssh-7.2p2/deattack.c:135-164 | DETECTED if and only if some block equal to an earlier one, with fewer than 32 such blocks before it, has a marked packet of CRC zero; otherwise DOS if and only if more than 32 blocks equal an earlier one |
| Verdicts.SignatureIsCrc | openssh-7.2p2/deattack.c:77-95 | the register of check_crc ends as the ssh_crc32 of the packet with 1 at the start of every matching block and 0 elsewhere |
| Verdicts.UpdateAppends | openssh-7.2p2/deattack.c:70-75 | crc_update with a word is the CRC of the message with that word's bytes appended |
| Verdicts.AnswerMeaning | openssh-7.2p2/deattack.c:112-133 | an error if and only if the length is over 262144 or no multiple of 8, or the table is short of 3/2 slots per block and memory is refused |
| Deattack.DeattackCtx.DetectAttack | openssh-7.2p2/deattack.c:105-165 | the verdict is that of the reference scan if the length is admitted and the table has room or memory is to be had, and an error otherwise; what is left of the table is stated exactly |
| Deattack.DetectAll | openssh-7.2p2/deattack.c:105-165 | over every sequence of packets, with memory refused at any of them, each verdict is that of the reference scan or, exactly when the length is bad or the table that the earlier packets left has no room and none can be had, an error |
| Deattack.ThreeSizes | openssh-7.2p2/deattack.c:115-133 | after any sequence of packets the table has 4096, 16384 or 65536 slots |
| Deattack.RoomStays | openssh-7.2p2/deattack.c:115-133 | a packet that there was room for keeps its room as long as every larger one finds memory |
| Deattack.GrownIsPowerOfTwo | openssh-7.2p2/deattack.c:115-116 | quadrupling until large enough keeps the size a power of two |
| Sums.FourCorners | Pvd/c4common.cpp:166-166 | four prefix sums give the sum of the rectangle between them |
| Sums.Exchange | Pvd/c4common.cpp:145-159 | summing the cells' images pixel by pixel and then over a rectangle is summing each cell and then all |
| Scoring.CellInWindow | Pvd/c4common.cpp:147-156 | within a scanned window the shifted rectangle of a cell is seen in full, none of it cut off by the loop bounds |
| Scoring.WindowIsRectangle | Pvd/c4common.cpp:134-168 | the rectangle under a scanned position sums to the threshold plus the summed weights of all cells of the window |
| WindowScan.IntegralImageInPlace | Pvd/c4common.h:388-408 | every pixel ends as the sum of the original image above and left of it |
| WindowScan.FillScores | Pvd/c4common.cpp:142-159 | the four nested loops leave the threshold share plus every cell's weight at every pixel |
| WindowScan.CornerDifferences | Pvd/c4common.cpp:161-167 | every scanned pixel becomes the sum of its rectangle; no corner is read after it was overwritten |
| WindowScan.GridIs | Pvd/c4common.cpp:161-165 | the positions scanned are 2, 2 + step, 2 + 2 * step and so on |
| WindowScan.InitIntegralImages | Pvd/c4common.cpp:134-168 | at every scanned position the score is the threshold plus the window's worth; only census values inside the two-pixel border matter |
| WindowScan.BuildHistogram | Pvd/c4common.cpp:203-217 | the array is the window's histogram: under all weights at once its dot product is what the window is worth |
| Bins.BinHoldsCount | Pvd/c4common.cpp:203-217 | every bin of that histogram holds the number of pixels of its cell that have its census value |
| Pixels.BinIsPixelCount | Pvd/c4common.cpp:209-215 | every bin holds the number of pixels, within the loop bounds of the source written out, that have its census value |
| Pixels.AllPixelsCounted | Pvd/c4common.cpp:203-217 | all bins together hold every pixel of every cell once |
| Pixels.ReadBin | Pvd/c4common.cpp:203-217 | reading any bin of the histogram that is built gives that number of pixels |
| Pixels.FlatWindow | Pvd/c4common.cpp:203-217 | in a 108 by 36 window of 9 by 4 blocks a flat cell fills one bin with 352 |
| Bins.HistogramUnique | Pvd/c4common.cpp:203-217 | a window has only one histogram |
| Bins.BinsDisjoint | Pvd/c4common.cpp:214-215 | no two cells share a bin |
| WindowScan.ScanWindow | Pvd/c4common.cpp:197-217 | the array is the histogram of the window at the scanned position, and the score left by the integral image equals the threshold plus the dot product of the weights with it |
| CensusTransform.ComputeCT | Pvd/c4common.h:668-691 | writes the census index of every pixel inside the two-pixel border and leaves the border alone |
| CensusTransform.IndexIsComparisons | Pvd/c4common.h:679-688 | two pixels have the same index if and only if all eight comparisons with their neighbours agree |
| CensusTransform.IndexBits | Pvd/c4common.h:679-688 | which neighbour each bit of the index stands for |
| CensusTransform.ScoreWindows | Pvd/c4common.cpp:171-178 | from any gradient image, and whatever the buffers held, transform and integral image leave the right scores |
| CensusTransform.ScanImage | Pvd/c4common.cpp:180-217 | from any gradient image to a window's score: the threshold plus the dot product of the weights with the window's histogram |
| BitmapSet.MinimalIsUnique | openssh-7.2p2/bitmap.c:165-184 | a set has one minimal big-endian numeral, and all its other numerals are longer |
| BitmapSet.DenotesNumber | openssh-7.2p2/bitmap.c:165-212 | the set that a string denotes is where the binary digits of its big-endian number are one |
| BitmapSet.Bitmap.Zero | openssh-7.2p2/bitmap.c:62-67 | the empty set, whatever the words held |
| BitmapSet.Bitmap.TestBit | openssh-7.2p2/bitmap.c:69-77 | true if and only if n is in the set, also above `top` |
| BitmapSet.Bitmap.Reserve | openssh-7.2p2/bitmap.c:79-96 | succeeds if and only if n is at most BITMAP_MAX and its word is there or memory is to be had; keeps the set, and the array itself where it is long enough |
| BitmapSet.Bitmap.SetBit | openssh-7.2p2/bitmap.c:98-112 | adds n under exactly the same condition, and otherwise changes nothing |
| BitmapSet.Bitmap.Retop | openssh-7.2p2/bitmap.c:114-121 | the set stays, and `top` is zero or at a non-zero word |
| BitmapSet.Bitmap.ClearBit | openssh-7.2p2/bitmap.c:123-136 | removes n and nothing else, and keeps the words above `top` zero |
| BitmapSet.Bitmap.NBits | openssh-7.2p2/bitmap.c:138-157 | highest element plus one, or 0 for the empty set |
| BitmapSet.ShiftToTop | openssh-7.2p2/bitmap.c:150-155 | the shifting loop ends at the highest bit of a non-zero word |
| BitmapSet.Bitmap.ToString | openssh-7.2p2/bitmap.c:165-184 | succeeds if and only if l bytes reach the largest element, with the minimal big-endian numeral of the set; otherwise the buffer is untouched |
| BitmapSet.Bitmap.FromString | openssh-7.2p2/bitmap.c:186-212 | succeeds if and only if the string is short enough and the words are there or memory is to be had, with the set that the string writes down; otherwise no change |
| BitmapSet.Reload | openssh-7.2p2/bitmap.c:165-212 | export followed by import restores the set if and only if the buffer reaches its largest element, memory allows, and it does not hold BITMAP_MAX; otherwise the target keeps its old set |
| BitmapSet.MaxIsLost | openssh-7.2p2/bitmap.c:98-212 | BITMAP_MAX is added to any bitmap, and then its reload fails, whatever the buffer, and leaves the target's set |
| BitmapSet.OneMoreComesBack | openssh-7.2p2/bitmap.c:98-212 | any smaller element added to a bitmap without BITMAP_MAX comes back with all others through a buffer that reaches them |
| Argv.CopyToken | openssh-7.2p2/auth2-pubkey.c:291-309 | the copying loop takes one token off the text |
| Argv.SplitArgv | openssh-7.2p2/auth2-pubkey.c:264-333 | the index loops compute the parse, including failure inside quotes |
| Argv.AssembleArgv | openssh-7.2p2/auth2-pubkey.c:338-387 | the loops compute the printed form |
| Argv.OutOfPhase | openssh-7.2p2/auth2-pubkey.c:279-309 | read from inside an escape, an escaped argument still comes back whole |
| Argv.SplitAssemble | openssh-7.2p2/auth2-pubkey.c:264-387 | printing and parsing any argument vector drops its empty arguments and nothing else |
| Argv.RoundTripIff | openssh-7.2p2/auth2-pubkey.c:264-387 | the round trip is exact if and only if no argument is empty |
| Argv.SplitSkips | openssh-7.2p2/auth2-pubkey.c:274-277 | leading blanks and tabs are skipped |
| Argv.SplitInQuotes | openssh-7.2p2/auth2-pubkey.c:284-322 | a word in single or double quotes is one argument, empty or with blanks in it |
| Argv.SplitUnclosed | openssh-7.2p2/auth2-pubkey.c:310-316 | a quote that is not closed makes the text malformed |
| Argv.SplitRaw | openssh-7.2p2/auth2-pubkey.c:291-309 | an unquoted word is taken as it stands, stray backslashes and inner quotes included, up to a blank or tab |
| Argv.EscapeOne | openssh-7.2p2/auth2-pubkey.c:352-366 | backslashes and both quotes get a backslash, and nothing else does |
| Argv.PrintedForm | openssh-7.2p2/auth2-pubkey.c:338-387 | arguments are joined by single spaces, those with a blank or tab in double quotes |
| Cbc.DecryptEncrypt | openssh-7.2p2/cipher-aes.c:70-114 | under any permutation and the same starting value, decryption inverts encryption |
| Cbc.EncryptsXored | openssh-7.2p2/cipher-aes.c:92-96 | ciphertext block i encrypts, byte by byte, the plaintext XOR the chaining value or the ciphertext block before |
| Cbc.DecryptsXored | openssh-7.2p2/cipher-aes.c:104-110 | plaintext block i is, byte by byte, the decrypted block XOR the chaining value or the ciphertext block before |
| Cbc.AlikeIff | openssh-7.2p2/cipher-aes.c:92-96 | two blocks encrypt alike if and only if plaintext and preceding ciphertext XOR to the same bytes |
| Cbc.EncryptSplits | openssh-7.2p2/cipher-aes.c:87-98 | two encrypting calls in a row give the bytes and the chaining value of one |
| Cbc.DecryptSplits | openssh-7.2p2/cipher-aes.c:99-112 | two decrypting calls in a row do too |
| Cbc.CbcContext.EncryptBlocks | openssh-7.2p2/cipher-aes.c:87-98 | the forward loop, in place or not, is cipher block chaining of the old source, and leaves the last block as chaining value |
| Cbc.CbcContext.DecryptBlocks | openssh-7.2p2/cipher-aes.c:99-112 | the backward loop, in place or not, is its decryption of the old source |
| Cbc.CbcContext.Crypt | openssh-7.2p2/cipher-aes.c:70-114 | any length that is a multiple of 16, zero included; any other is refused with nothing changed |
| Cbc.RoundTrip | openssh-7.2p2/cipher-aes.c:70-114 | what is sent is the chained encryption; decrypting it in place restores the buffer, and both sides are left with the same chaining value, its last block |
| Chacha.StoreXorLoad | openssh-7.2p2/chacha.c:167-206 | mixing loaded words and storing them is mixing byte by byte |
| ChachaValues.LoadValue | openssh-7.2p2/chacha.c:167-182 | a word is loaded from four bytes, least significant first |
| ChachaValues.LoadStore | openssh-7.2p2/chacha.c:190-205 | storing a word and loading it gives it back |
| ChachaValues.KeyBlockAt | openssh-7.2p2/chacha.c:190-205 | key stream byte 4i + b is byte b of word i of the block |
| ChachaValues.StreamAt | openssh-7.2p2/chacha.c:89-219 | result byte i is message byte i XOR byte i mod 64 of the key block i / 64 blocks on |
| ChachaValues.ConstantWords | openssh-7.2p2/chacha.c:52-78 | the first four words of a state, for both key sizes |
| ChachaValues.KeyPart | openssh-7.2p2/chacha.c:55-78 | the eight key words, the second half repeating the first for a 128-bit key |
| ChachaValues.SeededValues | openssh-7.2p2/chacha.c:80-87 | counter and nonce of a state as little-endian numbers |
| Chacha.AfterCounts | openssh-7.2p2/chacha.c:184-188 | words 12 and 13 are one counter modulo 2^64, and nothing else of the state moves |
| ChachaCore.QuarterBack | openssh-7.2p2/chacha.c:46-50 | a quarter round can be undone, whichever four words it works on |
| ChachaVector.QuarterOfOne | openssh-7.2p2/chacha.c:46-50 | the quarter round of 1, 0, 0, 0 in numbers |
| ChachaVector.RotlParts | openssh-7.2p2/chacha.c:40-41 | a rotation by n moves the top n bits to the bottom |
| ChachaCore.ColumnMeaning | openssh-7.2p2/chacha.c:141-144 | a column round is a quarter round on each column |
| ChachaCore.DiagonalMeaning | openssh-7.2p2/chacha.c:145-148 | a diagonal round is a quarter round on each diagonal |
| ChachaCore.RoundsBack | openssh-7.2p2/chacha.c:140-149 | any number of double rounds can be undone |
| ChachaCore.TwentyRoundsInjective | openssh-7.2p2/chacha.c:140-149 | the twenty rounds never merge two states |
| ChachaCore.CoreDiffers | openssh-7.2p2/chacha.c:150-165 | in a word where two inputs agree, the key blocks agree if and only if the rounds do |
| Chacha.StreamTwice | openssh-7.2p2/chacha.c:89-219 | the stream applied twice from the same state is the identity, for every length |
| Chacha.StreamSplits | openssh-7.2p2/chacha.c:89-219 | cutting the input at a multiple of 64 changes neither output nor state |
| ChachaStream.XorBlock | openssh-7.2p2/chacha.c:140-206 | one block's words, mixed and stored, are the message XOR the key block |
| ChachaStream.ChachaCtx.KeySetup | openssh-7.2p2/chacha.c:55-78 | sets constants and key words for 256- and 128-bit keys and leaves counter and nonce |
| ChachaStream.ChachaCtx.IvSetup | openssh-7.2p2/chacha.c:80-87 | sets counter, zero if none is given, and nonce, and keeps the key |
| ChachaStream.ChachaCtx.EncryptBytes | openssh-7.2p2/chacha.c:89-219 | for every length, in place or not, the output is the message XOR the key stream, the counter advances by the number of blocks, and unset bytes of the scratch block never matter |
| Chachapoly.OpenSeal | openssh-7.2p2/cipher-chachapoly.c:50-100 | under the same keys and sequence number a sealed packet opens to what was sealed, for all lengths and any authenticator |
| Chachapoly.LengthOfSealed | openssh-7.2p2/cipher-chachapoly.c:104-118 | the four-byte header of a sealed packet is recovered without opening it |
| Nonces.NonceIsNumber | openssh-7.2p2/cipher-chachapoly.c:64-64 | the nonce of a packet, read most significant byte first, is its sequence number modulo 2^64 |
| Nonces.NonceUnique | openssh-7.2p2/cipher-chachapoly.c:64-64 | no two sequence numbers below 2^64 share a nonce |
| Nonces.PacketCounters | openssh-7.2p2/cipher-chachapoly.c:65-90 | the authentication key comes from counter 0, payload block j from counter 1 + j, header block j from counter j |
| Nonces.StatesApart | openssh-7.2p2/cipher-chachapoly.c:50-100 | under one key no state is used for two payload blocks of any packets, nor for a payload block and an authentication key |
| Nonces.SealedBytes | openssh-7.2p2/cipher-chachapoly.c:79-90 | each sealed byte is the plain one XOR its byte of the header key's or the main key's stream |
| Nonces.SealedTag | openssh-7.2p2/cipher-chachapoly.c:92-96 | the last sixteen bytes authenticate everything before them under the first half of the packet's key block 0 |
| Nonces.OpensIff | openssh-7.2p2/cipher-chachapoly.c:68-77 | a packet opens if and only if its last sixteen bytes are that tag |
| Nonces.LengthIsBig | openssh-7.2p2/cipher-chachapoly.c:116-116 | the length field is read most significant byte first |
| Chachapoly.ChachapolyCtx.Init | openssh-7.2p2/cipher-chachapoly.c:31-39 | accepts 64 key bytes and nothing else, and splits them over the two contexts |
| Chachapoly.ChachapolyCtx.Crypt | openssh-7.2p2/cipher-chachapoly.c:50-100 | encrypting writes the sealed packet; decrypting writes the opened one, or on a tag mismatch fails and writes nothing; only the keys matter, not earlier calls |
| Chachapoly.ChachapolyCtx.GetLength | openssh-7.2p2/cipher-chachapoly.c:104-118 | the header's length field, or an error below four bytes |
| Addrmatch.NestedOrDisjoint | openssh-7.2p2/addrmatch.c:349-362 | two CIDR blocks are nested, exactly when the smaller one's base lies in the larger, or share no address |
| Addrmatch.Netmask | openssh-7.2p2/addrmatch.c:116-142 | the first l bits and no others, for both families; an invalid length is refused |
| Addrmatch.AddrAnd | openssh-7.2p2/addrmatch.c:149-170 | bit by bit, keeping family and scope of the first operand |
| Addrmatch.AddrInvert | openssh-7.2p2/addrmatch.c:233-252 | flips every bit in use |
| Addrmatch.Hostmask | openssh-7.2p2/addrmatch.c:259-265 | the bits from l on |
| Addrmatch.IsAll0s | openssh-7.2p2/addrmatch.c:271-287 | true if and only if no bit in use is set |
| Addrmatch.HostIsAll0s | openssh-7.2p2/addrmatch.c:295-306 | true if and only if the length is valid and every bit from there on is zero |
| Addrmatch.CmpZero | openssh-7.2p2/addrmatch.c:176-199 | comparison gives 0 if and only if family, all bits and, for IPv6, scope agree |
| Addrmatch.CmpIsTotalOrder | openssh-7.2p2/addrmatch.c:176-199 | antisymmetric and transitive on IPv4 and IPv6 addresses together |
| Addrmatch.CmpMeaning | openssh-7.2p2/addrmatch.c:176-199 | IPv4 comes before IPv6, then the words decide as numbers, the first first, then the scope |
| Addrmatch.MaskWordValue | openssh-7.2p2/addrmatch.c:126-138 | a mask word of length l is 2^32 - 2^(32 - l) |
| Addrmatch.Netmatch | openssh-7.2p2/addrmatch.c:349-362 | 0 if and only if the host is in the network and the network's host part is zero |
| Addrmatch.PtonCidr | openssh-7.2p2/addrmatch.c:312-346 | unreadable if and only if the text is no address or its suffix no length up to 128; a network if and only if readable with a length that its family has and no host bits |
| Addrmatch.MatchList | openssh-7.2p2/addrmatch.c:376-425 | -2 exactly for a bad entry, -1 exactly for a negated hit, met before anything else that stops the list; 1 exactly for a hit in a list read to its end |
| Atomicio.Atomiciov | openssh-7.2p2/atomicio.c:100-163 | the loop over entries reports and transfers what a loop over one stretch of bytes does, a prefix of all entries, in order and each byte once; too many entries and an empty first entry end it with nothing transferred |
| Atomicio.CountIsTransferred | openssh-7.2p2/atomicio.c:120-163 | a returned count is zero or what went through, and without an error it is everything |
| Atomicio.EndMeaning | openssh-7.2p2/atomicio.c:123-163 | what is returned, with which error and after how many bytes, for each outcome that can end the loop |
| Atomicio.RetriesInvisible | openssh-7.2p2/atomicio.c:123-132 | interruptions and full queues change neither report nor transfer, wherever they fall |
| Atomicio.CountsThatAddUp | openssh-7.2p2/atomicio.c:120-163 | short counts that add up to the whole, however cut, give success |
| Atomicio.SkipDone | openssh-7.2p2/atomicio.c:141-145 | stepping over completed entries keeps the bytes that are still to go |
| Atomicio.Advance | openssh-7.2p2/atomicio.c:138-156 | the remaining entries are the rest of the bytes and start with a non-empty one; a fault is reported if and only if the count was too large |
| Atomicio.UnfinishedIff | openssh-7.2p2/atomicio.c:120-163 | the loop goes on if and only if only retries and short counts have come and they do not add up to the whole, and then their sum has gone through |
| Atomicio.TransferMeaning | openssh-7.2p2/atomicio.c:100-163 | a full count means everything; an end without error means it unless the first entry is empty and a later one is not; unfinished exactly as above |
| Framing.EncodeShape | fvd-new/sig_service.c:89-115 | an encoded payload holds no 0xC0 and is longer by one byte for each escape |
| Framing.WireBytes | fvd-new/sig_service.c:89-115 | 0xC0 goes out as 0xDB 0xDC, 0xDB as 0xDB 0xDD, and every other byte as itself |
| Framing.EncodeConcat | fvd-new/sig_service.c:89-115 | the encoding goes byte by byte |
| Framing.ReadBytes | fvd-new/sig_service.c:143-165 | how any received bytes are read, a lone escape at the end included |
| Framing.ChecksumConcat | fvd-new/sig_service.c:190-197 | the checksum of two parts is the XOR of their checksums |
| Framing.ChecksumOne | fvd-new/sig_service.c:190-197 | the checksum of one byte is that byte, and of none is zero |
| Framing.DecodeEncode | fvd-new/sig_service.c:143-165 | decoding inverts encoding, whatever byte follows in the buffer |
| Framing.EncodeInPlace | fvd-new/sig_service.c:89-115 | the loop over the growing payload, which looks again at the second half of each escape, computes the encoding |
| Framing.DecodeInPlace | fvd-new/sig_service.c:143-165 | the loop over the shrinking payload computes the decoding |
| Framing.AddChecksum | fvd-new/sig_service.c:190-197 | appends the XOR of the payload and touches nothing else |
| Framing.ChecksumCancels | fvd-new/sig_service.c:190-197 | with its checksum appended a payload XORs to zero |
| Framing.BuildFrame | fvd-new/sig_service.c:346-348 | checksum, encoding and delimiters, in one buffer |
| Framing.FrameShape | fvd-new/sig_service.c:53-59 | 0xC0 at the two ends only, and a payload of body plus one plus the number of escapes |
| Framing.SendAndOpen | fvd-new/sig_service.c:143-165 | the frame is delimiter, encoding of body and checksum, delimiter; stripping and decoding it in place returns the body followed by its checksum |

## Left out

- GSSAPI, and with it `server_caused_failure`, the only other way a failure is not counted.
- Packet input and output, dispatch tables, logging, audit, banners and privilege separation; what a handler reads from a packet is a value.
- Splitting role and style off the user name: the user of a request is the name without them.
- PAM, Kerberos, BSD-auth, S/Key, host keys, authorized-keys files and certificates: their verdicts are oracle fields.
- The list of methods that can continue, which `authmethods_get` sends with a failure.
- AuthRuns.SuccessIffListCompleted: holds for device tables whose names hold no comma, which the constant tables of the source meet.
- AuthRuns.SuccessWithoutLists: the same condition on device names.
- AuthRuns.RunKeepsLists: the same condition on device names.
- AuthBudget.AnswersAreBounded: the same condition on device names.
- AuthSteps.LoginEnds: the same condition on device names.
- AuthDevices.RunStarts: the same condition on device names.
- AuthDevices.ResponseAnswers: the same condition on device names.
- AuthExits.ResponseExits: the same condition on device names.
- AuthExits.ExitsUnreachable: the same condition on device names.
- Little-endian layout of the register in `crc_update` is assumed; on other machines the bytes of a word are taken in the other order.
- `HASH(c) & (n - 1)` is written `hash % n`, the same thing because the size is a power of two; the 16-bit cells of the table are naturals, the stored indices being below 0xffff.
- Scoring.WindowIsRectangle: asks for at least two divisions and blocks of at least two pixels a side; otherwise the source divides by zero or reads outside the window.
- Rounding of doubles, the Sobel filter, resizing, the second cascade node, model files, OpenCV and the tracker.
- AES rounds and Poly1305 are arbitrary functions, and so is the block function in the stream results; `ChachaCore.Core` is the one of the source, and nothing is claimed about its strength.
- Buffers that overlap without being the same, lengths near 2^32, and erasing of keys.
- Parsing of numeric addresses, `match_pattern` and the string pre-checks of `addr_match_cidr_list`; an address that cannot be read makes `addr_match_list` answer 0 before its loop. Out-pointers of addrmatch.c are results here, so writing through them in place is not captured.
- `atomicio6`, the same loop on one buffer; `poll` is only a reason to try again.
- `externalProtocolCheckCrc` and its callers: whether a received frame is accepted.
- Memory exhaustion where the source ends the process.
- Sockets, threads, camera, video, graphics, configuration files and JSON splitting in the other programs of the repository.
