# Verified model of UefiPkg

UefiPkg carries Android's verified boot library (libavb) for UEFI, with its A/B boot flow, and
several firmware libraries and tools. This project models the parts of it that compute or keep
state, and proves what they compute and which properties every run keeps.

The modules follow the program:

- `Rsa`, `Montgomery`, `ModularArithmetic`: the RSA check on arrays of 32-bit words. The methods
  of `Rsa` are proved against Montgomery's algorithm on numbers, and that against
  `x^65537 mod n`. `RsaVerdict` reads the verdict off the bytes of the key.
- `AbDevice` is the A/B flow as it mutates slots, stored rollback indexes and the record on disk;
  `AbFlowSpec` is the same as functions on values, with every answer of the device as a
  parameter. `AbMeaning` says what one call promises; `AbRollback`, `AbRuns` and `AbInterleaving`
  prove what holds over whole runs. `AbData` is the record on disk.
- `SlotVerify` is avb_slot_verify as it fills its data; `SlotSpec` the same as functions.
  `SlotProofs` says what a slot in order is, without the order of the checks; `SlotExact` proves
  exactly when OK is returned and when it hides an error, `SlotHidden` gives two such slots,
  `SlotRoom` counts in advance what the fixed-size lists must hold, `SlotRecorded` is about the
  data that are returned, and `SlotCmdline` about the command line in them. `SlotMeaning` reads the
  single steps off the answers of the device. `AvbTypes` holds the contract with the A/B
  flow: `SlotRecorded.SlotVerifyHonoursContract` proves what the flow assumes about a slot.
- `Sha256`, `Sha256Core`, `Sha256Transform`, `Sha256Padding`, `Sha256Words`, `Sha256Image`: the
  streaming SHA-256. All but the last two work for any word operations, so the bit operations stay
  out of the proofs about order and buffering. `Sha256Meaning` says what the word operations and
  constants are, `Sha256Example`, with `Sha256Rows`, that the digest of one message is the
  published one.
- `Crc32`: the table-driven CRC-32. `ByteOrder`: big-endian numbers and the byte comparison.
- `RamDebug`: the debug log in RAM. `Flash`: the block-wise flash update.
- `FmpImage`, `FmpAuth`, `FmpCapsule` (classes), `FmpCapsuleSpec`, `FmpRoundTrip`, `FmpLayout`,
  `PyStruct`: the capsule headers of the Python tools.
- `Console`, `ConsoleSpec`, `ConsoleTrim`, `ConsoleQuotes`: splitting a command line.
  `StrReplace`, `CStrings`: search and replace on C strings.

Whatever mutates in the source mutates here: word and byte arrays are arrays, structures with
fields are classes, loops are loops with invariants. Each such method states its whole effect by
a function of the old state, and the lemmas are about these functions.

I/O and calls into code outside the model are parameters. An `Ops`, `FlowEnv`, `LoadEnv` or
`MarkEnv` says how the device, the key store or the allocator answers, so a theorem for all of
them covers every failure. Pointers into strings are positions, and `ghost` parameters say where
a string ends.

## Where the code and its documentation differ

The model follows the code.

- `Application/UefiAvb/libavb/avb_slot_verify.h:93-95` guarantees OK if and only if there are no
  errors. Line 1041 of avb_slot_verify.c overwrites the result so far when a hashtree descriptor
  carries no root digest. `SlotExact.OkHidesErrorIff` says exactly when an OK hides an error, and
  `SlotHidden` gives a slot that does in each mode. The other half holds: a slot without errors is
  reported OK, unless a fixed-size list is full or the device fails (`SlotExact.GenuineSlotIsOk`,
  `SlotRoom.HeaderPromiseIff`). Only devices whose AvbOps can read persistent values are concerned
  (`SlotExact.OkIsGenuineWithoutStore`): `Application/UefiAvb/uefi_avb_ops.c:750-786`, the one in
  this repository, leaves that operation unset.
- `Application/UefiAvb/libavb_ab/avb_ab_flow.h:252-253` says that marking an unbootable slot
  successful has no side effects. It has none if and only if loading has nothing to normalise
  (`AbInterleaving.UnbootableMarkLeavesIff`); after the last attempt it clears the slot
  (`AbInterleaving.LastAttemptCannotSucceed`).
- `Application/UefiAvb/libavb_ab/avb_ab_flow.h:171-174` sets every stored rollback index to the
  largest value that the bootable slots support. Where that value is 0 the code leaves the stored
  index as it is (`AbMeaning.StoredIsLargestSupported`).
- If loading the A/B metadata fails, avb_ab_flow still compares and saves two records that were
  never filled. The model gives that memory as a parameter. After a failed reset only the second
  one is unset, the first holds the initial metadata. A call breaks the bound on attempts exactly
  when the read failed and what is saved has more tries than there were
  (`AbRuns.FlowSpendsBudget`); for every record with tries to add and every failed read there is
  memory that does, and for nothing else (`AbRuns.RefillPossibleIff`).
- A stored rollback index should keep supporting a slot that verified. With two images at one
  location it need not: `AbMeaning.StillPassesIff` gives the exact condition.
- A debug string of exactly the size of the RAM log passes the guard but has no room for its
  terminator (`RamDebug.ScanEndsIff`).
- An update of SHA-256 whose length and buffered length together reach 2^32 forgets a tail of what
  was fed before (`Sha256.AvbSHA256Ctx.Update`).
- Encoding a capsule twice with the same object repeats the table of offsets
  (`FmpRoundTrip.SecondEncodeIsLonger`).

## Model

| member | source | states |
|---|---|---|
| `Rsa.SubM` | `Application/UefiAvb/libavb/avb_rsa.c:110-119` | a - n on word arrays, modulo R = 2^(32k), for every k and without overflow of the signed accumulator |
| `Rsa.GeM` | `Application/UefiAvb/libavb/avb_rsa.c:121-134` | word-by-word comparison from the top answers exactly a >= n |
| `Rsa.MontMulAdd` | `Application/UefiAvb/libavb/avb_rsa.c:136-159` | one Montgomery step in place: no 64-bit accumulator overflows, and the new c is the step on numbers, with the subtraction exactly when a carry leaves the top word |
| `Montgomery.MontStepBounds` | `Application/UefiAvb/libavb/avb_rsa.c:136-159` | a step keeps c below R for every modulus n < R, odd or not: the quotient is below R + n and one subtraction on carry-out lands below R |
| `Montgomery.MontQuotientExact` | `Application/UefiAvb/libavb/avb_rsa.c:141-143` | the quotient digit makes the low word vanish whenever n0inv * n = -1 modulo 2^32 |
| `Montgomery.MontStepCongruent` | `Application/UefiAvb/libavb/avb_rsa.c:136-159` | 2^32 * c' = c + a * b modulo n |
| `Rsa.MontMul` | `Application/UefiAvb/libavb/avb_rsa.c:161-170` | the loop over all words of a computes the Montgomery product of the two numbers for any word count |
| `Montgomery.MontProductBound` | `Application/UefiAvb/libavb/avb_rsa.c:161-170` | the accumulator stays below R through all words |
| `Montgomery.MontProductCongruent` | `Application/UefiAvb/libavb/avb_rsa.c:161-170` | R * c = a * b modulo n after all words |
| `Montgomery.RadixInvertible` | `Application/UefiAvb/libavb/avb_rsa.c:136-159` | R has an inverse modulo n as soon as n0inv fits, so the factor R can be cancelled |
| `Rsa.BytesToWords` | `Application/UefiAvb/libavb/avb_rsa.c:186-193` | the big-endian bytes and the little-endian words are the same number |
| `Rsa.WordsToBytes` | `Application/UefiAvb/libavb/avb_rsa.c:207-214` | the words written back big-endian are the same number |
| `Montgomery.MontEnter` | `Application/UefiAvb/libavb/avb_rsa.c:195` | multiplying by rr brings the input into Montgomery form |
| `Montgomery.MontSquaresCongruent` | `Application/UefiAvb/libavb/avb_rsa.c:196-199` | j Montgomery squarings hold x^(2^j) * R modulo n and stay below R, for every j |
| `Rsa.SquareSixteen` | `Application/UefiAvb/libavb/avb_rsa.c:196-199` | the loop that alternates between two arrays performs exactly sixteen squarings |
| `Montgomery.MontLeave` | `Application/UefiAvb/libavb/avb_rsa.c:200` | the last product, by the plain input, leaves Montgomery form and multiplies once more by x |
| `Rsa.SubtractIfGe` | `Application/UefiAvb/libavb/avb_rsa.c:202-205` | n is subtracted exactly once, and only if the value is not below n |
| `Montgomery.PowF4Correct` | `Application/UefiAvb/libavb/avb_rsa.c:172-226` | the whole chain is exactly x^65537 mod n, one final subtraction included, for every modulus with its top bit set and consistent n0inv and rr |
| `Rsa.ModpowF4` | `Application/UefiAvb/libavb/avb_rsa.c:172-226` | the input bytes are replaced by the big-endian bytes of input^65537 mod n; for an inconsistent key by what the chain gives then |
| `Rsa.ReverseWords` | `Application/UefiAvb/libavb/avb_rsa.c:93-96` | the words of a key number are reversed and byte-swapped into the number the bytes write in big-endian |
| `Rsa.ParseKeyData` | `Application/UefiAvb/libavb/avb_rsa.c:47-104` | a key is returned exactly when size and length are accepted, which RsaVerdict spells out, and then holds the numbers of the blob |
| `Rsa.OpenedIsPower` | `Application/UefiAvb/libavb/avb_rsa.c:172-226` | with a consistent key, opening a signature is the RSA public operation |
| `Rsa.OpenAndCompare` | `Application/UefiAvb/libavb/avb_rsa.c:264-289` | a signature of the key's length is accepted exactly when it opens to padding followed by hash |
| `Rsa.CompareBlock` | `Application/UefiAvb/libavb/avb_rsa.c:278-287` | the two comparisons together accept exactly padding and hash in their places |
| `Rsa.SizesMismatch` | `Application/UefiAvb/libavb/avb_rsa.c:259-262` | the size check with its wrapping subtraction is exactly padding + hash == signature |
| `Rsa.AvbRsaVerify` | `Application/UefiAvb/libavb/avb_rsa.c:228-299` | true if and only if no pointer is null, the key parses and the opened signature is padding followed by hash; RsaVerdict says it on the bytes of the key |
| `RsaVerdict.AcceptsExactly` | `Application/UefiAvb/libavb/avb_rsa.c:228-299` | for a key of 2048, 4096 or 8192 bits, read off its bytes, whose top bit is set and whose stored inverse and square fit: acceptance if and only if the signature is as long as the modulus and sig^65537 mod n, written at that length, is padding followed by hash (section 8.2.2 of RFC 8017) |
| `RsaVerdict.OtherKeysRefused` | `Application/UefiAvb/libavb/avb_rsa.c:61-71` | no other header and no other length is ever accepted |
| `RsaVerdict.KeyExists` | `Application/UefiAvb/libavb/avb_rsa.c:40-45` | every odd modulus with its top bit set has such an inverse and square, so the premise can be met for each |
| `ByteOrder.SafeMemcmp` | `Application/UefiAvb/libavb/avb_util.c:83-101` | 0 exactly for equal ranges, by accumulating differences of all bytes |
| `ByteOrder.BeWordInverse` | `Application/UefiAvb/libavb/avb_util.c:29-64` | writing a word big-endian and reading it is the identity |
| `Crc32.TableEntry` | `Application/UefiAvb/libavb/avb_crc32.c:50-93` | each of the 256 constants is eight bit steps of its index under polynomial 0xEDB88320 |
| `Crc32.EightStepsLinear` | `Application/UefiAvb/libavb/avb_crc32.c:28-39` | eight bit steps distribute over exclusive or |
| `Crc32.LookUpIsStep` | `Application/UefiAvb/libavb/avb_crc32.c:102-110` | one table look-up per byte equals eight bit steps on every register and byte |
| `Crc32.IavbCrc32` | `Application/UefiAvb/libavb/avb_crc32.c:102-110` | the table-driven loop computes the bit-by-bit reflected CRC of every buffer, from any crc_in |
| `Crc32.AvbCrc32` | `Application/UefiAvb/libavb/avb_crc32.c:112-114` | the one-shot form is the CRC of section 8 of RFC 1952 |
| `Crc32.Crc32Concat` | `Application/UefiAvb/libavb/avb_crc32.c:102-110` | feeding one result in as crc_in gives the CRC of the concatenation |
| `Crc32.EightStepsInjective` | `Application/UefiAvb/libavb/avb_crc32.c:28-39` | no two registers have the same eight steps |
| `Crc32.SingleByteDetected` | `Application/UefiAvb/libavb/avb_crc32.c:102-110` | changing any one byte of any message changes its CRC |
| `Crc32.PublishedCheck` | `Application/UefiAvb/libavb/avb_crc32.c:102-114` | the check value of the characters 1 to 9 is the published 0xCBF43926 |
| `AbData.UpdateCrcAndByteswap` | `Application/UefiAvb/libavb_ab/avb_ab_flow.c:55-60` | the 32 bytes that are written carry the fields in order and the CRC of the first 28 |
| `AbData.VerifyAndByteswap` | `Application/UefiAvb/libavb_ab/avb_ab_flow.c:27-53` | accepts exactly records with the magic, a supported major version and a matching CRC, and returns their fields |
| `AbData.RecordRoundTrip` | `Application/UefiAvb/libavb_ab/avb_ab_flow.c:27-60` | a record that was written is read back unchanged but for crc32, and is accepted exactly when magic and version are |
| `AbData.RecordLayout` | `Application/UefiAvb/libavb_ab/avb_ab_flow.c:55-60` | where every field stands in the 32 bytes: priority, tries, success and padding of each slot in that order from bytes 8 and 12 on, the CRC of the first 28 bytes big-endian from byte 28 on |
| `AbData.FreshRecord` | `Application/UefiAvb/libavb_ab/avb_ab_flow.c:62-81` | the bytes that a reset writes |
| `AbData.AcceptedIsRecord` | `Application/UefiAvb/libavb_ab/avb_ab_flow.c:27-60` | every accepted record is, byte for byte, what its fields are written as |
| `AbData.TamperedByteRejected` | `Application/UefiAvb/libavb_ab/avb_ab_flow.c:27-53` | changing any one of the 32 bytes of an accepted record makes it rejected |
| `AbDevice.SlotSetUnbootable` | `Application/UefiAvb/libavb_ab/avb_ab_flow.c:139-147` | clears one slot and leaves the other |
| `AbDevice.SlotNormalize` | `Application/UefiAvb/libavb_ab/avb_ab_flow.c:149-164` | normalises one slot in place by its branches and leaves the other |
| `AbDevice.AbOps.DataRead` | `Application/UefiAvb/libavb_ab/avb_ab_flow.c:83-112` | reads the record, resets a rejected one on disk, and reports short or failed reads; the caller's record is untouched by a failed read and holds the initial metadata after a failed reset |
| `AbDevice.AbOps.DataWrite` | `Application/UefiAvb/libavb_ab/avb_ab_flow.c:114-132` | the disk holds the stamped record exactly when the write succeeds |
| `AbDevice.AbOps.Load` | `Application/UefiAvb/libavb_ab/avb_ab_flow.c:171-193` | returns what the disk holds and its normalised copy, or what a failed load leaves in the caller's record |
| `AbDevice.AbOps.Save` | `Application/UefiAvb/libavb_ab/avb_ab_flow.c:195-203` | writes exactly when a byte of the record changed |
| `AbDevice.AbOps.VerifyLoop` | `Application/UefiAvb/libavb_ab/avb_ab_flow.c:228-297` | the loop over both slots, with its early exits, is the specification of verification |
| `AbFlowSpec.VerifySlotsExact` | `Application/UefiAvb/libavb_ab/avb_ab_flow.c:228-297` | verification stops exactly when a bootable slot answers with a fatal error; otherwise each slot is handled independently of the other |
| `AbMeaning.LoadedStates` | `Application/UefiAvb/libavb_ab/avb_ab_flow.c:149-164` | a loaded slot is confirmed, or has tries left, or is cleared; it is bootable in the first two states, which loading leaves as they were stored |
| `AbMeaning.VerificationStops` | `Application/UefiAvb/libavb_ab/avb_ab_flow.c:239-289` | the first bootable slot whose verification runs out of memory, fails to read or is called wrongly ends the call with that error |
| `AbMeaning.SawErrorIff` | `Application/UefiAvb/libavb_ab/avb_ab_flow.c:262-279` | an allowed error is seen exactly if errors are allowed and a bootable slot has a wrong digest or signature, a low rollback index or a rejected key |
| `AbMeaning.SlotsAfterBoot` | `Application/UefiAvb/libavb_ab/avb_ab_flow.h:162-181` | when a slot boots, rejected slots are cleared, the booted one loses one try unless it is confirmed, nothing else changes; it is the survivor of higher priority, and the answer is OK_WITH_VERIFICATION_ERROR exactly if an error was allowed |
| `AbDevice.ChooseSlot` | `Application/UefiAvb/libavb_ab/avb_ab_flow.c:299-315` | none exactly if no slot is bootable; otherwise a bootable slot, of higher priority than the other if that is bootable too, or of equal priority and slot 0 |
| `AbFlowSpec.ChooseMeaning` | `Application/UefiAvb/libavb_ab/avb_ab_flow.c:299-315` | slot k is chosen if and only if it is bootable and the other is not, or has a lower priority, or the same one and k is 0 |
| `AbDevice.AbOps.UpdateLoop` | `Application/UefiAvb/libavb_ab/avb_ab_flow.c:317-359` | the stored indexes after the loop, including an exit part-way on an I/O error |
| `AbRollback.UpdateSetsAll` | `Application/UefiAvb/libavb_ab/avb_ab_flow.c:317-359` | without an error every location holds the wanted index, or is untouched when that is 0 |
| `AbRollback.DecideLocation` | `Application/UefiAvb/libavb_ab/avb_ab_flow.c:317-359` | a location is either untouched or set to the value that AbMeaning.NewIndexIsLargest describes, and surely the latter when a slot boots |
| `AbRollback.ChosenHasData` | `Application/UefiAvb/libavb_ab/avb_ab_flow.c:361-364` | the assertion of line 362 always holds: the chosen slot has verification data |
| `AbDevice.AbOps.DecideInPlace` | `Application/UefiAvb/libavb_ab/avb_ab_flow.c:228-376` | verification, choice, rollback update and try counter together, in place, are the decision of the specification |
| `AbDevice.AbOps.AvbAbFlow` | `Application/UefiAvb/libavb_ab/avb_ab_flow.c:205-407` | a whole boot, with every failure of the device, takes the stored state to the one of the specification |
| `AbFlowSpec.FlowParts` | `Application/UefiAvb/libavb_ab/avb_ab_flow.c:205-407` | a failed load or save boots nothing; a boot is reported exactly with OK or OK_WITH_VERIFICATION_ERROR |
| `AbMeaning.DecideBootsIff` | `Application/UefiAvb/libavb_ab/avb_ab_flow.c:228-376` | between loading and saving a slot is handed out if and only if none stopped the verification, one survived it, and the largest supported index of every location could be stored |
| `AbMeaning.FlowBootsIff` | `Application/UefiAvb/libavb_ab/avb_ab_flow.c:205-407` | a call hands out a slot if and only if all 32 bytes were read, a reset that was needed succeeded, a slot was chosen, and changed metadata could be saved |
| `AbMeaning.FlowErrors` | `Application/UefiAvb/libavb_ab/avb_ab_flow.c:378-390` | which error is answered: that of a failed save before that of a failed load before the one found in between |
| `AbRollback.FlowNeverDecreases` | `Application/UefiAvb/libavb_ab/avb_ab_flow.c:317-359` | in locked mode no stored rollback index decreases in a call, even with I/O errors part-way |
| `AbRollback.RunNeverDecreases` | `Application/UefiAvb/libavb_ab/avb_ab_flow.c:317-359` | nor over any sequence of calls |
| `AbRollback.UnlockedMayDecrease` | `Application/UefiAvb/libavb_ab/avb_ab_flow.c:317-359` | with verification errors allowed it can: a concrete call that lowers an index |
| `AbMeaning.UpdateSucceedsIff` | `Application/UefiAvb/libavb_ab/avb_ab_flow.c:331-359` | the update succeeds if and only if every location with a value to store can be read and, unless it holds the value, written |
| `AbMeaning.UpdateStopsAt` | `Application/UefiAvb/libavb_ab/avb_ab_flow.c:331-359` | otherwise the first location where that fails decides the error |
| `AbMeaning.NewIndexIsLargest` | `Application/UefiAvb/libavb_ab/avb_ab_flow.c:324-338` | the value chosen for a location is the largest that no verified slot falls below |
| `AbMeaning.StoredIsLargestSupported` | `Application/UefiAvb/libavb_ab/avb_ab_flow.h:171-174` | after a boot the stored index is the largest value that is not above the index of any verified slot; where that is 0 it is as it was |
| `AbMeaning.TwoSlotsLeaveSmaller` | `Application/UefiAvb/libavb_ab/avb_ab_flow.c:324-329` | two verified slots that recorded a and b, both not 0, leave exactly the smaller of the two |
| `AbMeaning.BootLowersIff` | `Application/UefiAvb/libavb_ab/avb_ab_flow.c:317-359` | a boot lowers a stored index if and only if the verified slots support 1 but not the stored value |
| `AbMeaning.StillPassesIff` | `Application/UefiAvb/libavb_ab/avb_ab_flow.c:317-359` | after every boot a verified slot still passes its own check if and only if the verified slots support no more than the index of any of its images at its location |
| `AbRollback.VerifiedSlotStillPasses` | `Application/UefiAvb/libavb_ab/avb_ab_flow.c:317-359` | a slot that passed the rollback check still passes it after the update, if each location is used by one image, or by images the last of which has the lowest index |
| `AbRollback.LoneSlotPassesIff` | `Application/UefiAvb/libavb_ab/avb_ab_flow.c:317-359` | for a slot that is alone in having data: it still passes if and only if the last index recorded at each location is the lowest |
| `AbRollback.SharedLocationLocksOut` | `Application/UefiAvb/libavb_ab/avb_ab_flow.c:317-359` | a concrete slot with two images at one location that boots once and then fails its own rollback check |
| `AvbTypes.IndexesBounded` | `Application/UefiAvb/libavb/avb_slot_verify.c:1072-1073` | an index recorded for a slot that passed the check is 0 or at least the stored one |
| `AvbTypes.IndexesExact` | `Application/UefiAvb/libavb/avb_slot_verify.c:1072-1073` | with distinct locations the recorded index of each image is found at its location |
| `AvbTypes.DistinctLastIsLowest` | `Application/UefiAvb/libavb/avb_slot_verify.c:1072-1073` | distinct locations are a case of the condition that the last recorded index is the lowest |
| `AbRuns.DecideSlots` | `Application/UefiAvb/libavb_ab/avb_ab_flow.c:228-376` | a decision only disables slots or spends one try of the slot it boots, and changes no other field |
| `AbRuns.FlowSpendsBudget` | `Application/UefiAvb/libavb_ab/avb_ab_flow.c:205-407` | a call spends a try for each boot of a slot not marked successful, in exactly the calls that do not save more tries from memory after a failed read |
| `AbRuns.AttemptsBounded` | `Application/UefiAvb/libavb_ab/avb_ab_flow.c:205-407` | over any run without such a call, other failed loads included, at most tries[0] + tries[1] calls boot a slot not marked successful |
| `AbRuns.FailedLoadRefillsBudget` | `Application/UefiAvb/libavb_ab/avb_ab_flow.c:378-379` | for every stored record with fewer than all tries and every failed or short read there is memory content whose save raises the tries |
| `AbRuns.RefillPossibleIff` | `Application/UefiAvb/libavb_ab/avb_ab_flow.c:378-379` | some memory content and device answers raise the tries if and only if the read failed or was short and there are tries to add: a failed reset never does |
| `AbRuns.FreshStep` | `Application/UefiAvb/libavb_ab/avb_ab_flow.c:62-81` | one call on the state that n ideal calls leave: its boot, its result and the next state |
| `AbRuns.FreshRun` | `Application/UefiAvb/libavb_ab/avb_ab_flow.c:205-407` | from fresh metadata with both slots verifying: 7 boots of slot 0, then 7 of slot 1, then NO_BOOTABLE_SLOTS for ever |
| `AbDevice.SlotActivate` | `Application/UefiAvb/libavb_ab/avb_ab_flow.c:409-440` | the marked slot gets the highest priority and all tries, the other at most one less |
| `AbDevice.AbOps.MarkSlotActive` | `Application/UefiAvb/libavb_ab/avb_ab_flow.c:409-440` | loads, activates and saves as specified, with every error |
| `AbDevice.AbOps.MarkSlotUnbootable` | `Application/UefiAvb/libavb_ab/avb_ab_flow.c:442-463` | loads, disables and saves as specified, with every error |
| `AbDevice.AbOps.MarkSlotSuccessful` | `Application/UefiAvb/libavb_ab/avb_ab_flow.c:465-493` | loads, confirms a bootable slot and saves as specified, with every error |
| `AbInterleaving.StepKeepsInvIff` | `Application/UefiAvb/libavb_ab/avb_ab_flow.c:139-493` | every operation, with any failure of the device, keeps the invariant if and only if it is not a boot that saves a record out of order from memory after a failed read; invariant: priorities in {0, 14, 15}, non-zero priorities distinct, tries at most 7, no tries left on a successful slot |
| `AbInterleaving.StepKeepsInv` | `Application/UefiAvb/libavb_ab/avb_ab_flow.c:139-493` | so every other operation keeps it |
| `AbInterleaving.RejectedStep` | `Application/UefiAvb/libavb_ab/avb_ab_flow.c:83-112` | from a rejected record the first such operation leaves it rejected or establishes the invariant, a failed reset included |
| `AbInterleaving.TraceKeepsInv` | `Application/UefiAvb/libavb_ab/avb_ab_flow.c:139-493` | so does every interleaving of boots and markings, failed loads included |
| `AbInterleaving.ReachableInv` | `Application/UefiAvb/libavb_ab/avb_ab_flow.c:62-81` | and every state reachable from fresh metadata satisfies it |
| `AbInterleaving.ActiveSlotBoots` | `Application/UefiAvb/libavb_ab/avb_ab_flow.c:299-315` | on any metadata, after mark_active(k) the next completed boot is of k if and only if no surviving other slot has a priority above 15 |
| `AbInterleaving.ReachableActiveSlotBoots` | `Application/UefiAvb/libavb_ab/avb_ab_flow.c:409-440` | in every reachable state it is of k, whenever k verifies |
| `AbInterleaving.UnbootableMarkLeavesIff` | `Application/UefiAvb/libavb_ab/avb_ab_flow.h:252-253` | marking an unbootable slot successful has no side effects if and only if the record was accepted and loading had nothing to normalise |
| `AbInterleaving.LastAttemptCannotSucceed` | `Application/UefiAvb/libavb_ab/avb_ab_flow.c:465-493` | marking a slot right after its boot works exactly if tries are left; after the last attempt it disables the slot |
| `Sha256Transform.FillSchedule` | `Application/UefiAvb/libavb/avb_sha256.c:124-147` | the sixteen packed words and the 48 derived ones are the message schedule |
| `Sha256Transform.RoundsLoop` | `Application/UefiAvb/libavb/avb_sha256.c:149-165` | the loop that shifts the eight registers is 64 rounds |
| `Sha256Transform.Exp` | `Application/UefiAvb/libavb/avb_sha256.c:71-78` | one unrolled round, for any eight roles: two writes, and the roles turn by one |
| `Sha256Transform.ExpEight` | `Application/UefiAvb/libavb/avb_sha256.c:237-318` | eight unrolled rounds bring the roles back to where they were |
| `Sha256Transform.RoundsUnrolled` | `Application/UefiAvb/libavb/avb_sha256.c:237-318` | the unrolled build computes the same 64 rounds as the loop |
| `Sha256Transform.AddInPlace` | `Application/UefiAvb/libavb/avb_sha256.c:167-169` | the registers are added to the chaining value word by word |
| `Sha256Transform.TransformBlock` | `Application/UefiAvb/libavb/avb_sha256.c:124-321` | either build compresses the block at its offset |
| `Sha256Words.PackUnpack` | `Application/UefiAvb/libavb/avb_sha256.c:51-64` | unpacking a word and packing its bytes is the identity |
| `Sha256Meaning.F1Bits` | `Application/UefiAvb/libavb/avb_sha256.c:46` | bit i is the exclusive or of bits i + 2, i + 13 and i + 22 modulo 32 |
| `Sha256Meaning.F2Bits` | `Application/UefiAvb/libavb/avb_sha256.c:47` | bit i is the exclusive or of bits i + 6, i + 11 and i + 25 modulo 32 |
| `Sha256Meaning.F3Bits` | `Application/UefiAvb/libavb/avb_sha256.c:48` | bit i is the exclusive or of bits i + 7 and i + 18 modulo 32 and of bit i + 3, or zero behind the end |
| `Sha256Meaning.F4Bits` | `Application/UefiAvb/libavb/avb_sha256.c:49` | bit i is the exclusive or of bits i + 17 and i + 19 modulo 32 and of bit i + 10, or zero behind the end |
| `Sha256Meaning.ChSelects` | `Application/UefiAvb/libavb/avb_sha256.c:43` | the first word selects between the bits of the other two |
| `Sha256Meaning.MajVotes` | `Application/UefiAvb/libavb/avb_sha256.c:44` | each bit is the majority of three |
| `Sha256Meaning.RoundConstantsAreRoots` | `Application/UefiAvb/libavb/avb_sha256.c:89-100` | each of the 64 constants is the first 32 bits of the fraction of the cube root of its prime, as an integer inequality (section 4.2.2 of FIPS 180-4) |
| `Sha256Meaning.InitialWordsAreRoots` | `Application/UefiAvb/libavb/avb_sha256.c:80-87` | the eight initial words, of the square roots of the first eight primes (section 5.3.3) |
| `Sha256Example.AbcDigest` | `Application/UefiAvb/libavb/avb_sha256.c:124-390` | the digest of the three bytes abc is the published ba7816bf..f20015ad: message schedule, rounds and final addition agree with it |
| `Sha256.AvbSHA256Ctx.constructor` | `Application/UefiAvb/libavb/avb_sha256.c:103-122` | a new context has been fed nothing |
| `Sha256.AvbSHA256Ctx.Init` | `Application/UefiAvb/libavb/avb_sha256.c:103-122` | a used context is reset to one fed nothing |
| `Sha256.AvbSHA256Ctx.Transform` | `Application/UefiAvb/libavb/avb_sha256.c:124-321` | the chaining value is folded over the blocks of the message in order |
| `Sha256Core.ChainSplit` | `Application/UefiAvb/libavb/avb_sha256.c:343-344` | the fold over n + k blocks is the fold over k from the fold over n |
| `Sha256Core.ChainUnique` | `Application/UefiAvb/libavb/avb_sha256.c:124-321` | every step that implements the compression gives the same fold |
| `Sha256.ChainUpdate` | `Application/UefiAvb/libavb/avb_sha256.c:343-344` | the filled block and the whole blocks of the data continue the fold over what was fed before |
| `Sha256.AvbSHA256Ctx.UpdateShort` | `Application/UefiAvb/libavb/avb_sha256.c:333-336` | data that do not fill the block are only buffered, with the 32-bit wrap of the length sum |
| `Sha256.AvbSHA256Ctx.UpdateLong` | `Application/UefiAvb/libavb/avb_sha256.c:338-351` | data that fill it are absorbed up to the last whole block, and the rest is buffered |
| `Sha256.AvbSHA256Ctx.Update` | `Application/UefiAvb/libavb/avb_sha256.c:323-352` | whatever the split, the context has been fed the concatenation; exactly when buffered length plus length reaches 2^32 it forgets a tail instead |
| `Sha256Padding.TailsAgree` | `Application/UefiAvb/libavb/avb_sha256.c:362-370` | the padding of the code is the one of section 5.1.1 of FIPS 180-4 if and only if the message is shorter than 2^29 bytes |
| `Sha256.AvbSHA256Ctx.Pad` | `Application/UefiAvb/libavb/avb_sha256.c:362-370` | the buffer is padded to one or two blocks with the length in bits in its last four bytes |
| `Sha256.ChainFinal` | `Application/UefiAvb/libavb/avb_sha256.c:372` | the padded blocks end the fold over the whole padded message |
| `Sha256.AvbSHA256Ctx.Final` | `Application/UefiAvb/libavb/avb_sha256.c:354-390` | the digest of all that was fed: the standard hash below 2^29 bytes, and the one with the 32-bit length field always |
| `Sha256Padding.FedTwiceBuffered` | `Application/UefiAvb/libavb/avb_slot_verify.c:296-302` | what two updates leave as fed: the concatenation, or the first without a tail when its buffered part and the second reach 2^32 |
| `Sha256.HashSaltedImage` | `Application/UefiAvb/libavb/avb_slot_verify.c:296-302` | salt and image, its size cast to 32 bits, give the digest of what the two updates fed, and of their concatenation below 2^29 bytes |
| `Sha256Image.SaltedSha256` | `Application/UefiAvb/libavb/avb_slot_verify.c:296-302` | with the real words and constants it is SHA-256 of salt followed by image below 2^29 bytes, and for every size the digest with the 32-bit length field |
| `SlotVerify.AvbSlotVerifyData.LoadAndCompare` | `Application/UefiAvb/libavb/avb_slot_verify.c:200-348` | loads a partition, hashes it and compares, with every error of its steps |
| `SlotVerify.AvbSlotVerifyData.LoadAndVerifyHashPartition` | `Application/UefiAvb/libavb/avb_slot_verify.c:177-375` | the loaded image is kept exactly when it was requested and the result lets verification go on |
| `SlotVerify.AvbSlotVerifyData.LoadRequestedPartitions` | `Application/UefiAvb/libavb/avb_slot_verify.c:377-457` | the requested partitions are loaded in order, up to the first error |
| `SlotVerify.AvbSlotVerifyData.LoadAndVerifyVbmeta` | `Application/UefiAvb/libavb/avb_slot_verify.c:459-1092` | the recursive walk over images, in place, terminates and is the walk of the specification, the fallback from vbmeta to boot included |
| `SlotVerify.AvbSlotVerifyData.ProcessDescriptors` | `Application/UefiAvb/libavb/avb_slot_verify.c:812-1063` | the loop over descriptors with its jumps out |
| `SlotVerify.AvbSlotVerifyData.ProcessDescriptor` | `Application/UefiAvb/libavb/avb_slot_verify.c:823-1062` | the switch over the kinds of descriptor; SlotCmdline says which lines it adds |
| `SlotVerify.AvbSlotVerifyData.FindRootDigest` | `Application/UefiAvb/libavb/avb_slot_verify.c:991-1056` | a hashtree descriptor without root digest reads the stored one and spends one of ten substitutions |
| `SlotVerify.AvbSlotVerifyData.RecordIndex` | `Application/UefiAvb/libavb/avb_slot_verify.c:1072-1073` | the array entry is overwritten and the order of writes is remembered |
| `SlotVerify.AvbSlotVerifyData.FinishCmdline` | `Application/UefiAvb/libavb/avb_slot_verify.c:1175-1249` | the command line is finished, or all data are given up |
| `SlotVerify.AvbSlotVerify` | `Application/UefiAvb/libavb/avb_slot_verify.c:1094-1268` | result and data are those of the specification; without the allow flag data are returned only with OK |
| `SlotVerify.DisabledHasNoCmdline` | `Application/UefiAvb/libavb/avb_slot_verify.c:1199-1204` | the assertion that a disabled image left no command line always holds |
| `SlotSpec.TopImageRecorded` | `Application/UefiAvb/libavb/avb_slot_verify.c:1176-1180` | when verification may go on there is a first image, so vbmeta_images[0] can be read |
| `SlotSpec.VbmetaExtends` | `Application/UefiAvb/libavb/avb_slot_verify.c:459-1092` | the walk only ever adds images, partitions and indexes |
| `SlotProofs.CheckMeaning` | `Application/UefiAvb/libavb/avb_slot_verify.c:618-751` | an image passes without error exactly when its verdict, its key (and, chained, zero flags) and its rollback index are right |
| `SlotProofs.HashCheckMeaning` | `Application/UefiAvb/libavb/avb_slot_verify.c:200-348` | a hash descriptor passes exactly when its partition can be loaded and matches the expected digest |
| `SlotProofs.VerifiedIsLoaded` | `Application/UefiAvb/libavb/avb_slot_verify.c:177-375` | a requested partition that passed is loaded under its name, and what is loaded matches |
| `SlotProofs.LoadRequestedMeaning` | `Application/UefiAvb/libavb/avb_slot_verify.c:377-457` | OK exactly when every requested partition can be loaded, memory aside |
| `SlotMeaning.LoadMeaning` | `Application/UefiAvb/libavb/avb_slot_verify.c:69-134` | a load gives exactly the bytes that the preloading operation or the read delivers at the size asked for |
| `SlotMeaning.LoadErrors` | `Application/UefiAvb/libavb/avb_slot_verify.c:69-134` | otherwise out of memory exactly if the operation asked last said so, else an I/O error |
| `SlotMeaning.PersistentMeaning` | `Application/UefiAvb/libavb/avb_slot_verify.c:136-175` | a stored digest is used exactly if it has the length asked for; what every other answer gives |
| `SlotMeaning.HashOkIff` | `Application/UefiAvb/libavb/avb_slot_verify.c:200-348` | a hash descriptor of a requested partition is satisfied by data if and only if its partition, with suffix where one applies, delivers them at the size that applies and the digest of salt and leading bytes, of 32 or 64 bytes, is the one of the descriptor or the stored one |
| `SlotMeaning.FindMeaning` | `Application/UefiAvb/libavb/avb_slot_verify.c:509-617` | an image is read from the start of the partition named vbmeta, elsewhere where the footer says, of 64 KiB at most; the boot partition is tried only for a missing main one |
| `SlotMeaning.FindErrors` | `Application/UefiAvb/libavb/avb_slot_verify.c:509-617` | what is answered when there is no image |
| `SlotMeaning.CStringMeaning` | `Application/UefiAvb/libavb/avb_slot_verify.c:594-597` | a name ends at its first NUL, and only the name vbmeta itself is read without a footer |
| `SlotMeaning.AllowedCheck` | `Application/UefiAvb/libavb/avb_slot_verify.c:618-751` | when errors are allowed an image is used exactly if its header is sound, its flags are in the top-level image and the device answered; the last check that failed is reported |
| `SlotMeaning.StrictCheck` | `Application/UefiAvb/libavb/avb_slot_verify.c:618-751` | otherwise the first check that fails ends the verification of the image with its error |
| `SlotMeaning.ImageRecorded` | `Application/UefiAvb/libavb/avb_slot_verify.c:753-787` | an image that is used is recorded under its name, with its verdict |
| `SlotMeaning.VbmetaRecords` | `Application/UefiAvb/libavb/avb_slot_verify.c:1065-1073` | every recorded rollback index is the one in a recorded image |
| `SlotMeaning.RequestedLoaded` | `Application/UefiAvb/libavb/avb_slot_verify.c:377-457` | with verification turned off the requested partitions are loaded whole, in order, each under its own name |
| `SlotMeaning.Limits` | `Application/UefiAvb/libavb/avb_slot_verify.c:349-373` | 33 loaded partitions or 11 stored root digests are too many |
| `SlotMeaning.ImageLimit` | `Application/UefiAvb/libavb/avb_slot_verify.c:753-761` | so are 33 images |
| `SlotCmdline.WalkCmdline` | `Application/UefiAvb/libavb/avb_slot_verify.c:931-975` | every walk appends to the command line, joined by single spaces, the lines of the descriptors that it visits, those of chained images in their place: a line for hashtrees only if bit 0 of the top-level flags is clear, a line for disabled hashtrees only if it is set, any other always |
| `SlotCmdline.VisitedAll` | `Application/UefiAvb/libavb/avb_slot_verify.c:812-1063` | a walk without chains that goes on visits every descriptor in order |
| `SlotCmdline.SlotCmdline` | `Application/UefiAvb/libavb/avb_slot_verify.c:1195-1240` | the command line of the caller is the substituted text of these lines, empty without any; with bit 1 of the flags of the first image set it is that of the fixed root= line |
| `SlotCmdline.DataGivenIff` | `Application/UefiAvb/libavb/avb_slot_verify.c:1172-1249` | data are given if and only if the result lets the caller go on, the lock state is known where it is asked for, and the substitution succeeds |
| `SlotExact.HashCheckFails` | `Application/UefiAvb/libavb/avb_slot_verify.c:200-348` | the check of a hash descriptor ends with a verification error exactly if a requested partition loads and its digest differs, and with no other error that lets verification go on |
| `SlotExact.ChainedTolerated` | `Application/UefiAvb/libavb/avb_slot_verify.c:459-1092` | a chained image lets the walk of the main image go on exactly if it can be found and its check or a digest is all that fails, unless a list is full |
| `SlotExact.OkIffAccepted` | `Application/UefiAvb/libavb/avb_slot_verify.c:459-1092` | the walk over an image and everything below it gives OK if and only if every descriptor is passed and all from the last hashtree descriptor without root digest on are in order (all, and the image itself, if there is none), unless a list is full |
| `SlotExact.WalkIffSettled` | `Application/UefiAvb/libavb/avb_slot_verify.c:812-1063` | the same for the loop from any descriptor and any result so far |
| `SlotExact.GenuineUnlessHidden` | `Application/UefiAvb/libavb/avb_slot_verify.c:1041` | an image with result OK is genuine, with everything below it, if and only if nothing wrong stands before a hashtree descriptor without root digest |
| `SlotExact.OkIsGenuine` | `Application/UefiAvb/libavb/avb_slot_verify.c:459-1092` | OK of a walk means that the whole tree of images below it is genuine, if no assignment of line 1041 can hide an error |
| `SlotExact.GenuineIsOk` | `Application/UefiAvb/libavb/avb_slot_verify.c:459-1092` | a genuine tree gives OK, or runs out of the 32 entries of a list or of the ten substitutions |
| `SlotExact.SlotOkIffAccepted` | `Application/UefiAvb/libavb/avb_slot_verify.h:306-307` | avb_slot_verify gives OK if and only if the slot is accepted in that sense, unless a list is full, the command line cannot be built or the lock state cannot be read |
| `SlotExact.OkHidesErrorIff` | `Application/UefiAvb/libavb/avb_slot_verify.h:93-95` | an OK is returned in spite of an error if and only if something wrong stands before a hashtree descriptor without root digest: when the promise of the header fails |
| `SlotExact.SlotOkIsGenuine` | `Application/UefiAvb/libavb/avb_slot_verify.h:306-307` | OK of avb_slot_verify means that everything reached is genuine, in either mode, for images whose order of descriptors cannot hide an error |
| `SlotExact.OkIsGenuineWithoutStore` | `Application/UefiAvb/libavb/avb_slot_verify.h:93-95` | on a device that cannot read persistent values every OK means that everything reached is genuine, whatever the images are |
| `SlotExact.GenuineSlotIsOk` | `Application/UefiAvb/libavb/avb_slot_verify.h:93-95` | a slot without errors gives OK, with the same exceptions as above |
| `SlotRoom.VbmetaWithin` | `Application/UefiAvb/libavb/avb_slot_verify.c:459-1092` | no walk adds more images, partitions or substitutions than are counted from the images beforehand |
| `SlotRoom.VbmetaRoom` | `Application/UefiAvb/libavb/avb_slot_verify.c:459-1092` | an accepted image whose count fits the lists gives OK |
| `SlotRoom.RoomySlotOkIff` | `Application/UefiAvb/libavb/avb_slot_verify.h:306-307` | with a count of at most 32 images, 32 partitions and ten substitutions and a device that answers, OK is returned if and only if the slot is accepted |
| `SlotRoom.HeaderPromiseIff` | `Application/UefiAvb/libavb/avb_slot_verify.h:93-95` | then the promise of OK if and only if there are no errors holds exactly for slots that are not both accepted and in error before a descriptor that resets the result; its second half always |
| `SlotRecorded.VbmetaKeepsOrder` | `Application/UefiAvb/libavb/avb_slot_verify.c:459-1092` | without the allow flag an index is recorded only at a valid location and not below the stored one; the recorded verdict is that of the image |
| `SlotRecorded.ChainAppends` | `Application/UefiAvb/libavb/avb_slot_verify.c:459-1092` | without the allow flag a chain descriptor adds at most one image, verified OK with the key and for the rollback location of that descriptor, with zero flags |
| `SlotRecorded.MainTrusts` | `Application/UefiAvb/libavb/avb_slot_verify.c:459-1092` | so the first recorded image is the top-level one, with a key that the device accepts, and every other one is vouched for by a chain descriptor of the first |
| `SlotRecorded.StrictDataIsTrusted` | `Application/UefiAvb/libavb/avb_slot_verify.h:81-86` | without the allow flag data are returned only with OK, and all images in them are trusted in that sense, hidden errors or not |
| `SlotRecorded.GenuineSlotDataMatch` | `Application/UefiAvb/libavb/avb_slot_verify.h:175-179` | of a slot without errors every partition in the data has the digest of a hash descriptor of a recorded image, unless verification is disabled |
| `SlotRecorded.OkDataMatch` | `Application/UefiAvb/libavb/avb_slot_verify.h:175-179` | so it does after every OK that cannot hide an error |
| `SlotRecorded.SlotVerifyHonoursContract` | `Application/UefiAvb/libavb/avb_slot_verify.c:1094-1268` | avb_slot_verify meets the contract that the A/B flow relies on: data exactly with a result that lets it go on, valid locations, and indexes that pass the check in locked mode |
| `SlotHidden.PersistentForgets` | `Application/UefiAvb/libavb/avb_slot_verify.c:1041` | the walk past a hashtree descriptor without root digest does not depend on the result so far |
| `SlotHidden.StrictModeMissesError` | `Application/UefiAvb/libavb/avb_slot_verify.c:1041` | a concrete slot, locked mode: a chained image fails its digest and OK is returned with the wrong partition loaded |
| `SlotHidden.AllowModeMissesError` | `Application/UefiAvb/libavb/avb_slot_verify.h:93-95` | a concrete slot, errors allowed: an unsigned image and yet OK, against what the header guarantees |
| `RamDebug.RamDebugLog.constructor` | `Library/RamDebugLib/RamDebugLib.c:88-92` | memory without the signature is a log with no entry |
| `RamDebug.RamDebugLog.GetLatestIndex` | `Library/RamDebugLib/RamDebugLib.c:67-125` | a memory without signature is set up once and the history starts empty |
| `RamDebug.RamDebugLog.GetRecordSize` | `Library/RamDebugLib/RamDebugLib.c:137-153` | the length of a record including its terminator |
| `RamDebug.RamDebugLog.CountDropped` | `Library/RamDebugLib/RamDebugLib.c:177-187` | the oldest records are passed over until the new one fits; the loop ends at a record and never passes LatestIndex |
| `RamDebug.ScanTurn` | `Library/RamDebugLib/RamDebugLib.c:183-187` | one turn of that loop passes over exactly the next record |
| `RamDebug.RamDebugLog.MoveForward` | `Library/RamDebugLib/RamDebugLib.c:189-196` | the overlapping copy forward moves the bytes intact |
| `RamDebug.RamDebugLog.CleanUp` | `Library/RamDebugLib/RamDebugLib.c:166-205` | the records that stay are at the front, the rest is 0xCC |
| `RamDebug.RamDebugLog.Append` | `Library/RamDebugLib/RamDebugLib.c:256-270` | the record and its terminator follow what was there |
| `RamDebug.RamDebugLog.Print` | `Library/RamDebugLib/RamDebugLib.c:217-272` | afterwards the buffer is exactly the longest suffix of all that was printed that fits, and 0xCC behind; a string that is too long changes nothing |
| `RamDebug.LongestSuffixMeaning` | `Library/RamDebugLib/RamDebugLib.c:177-187` | that suffix fits, and one record more would not |
| `RamDebug.SuffixAfterPrint` | `Library/RamDebugLib/RamDebugLib.c:252-270` | dropping just enough and appending gives the longest suffix again |
| `RamDebug.ScanEndsIff` | `Library/RamDebugLib/RamDebugLib.c:183-187` | the loop that drops records ends among them if and only if record and terminator are no longer than the buffer; for a string of the size of the buffer, which the guard of line 234 lets pass, it passes over every record, stands at LatestIndex and still looks for room |
| `Flash.FlashDevice.Execute` | `Library/PlatformFlashAccessLib/PlatformFlashAccessLib.c:108-163` | a controller command may leave anything in its range and fail, but touches nothing else |
| `Flash.FlashDevice.SpiFlashWrite` | `Library/PlatformFlashAccessLib/PlatformFlashAccessLib.c:110-163` | on success exactly the programs of the pieces of at most one block were issued; nothing outside the range changes |
| `Flash.ProgramsAt` | `Library/PlatformFlashAccessLib/PlatformFlashAccessLib.c:130-160` | the k-th program carries the k-th piece of the data at its place, and they cover all of it |
| `Flash.FlashDevice.SpiFlashBlockErase` | `Library/PlatformFlashAccessLib/PlatformFlashAccessLib.c:197-247` | on success exactly the erases of the blocks in order; nothing outside changes |
| `Flash.ErasesAt` | `Library/PlatformFlashAccessLib/PlatformFlashAccessLib.c:217-243` | the k-th erase is that of the k-th block of 4096 bytes, and they cover all of the range |
| `Flash.FlashDevice.InternalCompareBlock` | `Library/PlatformFlashAccessLib/PlatformFlashAccessLib.c:281-313` | success exactly when memory was allocated and the block equals the buffer |
| `Flash.FlashDevice.InternalEraseBlock` | `Library/PlatformFlashAccessLib/PlatformFlashAccessLib.c:266-278` | one erase of one block |
| `Flash.FlashDevice.InternalWriteBlock` | `Library/PlatformFlashAccessLib/PlatformFlashAccessLib.c:335-361` | for any size, success means that the programs of the pieces were issued and that a whole block reads back as the buffer, whatever the controller did |
| `Flash.FlashDevice.UpdateBlock` | `Library/PlatformFlashAccessLib/PlatformFlashAccessLib.c:437-461` | an equal block gets no command, another an erase and a program, and success means it is equal now |
| `Flash.FlashDevice.UpdateBlocks` | `Library/PlatformFlashAccessLib/PlatformFlashAccessLib.c:432-473` | after i turns i blocks are equal to the buffer and everything behind is untouched |
| `Flash.FlashDevice.PerformFlashWrite` | `Library/PlatformFlashAccessLib/PlatformFlashAccessLib.c:393-482` | for an absolute address, or one relative to the firmware image. Success: all floor(Length/4096) blocks equal the buffer and nothing else changed; failure at block i: earlier blocks equal, later ones untouched; the commands are those of the plan |
| `Flash.NothingToDo` | `Library/PlatformFlashAccessLib/PlatformFlashAccessLib.c:439-440` | a range equal to the buffer has an empty plan |
| `Flash.SecondCallHasNoPlan` | `Library/PlatformFlashAccessLib/PlatformFlashAccessLib.c:432-473` | after a successful call a second one with the same arguments erases and programs nothing |
| `PyStruct.PackedValue` | `Tools/Python/GenCapsule/Uefi/Capsule/FmpCapsuleHeader.py:60-61` | a packed little-endian field of any of the four widths unpacks to its value |
| `PyStruct.LeBytesAt` | `Tools/Python/GenCapsule/Uefi/Capsule/FmpCapsuleHeader.py:60-61` | byte i of a packed field is the value divided by 256^i, modulo 256 |
| `FmpImage.FmpCapsuleImageHeader.Encode` | `Tools/Python/GenCapsule/Uefi/Capsule/FmpCapsuleHeader.py:76-90` | sizes are set and header, payload and vendor bytes returned; a field that does not fit raises |
| `FmpImage.FmpCapsuleImageHeader.Decode` | `Tools/Python/GenCapsule/Uefi/Capsule/FmpCapsuleHeader.py:92-117` | all fields are taken from the buffer, or the object is unchanged and the error is raised |
| `FmpImage.ImageRoundTrip` | `Tools/Python/GenCapsule/Uefi/Capsule/FmpCapsuleHeader.py:76-117` | an encoded image decodes exactly if version and index are in range, and then to the same header with payload and vendor bytes |
| `FmpImage.ImageReencode` | `Tools/Python/GenCapsule/Uefi/Capsule/FmpCapsuleHeader.py:76-117` | a decoded image encodes to the same bytes if and only if its three reserved bytes were zero |
| `FmpLayout.ImageLayout` | `Tools/Python/GenCapsule/Uefi/Capsule/FmpCapsuleHeader.py:76-90` | where each field of an encoded image stands: version 2, type, index from 1, three zero bytes, the two sizes, the hardware instance, payload and vendor bytes |
| `FmpAuth.FmpAuthHeader.Encode` | `Tools/Python/GenCapsule/Uefi/Capsule/FmpAuthHeader.py:128-147` | dwLength is set from the certificate and the fields are packed; an unknown certificate kind or a field that does not fit raises |
| `FmpAuth.FmpAuthHeader.Decode` | `Tools/Python/GenCapsule/Uefi/Capsule/FmpAuthHeader.py:149-173` | certificate and payload are cut at dwLength, or the object is unchanged and the error is raised |
| `FmpAuth.AuthRoundTrip` | `Tools/Python/GenCapsule/Uefi/Capsule/FmpAuthHeader.py:128-173` | an encoded authentication header decodes to the same header, certificate and payload |
| `FmpAuth.AuthReencode` | `Tools/Python/GenCapsule/Uefi/Capsule/FmpAuthHeader.py:128-173` | a decoded one encodes to the same bytes if and only if dwLength did not point behind the buffer |
| `FmpLayout.AuthLayout` | `Tools/Python/GenCapsule/Uefi/Capsule/FmpAuthHeader.py:128-147` | where each field of an encoded authentication header stands, certificate and payload included |
| `FmpCapsule.FmpCapsuleHeader.AddEmbeddedDriver` | `Tools/Python/GenCapsule/Uefi/Capsule/FmpCapsuleHeader.py:173-174` | appends one driver |
| `FmpCapsule.FmpCapsuleHeader.AddPayload` | `Tools/Python/GenCapsule/Uefi/Capsule/FmpCapsuleHeader.py:181-182` | appends one payload |
| `FmpCapsule.FmpCapsuleHeader.EncodeItems` | `Tools/Python/GenCapsule/Uefi/Capsule/FmpCapsuleHeader.py:200-227` | the running offset is the start of each item, and the data are all items joined |
| `FmpCapsule.FmpCapsuleHeader.Encode` | `Tools/Python/GenCapsule/Uefi/Capsule/FmpCapsuleHeader.py:189-227` | bytes, lists and counters after encoding, also when an image or an offset cannot be packed part-way |
| `FmpCapsule.FmpCapsuleHeader.ReadTable` | `Tools/Python/GenCapsule/Uefi/Capsule/FmpCapsuleHeader.py:251-257` | the offsets up to the first one that is short or behind the buffer |
| `FmpCapsule.FmpCapsuleHeader.ReadImages` | `Tools/Python/GenCapsule/Uefi/Capsule/FmpCapsuleHeader.py:274-287` | the images up to the first one that does not decode; each also goes to the payload list without its hardware instance |
| `FmpCapsule.FmpCapsuleHeader.Decode` | `Tools/Python/GenCapsule/Uefi/Capsule/FmpCapsuleHeader.py:229-290` | bytes, lists and counters after decoding, also when it fails part-way |
| `FmpCapsuleSpec.OffsetOfItem` | `Tools/Python/GenCapsule/Uefi/Capsule/FmpCapsuleHeader.py:200-221` | the k-th offset is the start plus the lengths of the items before |
| `FmpRoundTrip.TableRead` | `Tools/Python/GenCapsule/Uefi/Capsule/FmpCapsuleHeader.py:251-257` | the table of an encoded capsule is read whole exactly unless the last item is empty, and then as written |
| `FmpRoundTrip.RoundTripWith` | `Tools/Python/GenCapsule/Uefi/Capsule/FmpCapsuleHeader.py:189-290` | for any image codec that inverts: decoding what a fresh object encoded gives back drivers, offsets and image headers, exactly unless there is no image and the last driver is empty |
| `FmpRoundTrip.EncodeSucceedsIff` | `Tools/Python/GenCapsule/Uefi/Capsule/FmpCapsuleHeader.py:189-227` | encoding succeeds if and only if version and counts fit, with at most 255 payloads, every size and hardware instance fits, and no item starts at 2^64 or behind |
| `FmpLayout.CapsuleLayout` | `Tools/Python/GenCapsule/Uefi/Capsule/FmpCapsuleHeader.py:189-227` | version and counts, a table of eight-byte offsets from byte 8 on, and behind it the items one after the other, drivers before images, each from its offset to the next one or the end |
| `FmpRoundTrip.CapsuleRoundTrip` | `Tools/Python/GenCapsule/Uefi/Capsule/FmpCapsuleHeader.py:189-290` | with the real image header: every driver and every image header (type, index, payload, vendor bytes, hardware instance) is recovered, while the payload list loses the hardware instance; layout of section 23.3 of the UEFI Specification 2.10 |
| `FmpRoundTrip.StaleOffsetsComeFirst` | `Tools/Python/GenCapsule/Uefi/Capsule/FmpCapsuleHeader.py:202-224` | whatever used the object before, the table starts with the offsets that were left in it, and the bytes are those of a fresh object if and only if none were |
| `FmpRoundTrip.SecondEncodeIsLonger` | `Tools/Python/GenCapsule/Uefi/Capsule/FmpCapsuleHeader.py:202-224` | encoding twice with one object writes the offsets of both calls: the second result is longer by a whole table |
| `FmpRoundTrip.EncodeAfterDecodeIff` | `Tools/Python/GenCapsule/Uefi/Capsule/FmpCapsuleHeader.py:189-290` | decoding leaves one offset per item, so a decoded object encodes like a fresh one if and only if it is empty |
| `FmpRoundTrip.SignedRoundTrip` | `Tools/Python/GenCapsule/Uefi/Capsule/FmpAuthHeader.py:128-173` | an authenticated payload inside a capsule comes back as certificate and payload, with its hardware instance |
| `Console.FindFirstCharacter` | `Drivers/Dxe/UefiConsole/UefiConsole.c:571-593` | the first listed character that is not escaped, or the end |
| `Console.FindEndOfParameter` | `Drivers/Dxe/UefiConsole/ConsoleParameters.c:23-58` | the first unescaped space outside quotes, or the end, or none when a quote stays open |
| `Console.RemoveEscapes` | `Drivers/Dxe/UefiConsole/ConsoleParameters.c:142-167` | the text without its escapes, and without quotes when they are stripped, in place |
| `Console.GetNextParameter` | `Drivers/Dxe/UefiConsole/ConsoleParameters.c:82-170` | the next parameter, where the walker stands after it, and both errors |
| `Console.TrimSpaces` | `Drivers/Dxe/UefiConsole/UefiConsole.c:496-518` | the text without blanks at either end, in place |
| `Console.CountParams` | `Drivers/Dxe/UefiConsole/ConsoleParameters.c:229-237` | the first pass counts the parameters up to the first error |
| `Console.FillArgs` | `Drivers/Dxe/UefiConsole/ConsoleParameters.c:248-266` | the second pass stores exactly as many, so Argv is neither overrun nor left partly filled, with or without stripping |
| `Console.ParseCommandLineToArgs` | `Drivers/Dxe/UefiConsole/ConsoleParameters.c:191-272` | the arguments of the trimmed line, or those before an open quote with an error |
| `ConsoleSpec.EscapedHidesAll` | `Drivers/Dxe/UefiConsole/ConsoleParameters.c:24-58` | in an escaped argument no space, quote or caret is seen |
| `ConsoleSpec.UnescapedEscaped` | `Drivers/Dxe/UefiConsole/ConsoleParameters.c:142-167` | removing escapes undoes escaping, with quotes stripped or not |
| `ConsoleSpec.EscapedIsOneParam` | `Drivers/Dxe/UefiConsole/ConsoleParameters.c:83-170` | an escaped non-empty argument followed by a space and anything is read back as it was, and the walker stands at the space |
| `ConsoleSpec.LineIsArgs` | `Drivers/Dxe/UefiConsole/ConsoleParameters.c:191-272` | a line of escaped arguments has exactly them as parameters |
| `ConsoleSpec.RoundTrip` | `Drivers/Dxe/UefiConsole/ConsoleParameters.c:191-272` | parsing the line of escaped arguments gives the arguments, if trimming takes nothing from them |
| `ConsoleQuotes.EndMeaning` | `Drivers/Dxe/UefiConsole/ConsoleParameters.c:23-58` | a parameter ends at the first space that no caret precedes and that stands behind an even number of quotes, those behind a caret not counted; without such a space at the end of the text, or not at all if the quotes are odd |
| `ConsoleQuotes.RefusedIff` | `Drivers/Dxe/UefiConsole/ConsoleParameters.c:191-272` | a line is refused if and only if the number of its quotes that no caret precedes is odd |
| `ConsoleQuotes.ItemIsOneParam` | `Drivers/Dxe/UefiConsole/ConsoleParameters.c:82-170` | an argument with a quoted text in it, spaces included, in front of a space or the end is one parameter; it unescapes to its text without the quotes when they are stripped, and to itself otherwise |
| `ConsoleQuotes.TypedArguments` | `Drivers/Dxe/UefiConsole/ConsoleParameters.c:191-272` | any line of escaped and quoted arguments, quoted empty ones included, is read as their values, if trimming takes nothing from it |
| `ConsoleQuotes.UnescapedAdds` | `Drivers/Dxe/UefiConsole/ConsoleParameters.c:142-167` | escapes are removed piece by piece, and a caret at the very end is dropped |
| `ConsoleQuotes.TrimmedMeaning` | `Drivers/Dxe/UefiConsole/UefiConsole.c:496-518` | trimming takes spaces and tabs at both ends and leaves none there |
| `ConsoleTrim.EndClosed` | `Drivers/Dxe/UefiConsole/ConsoleParameters.c:23-58` | a parameter never ends between an escape and what it escapes |
| `ConsoleTrim.ParseIsLight` | `Drivers/Dxe/UefiConsole/ConsoleParameters.c:191-272` | no parse gives more characters than its line has unescaped ones |
| `ConsoleTrim.RoundTripIff` | `Drivers/Dxe/UefiConsole/ConsoleParameters.c:191-272` | and it gives them only then: the round trip holds if and only if the first argument does not start with a tab and the last does not end with a blank |
| `StrReplace.AvbStrstr` | `Application/UefiAvb/libavb/avb_util.c:228-251` | the first occurrence, and none for an empty needle, reading within both strings only |
| `StrReplace.MatchesAt` | `Application/UefiAvb/libavb/avb_util.c:234-247` | the inner loop compares up to the end of the needle and never past a terminator |
| `StrReplace.FirstAtMeaning` | `Application/UefiAvb/libavb/avb_util.c:228-251` | the position is an occurrence and there is none before it |
| `StrReplace.AvbReplace` | `Application/UefiAvb/libavb/avb_util.c:266-340` | terminates with a string, terminated in an array of exactly its size, that has every leftmost occurrence replaced |
| `StrReplace.PiecesJoin` | `Application/UefiAvb/libavb/avb_util.c:275-336` | the text is its pieces joined by what was searched |
| `StrReplace.PiecesAreFree` | `Application/UefiAvb/libavb/avb_util.c:275-316` | no piece holds an occurrence: none is missed |
| `StrReplace.ReplacedLength` | `Application/UefiAvb/libavb/avb_util.c:275-336` | the length grows by the difference of the lengths of replacement and search, once for each replacement |
| `StrReplace.EmptySearchCopies` | `Application/UefiAvb/libavb/avb_util.c:276-284` | an empty search returns a copy |

## Left out

- RamDebug.RamDebugLog.Print: a string of exactly the size of the buffer, and one with a NUL inside, are outside its contract; the first makes the source read past the log.
- Rsa.ParseKeyData: the key blob must hold eight readable bytes, because the source reads the header before it looks at the length.
- Sha256.AvbSHA256Ctx.Transform: the offset `i << 6` is exact; in C it is an int and overflows at 2^31 bytes.
- Crc32.AvbCrc32: sizes below 2^31, because the size is passed on as an int.
- AbRuns.AttemptsBounded: excludes the calls that refill the tries from memory that was never set.
- AbDevice.AbOps.DataWrite: a write that fails leaves the record on disk as it was; torn writes are not modelled.
- SlotVerify.AvbSlotVerifyData.FindRootDigest: the substitution text is reduced to its count.
- SlotVerify.AvbSlotVerifyData.FinishCmdline: appending the options of androidboot.* and substituting the variables is one abstract answer.
- Flash.FlashDevice.PerformFlashWrite: the addresses lie in the flash area, as the assertions of the source demand; progress callbacks and task priority are left out.
- Console.GetNextParameter: the buffer must be longer than what is left of the line, as its header comment demands; null pointers are not modelled.
- FmpCapsule.FmpCapsuleHeader.Decode: the object of an image header is stored as its fields, so later changes through another reference are not seen.
- Allocation failure, except where the flash library turns it into an erase and a program.
- Parsing of vbmeta images into descriptors, validation of descriptors and of UTF-8, and the signature check of an image: each is an abstract answer. Two descriptor lists differ only in what the walk reads.
- Partition names with an embedded NUL other than the one that ends them; rollback locations of 2^31 and more, which the source converts to int.
- Bytes behind a loaded buffer that is shorter than its descriptor says, which the source can hash when errors are allowed.
- The check for read-only memory, the CMOS switch and the setting that stops logging when full (RAM log).
- A GUID is its sixteen bytes in little-endian form; the getters and DumpInfo of the capsule classes and the outer UEFI capsule header.
- AvbReplace's two ways to build the first and the later buffers are one: the first is appended to an empty one.
- SHA-512; its loop build copies eight bytes where eight words are meant.
- The text of enumerations, logging, uefi_avb_ops.c, uefi_avb_boot.c, HexToBin, PartEdit, the console's own commands and the other drivers and tools: firmware calls and output.
