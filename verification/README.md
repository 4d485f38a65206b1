# Verification of caddy-wit's host core

A Dafny model of the parts of caddy-wit that carry values, instances, tokens, counters and resources between
the Caddy host and its WebAssembly guests, with proofs of what they promise. `dafny verify dfyconfig.toml`
checks everything.

## What is modelled

**The Canonical ABI engine** (`pkg/abi`, after the Component Model's `CanonicalABI.md`, sections "Alignment",
"Element Size", "Loading", "Storing", "Flattening", "Flat Lifting", "Flat Lowering", "canon lift" and "canon
lower"). `AbiTypes.dfy` holds the types and the layout rules over unbounded integers, `AbiLayout.dfy` the
descriptor constructors in uint32 arithmetic that compute them. `AbiValues.dfy` has the values, the scalar
conversions and the variant wrapping. `AbiMemory.dfy` and `AbiFlat.dfy` say what Load, Store, lifting and
lowering do to a heap, and `AbiMachine.dfy` runs them: guest memory is an array written in place, lists and
records are loops, the flat reader advances, the host stack is overwritten; every method equals its
specification function. The theorems are about those functions: the round trip through memory
(`AbiRoundTrip.dfy`, `AbiMeaning.dfy`), the bytes that result (`AbiFormat.dfy`), what every kind of type looks like
in memory and in words, in plain numbers (`AbiStandard.dfy`), and the round trips through core values
(`AbiFlat.dfy`) and through whole calls (`AbiCall.dfy`). Strings are byte sequences, floats are bit patterns, and
the guest's allocator is any function of the heap that keeps the allocator contract: aligned, in-bounds blocks,
disjoint from live bytes, live bytes unchanged. It may fail; `starved` records that it did, and success is always
stated as "the value is acceptable and no allocation failed". The addresses and the call count in a heap are
bookkeeping.

**The guest allocator** (`GuestAlloc.dfy`, `GuestEngine.dfy`): `cabi_realloc` over pinned buffers answers every
request whose size and alignment together fit u32 as that contract asks, whatever the guest's Go runtime does
within its own promise of fresh, untouched buffers; so the round trips, whole calls included, hold on it for all
values that make only such requests.

**The instance pool** (`Pool.dfy`): any number of Get, Put and Close calls as atomic steps over the idle
channel, the semaphore channel, the counter and the closed flag, with a position for every call.

**The Caddyfile dispenser** in Go and Rust (`Tokens.dfy`, `Dispenser.dfy`) and the directive trees it reads
(`Directives.dfy`): the two ports run in lockstep, and printing a tree to tokens and walking them recovers it.

**The key-value store and the rate limiter** (`KvStore.dfy`, `RateLimit.dfy`): lazy expiry answers as eager
expiry, and a fixed-window limit bounds what any interval of one window length admits.

**Resource handles** (`Resources.dfy`, `Ownership.dfy`): the keyed handle tables, and the journey of every
minted resource from the table to the host and to its destructor.

## What the code does where its comments say more

- Store accepts a payload under a payload-less case and does not write it, so the value that comes back is the
  stored one exactly when it carries none there (`AbiMeaning.StoreThenLoad`).
- Negative s8 and s16 values lower to their 8 or 16 bits with zeros above (`pkg/abi/flat.go:269-286`), where the
  standard sign-extends to 32. Every other word is the standard's, and the standard's word lifts to the same
  value (`AbiFormat.WordIsStandard`; `AbiFormat.MinusOneIsNotExtended` shows one).
- `CallExport` fails for a result type of zero flat width (`pkg/abi/call.go:146-148`).
- The pool's Len is documented as idle plus in-use. An instance Put after Close is closed without giving back its
  count or its slot: whenever all calls have returned, Len and the slots in use are idle plus in-use exactly when
  no Put came after Close (`Pool.QuietLen`), and `Pool.LenAfterClose` shows a pool with nothing idle or in use
  where both stay at 1.
- In-use instances are documented to be closed when they are Put after Close. A Put that read the flag before
  Close parks its instance after the drain, and nobody closes it (`Pool.ParkedAfterClose` shows it);
  `Pool.ClearPoolClosesAll` and `Pool.AllClosedIffClear` say exactly when everything is closed.
- A Get can wait although in-use plus being-created is below MaxInstances, while another call holds a slot it
  is about to give back (`Pool.BlockedAtMax` says exactly when, `Pool.BlockedBelowMax` shows one).
- A time to live whose nanoseconds do not fit int64 wraps around (`KvStore.DurationIsExact`).
- The host marks a cleaned-up object by the handle 0 and says handles start at 1, but what it holds is the
  guest's representation: one of 0 is never destroyed (`Ownership.ZeroIsNeverDestroyed`).
- `LifecycleInstanceDrop` is documented to remove the handle from the table; the handle left the table when the
  result was lifted, and only the destructor is called (`pkg/runtime/gen/exports.go:179-185`).
- `cabi_realloc` adds size and alignment in uint32: a block whose sum wraps does not fit the buffer made for it
  (`GuestAlloc.BlockFitsIff`), which breaks the allocator contract (`GuestAlloc.CodeIsNotGoodAlloc`). An answered
  request meets the contract exactly when the sum does not wrap (`GuestAlloc.AnswerIsGoodIff`).
- In a memory of all 4 GiB a list can load although its elements take up 2^32 bytes, which are 0 to the code
  (`AbiMeaning.FullMemoryWraps`). Storing it asks for a block of no bytes, and then fails exactly when memory is
  smaller (`AbiMeaning.FullListStores`).

## Model

| member | source | states |
|---|---|---|
| Words.AlignUpIsRoundUp | pkg/abi/types.go:293-298 | the bit-mask `alignUp` computes rounding up to a multiple of any power of two, whenever the sum stays inside 32 bits |
| Words.RoundUpIsLeast | pkg/abi/types.go:293-298 | rounding up gives the least multiple at or above its argument |
| AbiTypes.SizeIsAligned | pkg/abi/types.go:175-234 | every type's alignment divides its size, so list elements are packed at their size |
| AbiTypes.FieldsLaidOut | pkg/abi/types.go:175-189 | record fields lie in order, disjoint and inside the record, each at the least aligned offset not before the previous end |
| AbiTypes.FieldsAligned | pkg/abi/types.go:175-189 | at an aligned record pointer every field pointer is aligned |
| AbiTypes.PayloadFits | pkg/abi/types.go:206-234 | a variant's payload follows its discriminant and every case fits, in memory and in the joined slots |
| AbiTypes.PayloadAligned | pkg/abi/types.go:206-234 | at an aligned variant pointer the discriminant and every case's payload are aligned |
| AbiTypes.JoinIsSemilattice | pkg/abi/types.go:283-291 | `join` is commutative, associative, idempotent, and the least upper bound of the narrower-than order |
| AbiTypes.CasesFlatIsLub | pkg/abi/types.go:236-254 | a joined slot exists exactly when some case reaches it, and is the least upper bound of the cases that do |
| AbiTypes.CasesFlatIgnoresOrder | pkg/abi/types.go:236-254 | the joined flat types do not depend on the order of the cases |
| AbiLayout.RecordType.constructor | pkg/abi/types.go:175-189 | the record loop in uint32 arithmetic computes the layout rules' alignment and flat types, and their offsets and size modulo 2^32, for every layout |
| AbiLayout.VariantType.constructor | pkg/abi/types.go:206-254 | the variant loops in uint32 arithmetic compute the layout rules' payload offset, alignment and joined flat types, and their size whenever it is below 2^32 |
| AbiLayout.MaxPayloadAlign | pkg/abi/types.go:210-217 | the first case loop finds the greatest payload alignment |
| AbiLayout.MaxPayloadEnd | pkg/abi/types.go:222-233 | the second case loop finds the end of the longest payload, not before the payload offset |
| AbiLayout.JoinCases | pkg/abi/types.go:236-254 | the joining loop, widening slots in place, equals the fold of `join` over the cases |
| AbiValues.ScalarRoundTrip | pkg/abi/memory.go:202-291 | a scalar is lowered exactly when it has its type, its word fits its bytes and its core type, and lifting gives it back |
| AbiValues.LiftedScalarIsTyped | pkg/abi/flat.go:124-159 | lifting a scalar fails exactly for a char that is no scalar value, and otherwise gives a value of its type |
| AbiValues.FitsWiderCore | pkg/abi/types.go:283-291 | a word that fits a slot fits every wider one |
| AbiFormat.WordOfScalar | pkg/abi/flat.go:249-341 | a scalar's word is its number modulo 256 to the width of its type, so negative s8 and s16 are not sign-extended |
| AbiFormat.WordIsStandard | pkg/abi/flat.go:124-159 | the word is the standard's exactly when the value is no negative s8 or s16, and the standard's word always lifts to the value |
| AbiFormat.MinusOneIsNotExtended | pkg/abi/flat.go:269-286 | the s8 -1 lowers to 0xFF where the standard has 0xFFFF_FFFF; both lift to -1 |
| AbiFormat.BytesOfScalar | pkg/abi/memory.go:402-537 | the bytes Store writes for a scalar are the base-256 digits of its number, two's complement, least significant first |
| AbiFormat.BytesOfHeader | pkg/abi/memory.go:338-368 | a string or list header is the address and then the length, four little-endian digits each |
| AbiFormat.BytesOfDisc | pkg/abi/memory.go:539-553 | a discriminant is its number in one, two or four little-endian digits |
| AbiStandard.ScalarWidthIsLeast | pkg/abi/types.go:96-115 | a scalar's size and alignment are the least of 1, 2, 4 and 8 bytes that hold all its words |
| AbiStandard.ScalarSlot | pkg/abi/types.go:96-115 | a scalar has one slot: a float slot exactly for floats, a 64-bit one exactly for eight bytes |
| AbiStandard.WordsAreNumbers | pkg/abi/flat.go:249-341 | false is 0 and true is 1, an unsigned number is itself, a negative one has its width's modulus added |
| AbiStandard.CharIsScalarValue | pkg/abi/flat.go:151-156 | exactly the numbers below 0x110000 that are no surrogates lower and lift as chars |
| AbiStandard.LiftedNumber | pkg/abi/flat.go:124-159 | any word lifts to the number of its type with the same low bytes, a bool to whether its low 32 bits are not 0 |
| AbiStandard.ScalarLoads | pkg/abi/memory.go:202-291 | whatever the bytes, Load gives the scalar they are the digits of, and a bool for any byte |
| AbiStandard.DiscIsLeast | pkg/abi/types.go:138-149 | a discriminant has the least of 1, 2 and 4 bytes that number the cases: one up to 256, two up to 65536 |
| AbiStandard.DiscIsRead | pkg/abi/memory.go:293-314 | reading a discriminant is reading that many little-endian bytes |
| AbiStandard.EnumLoads | pkg/abi/memory.go:109-117 | an enum loads exactly when those bytes are in memory and below the case count |
| AbiStandard.EnumStores | pkg/abi/memory.go:349-357 | storing an enum writes those bytes and no others |
| AbiStandard.PlainAccepts | pkg/abi/memory.go:334-382 | every string below 2^32 bytes, every byte string as a list of u8 and every enum case is acceptable, a list or a record exactly when its parts are |
| AbiStandard.CasesAccept | pkg/abi/memory.go:170-200 | a result takes an error under its second case and anything else under its first, an option a payload only for some, a variant under the case it names |
| AbiStandard.ResultLoads | pkg/abi/memory.go:134-168 | byte 0 loads as ok, byte 1 as error, each with its payload behind the discriminant, and no other byte as a result |
| AbiStandard.OptionLoads | pkg/abi/memory.go:134-168 | byte 0 loads as none and byte 1 as some |
| AbiStandard.VariantLoads | pkg/abi/memory.go:134-168 | the number in one, two or four bytes loads as that case |
| AbiStandard.CaseIsStored | pkg/abi/memory.go:383-400 | after Store the bytes at the pointer are 0 for ok and none, 1 for error and some, and a variant's case |
| AbiStandard.ResultLowers | pkg/abi/flat.go:229-247 | a result's words are 0 for ok or 1 for error, its payload's words, and zeros up to the flat width |
| AbiStandard.OptionLowers | pkg/abi/flat.go:229-247 | an option's are 0 for none or 1 for some |
| AbiStandard.VariantLowers | pkg/abi/flat.go:229-247 | a variant's start with its case |
| AbiStandard.PlainLowers | pkg/abi/flat.go:179-211 | a scalar and an enum lower to one word without the allocator, exactly when the value is one of the type, and a string to its header |
| AbiStandard.PlainLifts | pkg/abi/flat.go:42-76 | a scalar lifts from one word, an enum, a string and a list of u8 from the low 32 bits of theirs |
| AbiStandard.ResultLifts | pkg/abi/flat.go:90-122 | the low 32 bits 0 lift as ok and 1 as error, nothing else as a result, and as many words are taken as there are slots |
| AbiStandard.OptionLifts | pkg/abi/flat.go:90-122 | 0 lifts as none and 1 as some |
| AbiStandard.VariantLifts | pkg/abi/flat.go:90-122 | any number below the case count lifts as that case |
| AbiStandard.RecordIsLaidOut | pkg/abi/types.go:175-189 | the first field is at 0, each later one at the least aligned offset after the one before, the size is the least multiple of the alignment that holds them, and the alignment the greatest of theirs |
| AbiStandard.VariantIsLaidOut | pkg/abi/types.go:206-234 | the payload is at the least offset after the discriminant that every payload's alignment allows, and size and alignment are the least that hold every case |
| AbiStandard.Addresses | pkg/abi/memory.go:97-153 | headers take eight bytes; elements, fields and payloads lie at the element size, the field offset and the payload offset, modulo 2^32 |
| AbiStandard.RecordSlots | pkg/abi/types.go:175-189 | the slots of two records side by side are those of one record of all their fields |
| AbiStandard.JoinTable | pkg/abi/types.go:283-291 | `join` pair by pair |
| AbiStandard.KeyInfoLayout | pkg/abi/layout_test.go:66-68 | key-info has size 32, alignment 8 and five slots |
| AbiStandard.ResultLayout | pkg/abi/layout_test.go:57-58 | a result of u64 or string has size 16, alignment 8 and slots i32, i64, i32 |
| AbiStandard.PluginErrorLayout | pkg/abi/layout_test.go:62-64 | plugin-error has size 12, alignment 4 and four i32 slots |
| AbiStandard.BytesLoad | pkg/abi/memory.go:70-94 | a string or a list of u8 loads as exactly the bytes its header gives, an empty one wherever it points |
| AbiStandard.ListLoads | pkg/abi/memory.go:316-330 | any other list loads as the values at its element addresses, as many as the header says |
| AbiStandard.RecordLoads | pkg/abi/memory.go:124-133 | a record loads as the values at its field offsets |
| AbiStandard.StringAsks | pkg/abi/memory.go:556-573 | a nonempty string or list of u8 asks once for its bytes at alignment 1 and its header is that block; an empty one asks for nothing |
| AbiStandard.ListAsks | pkg/abi/memory.go:597-612 | a nonempty list asks first for all its elements at their alignment and its header is that block |
| AbiRoundTrip.StoreLoads | pkg/abi/memory.go:334-400 | for every built type, value, pointer and allocator meeting the contract: Store changes no live byte outside its target, what it stored loads back, and it fails only for an unacceptable value or a failed allocation |
| AbiRoundTrip.StoreElemsLoads | pkg/abi/memory.go:599-612 | the element loop of a list stores every element where it loads back and touches nothing else |
| AbiRoundTrip.StoreFieldsLoads | pkg/abi/memory.go:369-382 | the field loop of a record stores every field where it loads back and touches nothing else |
| AbiRoundTrip.StoreVariantLoads | pkg/abi/memory.go:383-400 | discriminant and payload of a variant load back together |
| AbiRoundTrip.LowerListLoads | pkg/abi/memory.go:576-612 | a lowered list body, byte lists included, loads back from its new block |
| AbiRoundTrip.LowerStringLoads | pkg/abi/memory.go:556-573 | a lowered string reads back from its new block; the empty string needs none |
| AbiRoundTrip.LoadIsLocal | pkg/abi/memory.go:97-153 | Load depends only on its header bytes and the blocks they point to, for every type |
| AbiRoundTrip.StoredStays | pkg/abi/memory.go:334-400 | a stored value survives every later change outside its own bytes and blocks |
| AbiMeaning.StoreThenLoad | pkg/abi/memory.go:97-153 | Store succeeds exactly when the value is acceptable and no allocation failed, and then Load returns the very value exactly when it carries nothing under payload-less cases |
| AbiMeaning.StoreFed | pkg/abi/memory.go:334-400 | a Store that returns no error had every allocation answered |
| AbiMeaning.StoresAreIndependent | pkg/abi/memory.go:334-400 | of two values stored one after the other at disjoint places both load back |
| AbiMeaning.LoadedIsTyped | pkg/abi/memory.go:97-200 | on arbitrary memory contents, whatever Load returns is well typed: discriminants below the case count, chars scalar values |
| AbiMeaning.LoadedIsSized | pkg/abi/memory.go:316-330 | a loaded value is short enough to be stored again whenever every list element type fits between the end of memory and 2^32 |
| AbiMeaning.LoadThenStoreThenLoad | pkg/abi/memory.go:97-153 | whatever Load returns from arbitrary memory, with lists that have a size, can be stored anywhere else and loads unchanged |
| AbiMeaning.FullMemoryWraps | pkg/abi/memory.go:316-330 | in a memory of all 4 GiB a list of 2^29 u64 loads and has no size in 32 bits |
| AbiMeaning.FullListStores | pkg/abi/memory.go:597-612 | storing a list of 2^29 u64 asks for a block of no bytes; once that is granted Store makes no byte the caller's and succeeds exactly when memory is 4 GiB |
| AbiMachine.Guest.Load | pkg/abi/memory.go:97-153 | Load as it runs, with its loops, is the specification function |
| AbiMachine.Guest.LoadListElems | pkg/abi/memory.go:316-330 | the loop over list elements |
| AbiMachine.Guest.LoadRecordAt | pkg/abi/memory.go:124-133 | the loop over record fields |
| AbiMachine.Guest.Store | pkg/abi/memory.go:334-400 | Store as it runs, writing guest memory in place, leaves exactly the heap of the specification function |
| AbiMachine.Guest.StoreRecord | pkg/abi/memory.go:369-382 | the loop over record fields, in place |
| AbiMachine.Guest.StoreVariantAt | pkg/abi/memory.go:383-400 | discriminant first, then the payload, in place |
| AbiMachine.Guest.StoreListElems | pkg/abi/memory.go:599-612 | the loop over list elements, in place |
| AbiMachine.Guest.LowerListBody | pkg/abi/memory.go:576-612 | allocation and element loop of a list body |
| AbiMachine.Guest.LowerStringBody | pkg/abi/memory.go:556-573 | allocation and copy of a string body |
| AbiMachine.Guest.Realloc | pkg/abi/memory.go:51-67 | a call of the guest's allocator, which may grow memory, or fail |
| AbiFlat.LowerLifts | pkg/abi/flat.go:164-247 | for every type and value, lowered words are as many as the flat width, each fits its joined slot, point only to new blocks, and lift back to the value; lowering fails only for an unacceptable value or a failed allocation |
| AbiFlat.LiftIsLocal | pkg/abi/flat.go:29-122 | lifting consumes exactly the flat width of its type and depends only on those words and the blocks they point to, wherever they stand |
| AbiFlat.LowerFieldsLifts | pkg/abi/flat.go:164-177 | the same for a list of types: the words of each follow those of the one before |
| AbiFlat.LowerVariantLifts | pkg/abi/flat.go:229-247 | discriminant and zero-padded payload words lift back |
| AbiFlat.WindowFits | pkg/abi/flat.go:229-247 | the joined slots are wide enough for the words of every case |
| AbiMachine.FlatReader.Next | pkg/abi/flat.go:12-24 | the reader returns the next word and advances, or reports underflow and stays |
| AbiMachine.Guest.LiftFlat | pkg/abi/flat.go:29-40 | the lifting loop leaves the reader and the values of the specification |
| AbiMachine.Guest.LiftFlatOne | pkg/abi/flat.go:42-122 | lifting one value through the advancing reader |
| AbiMachine.Guest.LiftFlatVariant | pkg/abi/flat.go:90-122 | a variant takes its whole joined window and re-reads its case from it |
| AbiMachine.Guest.LowerFlat | pkg/abi/flat.go:164-177 | the lowering loop appends the words of each value |
| AbiMachine.Guest.LowerFlatOne | pkg/abi/flat.go:179-247 | lowering one value |
| AbiMachine.Guest.LowerFlatVariant | pkg/abi/flat.go:229-247 | a variant's words over zeroed joined slots |
| AbiCall.ArgsRoundTrip | pkg/abi/call.go:119-136 | on either side of the 16-parameter limit the core arguments fit ExportSig, and any host stack that starts with them lifts to exactly the original arguments |
| AbiCall.ReturnPointerIsLast | pkg/abi/call.go:76-93 | with an indirect result the return pointer is the last core parameter, outside the words the arguments use |
| AbiCall.ResultRoundTrip | pkg/abi/call.go:211-236 | a lowered result, direct or through the return area, lifts back on the caller's side; one of zero flat width never does |
| AbiCall.ForwardedCall | pkg/abi/call.go:99-174 | end to end through CallExport, a forwarding guest and the host glue, arguments reach the implementation and its result comes back, exactly when there is none or it has nonzero flat width, unless an allocation failed; post-return cannot change it, whatever it does to memory |
| AbiCall.SignaturesAre | pkg/abi/call.go:54-93 | up to 16 parameter slots are core parameters and more are one pointer; a result of one slot is direct on both sides, one of more is returned by an export and stored through a last parameter of an import |
| AbiCall.SixteenWords | pkg/abi/call.go:11-41 | n parameters of one word each are n core parameters exactly up to 16 |
| AbiCall.ArgsPassed | pkg/abi/call.go:119-136 | up to 16 slots the arguments go as the words of their record, beyond as the address of that record in memory |
| AbiCall.ArgsTaken | pkg/abi/call.go:193-210 | the host takes up to 16 slots from the front of its stack and more from the record at the address there |
| AbiCall.ResultPlaced | pkg/abi/call.go:217-234 | a direct result overwrites only the first place of the stack, an indirect one is stored at the address right behind the arguments' words |
| AbiCall.ResultTaken | pkg/abi/call.go:143-166 | the caller takes exactly one word of a result: its value when it has one slot, the low 32 bits of its address when it has more |
| AbiCall.CallsFail | pkg/abi/call.go:119-166 | a call fails without running the guest when its arguments cannot be lowered, and has no result when the guest traps or its result cannot be lifted; a host function (lines 193-214) traps before it writes anything |
| AbiCall.PostReturnRuns | pkg/abi/call.go:158-173 | post-return runs after the result was lifted, only when it is indirect, on the word the guest returned, and decides nothing but whether the call fails |
| AbiMachine.Guest.LowerArguments | pkg/abi/call.go:119-136 | flat or spilled arguments, as they are built |
| AbiMachine.Guest.LiftCoreResult | pkg/abi/call.go:143-173 | the result as CallExport lifts it |
| AbiMachine.Guest.CallExport | pkg/abi/call.go:99-174 | the whole export call in place, post-return only after lifting |
| AbiMachine.Guest.HostFunc | pkg/abi/call.go:184-236 | the host function over its stack array: the result overwrites stack[0] or goes through the return pointer |
| AbiMachine.Guest.LiftArguments | pkg/abi/call.go:184-210 | the host's arguments from the stack, flat or spilled |
| Pool.Minimum | pkg/runtime/pool.go:58-65 | the initial count is at least 1 and at most the bound |
| Pool.NewPool | pkg/runtime/pool.go:58-104 | a new pool holds the initial instances, each with its slot, or closes all it created when one fails |
| Pool.DrainAll | pkg/runtime/pool.go:210-226 | the drain loop closes every idle instance, in order |
| Pool.StepKeepsInv | pkg/runtime/pool.go:125-226 | every atomic step of Get, Put and Close keeps the invariant |
| Pool.RunsKeepInv | pkg/runtime/pool.go:125-226 | so does every interleaving of any number of calls |
| Pool.SlotsAccounted | pkg/runtime/pool.go:84-101 | in every reachable state slots in use equal idle, held and carried instances, slots calls hold on top, and instances Put retired after Close; so at most MaxInstances are alive |
| Pool.ReleaseNeverBlocks | pkg/runtime/pool.go:144-156 | a release of a slot never blocks |
| Pool.PutParks | pkg/runtime/pool.go:187-198 | before Close a Put on a bounded pool always parks its instance and never discards it |
| Pool.BlockedMeansExhausted | pkg/runtime/pool.go:137-164 | before Close a waiting Get is blocked exactly when nothing is idle and every slot is taken |
| Pool.BlockedAtMax | pkg/runtime/pool.go:137-164 | then in-use plus being-created equal MaxInstances exactly when no other call is between taking a slot and using or releasing it |
| Pool.BlockedBelowMax | pkg/runtime/pool.go:137-164 | such a call can be in the way: a reachable state with a blocked Get below MaxInstances |
| Pool.HeldAlone | pkg/runtime/pool.go:130-163 | no instance is held and idle, held twice, or held and closed |
| Pool.GrantIsExclusive | pkg/runtime/pool.go:130-163 | every instance Get returns was with no caller before, has not been closed, and is with that caller alone; no other step hands one out |
| Pool.ClosedAtMostOnce | pkg/runtime/pool.go:177-226 | in every run, Close included, each instance is closed at most once |
| Pool.QuietLen | pkg/runtime/pool.go:177-249 | in every reachable state whose calls have all returned, Len is idle plus in-use plus the instances Put retired after Close, so idle plus in-use exactly when there are none; likewise the slots in use |
| Pool.LenAfterClose | pkg/runtime/pool.go:177-249 | a reachable state with nothing idle, in use or under way where Len and the slots are 1 |
| Pool.ClearPoolClosesAll | pkg/runtime/pool.go:200-226 | once a closed pool has nothing idle and no Put about to send, every instance ever created is closed by the time all are back and all calls have returned |
| Pool.AllClosedIffClear | pkg/runtime/pool.go:177-226 | once Close has returned and the Gets before it are past the idle channel, nothing takes an idle instance any more, and everything ends up closed exactly when nothing was idle and no Put was still about to send |
| Pool.ParkedAfterClose | pkg/runtime/pool.go:177-203 | a Put that read the flag before Close can leave its instance idle and unclosed for good |
| Pool.GetTakesIdle | pkg/runtime/pool.go:125-135 | a Get alone on an open pool with something idle takes what has been idle longest |
| Pool.GetGrows | pkg/runtime/pool.go:137-174 | with nothing idle and room it creates one instance, counts it, and takes a slot for it in a bounded pool |
| Pool.GetFails | pkg/runtime/pool.go:150-156 | when the creation fails the pool is as it was |
| Pool.RefusedCalls | pkg/runtime/pool.go:126-207 | Get on a closed pool, a Get whose context ends while it waits, and a second Close change nothing |
| Pool.PutParksOrCloses | pkg/runtime/pool.go:187-198 | a Put alone on an open pool parks its instance behind the others, or, when the channel is full, closes it and gives back its count and slot |
| Pool.PutRetires | pkg/runtime/pool.go:182-185 | a Put on a closed pool closes its instance and gives back neither count nor slot |
| Pool.CloseCloses | pkg/runtime/pool.go:200-226 | a Close alone closes every idle instance, counts it off and gives back its slot |
| Pool.FreshHolds | pkg/runtime/pool.go:58-104 | a new pool has the initial instances, their slots, and a channel with room for the maximum, or for 16 and four times the initial count |
| Tokens.PortsAgreeOnLine | sdk/rust/caddyfile/src/lib.rs:328-333 | the two ports agree whether a token starts a new line exactly when the line number fits u32 or wraps to no earlier line |
| Tokens.Lockstep | sdk/go/caddyfile/dispenser.go:55-187 | on every token list with fitting lines and every sequence of fewer than 2^31 operations both ports give the same answers, cursor and nesting |
| Tokens.NextBlockAdvances | sdk/go/caddyfile/dispenser.go:162-187 | a NextBlock that returns true has moved the cursor on, so block loops end |
| Tokens.RemainingIsLongestRun | sdk/go/caddyfile/dispenser.go:288-294 | the remaining arguments are the longest run of tokens on the line that are no opening brace |
| Tokens.Remaining | sdk/go/caddyfile/dispenser.go:288-294 | the cursor moves on by exactly the arguments taken |
| Tokens.Args | sdk/go/caddyfile/dispenser.go:246-254 | Args succeeds exactly when it filled every target, and moves on by what it filled |
| Tokens.ArgsAreFirst | sdk/go/caddyfile/dispenser.go:246-254 | Args takes the first arguments there are, as many as there are targets, and succeeds exactly when there are enough |
| Tokens.AllArgsIsExact | sdk/go/caddyfile/dispenser.go:259-269 | AllArgs succeeds exactly when there are as many arguments as targets, and either way stops behind the ones it took |
| Tokens.NewLineIs | sdk/go/caddyfile/dispenser.go:341-351 | a token starts a new line exactly when it is in another file or on a later line than the one before it ends on, its line breaks counted |
| Tokens.StepsAre | sdk/go/caddyfile/dispenser.go:55-134 | Next, Prev and NextLine step by one exactly while there is a token that way, NextLine only onto a new line |
| Tokens.NextBlockInside | sdk/go/caddyfile/dispenser.go:163-174 | inside a block the next token decides: a brace that is the last on its line moves the level, a brace that is not moves the cursor on |
| Tokens.NextBlockOutside | sdk/go/caddyfile/dispenser.go:175-187 | outside, a block starts with an unquoted opening brace on the line; an empty one is stepped over |
| Tokens.LevelIs | sdk/rust/caddyfile/src/lib.rs:138-164 | levels count in the integers in Go and modulo 2^32 in Rust |
| Dispenser.GoDispenser.Next | sdk/go/caddyfile/dispenser.go:55-61 | the step of the Go port |
| Dispenser.GoDispenser.Prev | sdk/go/caddyfile/dispenser.go:69-75 | the step of the Go port |
| Dispenser.GoDispenser.NextArg | sdk/go/caddyfile/dispenser.go:84-94 | the step of the Go port, rolling back on an opening brace |
| Dispenser.GoDispenser.NextOnSameLine | sdk/go/caddyfile/dispenser.go:98-113 | the step of the Go port |
| Dispenser.GoDispenser.NextLine | sdk/go/caddyfile/dispenser.go:119-134 | the step of the Go port |
| Dispenser.GoDispenser.NextBlock | sdk/go/caddyfile/dispenser.go:162-187 | the step of the Go port, its conditions moving the cursor in order |
| Dispenser.GoDispenser.RemainingArgs | sdk/go/caddyfile/dispenser.go:288-294 | the loop of the Go port |
| Dispenser.GoDispenser.CountRemainingArgs | sdk/go/caddyfile/dispenser.go:273-282 | counting and stepping back as often leaves cursor and nesting where they were |
| Dispenser.GoDispenser.Args | sdk/go/caddyfile/dispenser.go:246-254 | the loop of the Go port |
| Dispenser.GoDispenser.AllArgs | sdk/go/caddyfile/dispenser.go:259-269 | exactly as many arguments as targets, one too many given back |
| Dispenser.GoDispenser.Reset | sdk/go/caddyfile/dispenser.go:298-301 | back to the start |
| Dispenser.RustDispenser.Next | sdk/rust/caddyfile/src/lib.rs:65-71 | the step of the Rust port |
| Dispenser.RustDispenser.Prev | sdk/rust/caddyfile/src/lib.rs:76-82 | the step of the Rust port |
| Dispenser.RustDispenser.NextArg | sdk/rust/caddyfile/src/lib.rs:88-98 | the step of the Rust port, rolling back on an opening brace |
| Dispenser.RustDispenser.NextOnSameLine | sdk/rust/caddyfile/src/lib.rs:299-313 | the step of the Rust port |
| Dispenser.RustDispenser.NextLine | sdk/rust/caddyfile/src/lib.rs:103-118 | the step of the Rust port |
| Dispenser.RustDispenser.NextBlock | sdk/rust/caddyfile/src/lib.rs:138-164 | the step of the Rust port, its conditions moving the cursor in order |
| Dispenser.RustDispenser.RemainingArgs | sdk/rust/caddyfile/src/lib.rs:236-242 | the loop of the Rust port |
| Dispenser.RustDispenser.CountRemainingArgs | sdk/rust/caddyfile/src/lib.rs:245-253 | counting and restoring the saved cursor leaves cursor and nesting where they were |
| Dispenser.RustDispenser.Args | sdk/rust/caddyfile/src/lib.rs:210-218 | the loop of the Rust port |
| Dispenser.RustDispenser.AllArgs | sdk/rust/caddyfile/src/lib.rs:223-232 | exactly as many arguments as targets, one too many given back |
| Dispenser.RustDispenser.Reset | sdk/rust/caddyfile/src/lib.rs:256-259 | back to the start |
| Dispenser.RunBoth | sdk/rust/caddyfile/src/lib.rs:65-164 | the two dispenser objects, run side by side over any operations, answer the same |
| Directives.PrintedFileIsRecovered | sdk/go/caddyfile/dispenser.go:162-187 | printing any well-quoted list of directive trees, with line numbers that count line breaks in tokens, and walking the tokens recovers it, with nesting where it started and the cursor on the last token, in both ports |
| Directives.WalkPrinted | sdk/go/caddyfile/dispenser.go:84-113 | the same for one directive anywhere in the input, at any nesting |
| Directives.RemainingPrinted | sdk/go/caddyfile/dispenser.go:288-294 | after a printed name the arguments are exactly the printed ones |
| Directives.ReadDirective | sdk/go/caddyfile/dispenser.go:146-161 | the documented loop over NextBlock(Nesting()), as plugin code runs it over the dispenser, is the walk |
| Directives.ReadPrinted | sdk/go/caddyfile/dispenser.go:146-187 | that loop recovers every printed file |
| KvStore.DurationIsExact | pkg/runtime/kv.go:68-70 | a time to live is what it says exactly when its nanoseconds fit int64 |
| KvStore.CounterOfCoded | pkg/runtime/kv.go:109-119 | a counter reads back from its little-endian bytes |
| KvStore.CounterBytes | pkg/runtime/kv.go:107-119 | a counter is eight little-endian bytes in two's complement, and a shorter value counts as 0 |
| KvStore.DurationWraps | pkg/runtime/kv.go:68-70 | any time to live is its nanoseconds modulo 2^64 |
| KvStore.KVStore.Get | pkg/runtime/kv.go:42-58 | the live value in a fresh buffer outside the store, dropping an expired entry |
| KvStore.KVStore.Set | pkg/runtime/kv.go:62-72 | stores a copy with its deadline |
| KvStore.KVStore.Delete | pkg/runtime/kv.go:75-79 | removes the key and nothing else |
| KvStore.KVStore.Increment | pkg/runtime/kv.go:85-120 | a live counter plus delta, wrapping at int64, in place and with its deadline kept; otherwise a new counter |
| KvStore.KVStore.Exists | pkg/runtime/kv.go:123-136 | whether the key is live, dropping an expired entry |
| KvStore.LazyRefinesEager | pkg/runtime/kv.go:42-136 | under a clock that does not go back every sequence of operations answers as a map that drops entries the moment they expire |
| KvStore.ClockMustNotGoBack | pkg/runtime/kv.go:20-22 | for any two times of which the second is earlier it does not |
| KvStore.RunStore | pkg/runtime/kv.go:42-136 | the store object itself answers as eager expiry |
| KvStore.LookDrops | pkg/runtime/kv.go:42-58 | a look at a key drops it exactly when it is past its deadline and answers what is left |
| KvStore.SetThenGet | pkg/runtime/kv.go:20-22 | what Set stored is there exactly until its deadline, the deadline included |
| KvStore.IncrementKeepsDeadline | pkg/runtime/kv.go:81-84 | an increment keeps the deadline of a live counter |
| KvStore.IncrementAdds | pkg/runtime/kv.go:85-120 | an increment adds modulo 2^64 to a live counter, starts at delta otherwise, and leaves other keys and what follows the eight bytes alone |
| KvStore.NoAliasing | pkg/runtime/kv.go:54-67 | whatever is written to the buffer given to Set or to one returned by Get, Get answers as if nothing had been |
| RateLimit.ServeRequest | contrib/http/ratelimit/src/lib.rs:195-222 | serve up to the next handler: counter, verdict and response headers |
| RateLimit.AdmittedIffAmong | contrib/http/ratelimit/src/lib.rs:202-222 | in every run over any keys a request is admitted exactly when fewer than the limit came earlier in its counter's lifetime, whatever other keys did |
| RateLimit.CountIsPlace | contrib/http/ratelimit/src/lib.rs:206-219 | the count served is the request's place in its lifetime, so X-RateLimit-Remaining is what that lifetime still admits |
| RateLimit.AtMostTheLimit | contrib/http/ratelimit/src/lib.rs:202-222 | each lifetime of a counter admits at most the limit |
| RateLimit.FewerThanTwiceTheLimit | contrib/http/ratelimit/src/lib.rs:202-222 | any closed interval of one window length admits at most twice the limit less one |
| RateLimit.BoundIsReached | contrib/http/ratelimit/src/lib.rs:202-222 | that bound is reached: for every limit and window a run of serve admits exactly as many within one window |
| RateLimit.OpenersApart | pkg/runtime/kv.go:20-22 | lifetimes of one counter follow one another, more than a window apart |
| Resources.ResourceTable.New | pkg/abi/resources.go:19-30 | a fresh entry under the next handle, on a table made on first use |
| Resources.ResourceTable.GetRep | pkg/abi/resources.go:33-38 | the representation of a handle, if any |
| Resources.ResourceTable.Remove | pkg/abi/resources.go:41-49 | the representation, and the handle is gone |
| Resources.ResourceTables.Find | pkg/abi/resources.go:70-81 | the same table for the same key, made on demand |
| Resources.HandlesCount | pkg/abi/resources.go:19-30 | the n-th handle is n modulo 2^32 |
| Resources.RepsAreMinted | pkg/abi/resources.go:19-49 | a handle stands for the representation it was minted for until it is removed, and minting or removing one changes no other |
| Resources.NthHandleIsNth | pkg/abi/resources.go:19-38 | after fewer than 2^32 mints the n-th handle stands for the n-th representation |
| Resources.ResourceTables.ResourceNew | pkg/runtime/gen/instantiate.go:881-891 | the [resource-new] builtin on the keyed tables |
| Resources.ResourceTables.ResourceRep | pkg/runtime/gen/instantiate.go:892-906 | the [resource-rep] builtin on the keyed tables |
| Resources.ResourceTables.Take | pkg/runtime/gen/exports.go:108-118 | what lifting an owned result and [resource-drop] take out of the tables |
| Resources.HostObject.Release | pkg/runtime/calls.go:97-119 | cleanup zeroes the handle first and destroys only what was not clean, in an open module |
| Ownership.StepKeepsInv | pkg/runtime/gen/instantiate.go:879-931 | every step keeps each minted resource in exactly one place, destructors running guest code included |
| Ownership.InExactlyOnePlace | pkg/runtime/gen/exports.go:108-135 | in every reachable state each minted resource is under exactly one table handle, with one host object, in one cleanup under way, or dropped, and whoever has it knows its representation; a host object shows it has one exactly when the representation is not 0 |
| Ownership.RepIsOfResource | pkg/runtime/gen/instantiate.go:892-906 | in every reachable state [resource-rep] answers a representation exactly when the slot holds a resource minted for it |
| Ownership.NewIsTabled | pkg/runtime/gen/instantiate.go:881-891 | [resource-new] puts the new resource under the next handle, which then stands for its representation |
| Ownership.LiftGivesRep | pkg/runtime/gen/exports.go:108-118 | lifting an owned result hands its representation to a new host object and the handle is gone |
| Ownership.DropDestroys | pkg/runtime/gen/instantiate.go:907-929 | [resource-drop] of a live handle drops its resource and calls its destructor once if the guest exports one, and of any other handle does nothing |
| Ownership.TurnsAre | pkg/runtime/calls.go:97-119 | nothing runs in a closed module, the host waits for the guest, and cleaning up in a closed module calls no destructor |
| Ownership.DestroyedAtMostOnce | pkg/runtime/calls.go:485-502 | each destructor runs at most once, whatever the representations, and only when nobody has the resource any more, re-entrant drops included |
| Ownership.ZeroIsNeverDestroyed | pkg/runtime/calls.go:73-76 | from any state, a resource with representation 0 that the host lifts is never destroyed, whatever happens next |
| Ownership.CleanDestroysIffNonzero | pkg/runtime/calls.go:97-119 | cleaning up a host object in an open module, by cleanup with the guest's method first or by closeFile (lines 485-502) without, drops its resource and calls its destructor once by the time the guest is done, whatever guest code runs in between, exactly when the representation is not 0 |
| Ownership.DroppedStays | pkg/runtime/gen/instantiate.go:907-929 | what is dropped stays dropped, and its destructor is not called again |
| GuestAlloc.GuestHeap.CabiRealloc | sdk/go/cabi/cabi_wasm.go:21-37 | the allocator as it runs over memory and the pinned list, for every call |
| GuestAlloc.ReallocServes | sdk/go/cabi/cabi_wasm.go:21-37 | a nonempty block is aligned, not null, inside the buffer just pinned, apart from everything in use, and everything in use keeps its bytes |
| GuestAlloc.EmptyRequest | sdk/go/cabi/cabi_wasm.go:25-27 | a request for no bytes is answered with the alignment and changes nothing |
| GuestAlloc.PrefixIsKept | sdk/go/cabi/cabi_wasm.go:32-35 | a reallocated block keeps the old bytes, as many as both have |
| GuestAlloc.BlockFitsIff | sdk/go/cabi/cabi_wasm.go:28-31 | a block lies inside its buffer exactly when size and alignment together fit u32 |
| GuestAlloc.EveryBlockPlaced | sdk/go/cabi/cabi_wasm.go:21-37 | over any sequence of allowed calls every nonempty block is aligned and inside its own pinned buffer |
| GuestAlloc.BlocksAreDisjoint | sdk/go/cabi/cabi_wasm.go:21-37 | and any two are disjoint |
| GuestAlloc.RuntimeMeetsContract | pkg/abi/memory.go:51-67 | a guest whose runtime keeps its promise answers every request whose size and alignment together fit u32 as the allocator contract of Store and Lower asks |
| GuestAlloc.BumpIsGood | pkg/abi/memory.go:45-49 | the runtime's promise can be kept: by one that only grows memory |
| GuestAlloc.OverflowBreaksContract | sdk/go/cabi/cabi_wasm.go:28-31 | an answer to a request whose size and alignment wrap around together breaks the contract whenever anything is live away from the two ends of the address space |
| GuestAlloc.AnswerIsGoodIff | sdk/go/cabi/cabi_wasm.go:28-31 | then an answered request meets the contract exactly when its size and alignment together fit u32 |
| GuestAlloc.CodeIsNotGoodAlloc | sdk/go/cabi/cabi_wasm.go:28-31 | so the code does not meet the contract for every request |
| GuestAlloc.GuardedMeetsContract | pkg/abi/memory.go:51-67 | refusing such requests, which the code does not do, would meet it for all |
| GuestEngine.StoreOnGuest | pkg/abi/memory.go:334-400 | Store through cabi_realloc as it is, then Load, gives the value back, for every value whose strings and lists leave room for their alignment in 32 bits |
| GuestEngine.LowerOnGuest | pkg/abi/flat.go:164-247 | so does lowering through cabi_realloc, then lifting |
| GuestEngine.ArgsOnGuest | pkg/abi/call.go:119-136 | so do arguments, flat or spilled, whose record leaves the same room |
| GuestEngine.ResultOnGuest | pkg/abi/call.go:211-236 | so does a result, direct or indirect, on the caller's side |
| GuestEngine.ForwardedOnGuest | pkg/abi/call.go:99-174 | a whole forwarded call with every block from cabi_realloc brings the arguments to the implementation and its result back, with the same exceptions as over any allocator that meets the contract |

## Left out

- Error texts, and which of several errors is reported first: an operation succeeds with a result or fails.
- Type assertions on Go `any` values, beyond the rejection of a value that does not have its type.
- NaN canonicalization: floats are bit patterns, which the code keeps.
- Types whose layout does not fit 32 bits, lists and strings whose length or body does not, and records placed so
  that a field address wraps around: the constructors and Store compute modulo 2^32 there.
- AbiRoundTrip.StoreLoads: asks for a built type and sized lists, as do AbiFlat.LowerLifts and AbiCall.ArgsRoundTrip, because beyond them the code's uint32 sizes wrap around.
- AbiMeaning.LoadThenStoreThenLoad: asks for lists that have a size in 32 bits, because the code stores others modulo 2^32 (`AbiMeaning.FullMemoryWraps`).
- AbiMeaning.LoadedIsSized: the room above memory is enough but not always needed; element types with bytes that Load never reads may do with less.
- AbiLayout.VariantType.constructor: the size is the rules' size only below 2^32; above it the code compares the ends of the payloads after they wrapped around, and may pick another case.
- GuestEngine.ForwardedOnGuest: asks that strings, lists, the record of spilled arguments and the area of an indirect result leave room for their alignment below 2^32, as do `GuestEngine.StoreOnGuest` and `GuestEngine.LowerOnGuest`, because beyond it the allocator's answers are no good (`GuestAlloc.AnswerIsGoodIff`).
- AbiCall.ForwardedCall: the guest between CallExport and the host glue is one that forwards its arguments; other guest code is a parameter of `AbiCall.CallExport` and not constrained.
- The order of a failing list header write: `||` stops at the first failing word, as here, but the partial heap of a
  failed Store is described only outside its target.
- wazero, WASI, module compilation, `_initialize`, contexts and panics: a trap or a failed call is one outcome.
- The Rust port adds with wrap-around here, as a release build does; a debug build panics where it would wrap.
- Tokens.Lockstep: excludes token lists where a line number with its line breaks overflows u32, because there the ports differ (`Tokens.PortsAgreeOnLine`), and 2^31 or more operations, because the Rust nesting level is an i32.
- The Go dispenser's error constructors, and ErrArg-style messages in both ports.
- Heredoc markers, comments and environment substitution of the Caddyfile lexer: the model starts from tokens.
- Pool.StepKeepsInv: callers Put what they got, once; Put of nil and an instance Put twice or without a Get are not steps.
- Goroutine scheduling, fairness and liveness of the pool, a cancelled context being just a step that ends a wait.
- KvStore.KVStore.Get: the mutex is not modelled; each method is one atomic step with one clock reading.
- Len and Close of the key-value store, and the map's expired entries nobody looks at, which only Len would show.
- Overflow of the wall clock: times are integers of nanoseconds.
- RateLimit.AdmittedIffAmong: excludes 2^63 or more requests and windows longer than 2^63 nanoseconds, where the counter or the duration wraps.
- Configuration parsing and `resolve_key` of the rate limiter; key, limit and window are inputs, and header values stand for their decimal text.
- Ownership.StepKeepsInv: excludes 2^32 or more mints, where handles repeat (`Resources.HandlesCount`).
- The host's request, response-writer and buffered-response handles, and typed wrappers of the other exports.
- GuestAlloc.ReallocServes: asks for a power-of-two alignment, a size that with it fits u32, and an old block in use, which is what the canonical ABI passes.
- Directives.PrintedFileIsRecovered: in the Rust port the printed lines fit u32 and the tokens are fewer than 2^31, as for Tokens.Lockstep.
- GuestAlloc.RuntimeMeetsContract: asks for a size that with the alignment fits u32, without which it is false (`GuestAlloc.OverflowBreaksContract`).
- GuestAlloc.GuestHeap.CabiRealloc: a copy that would leave memory is a trap that writes nothing.
- Host HTTP, TCP, storage, logging and events, Caddy shims, manifest loading, OCI, fetching, the command-line tools,
  generated bindings and the other guests: input and output, or field-by-field copies.
