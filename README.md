# mallocazam, modelled in Dafny

mallocazam is an LLVM module pass. It instruments every pointer-to-pointer
`bitcast` whose operand is not directly an `alloca`, so that a runtime can see
which type each non-stack pointer is reinterpreted as. For every module it:

1. adds the hook `void mallocazam(i8*, i8*)`. The hook has weak ODR linkage,
   is no-inline and not optimised, and its only block `mallocazam_entry`
   holds just `ret void`;
2. selects, block by block and before changing that block, the eligible casts.
   A cast is eligible when its result is a pointer, its operand is a pointer,
   and the operand's own defining instruction is not an `alloca`;
3. inserts the following in front of each selected cast, in order:
   - a re-cast of the operand to `i8*`, when the operand is not already `i8*`.
     IRBuilder folds this into a constant cast when the operand is a constant;
   - a call `mallocazam(operand as i8*, type string)`;
4. returns `true`.

The type string is a private, constant, unnamed-address, align-1 global `.str`.
It holds the printed pointee type as a C string. The pass object keeps a table
from printed type to global and creates a global only on a table miss.

The model has four modules plus client scenarios:

- **`IR`** (`ir.dfy`)
  - Types, values, instructions, blocks and functions are datatypes. An
    instruction's identity is an explicit `id`.
  - `GlobalVariable` is a class, because its identity matters.
  - `Module` is a class whose `functions`, `globals` and `nextId` (the supply
    of fresh identities) the pass updates in place. `Module.Valid` says calls
    target existing functions and identities were allocated.
- **`TypeStrings`** (`type_strings.dfy`)
  - The bytes of a type-string global: `ConstantDataArray::getString(str.c_str(), true)`
    keeps the text up to its first NUL byte and adds a terminator.
  - Proved: the bytes read back give the printed text's C string, which is
    the whole text when it has no NUL byte.
- **`Rewrite`** (`rewrite.dfy`)
  - The eligibility test and the stub inserted in front of a cast.
  - The relation `Rewritten(orig, out, hook, table, render, lo, hi)`: `out` is
    block `orig` after the pass. Every original instruction is kept, in order.
    Each eligible cast is preceded by exactly its stub, which passes the
    table's global for the printed pointee type. Fresh identities are drawn
    from `[lo, hi)`.
  - Lemmas about `Rewritten`: stripping the inserted instructions gives the
    block back; one hook call per eligible cast; where each instruction lands;
    shared type strings; well-formedness is kept.
- **`Pass`** (`pass.dfy`)
  - The class `Mallocazam`, with the field `stringValueMap` and one method per
    function of the pass: `DefineCastCatcherFunction`, `GetOrCreateGlobalTypeString`
    and `RunOnModule`.
  - `RunOnModule`'s nested loops are the methods `InstrumentFunctions`,
    `InstrumentFunction`, `InstrumentBlock`, `InstrumentNext` and
    `InstrumentCast`, each proved against `Rewritten` and against the
    predicate `Grown`.
  - `Grown` says how the table and the module's globals grow. The table only
    gains entries, exactly for the printed types it lacked. The module gains
    exactly one new global per entry gained, appended in order and recorded
    in the table.
- **`Scenarios`** (`scenarios.dfy`): concrete modules run through
  `RunOnModule`.

The type printer (`rso << *type`) is the parameter `render: Ty -> Text`, with
no assumptions about it. In particular it need not be injective, so casts to
different types can share a type string when their types print alike.

### Two consequences of the code

- **The table outlives the module.** `string_value_map` is a member of the
  pass object and is never cleared (mallocazam/mallocazam.cpp:42, 77-79, 96).
  A pass object reused on a second module therefore passes that module
  globals that belong to the first module. In the model,
  `Mallocazam.stringValueMap` persists across `RunOnModule` calls, and
  `Scenarios.StaleTable` shows a second module whose hook call passes a
  global that the second module does not contain.
- **Every run adds a hook.** `defineCastCatcherFunction` creates the hook
  without looking for an existing one (mallocazam/mallocazam.cpp:56, 105).
  `Scenarios.DoubleRun` shows that two runs on one module leave two hook
  definitions.

## Model

| member | source | states |
|---|---|---|
| Pass.Mallocazam.constructor | mallocazam/mallocazam.cpp:42-45 | a new pass object starts with an empty type-string table |
| Pass.Mallocazam.DefineCastCatcherFunction | mallocazam/mallocazam.cpp:49-68 | appends exactly one function: `void mallocazam(i8*, i8*)`, weak ODR, {NoInline, OptimizeNone}, one block `mallocazam_entry` holding only `ret void`; returns its index; changes no other function |
| Pass.HookRewritten | mallocazam/mallocazam.cpp:58-65 | the hook has no cast, so any later instrumentation leaves its definition exactly as it was |
| Pass.HookDefinition | mallocazam/mallocazam.cpp:49-68 | the hook as built: `void mallocazam(i8*, i8*)`, weak ODR linkage, {NoInline, OptimizeNone}, one block `mallocazam_entry` holding only `ret void` |
| Rewrite.Eligible | mallocazam/mallocazam.cpp:111-115 | the selection test: a `bitcast` whose result is a pointer, whose operand is a pointer, and whose operand is not itself the result of an `alloca` |
| Rewrite.HookArg0 | mallocazam/mallocazam.cpp:126-129 | the hook's first argument: the operand itself when it already is `i8*`, otherwise its re-cast to `i8*` (its type is stated by `StubFirstArgument`) |
| Rewrite.Stub | mallocazam/mallocazam.cpp:124-137 | what is inserted in front of an eligible cast: the optional re-cast to `i8*` and the hook call; its length is one, plus one when a re-cast is emitted |
| Rewrite.Rewritten | mallocazam/mallocazam.cpp:119-138 | the relation between a block and the block after insertion: originals kept in order, each eligible cast preceded by exactly its stub whose type string is the table's global for the printed pointee type, fresh re-cast identities increasing within `[lo, hi)` |
| TypeStrings.StringInitializer | mallocazam/mallocazam.cpp:92-93 | the initializer bytes: the C string of the printed text plus its terminator (its shape is stated by `StringInitializerShape`) |
| TypeStrings.StringInitializerShape | mallocazam/mallocazam.cpp:92-93 | the initializer is a NUL-free prefix of the printed text followed by one terminating NUL, at most `n+1` bytes |
| TypeStrings.IsTypeString | mallocazam/mallocazam.cpp:81-94 | the global a miss creates: `.str`, `[n+1 x i8]`, constant, private, align 1, unnamed address, initialized with `StringInitializer` of the text |
| Pass.Mallocazam.GetOrCreateGlobalTypeString | mallocazam/mallocazam.cpp:70-97 | on a hit, returns the recorded global and changes neither table nor globals; on a miss, appends one fresh global holding the printed type as a C string (`.str`, `[n+1 x i8]`, constant, private, align 1, unnamed address) and records it; either way the result is the table's entry for the printed type |
| TypeStrings.UpToNul | mallocazam/mallocazam.cpp:93 | the C-string view of a text is its longest NUL-free prefix, stopped at the text's first NUL |
| TypeStrings.TypeStringRoundTrip | mallocazam/mallocazam.cpp:81-93 | the text read back from the initializer is the text's C string; it is the whole printed text, and the initializer fills the declared `n+1` bytes, exactly when the text has no NUL |
| TypeStrings.TypeStringContents | mallocazam/mallocazam.cpp:81-94 | a type-string global for a NUL-free text is NUL-terminated at index `n` and reads back as that text |
| Pass.CollectCasts | mallocazam/mallocazam.cpp:109-118 | returns, in increasing order, the positions of exactly the eligible casts of the block (pointer result, pointer operand, operand not an `alloca` result) |
| Rewrite.RecastIsEligible | mallocazam/mallocazam.cpp:111-115 | a re-cast that the pass inserts passes the selection test itself; it escapes instrumentation only because selection finishes before insertion |
| Rewrite.StubFirstArgument | mallocazam/mallocazam.cpp:126-129 | the hook's first argument is always `i8*`: the operand itself if it already is `i8*`, and otherwise the result of the re-cast inserted in the same stub (or its folded constant) |
| Pass.Mallocazam.InstrumentCast | mallocazam/mallocazam.cpp:119-137 | inserts exactly the cast's stub immediately before it; a fresh identity is used only when a re-cast is emitted; the returned global is the table's entry for the printed pointee type; table and globals grow by at most that one entry |
| Pass.Mallocazam.InstrumentNext | mallocazam/mallocazam.cpp:119-138 | one turn of the insertion loop keeps the loop invariant: the block rewritten up to the next selected cast, the rest untouched, and the table grown by this cast's printed type |
| Pass.Mallocazam.InstrumentBlock | mallocazam/mallocazam.cpp:108-138 | the block after selection and insertion is `Rewritten` from the original, with fresh identities in `[nextId before, nextId after)`; table and globals are `Grown` by exactly the printed types of the block's eligible casts |
| Pass.Mallocazam.InstrumentFunction | mallocazam/mallocazam.cpp:108-139 | same header, same block names; every block `Rewritten`; `Grown` by the printed types of all its blocks |
| Pass.Mallocazam.InstrumentFunctions | mallocazam/mallocazam.cpp:107-140 | every function of the module is rewritten in place, and the number of functions stays the same |
| Pass.Mallocazam.RunOnModule | mallocazam/mallocazam.cpp:101-143 | returns true. The module gains exactly the hook, at the end. Every original function is `Rewritten` against the final table. Stripping the inserted instructions gives back every original block, and each block holds one hook call per eligible cast. Table and globals are `Grown` by the printed types of all eligible casts. New globals are fresh; well-formedness is kept |
| Pass.GrownCount | mallocazam/mallocazam.cpp:77-96 | the number of globals created is the number of distinct printed types that were new to the table: one global per distinct type, none on a hit |
| Pass.CreatedCount | mallocazam/mallocazam.cpp:81-96 | every global added corresponds to one table entry added, and the other way round |
| Pass.RecordedTableIn | mallocazam/mallocazam.cpp:96 | if every table entry was a global of the module before, it still is after: new entries are the globals just appended |
| Scenarios.StaleGlobals | mallocazam/mallocazam.cpp:42 | with two modules that print the same type, the first gains the one global and the second none; the table still maps to the first module's global |
| Rewrite.RewrittenNoneEligible | mallocazam/mallocazam.cpp:110-118 | a block without eligible casts comes out unchanged |
| Rewrite.RewrittenUnchanged | mallocazam/mallocazam.cpp:110-118 | a block without eligible casts is a valid rewriting of itself over an empty identity range |
| Rewrite.StripRewritten | mallocazam/mallocazam.cpp:119-138 | the pass only inserts: deleting the inserted hook calls and fresh re-casts from a rewritten well-formed block gives back the original block |
| Rewrite.HookCallCount | mallocazam/mallocazam.cpp:119-137 | the rewritten block holds exactly one more hook call per eligible cast than the original |
| Rewrite.NoHookCalls | mallocazam/mallocazam.cpp:105 | a well-formed block calls no function numbered at or above the module's size, so it does not call a hook added after it |
| Rewrite.Placement | mallocazam/mallocazam.cpp:124 | every original instruction keeps its order at `Pos(orig, k)`; directly before it, after the previous original instruction, there is exactly its stub when it is eligible and nothing when it is not |
| Rewrite.RewrittenEnd | mallocazam/mallocazam.cpp:119-138 | the rewritten block ends with the original block's last instruction: nothing is appended after it |
| Rewrite.HookGlobal | mallocazam/mallocazam.cpp:126-137 | the instruction directly before each eligible cast is a call to the hook with arguments `[HookArg0(operand, id), StringStart(g)]`, where `g` is the table's global for the printed pointee type; when a re-cast is emitted, it is the instruction before the call and is numbered `id` |
| Rewrite.SharedTypeString | mallocazam/mallocazam.cpp:77-79 | with an injective table, the hook calls for two eligible casts pass the same type string if and only if their pointee types print alike |
| Rewrite.RewrittenBelow | mallocazam/mallocazam.cpp:124-137 | rewriting keeps a block well formed: inserted calls target the hook and inserted re-casts use allocated identities |
| Scenarios.ThreeCasts | mallocazam/mallocazam.cpp:101-143 | four casts: two heap casts to `A*`, one to `B*`, and one to `A*` of an `alloca`. The block becomes exactly: hook call (A string), `A*` cast, hook call (A string), `A*` cast, hook call (B string), `B*` cast, then the stack cast with no call in front. The two strings differ, and the module gains exactly two globals |
| Scenarios.ThreeCastsRewritten | mallocazam/mallocazam.cpp:119-138 | the whole rewritten block of that scenario, instruction by instruction, from `Rewritten` alone |
| Scenarios.StaleTable | mallocazam/mallocazam.cpp:42 | one pass object runs over two modules. The second module gains no global, yet its hook call passes the first module's global, which the second module does not hold |
| Scenarios.DoubleRun | mallocazam/mallocazam.cpp:56 | two runs on one module leave two hook definitions |

## Left out

- Pass registration and the analysis-usage declaration
  (mallocazam/mallocazam.cpp:47, 148-156): they only hook the pass into
  LLVM's pass manager.
- The type printer `rso << *type` (mallocazam/mallocazam.cpp:74): it is an
  uninterpreted parameter `render`, assumed neither injective nor NUL-free.
  When the printed text holds a NUL byte, the global is declared with
  `n+1` bytes (mallocazam/mallocazam.cpp:81) but its initializer has only
  `strlen+1` (mallocazam/mallocazam.cpp:92-93). An LLVM built with
  assertions would stop in `setInitializer` (mallocazam/mallocazam.cpp:94).
  The model instead creates that global with the two lengths disagreeing,
  as the third ensures of `TypeStrings.TypeStringRoundTrip` shows. LLVM's
  type printer escapes non-printable bytes in names, so in practice the
  printed text has no NUL.
- LLVM's renaming of duplicate names: the global `.str` and a second hook
  `mallocazam` would be renamed by LLVM (to `.str.1`, `mallocazam.1`); the
  model keeps the names the code passes (`.str`, `mallocazam`).
- IRBuilder details:
  - A zero-index in-bounds GEP on a global folds to the constant
    `StringStart(g)`.
  - A cast of a constant folds to `ConstCast`.
  - Nothing else about constant folding is modelled.
- Address spaces: pointer types `Ptr(pointee)` carry no address space. So
  the model cannot show what mallocazam/mallocazam.cpp:127-128 does with an
  `i8 addrspace(N)*` operand. Its type differs from `i8*`, and the bitcast
  built there would be an invalid cross-address-space cast.
- SSA use lists and type consistency: a register value carries its type and
  its defining opcode. The model does not check that these agree with the
  instruction that defines it.
- The hook's behaviour at run time: it is an empty function, and a runtime
  may replace it.
- Fresh identities:
  - Each block draws from its own range `[lo, hi)` of `nextId`.
  - Across blocks the ranges are stated only through `Rewritten`'s bounds.
  - Pairwise distinctness of identities in different blocks is not stated as
    a lemma.
- Blocks and functions are values: each block is rewritten as a sequence and
  stored back into `Module.functions`. LLVM's in-place mutation of
  instruction lists, and iterator invalidation, are not modelled; the
  pre-collected `casts` vector makes this sound in the code.
- Pass.Mallocazam.RunOnModule: does not state the number of globals
  created. That follows from its `Grown` postcondition by the lemma
  `Pass.GrownCount`.
- The IRBuilder object and its insertion point (mallocazam/mallocazam.cpp:43,
  63, 102-103, 124): they are replaced by explicit sequence insertions at
  the cast's current position.
