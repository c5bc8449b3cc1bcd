# Verified model of the Max Payne loader

The repository runs the Android build of a game on a PlayStation Vita: it loads the game's shared
object into memory itself, relocates it, binds its imports to functions of the host, overwrites
some of its functions with jumps, runs its constructors and gives it a configuration file and a
thread library. This project models the parts where a mistake corrupts memory or state, and proves
what they do.

- **The loader** (`so_util.c`, `update_imports`). Everything happens in one flat byte memory:
  the relocation entries, symbols and strings that steer relocation lie in the memory it patches.
  `Memory`, `Arm`, `Relocs`, `Imports`, `Elf`, `ElfFile` and `LoadedImage` say what each step does
  to that memory, and what follows; `Kernel` (class `Process`: memory, blocks, open files) and
  `SoUtil` (class `Loader`: the globals of `so_util.c`) are the program, step by step in place,
  proved against those functions. Every load and store of the program must hit a live memory block,
  so a use after free would not verify. `Startup` puts the steps together in the order of `main`,
  `EntryOrder` compares images whose relocation entries are permuted, `TwoRuns` and `TwoLoads`
  compare two load addresses, and `Samples` holds small files that meet the conditions of these
  theorems.
- **The configuration file** (`config.c`, and the language setting in `hooks/game.c`): `CText`,
  `ConfigFile` (class `Config`), `ConfigLaws`, `ConfigRoundTrip`, `ConfigSamples`, `Language` (class
  `Game`).
- **The lazily created mutexes and condition variables** of `imports.c`: `Pthreads` (class
  `Wrappers`).

The main theorems: `Startup.Boot`, `Startup.RunMain` and `Startup.BranchThroughSlot` (from the file
to the place where a branch through any GOT or PLT slot lands), `SoUtil.Loader.Load` (every exit of
`so_load`), `SoUtil.Loader.Resolve` with `Relocs.RepeatedTargets`, `EntryOrder.PermutedEntries`,
`TwoRuns.TwoBases` and `TwoLoads.TwoLoads`, `SoUtil.Loader.LoadedBytes`, `Arm.HooksAllRun`,
`ConfigRoundTrip.RoundTrip` and `Normalisation`, `Language.RunKeepsLanguage`, `Pthreads.RunOwned`.

Where the code does not do what one would expect of it, the model follows the code and says exactly
when it departs:

- A mapped segment is not always a copy of the file. `so_load` relocates `p_vaddr` inside the
  temporary copy before it copies the segment out of it, so a segment whose file range holds the top
  byte of that field differs from the file there. A text segment that starts at file offset 0, as
  linkers make it, does (`SoUtil.Loader.LoadedBytes`; for a file, `Samples.SampleDiffers`).
- A file whose first loadable segment is not executable is reported as loaded (result 0) although
  nothing is loaded and the temporary block is gone (`SoUtil.Loader.Load`; for a file,
  `Samples.DataFirst`).
- A second executable segment, or a third one of any kind, makes `so_load` fail. When the kernel has
  granted the blocks before it, some of them stay behind, because the refused allocation overwrites
  the uid of the earlier block. A failure for want of a block leaves nothing behind exactly when that
  block is the first one, or is for a data segment right after the text segment
  (`SoUtil.Loader.LeftBehind`; for a file, `Samples.TwoExecutable` and `TwoExecutableLeaks`).
- When there is no memory for the temporary copy, the file descriptor stays open
  (`SoUtil.Loader.Load`).
- `mod_file` comes back from the config file only if it is one line without whitespace at its ends;
  the whole configuration comes back only if, besides, the floats survive printing
  (`ConfigRoundTrip.RoundTrip`; for a value, `ConfigRoundTrip.SpaceIsLost`).
- A name that is alone on its line sets an integer to 0, because the newline counts as what follows the
  name; only at the very end of the file it is ignored (`ConfigSamples.LoneWordAssigns`).
- Languages 1 to 6 are stored in the file as they are chosen. English, 0, need not be: from a file with
  a language that does not exist, it can be chosen and be gone at the next start. When the file at the
  start and every choice is one of the seven, each is stored (`Language.RunKeepsLanguage`,
  `RunStoresLanguage`; `EnglishNotStored` and `NineIsRead` give the run).
- Initialising a mutex or condition variable twice leaks the first object, and waiting with a mutex
  word that is not set passes it on to the library (`Pthreads.StepOwned`, `Pthreads.InitLeaks`,
  `Pthreads.Wrappers.CondWaitFake`).
- `R_ARM_ABS32` adds the load address and the value of its symbol even when the symbol is undefined.
  The word ends as the sum of the word in place and what the symbol stands for (its address, else the
  first import of its name, else 0) exactly when the symbol is defined or these happen to be equal
  (`Startup.AbsoluteWord`; for a file, `Samples.SampleAbsolute`).
- `R_ARM_GLOB_DAT` and `R_ARM_JUMP_SLOT` ignore the word in place, which section 4.6.1 of ARM IHI
  0044 adds. The slot ends as that sum exactly when the word in place is 0 (`Startup.InPlaceIgnored`;
  for a file, `Samples.SampleInPlace`).

What the model takes for granted: the kernel may refuse any allocation, but never hands out empty
memory or memory in use, and honours a requested base address; the C library compares, prints and
scans strings as its standard says, `atoi` saturates where the standard leaves it open, and `%g`
prints a word of at most 100 characters (`FloatFormat.Ok`); `calloc` returns new addresses above
0x8000. What `so_load` needs of the file is `ElfFile.FileOk`: if it has the ELF magic, its header
tables are inside it and the program headers, which are updated in place, overlap nothing else; the
text segment is linked at address 0; the data segment fits its block, which the code sizes by
`p_memsz` alone. What relocation and hooking need of the loaded image is `Startup.Ready`. The
constructors of the game may write anywhere in the image but to tables, arrays, slots and hooks
(`Startup.Kept`), and to every block that was live before `so_load`, such as stack and heap. The
temporary copy of the file, which they must leave alone as well, lies in none of these
(`Startup.HarmlessFile`; for the sample file, `Samples.SampleConstructors`).

## Model

| member | source | states |
|---|---|---|
| Startup.Boot | main.c:111-128 | `main` from `so_load` to `so_free_temp`, for every answer of the kernel, every import table, every file that so_load refuses, that starts with a data segment, or that is ready, and all constructors that write only to the game's own data and to blocks that were live before: `so_load` returns 0 exactly when the kernel refuses no block and the file is of a supported order with both tables or starts with a data segment, and fails in one of its ways; in the latter case the run faults; otherwise startup succeeds exactly when every hooked name exists, and then an interworking branch through any slot that is not itself overwritten lands as `Lands` says, absolute and relative words that neither hooks nor constructors overwrite are as `HoldsAbsolute` and `HoldsRelative` say, the two names that the configuration rebinds are bound to their hooks and all others as before, every constructor has been called in order, exactly the blocks of the segments are left allocated, and lookups may go on and answer as right after loading |
| Startup.RunMain | main.c:111-145 | the same to the last lookup of `main`: exactly when it gets through or faults, the address that each lookup gives, and, when the stores in between keep off slots and hooks, that every slot still lands |
| Startup.LookUpAll | main.c:139-145 | lookups between stores to the image, after the temporary copy is gone: each gives the address from before all stores, or the run fails exactly if a name does not exist |
| Startup.StoresAgree | main.c:139-141 | stores that keep off a set of bytes leave it as it was |
| Startup.BranchThroughSlot | so_util.c:41-269 | in any memory where slots and hooks of the relocated and hooked image are intact, a slot of a defined symbol holds its address, a slot of an undefined symbol the first import of its name, or else its own offset; and from there, if it is Thumb code, a run of the processor reaches the destination of any hook at that address, under whatever name it was installed |
| Startup.NamedHook | so_util.c:41-269 | in particular of a hook on the name of the slot's own symbol, if that is the first of its name |
| Startup.ReboundSlot | imports.c:627-633 | an undefined slot of a name that has been rebound holds the hook after relocation |
| Startup.HookWritten | hooks/game.c:384-385 | the code of every requested hook is in place when the constructors run |
| Startup.SlotHolds | so_util.c:213-234 | no hook and no other relocation entry disturbs the value that an entry gave to its slot |
| Startup.TargetHolds | so_util.c:200-239 | the word that an entry writes is what the entry makes of the word in place, after all other entries and hooks |
| Startup.InPlaceIgnored | so_util.c:213-234 | a slot ends as the sum of the word in place and its value exactly when the word in place is 0 |
| Startup.AbsoluteWord | so_util.c:201-205 | an absolute word that no hook covers ends as the word in place plus the load address plus the value of its symbol, which is the word in place plus what the symbol stands for exactly when the symbol is defined, or by accident |
| Startup.RelativeWord | so_util.c:207-211 | the word of every `R_ARM_RELATIVE` entry that no hook covers ends as the word in place plus the load address |
| Startup.Start | main.c:115-128 | the same run from the loaded image on: final image bytes, overridden import table, constructors called, temporary block freed once, the symbol table still live and well-formed, and `ok` exactly if every hooked name exists |
| Startup.PatchAll | hooks/game.c:384-385 | a list of `hook_thumb(so_find_addr(name), dst)`: looking up between the writes finds what it would have found before the first, and fails exactly if some name does not exist |
| SoUtil.Loader.Load | so_util.c:73-189 | every exit: what is returned, which blocks are live, which were freed in which order, whether the descriptor is closed; for unsupported segment orders, which blocks are left behind; success exactly when the kernel refuses no block and both tables exist, with the mapped memory and the globals, sizes included |
| SoUtil.Loader.FailureCodes | so_util.c:80-188 | the result of each failure and the blocks freed: the error of the kernel, -1 without the ELF magic, -2 without a table |
| SoUtil.Loader.LoadCopy | so_util.c:95-188 | the same once the file has been read |
| SoUtil.Loader.LoadImage | so_util.c:100-188 | `so_load` once the magic has been seen: unsupported segment orders never load, and every failure is a refused block, with what it leaves behind, or a missing table |
| SoUtil.Loader.MapHeaders | so_util.c:106-159 | the loop over the program headers: all loadable segments mapped, or at which one it stopped, at which label, and what had been mapped by then |
| SoUtil.Loader.GiveUp | so_util.c:183-188 | the labels `err_free_text` and `err_free_so`: the blocks freed, and those left live |
| SoUtil.Loader.NothingLeft | so_util.c:181-188 | when the order of segments is supported, no failure leaves a block behind |
| SoUtil.Loader.LeftBehind | so_util.c:119-142 | a refused block leaves nothing behind exactly when it is the first one, or is for a data segment right after the text segment |
| SoUtil.Loader.MapHeader | so_util.c:106-159 | one program header: which label the code goes to and when, or the segment mapped and the invariant `Progress` kept for one more header |
| SoUtil.Loader.CopySegment | so_util.c:146-157 | relocate `p_vaddr`, clear the block, copy the file range |
| SoUtil.Loader.FindTables | so_util.c:161-172 | the symbol and string table addresses are those of the last section of each name, NULL if there is none |
| SoUtil.Loader.FinishLoad | so_util.c:161-188 | a missing table frees data, text and temporary block, once each |
| SoUtil.Loader.FreeAll | so_util.c:181-186 | frees what was allocated, once each: a block that is not live cannot be freed |
| SoUtil.BlocksRestored | so_util.c:181-186 | the error ladder gives back exactly the blocks from before, at whichever label it is entered |
| SoUtil.Loader.LoadEstablishes | so_util.c:106-179 | after success both segments and the file copy are live memory, apart from each other |
| SoUtil.Loader.AfterLoad | so_util.c:106-179 | the memory is the mapped file, base addresses and sizes are those of the segments, and all blocks but the temporary one are the old ones with those of the segments |
| SoUtil.Loader.CopyApart | so_util.c:86-90 | the file copy shares no byte with a block that was live before |
| SoUtil.Loader.PlacedAfterLoad | so_util.c:119-150 | the blocks of a successful load are placed as the laws of the mapped image ask |
| SoUtil.Loader.LoadedBytes | so_util.c:106-179 | the memory that a successful load leaves: each segment equals the file if and only if its file range leaves out the top bytes of the `p_vaddr` fields relocated before it is copied, and the rest of both blocks is zero |
| SoUtil.Loader.LoadedAlone | so_util.c:106-179 | the same when the executable segment is the only one |
| SoUtil.Loader.Resolve | so_util.c:191-245 | the three loops, which read the tables from the memory they patch, equal applying, in order, the entries decoded from the memory before |
| SoUtil.Loader.Relocate | so_util.c:197-239 | one entry in place, its symbol and name still reading as before the first patch |
| SoUtil.Loader.BindSlot | so_util.c:221-233 | the crash value is overwritten by the first import of the name and stays otherwise |
| SoUtil.Loader.ExecuteInitArray | so_util.c:247-258 | as many calls are made as there are non-null words in all `.init_array` sections, each of these in its place after those of earlier sections and the earlier ones of its own, as they were before the first call; memory is what these calls make of it, for constructors that may overwrite anything but the file copy and the arrays |
| SoUtil.CalledInTurn | so_util.c:252-255 | entry j is called if and only if it is not null, as call number "non-null entries before it" |
| SoUtil.ConstructorAt | so_util.c:248-256 | the length of the whole list of calls, and the place of each entry in it |
| SoUtil.NonNullIsCardinality | so_util.c:252-253 | the count of non-null entries is the cardinality of their set |
| Startup.RelativeConstructor | so_util.c:207-258 | a constructor that is the word of an `R_ARM_RELATIVE` entry and that no hook covers is called at its link-time address plus the load address, and in its place among all calls |
| SoUtil.Loader.FindAddr | so_util.c:260-269 | the address of the first symbol of the name, or the fatal error; needs the loaded image only, not the file copy |
| SoUtil.Loader.FreeTemp | so_util.c:68-70 | frees the file copy once, and leaves the image and its liveness alone |
| LoadedImage.FlatImage | so_util.c:146-157 | the image byte by byte, at any base: file range, zero fill, temporary copy, everything else; mapping the data segment never disturbs the text segment |
| LoadedImage.TextEqualsFile | so_util.c:125-157 | the mapped text segment equals the file if and only if its file range leaves out the top byte of its own `p_vaddr` |
| LoadedImage.DataEqualsFile | so_util.c:146-157 | the same for the data segment, and both headers |
| LoadedImage.AloneEqualsFile | so_util.c:119-157 | the same for an executable segment alone, and the rest of its block is zero |
| LoadedImage.PatchedDiffers | so_util.c:125-146 | the temporary copy differs from the file in exactly the top byte of `p_vaddr` of the headers mapped so far |
| Memory.AlignIsLeastMultiple | so_util.h:12 | for a power of two, `ALIGN_MEM(x, align)` is the least multiple of `align` that is at least `x` |
| Memory.AlignZero | so_util.h:12 | an alignment of 0, which the file format allows, rounds every size to 0 |
| ElfFile.LoadsAre | so_util.c:106-107 | the segments considered are the PT_LOAD headers, each once, in order |
| ElfFile.MagicIs | so_util.c:95 | the magic is the bytes 7f 45 4c 46 |
| ElfFile.ExecutableIs | so_util.c:111 | a segment is executable if and only if the bit PF_X is set |
| Elf.RelocationKeepsTables | so_util.c:191-241 | targets outside the tables leave every header, entry, symbol and name as it was |
| Elf.SameEntry | so_util.c:196-200 | an entry decodes the same from any memory with the same tables |
| Elf.RelocAt | so_util.c:192-196 | every entry is listed once, in its place |
| Elf.EntryCountIs | so_util.c:193-196 | `.rel.dyn` and `.rel.plt` hold entries of 8 bytes, other sections none |
| Elf.OtherTypes | so_util.c:236-238 | entries of other types write nothing |
| Elf.LookupStable | so_util.c:260-269 | symbol lookup gives the same answers as long as the symbol and string tables are the same, the file copy gone or not |
| Elf.FindAddrIs | so_util.c:260-269 | the address of the first symbol of the name; the fatal error if and only if there is none |
| Elf.ClearForAnyTable | so_util.c:196-240 | which words are relocated does not depend on the import table, so `update_imports` cannot break the conditions of `so_resolve` |
| Relocs.DisjointTargets | so_util.c:200-239 | with disjoint targets every target word ends as the function of its relocation type of its original value |
| Relocs.Untouched | so_util.c:197-239 | bytes that are no target keep their value |
| Relocs.RepeatedTargets | so_util.c:196-239 | with repeated targets a word ends as the value of its last overwriting entry, or its original value, plus the sum mod 2^32 of the additive entries after that |
| Relocs.OrderIndependent | so_util.c:192-241 | any permutation of a list of decoded entries makes the same of a memory, when targets are disjoint |
| EntryOrder.PermutedEntries | so_util.c:191-245 | two images that agree outside their relocation sections and hold the same entries there in different orders, also across sections: if the first meets what `so_resolve` asks, so does the second, and it leaves both the same outside those sections |
| EntryOrder.PermutedRelocs | so_util.c:191-245 | the same for entries that decode to the same relocations in different orders |
| EntryOrder.PermutedSections | so_util.c:192-198 | sections that hold the same entries in another order decode to the same relocations in another order |
| Relocs.BaseEquivariance | so_util.c:200-234 | at another base, words that hold image addresses move by the difference of the bases, imported and unresolved slots do not |
| TwoRuns.TwoBases | so_util.c:191-245 | two runs that read the same tables and target words, at two bases, decode the same entries; target words that hold image addresses end up the difference of the bases apart, all others equal, and nothing else changes in either |
| TwoLoads.LoadedAlike | so_util.c:106-159 | two loads of one file at two addresses read the same tables and target words, unless these are copies of a relocated `p_vaddr` |
| TwoLoads.TwoLoads | so_util.c:106-245 | one file, loaded at two addresses and relocated at each, differs as the two-run theorem says |
| Samples.SampleTwice | so_util.c:106-245 | any two loads of the sample file are an instance of it |
| Samples.SampleReady | main.c:111-145 | a sample file, with a hook on its function, meets everything that `Startup.RunMain` asks |
| Samples.SampleConstructors | so_util.c:247-258 | its constructors may write to any block that was live before |
| Samples.SampleLands | so_util.c:41-269 | branches through its GOT slot and its PLT slot reach the replacement of its function |
| Samples.SampleImport | so_util.c:221-231 | its slot for an undefined symbol holds the first import, or its own offset |
| Samples.SampleRelative | so_util.c:207-211 | its relative words end as addresses |
| Samples.SampleCalls | so_util.c:247-258 | exactly its two constructors are called, once each, in order |
| Samples.SampleAbsolute | so_util.c:201-205 | its absolute word for an undefined symbol ends as the load address, whatever function the import table has for the symbol |
| Samples.SampleInPlace | so_util.c:213-217 | the word in place of its slot is lost |
| Samples.SampleDiffers | so_util.c:125-157 | its mapped text segment, which holds the program headers, differs from the file |
| Samples.DataFirst | so_util.c:132-133 | a file of which `so_load` reports success and loads nothing |
| Samples.TwoExecutable | so_util.c:119-121 | a file of an order that makes `so_load` fail |
| Samples.TwoExecutableLeaks | so_util.c:119-121 | it fails at its first block or at its second, and leaves a block behind exactly in the second case |
| Imports.FindImport | so_util.c:271-276 | the first entry of the name, or NULL |
| Imports.OverrideBinds | so_util.c:271-276 | changing the first entry of a name rebinds that name and no other, duplicates or not |
| Imports.UpdateImports | imports.c:627-633 | `glCompressedTexImage2D` is bound to its hook if mipmaps are off, `glTexParameteri` to its hook if the filter is trilinear, and every name otherwise as before |
| Arm.HooksAllRun | so_util.c:41-63 | any list of hooks with disjoint footprints leaves every one working: one step, or a NOP and one step, from the hooked address to the destination |
| Arm.InstalledRuns | so_util.c:41-63 | executing an installed trampoline branches to its destination, in Thumb and in ARM state |
| Arm.NopIsNeeded | so_util.c:45-49 | without the NOP, at an address that is 2 mod 4, the jump would miss for every destination but one |
| Arm.HooksFrame | so_util.c:41-63 | hooks write nothing outside 8 bytes, or 10 with the NOP |
| Arm.HookIs | so_util.c:41-63 | every byte that one hook writes, and nothing for a null address |
| Kernel.Process.HookThumb | so_util.c:41-54 | the writes of `hook_thumb`, none for address 0 |
| Kernel.Process.HookArm | so_util.c:56-63 | the writes of `hook_arm`, none for address 0 |
| CText.SplitLine | config.c:67-85 | the tokenizer that plants NULs in the line buffer finds what `Tokenize` says of the line, for every buffer, and its backward trim stops inside the buffer |
| CText.TokenIs | config.c:64-66 | `Tokenize` is the only reading of a line as name, whitespace, value, whitespace |
| CText.AtoiShow | config.c:34-97 | printing and scanning any 32-bit integer gives it back, INT_MIN included |
| CText.AtoiOf | config.c:34 | what `atoi` makes of any text: whitespace, sign, digits, and anything after them |
| CText.DecimalIs | config.c:34 | the value of decimal digits, from the left |
| CText.ShowForm | config.c:97 | printed integers have a minus sign only if negative, and no leading zeros |
| CText.SpacesAre | config.c:72-80 | the characters that count as whitespace |
| ConfigFile.Config.ReadConfig | config.c:43-90 | the state after reading any text is that of its lines in turn on top of the defaults; without a file, the defaults and -1 |
| ConfigFile.Config.ParseVar | config.c:33-41 | one assignment; unknown names do nothing |
| ConfigFile.Config.WriteConfig | config.c:92-108 | the text written, line by line |
| ConfigLaws.LastAssignmentWins | config.c:33-85 | every variable ends with the value of the last line that names it, or as it was; comments, blank lines and unknown names do nothing |
| ConfigLaws.FileMeans | config.c:43-90 | the same for any text, on top of the defaults |
| ConfigLaws.DefaultsAre | config.c:47-58 | the default of every variable |
| ConfigLaws.LinesAre | config.c:64-69 | the lines of any text: put together they are the text, each ends at a newline, after 1023 characters, or at the end |
| ConfigSamples.TokenOf | config.c:67-85 | whitespace, a name, whitespace, a value, whitespace is an assignment of the value to the name |
| ConfigSamples.LoneWordAssigns | config.c:74-82 | a name alone on its line is an assignment of nothing, unless the text ends with it |
| ConfigSamples.SampleReads | config.c:43-90 | what a small file with tabs, a carriage return, a comment, text after a number, a sign, an unknown name and inner spaces reads as |
| ConfigSamples.SampleWrites | config.c:92-108 | two printed lines |
| ConfigSamples.SampleFloat | config.c:98 | a printed float |
| ConfigSamples.SampleString | config.c:99 | a printed `mod_file` |
| ConfigLaws.LinesOfConcat | config.c:67-99 | `fgets` takes printed lines apart where `fprintf` put them together |
| ConfigRoundTrip.ReadBack | config.c:43-108 | reading what was written gives every integer, every float as printed, and `mod_file` trimmed |
| ConfigRoundTrip.RoundTrip | config.c:43-108 | exactly when `mod_file`, and when everything, survives |
| ConfigRoundTrip.SpaceIsLost | config.c:79-99 | a `mod_file` that does not survive |
| ConfigRoundTrip.ReadTextReadable | config.c:36-85 | whatever the file, what is read fits its variables and `mod_file` holds no newline and no leading whitespace |
| ConfigRoundTrip.Normalisation | config.c:36-108 | for any file, writing and reading again loses at most whitespace at the end of `mod_file` that truncation left there, and doing it twice changes nothing more |
| Language.StepInStep | hooks/game.c:303-318 | each call keeps memory and file in step and the language in force, or sets it |
| Language.RunKeepsLanguage | hooks/game.c:303-318 | over any run of these two calls, restarts (main.c:104-107) included, memory and file agree on the language up to capping, and it is the one set last; languages 1 to 6 are stored as they were set |
| Language.RunStoresLanguage | hooks/game.c:303-318 | when the file at the start and every choice is one of the seven languages, memory and file hold exactly the one set last |
| Language.EnglishNotStored | hooks/game.c:303-318 | otherwise English can be set and not be stored |
| Language.StepKeepsRest | hooks/game.c:303-318 | no call changes any other variable |
| Language.Game.Start | main.c:104-107 | read the file, or write one with the defaults |
| Language.Game.GetLanguage | hooks/game.c:303-308 | returns the language in memory and changes nothing when it is one of 0 to 6; otherwise returns 0 and sets it to 0 in memory, not in the file |
| Language.Game.SetLanguage | hooks/game.c:310-318 | does nothing for the language in memory; otherwise sets and saves it |
| Pthreads.StepOwned | imports.c:90-230 | a call keeps "every word is unset or owns a live object of its own, and every live object is owned" without a fault if and only if it is legal: no initialisation of a materialised word, no wait with an unset mutex, unless memory runs out first |
| Pthreads.UseCalls | imports.c:117-205 | lock, unlock, signal and broadcast make exactly one call of their own library function, on the object in the word, and return its answer; without memory, none and -1 |
| Pthreads.WaitCalls | imports.c:216-230 | the same for the waits, with the object of the mutex word |
| Pthreads.DestroyCalls | imports.c:108-214 | an object is destroyed by the library once, freed, and its word cleared; a word without one is left alone; the answer is 0 |
| Pthreads.InitCallsLibrary | imports.c:90-189 | the library initialises the new object once; on its error the word and the heap are as before and the answer is -1 |
| Pthreads.RunOwned | imports.c:90-230 | every legal run from a fresh game has no use after free, no double free and no leak |
| Pthreads.InitLeaks | imports.c:90-189 | a second initialisation leaves the first object live and owned by no word |
| Pthreads.Wrappers.InitFake | imports.c:90-189 | a new object in the word, or -1 and nothing changed |
| Pthreads.Wrappers.MutexDestroyFake | imports.c:108-115 | destroys and frees an object once and clears the word; 0 and the static initialiser are left alone |
| Pthreads.Wrappers.MutexUseFake | imports.c:117-139 | lock and unlock: the object is created on first use, then the library is called on a live mutex |
| Pthreads.Wrappers.CondUseFake | imports.c:191-205 | the same for signal and broadcast |
| Pthreads.Wrappers.CondDestroyFake | imports.c:207-214 | destroys and frees an object once and clears the word |
| Pthreads.Wrappers.CondWaitFake | imports.c:216-230 | waits on a condition variable created on first use; faults in the library exactly if the mutex word is no live mutex and memory has not run out before, and keeps ownership either way |

## Left out

- Startup.Boot: asks for a loadable segment; of a file without any, `so_load` can succeed (`SoUtil.Loader.Load` covers it), but the run after it is not modelled. Nor is the run after it has read freed memory.
- Startup.RunMain: the directories, the file layer and the graphics set up between the lookups are not modelled; its stores must keep off the symbol and string tables.
- Startup.PatchAll: which functions are hooked, and the hooks that are installed for some configurations only, are a parameter; what the replacement functions do is not modelled.
- SoUtil.Loader.ExecuteInitArray: constructors that overwrite the file copy or the `.init_array` sections while these are walked are excluded, and so are allocations they make; cache flushing before them (so_util.c:65-67) is not modelled.
- SoUtil.Loader.Load: read errors and short reads of the file are not modelled; the file size must leave room for rounding up to a page; it is called once, as `main` does. That `malloc(prog_size)` (so_util.c:152) fails, which the code does not check, is not modelled.
- SoUtil.Loader.Resolve: asks that no relocation target overlaps the symbol, string and relocation tables; for a file that breaks this the code reads what it has patched.
- SoUtil.Loader.FindAddr: the fatal error is the answer None, its screen (error.c) is not modelled.
- ConfigRoundTrip.RoundTrip: floats are `real` numbers, with `%g` and `atof` as parameters; rounding to `float` is part of neither.
- ConfigFile.Config.ReadConfig: read errors are not modelled; integer and float variables are kept in maps by their names, where the C struct has a field for each.
- ConfigFile.Config.WriteConfig: assumes that the file can be opened and that writes succeed.
- Pthreads.StepOwned: calls run one after the other; two threads that use one word for the first time at once are not modelled, nor whether a mutex is recursive, blocking, or NULL arguments.
- Arm.Step: knows NOP and LDR (literal) to the program counter, and nothing else of the processor.
- Startup.RelativeConstructor: that the entry is called holds when its relocated value is not null.
- The semaphore, time, file status, memory and once wrappers of imports.c, and the contents of its table.
- hooks/openal.c, hooks/opengl.c, and everything in hooks/game.c but the language setting.
- The file system layer (fios.c), data checks, and the start of the game after the temporary copy is freed.
