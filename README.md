# gcov runtime and RISC-V syscall return glue, modelled in Dafny

This project models two pieces of NuttX.

**The gcov runtime** (`libs/libbuiltin/libgcc/gcov.c`) is the support library behind GCC's
`-fprofile-arcs` instrumentation. Each instrumented object file registers a `gcov_info`
record (version, stamp, checksum, file name, per-kind `merge` flags, and the functions with
their counter arrays) on a linked list headed by `__gcov_info_start`, through `__gcov_init`.
`__gcov_reset` walks that list and zeroes the live counters.

`gcov_convert` serialises one record in the `.gcda` layout. It emits:
- a file header;
- a function record per function;
- one counter record per merged counter kind, holding that kind's values.

It runs in two passes. With a NULL buffer it only counts bytes; with a buffer it also
stores them. `__gcov_info_to_gcda` sizes with the first pass, allocates, then converts.

`gcov_process_path` builds the output path. It takes the components of `GCOV_PREFIX`,
then the object's path with the first `strip` components dropped (or only its file name),
all in a 64-entry token table. It then checks and creates every directory on the way.

**The RISC-V supervisor syscall return**
(`arch/risc-v/src/common/supervisor/riscv_perform_syscall.c`) is a small state machine
over `CURRENT_REGS` and `g_running_tasks[]`:
- it publishes the caller's registers and runs the handler;
- when the handler switched context, it records the new running task, restores the
  critical section and hands back the new register set;
- it always leaves `CURRENT_REGS` NULL.

Modules:

- `GcovData` (`gcov_data.dfy`): the records.
  - `CtrInfo` and `FnInfo` are values: GCC emits them and they never change.
  - `GcovInfo` is a class, because its `next` link is assigned at run time.
  - The counters are `array<uint64>`, updated in place.
  - `GCOV_COUNTERS` is `|merge|`.
  - `Contents(info)` is what the arrays hold now, as a value.
  - `MergedBefore` maps a merged kind to the `ctrs` slot it uses.
- `GcovLayout` (`gcov_layout.dfy`): the `.gcda` layout as values.
  - `Records` is the sequence of 32-bit words and 64-bit counters `gcov_convert` stores.
  - `Image` is the bytes of those stores, in a given byte order.
  - `ConvertedSize` is the closed-form size.
  - The read-back lemmas say what a reader finds at each record's offset.
- `GcovConvert` (`gcov_convert.dfy`): `dump_unsigned`, `dump_counter`, `gcov_convert`
  (split along its loops) and `__gcov_info_to_gcda`. Each is proved against `Records`
  and `Image`.
- `GcovList` (`gcov_list.dfy`): `__gcov_init` and `__gcov_reset`, as methods on a
  `Registry` that holds `__gcov_info_start`. A ghost sequence `infos` follows the list in
  link order. The reset is specified cell by cell: an element of a counter array becomes 0
  exactly when it is one of the first `num` values of a merged slot, and keeps its value
  otherwise.
- `GcovPath` (`gcov_path.dfy`): `gcov_process_path`.
  - `Tokens` models strtok on `/`.
  - `Planned` gives the components of the new path and `Slashed` joins them with `/`.
  - `Dirs` lists the directories checked, in order.
  - The token table is an `array<Option<string>>` of 64 entries, in which `None` is NULL.
- `RiscvSyscall` (`riscv_syscall.dfy`): `riscv_perform_syscall` as a method of a
  `Supervisor` class holding `CURRENT_REGS` and `g_running_tasks`. The collaborators are
  methods that may leave any value in `CURRENT_REGS`; the only constraint on their results
  is that `this_cpu` returns a valid CPU index. Each appends an event to a ghost trace, and
  the contract is stated over that trace.

The model follows the code of `riscv_perform_syscall` in three places where the code is
narrower than a general description of this trap-return protocol would suggest:
- After `addrenv_switch` the slot is compared with `regs` a second time (line 64). The
  switch bookkeeping depends on that second comparison, not on the first.
- `addrenv_switch(NULL)` is passed NULL, and its result is ignored: there is no panic path.
- `g_running_tasks[cpu]` is written before `restore_critical_section`. If the slot changes
  again during that call, the result is the new slot value, but the registry still names the
  task resolved before the call. So the registry need not match the returned register set.

The model takes three things as parameters:
- the native byte order of the stores (`ByteOrder`, little or big endian);
- `GCOV_12_FORMAT` (`gcov12`);
- `CONFIG_ARCH_ADDRENV` (`addrenv`).

The file system seen by `access` and `mkdir` is two functions of the directory name:
`dirExists` and `mkdirErrno`, where 0 means success. The failure of `lib_malloc` is the
flag `allocFails`.

## Model

| member | source | states |
|---|---|---|
| GcovConvert.DumpUnsigned | libs/libbuiltin/libgcc/gcov.c:115-123 | The offset grows by exactly 4. With a buffer, the 4 bytes of v in the given order replace bytes [off, off+4); the rest of the buffer is unchanged. |
| GcovConvert.DumpCounter | libs/libbuiltin/libgcc/gcov.c:105-113 | The offset grows by exactly 8. With a buffer, the 8 bytes of v replace bytes [off, off+8); the rest is unchanged. |
| GcovConvert.Convert | libs/libbuiltin/libgcc/gcov.c:125-182 | Both passes return ConvertedSize of the info's contents. With a buffer at least that large: bytes [0, size) become exactly the .gcda image and every byte from size on is unchanged. With NULL nothing is written. |
| GcovConvert.ConvertHeader | libs/libbuiltin/libgcc/gcov.c:135-143 | Stores the magic, version and stamp (and, with GCOV_12_FORMAT, the checksum) as the next stores of the image, and keeps the bytes past them. |
| GcovConvert.ConvertFunctions | libs/libbuiltin/libgcc/gcov.c:147-179 | Stores the records of every function, in index order, as the remaining stores of the image. |
| GcovConvert.ConvertFunction | libs/libbuiltin/libgcc/gcov.c:149-157 | Stores the five words of one function record, then its counter records, as the next stores of the image. |
| GcovConvert.ConvertKinds | libs/libbuiltin/libgcc/gcov.c:159-178 | Stores the counter records of the merged kinds in increasing kind order. The slot index advances only on merged kinds, so the j-th merged kind uses `ctrs[j]`. |
| GcovConvert.ConvertCounters | libs/libbuiltin/libgcc/gcov.c:167-175 | Stores a counter record as the next stores: GCOV_TAG_FOR_COUNTER(k), the length num*2*GCOV_UNIT_SIZE, then the values. |
| GcovConvert.ConvertValues | libs/libbuiltin/libgcc/gcov.c:172-175 | Stores the first num values of the slot, in index order, as the next stores. |
| GcovConvert.InfoToGcda | libs/libbuiltin/libgcc/gcov.c:435-447 | The sized pass and the writing pass agree: the allocated buffer has exactly the size of the first pass and holds exactly the image. No buffer exists exactly when the allocation fails. |
| GcovLayout.ConvertedSizeFormula | libs/libbuiltin/libgcc/gcov.c:133-181 | The image is 12 bytes (16 with GCOV_12_FORMAT) plus, per function, 20 bytes plus 8 + 8*num per merged kind. It is as long as the sizes of its stores. |
| GcovLayout.HeaderAt | libs/libbuiltin/libgcc/gcov.c:137-143 | Reading the image back, the words at offsets 0, 4 and 8 are GCOV_DATA_MAGIC (0x67636461), version and stamp. With GCOV_12_FORMAT, offset 12 holds the checksum. |
| GcovLayout.FunctionRecordAt | libs/libbuiltin/libgcc/gcov.c:147-157 | At the offset the size formula gives for function i, the image holds GCOV_TAG_FUNCTION, GCOV_TAG_FUNCTION_LENGTH (12 or 3), ident, lineno_checksum and cfg_checksum. |
| GcovLayout.CounterRecordAt | libs/libbuiltin/libgcc/gcov.c:159-177 | For each merged kind k of function i, the record at its formula offset holds the tag, the length and every value of the slot MergedBefore(k), in order. |
| GcovLayout.TagForCounterDistinct | libs/libbuiltin/libgcc/gcov.c:44-47 | Kinds below 2^15 get distinct 32-bit tags. The sum 0x01a10000 + k*2^17 stays below 2^32 exactly when k <= 0x7f2f, and then the tag is exactly that sum. |
| GcovLayout.DecodeEncode | libs/libbuiltin/libgcc/gcov.c:109 | A load of the bytes a store wrote gives the stored value back, in either byte order. |
| GcovData.MergedBeforeIncreases | libs/libbuiltin/libgcc/gcov.c:159-177 | The ctrs slot of a merged kind is below those of later merged kinds and below the number of merged kinds. |
| GcovData.NthMerged | libs/libbuiltin/libgcc/gcov.c:159-177 | The j-th ctrs slot belongs to a merged kind k, the one with exactly j merged kinds below it. |
| GcovList.Memset | libs/libbuiltin/libgcc/gcov.c:400 | The first num values become 0; the rest of the array is unchanged. |
| GcovList.ResetFunction | libs/libbuiltin/libgcc/gcov.c:391-402 | The first num values of each merged slot of the function become 0; every other element of its arrays is unchanged. |
| GcovList.ResetInfo | libs/libbuiltin/libgcc/gcov.c:389-403 | The same, over every function of one info. |
| GcovList.ResetListed | libs/libbuiltin/libgcc/gcov.c:387-404 | Among all listed counter arrays, exactly the merged cells of one info become 0. |
| GcovList.Registry.Init | libs/libbuiltin/libgcc/gcov.c:304-308 | The new head is info and its next is the old head, so the list is in reverse registration order. The list stays linked and free of repeats. |
| GcovList.PushDistinct | libs/libbuiltin/libgcc/gcov.c:304-308 | Pushing a record keeps the list free of repeats exactly when the record was not already listed. |
| GcovList.Registry.Reset | libs/libbuiltin/libgcc/gcov.c:380-405 | Every counter of every merged kind of every function of every listed info becomes 0; every other element of the counter arrays is unchanged; the list is untouched. |
| GcovList.Registry.ResetWalk | libs/libbuiltin/libgcc/gcov.c:387-404 | Following next from the head, clears exactly the merged cells of the listed infos, leaves every other counter element as it was, and keeps the list valid. |
| GcovList.InfoCovered | libs/libbuiltin/libgcc/gcov.c:387-402 | Every live value of a merged slot of a listed info is among the cells the walk clears. |
| GcovPath.TokensOfSlashed | libs/libbuiltin/libgcc/gcov.c:197-202 | Splitting "/c0/c1/.../cn" with strtok on '/' gives back exactly the components c0..cn. |
| GcovPath.TokensAreComponents | libs/libbuiltin/libgcc/gcov.c:197-202 | Every token strtok returns is non-empty and holds no '/'. |
| GcovPath.PlannedShape | libs/libbuiltin/libgcc/gcov.c:213-236 | The new path's components start with the prefix and end with the file name. With strip <= 0 all path components are kept. With strip >= their number only the file name is. |
| GcovPath.DirsArePrefixes | libs/libbuiltin/libgcc/gcov.c:243-255 | Each checked directory is a leading part of the final path that names its first i+1 components. |
| GcovPath.StorePrefix | libs/libbuiltin/libgcc/gcov.c:197-202 | The prefix components fill the table from slot 0, and the count is their number. |
| GcovPath.StoreKept | libs/libbuiltin/libgcc/gcov.c:213-229 | -ENAMETOOLONG happens exactly when prefix plus kept components exceed the 64 slots. Otherwise the table holds them in order, and filename is the last path component. |
| GcovPath.StorePath | libs/libbuiltin/libgcc/gcov.c:213-239 | With a bound check on every store, the table receives the planned components exactly when they leave room for the terminator. |
| GcovPath.MakeDirs | libs/libbuiltin/libgcc/gcov.c:243-259 | Success holds exactly when every proper leading directory exists or is created. Then the path is "/" joined over all components, the directories are checked in order, and mkdir runs on exactly the missing ones. A failure stops at the first failing mkdir with its errno. |
| GcovPath.ProcessPath | libs/libbuiltin/libgcc/gcov.c:184-260 | Results: (1) -EINVAL exactly when the path has no component; (2) -ENAMETOOLONG exactly when the planned components do not fit the 64-entry table with its terminator; (3) in both, new_path is untouched and no directory is touched; (4) success exactly when every directory is creatable, and new_path then splits back into the planned components; (5) otherwise -errno of the first failing mkdir. |
| GcovPath.AsWrittenTerminator | libs/libbuiltin/libgcc/gcov.c:213-239 | As written, the terminator goes to slot \|planned\| whenever the loop's own bound check passes. |
| GcovPath.TerminatorPastTable | libs/libbuiltin/libgcc/gcov.c:233-239 | As written, prefix "", strip 0 and a path of 64 components store NULL at tokens[64]. The same call to ProcessPath gives -ENAMETOOLONG. |
| RiscvSyscall.Supervisor.RecordSwitch | arch/risc-v/src/common/supervisor/riscv_perform_syscall.c:70-84 | Emits exactly four events: this_cpu, current_task(cpu), the write g_running_tasks[cpu] = tcb (no other entry changes), and restore_critical_section(tcb, cpu). The result is CURRENT_REGS as re-read after that call. |
| RiscvSyscall.Supervisor.PerformSyscall | arch/risc-v/src/common/supervisor/riscv_perform_syscall.c:38-90 | The handler is entered with CURRENT_REGS == regs, and CURRENT_REGS is NULL on return. The events after the handler satisfy AfterHandler: if the slot still holds regs after the handler: nothing else runs, regs is returned and g_running_tasks is unchanged. With CONFIG_ARCH_ADDRENV and a changed slot, addrenv_switch runs once, next. After it the slot is compared again: if it differs, the switch is recorded as Switched (the contract of RecordSwitch) states; otherwise nothing else runs and regs is returned. |

## Left out

- gcov_write_file, __gcov_dump, __gcov_filename_to_gcfn, __gcov_merge_add and __gcov_exit:
  they are file I/O, environment reads, strdup, syslog or empty bodies.
- InfoToGcda: the filename_fn, dump_fn and allocate_fn callbacks and lib_free are not
  modelled; the model returns the buffer and size that dump_fn would receive.
- DumpUnsigned, DumpCounter: the host byte order of the native unaligned stores is a
  parameter, not a claim about any host.
- Convert: `pos` is a `size_t` in the source; the model does not wrap it at SIZE_MAX
  (2^32 on 32-bit targets, 2^64 on 64-bit ones), so an image of that size or more is not
  modelled.
- Registry.Init: requires that info is not already listed. In the source, a second
  `__gcov_init` of a listed info makes the list cyclic, after which the list walks of
  `__gcov_reset` and `__gcov_dump` never end; PushDistinct shows the list keeps no repeats
  exactly under this condition, and ResetWalk's termination rests on it.
- ProcessPath: requires at most 64 prefix components. The prefix loop stores without a
  bound check, so a longer prefix overruns the table; that case is not modelled.
- ProcessPath: strtok's in-place writing of NUL bytes into `prefix` and `path` is not
  modelled; the tokens are values.
- ProcessPath: the `len` argument is unused by the source and new_path's PATH_MAX bound is
  not modelled; new_path is an unbounded string.
- ProcessPath: access and mkdir see a fixed snapshot of the file system (`dirExists`,
  `mkdirErrno`), so a directory made by one mkdir is not seen by later access calls.
  This does not matter here, because every checked directory is distinct.
- ProcessPath: the negative errno of step (5) is returned as `MkdirFailed(errno)` with a
  positive errno.
- PerformSyscall: what riscv_swint, addrenv_switch, this_cpu, current_task and
  restore_critical_section do internally is not modelled, beyond their effect on
  CURRENT_REGS and their results.
- PerformSyscall: the multi-CPU critical-section lock and concurrent CPUs are not
  modelled. CURRENT_REGS is one per-CPU field.
- include/nuttx/nxglib.h holds only declarations and is not part of this model.

## Findings

| source | as written | input that shows it | evidently intended | confidence | as-written member | corrected member |
|---|---|---|---|---|---|---|
| libs/libbuiltin/libgcc/gcov.c:233-239 | The file-name fallback store and the NULL terminator store have no bound check. After the path loop has exactly filled the 64 entries, `tokens[64] = NULL` writes past the table. | Prefix "", strip 0, and a path of 64 components: the loop stores 64 tokens, then the terminator goes to tokens[64]. A 64-component prefix with the file-name fallback overruns the same way. | Return -ENAMETOOLONG when the planned components plus the terminator do not fit in the 64 entries. | not executed | GcovPath.TerminatorPastTable | GcovPath.ProcessPath |
