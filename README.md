# Lockstep state exchange of the reference simulator

This project models the differential-testing glue of the RISC-V reference
simulator (`riscv/difftest.cc`): the layer through which a host process
drives the reference hart in lockstep with a device under test (DUT).

- **Register transfer.** `diff_get_regs` copies the hart's `XPR` registers
  and PC into the DUT's `diff_context_t`. `diff_set_regs` copies the other
  way, through the engine's `XPR.write`. Both go in index order and copy the
  PC last.
- **Direction dispatch.** `difftest_regcpy` runs a set for
  `DIFFTEST_TO_REF` and a get for any other direction value.
- **Image loading.** `diff_mem_init` opens the image and reads exactly
  `img_size` bytes. It then stores byte `i` at physical address
  `MBASE + i` through hart 0's MMU. `difftest_init` builds the one-hart
  machine, resolves hart "0" (`diff_init`) and then loads the image.

Layout:

- `words.dfy` (module `Words`) holds the integer widths at the boundary and
  the C++ conversions between them. The DUT's RV32 `word_t` is 32 bits and
  `sword_t` is `int32_t`. The engine's `reg_t` is 64 bits. A set computes
  `(reg_t)(sword_t)gpr[i]`, which is a sign extension. The PC assignment
  `state->pc = ctx->pc` is a zero extension. A get narrows to the low
  32 bits.
- `difftest.dfy` (module `Difftest`) holds the rest. It has specification
  functions for the register file and memory, with lemmas about them. It
  has classes for the state the source mutates:
  - `Dram` is the static `difftest_mem` region: the bytes that MMU stores
    reach. It is created once and shared by every machine.
  - `Hart` is `processor_t` plus `state_t`: the `XPR` array, `pc`, and the
    memory its MMU stores into.
  - `Sim` is the machine with its single hart.
  - `Context` is the DUT snapshot.
  - `Difftest` holds the file-level statics: `difftest_mem` and the
    pointers `s` and `p`. Its methods are the entry points.
- Each `Hart` keeps a ghost access log. The copy methods append each
  entry next to the access it records. Each copy method states the exact
  accesses it appends, which is how the model states the copy order, the
  "PC last" rule and "the other routine never runs".

Behaviour of the code worth noting:

- A set casts each word to `sword_t` before `XPR.write`, so it
  sign-extends. The PC is zero-extended, because it is assigned without a
  cast. A get truncates.
- A failed `difftest_init` leaves `s` (line 111) and `p` (line 45)
  assigned, so `DifftestInit` ends in `Ready()` on both outcomes, with
  memory untouched when the loader fails.
- `difftest_mem` (lines 26-27) is one static memory. A second
  `difftest_init` builds a new machine over it, so bytes stored by an
  earlier call stay unless the new image overwrites them.

## Model

| member | source | states |
|---|---|---|
| `Words.SignExtend` | riscv/difftest.cc:90 | `(reg_t)(sword_t)w` keeps the signed 32-bit value modulo 2^64, reads back as the same signed value when taken as 64-bit, and narrowing it gives `w` back |
| `Words.ZeroExtend` | riscv/difftest.cc:92 | assigning the 32-bit PC to the 64-bit `pc` leaves the upper half zero, and narrowing gives the PC back |
| `Words.Signed32` | riscv/difftest.cc:90 | the `int32_t` reading of a word lies in [-2^31, 2^31) and has the same bit pattern modulo 2^32 |
| `Words.Signed64` | riscv/difftest.cc:90 | the `int64_t` reading of a register lies in [-2^63, 2^63) and has the same bit pattern modulo 2^64 |
| `Words.Narrow` | riscv/difftest.cc:80 | `(uint32_t)x` gives the one 32-bit word congruent to the register value modulo 2^32 |
| `Difftest.XprWrite` | riscv/difftest.cc:90 | `XPR.write(i, v)` sets register i to v and leaves every other register alone; with a hard-wired zero register, a write to index 0 changes nothing |
| `Difftest.WriteRegs` | riscv/difftest.cc:88-91 | the in-order fold of `XPR.write(i, (sword_t)gpr[i])` over the first n indices keeps the register count, leaves every register from n upward untouched, and never changes a hard-wired register 0 |
| `Difftest.ReadRegs` | riscv/difftest.cc:78-81 | the get loop yields one word per register, each congruent to its register modulo 2^32 |
| `Difftest.WriteRegsAt` | riscv/difftest.cc:88-91 | after the first n iterations of the set loop, each register j < n holds the sign-extended `gpr[j]` (register 0 excepted when hard-wired), and every other register is unchanged |
| `Difftest.SetThenGet` | riscv/difftest.cc:75-93 | a set followed by a get returns every word of the snapshot unchanged, except a hard-wired register 0, which reads back as 0 |
| `Difftest.Transfer` | riscv/difftest.cc:78-92 | one copy makes NUM_REGS + 1 accesses, and the last one is the PC |
| `Difftest.TransferOrder` | riscv/difftest.cc:78-92 | one copy touches every register in strictly increasing index order, then touches the PC once and last, and either only reads or only writes |
| `Difftest.ReadImage` | riscv/difftest.cc:51-61 | opening fails exactly when the file cannot be opened (`None`); reading fails exactly when it opens and holds fewer than `img_size` bytes; otherwise the buffer is the file's first `img_size` bytes |
| `Difftest.StoreImage` | riscv/difftest.cc:64-67 | after the in-order byte stores, an address is present exactly when it was present before or lies in [base, base + size) |
| `Difftest.StoreImageWindow` | riscv/difftest.cc:63-67 | after the store loop, each address a in [base, base + size) holds image byte a - base, and every address outside that window keeps its old presence and contents |
| `Difftest.Dram.Store` | riscv/difftest.cc:66 | `store<uint8_t>` writes one byte at one physical address and changes no other address |
| `Difftest.Hart.Write` | riscv/difftest.cc:90 | the hart's register file after `XPR.write` is `XprWrite` of its old contents, and a hard-wired register 0 stays zero |
| `Difftest.Sim.constructor` | riscv/difftest.cc:111-116 | a new machine has exactly one fresh hart at reset, built over the given shared memory, whose contents it does not touch |
| `Difftest.Difftest.constructor` | riscv/difftest.cc:26-41 | static initialisation creates one fresh, unwritten `difftest_mem`, and the pointers `s` and `p` start null |
| `Difftest.Difftest.DiffInit` | riscv/difftest.cc:43-47 | `p` becomes the machine's hart "0", after which the layer is ready |
| `Difftest.Difftest.DiffMemInit` | riscv/difftest.cc:49-68 | it passes exactly when the file opens and holds at least `img_size` bytes; an open failure is reported as such; on either failure memory is unchanged; on success memory is the in-order store of the first `img_size` bytes at `MBASE`, with exactly the window `[MBASE, MBASE + img_size)` written |
| `Difftest.Difftest.DiffGetRegs` | riscv/difftest.cc:75-83 | the snapshot gets every register narrowed and the narrowed PC; the hart's registers and PC are unchanged; the access log gains registers 0..31 read in order, then a PC read |
| `Difftest.Difftest.DiffSetRegs` | riscv/difftest.cc:85-93 | the register file becomes the in-order `XPR.write` of every sign-extended snapshot word; the PC becomes the zero-extended snapshot PC; the snapshot is unchanged; the log gains registers 0..31 written in order, then a PC write |
| `Difftest.Difftest.DifftestInit` | riscv/difftest.cc:95-119 | builds a fresh one-hart machine over the shared `difftest_mem`, resolves hart "0", then loads the image through that hart's MMU, with `DiffMemInit`'s outcomes relative to the memory as earlier calls left it; registers and PC keep their reset values |
| `Difftest.Difftest.DifftestRegcpy` | riscv/difftest.cc:121-131 | `DIFFTEST_TO_REF` gives exactly the set effect and a write-only log; every other direction value gives exactly the get effect and a read-only log |
| `Difftest.Difftest.RegcpyRoundTrip` | riscv/difftest.cc:121-131 | a `DIFFTEST_TO_REF` copy followed by a `DIFFTEST_TO_DUT` copy gives back the sent PC and every sent register, except a hard-wired register 0, which reads 0 |

## Left out

- `diff_step` and `difftest_exec` (riscv/difftest.cc:70-73, 133-136) only forward to the engine's `step(n)`. Instruction semantics are not part of this model.
- Construction of `cfg_t` and `sim_t` (riscv/difftest.cc:24-37, 97-116) is left out: the ISA string, privilege, the debug-module configuration, and the plugin and HTIF vectors. The model keeps only "one hart, over the one static memory". Reset values come from the engine, whose code is not part of this model: registers start at 0 and the PC is the parameter `resetVector`.
- `XPR.write` is engine code. The model keeps the `zero_reg` flag of the engine's register file as `Hart.zeroReg`, and `DifftestInit` builds the hart with a hard-wired zero register.
- MMU internals behind `mmu->store<uint8_t>` are left out: address translation, access faults and caches. For example, a store outside the DRAM region would trap in the engine. A store is a map update, and an address never written is absent from the map.
- File I/O through `std::ifstream` is replaced by an `Option<seq<u8>>`, where `None` means the file cannot be opened, whether it is missing or unreadable.
- Difftest.Difftest.DiffMemInit: the buffer is allocated at line 57, before the read check. An `img_size` too large to allocate throws `std::bad_alloc` or `std::length_error` there, whatever the file holds; the model does not model allocation and reports `ReadError` for a file shorter than `img_size` (or `OpenError` if it cannot be opened) instead. Memory is untouched either way. Addresses are unbounded naturals: the 64-bit wrap of `MBASE + i` is not modelled, because no readable image reaches that size.
- The `void *` context cast, the `__EXPORT` calling convention, and null dereferences of `s`, `p` and `state` before initialization are left out. "Initialized" is the precondition `Ready()`. The `state` pointer is the `state_t` of hart `p`, so it is not a separate field.
- The code has no thread safety or concurrency, so none is modelled.
