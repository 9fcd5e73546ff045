/** The lockstep state-exchange layer of the reference simulator
    (riscv/difftest.cc): loading a flat image into the reference machine's
    memory, and copying the general-purpose registers and the program
    counter between a DUT-owned `diff_context_t` and the reference hart. */
module Difftest {
  import opened Words

  /** Registers in a `diff_context_t` and in the hart's `XPR` file (RV32I). */
  const NUM_REGS: nat := 32
  /** Physical address that receives the first byte of the image. */
  const MBASE: nat := 0x8000_0000

  /** The two named values of the `DIRECTION` enumeration. */
  const DIFFTEST_TO_DUT: int := 0
  const DIFFTEST_TO_REF: int := 1

  datatype Option<T> = None | Some(value: T)

  /** The two `std::runtime_error`s the loader throws. */
  datatype LoadError =
    | OpenError  // "Failed to open image file"
    | ReadError  // "Failed to read image file"

  datatype Result<T> = Ok(value: T) | Err(error: LoadError)

  /** How a call that may throw ends: normally, or with the error it threw. */
  datatype Outcome = Pass | Fail(error: LoadError)

  /** One access to the hart's architectural state during a register copy. */
  datatype Access = Gpr(write: bool, index: nat) | Pc(write: bool)

  // ---------------------------------------------------------------------
  // Register transfer, as functions on the register file's contents
  // ---------------------------------------------------------------------

  /** The engine's `XPR.write(i, v)`: register `i` becomes `v`, except that
      a file with a hard-wired zero register ignores writes to index 0. */
  function XprWrite(rf: seq<u64>, i: nat, v: u64, zeroReg: bool): (r: seq<u64>)
    requires i < |rf|
    ensures |r| == |rf|
    ensures r[i] == (if zeroReg && i == 0 then rf[i] else v)
    ensures forall j :: 0 <= j < |rf| && j != i ==> r[j] == rf[j]
  {
    if zeroReg && i == 0 then rf else rf[i := v]
  }

  /** The register file after `XPR.write(i, (sword_t)gpr[i])` for
      i = 0, 1, ..., n - 1, in that order. */
  function WriteRegs(rf: seq<u64>, gpr: seq<u32>, n: nat, zeroReg: bool): (r: seq<u64>)
    requires n <= |gpr| && n <= |rf|
    ensures |r| == |rf|
    ensures forall j :: n <= j < |rf| ==> r[j] == rf[j]
    ensures zeroReg && |rf| > 0 ==> r[0] == rf[0]
    decreases n
  {
    if n == 0 then rf
    else XprWrite(WriteRegs(rf, gpr, n - 1, zeroReg), n - 1, SignExtend(gpr[n - 1]), zeroReg)
  }

  /** The words `ctx->gpr[i] = XPR[i]` stores: one per register, each
      congruent to its register modulo 2^32. */
  function ReadRegs(rf: seq<u64>): (r: seq<u32>)
    ensures |r| == |rf|
    ensures forall i :: 0 <= i < |rf| ==> (rf[i] as int - r[i] as int) % TWO_TO_32 == 0
  {
    seq(|rf|, i requires 0 <= i < |rf| => Narrow(rf[i]))
  }

  /** Copy completeness of the set loop: after the first n writes, each of
      those registers holds its sign-extended word (index 0 excepted when
      hard-wired), and every other register is as it was. */
  lemma {:induction false} WriteRegsAt(rf: seq<u64>, gpr: seq<u32>, n: nat, zeroReg: bool, j: nat)
    requires n <= |gpr| && n <= |rf| && j < |rf|
    ensures WriteRegs(rf, gpr, n, zeroReg)[j] ==
              if j < n && !(zeroReg && j == 0) then SignExtend(gpr[j]) else rf[j]
  {
    if n > 0 {
      WriteRegsAt(rf, gpr, n - 1, zeroReg, j);
    }
  }

  /** Set-then-get round trip on values: writing a snapshot with sign
      extension and reading it back with narrowing gives the snapshot
      again, except that a hard-wired register 0 reads as zero. */
  lemma SetThenGet(rf: seq<u64>, gpr: seq<u32>, zeroReg: bool)
    requires |rf| == |gpr|
    requires zeroReg && |rf| > 0 ==> rf[0] == 0
    ensures |ReadRegs(WriteRegs(rf, gpr, |gpr|, zeroReg))| == |gpr|
    ensures forall i :: 0 <= i < |gpr| ==>
              ReadRegs(WriteRegs(rf, gpr, |gpr|, zeroReg))[i] == if zeroReg && i == 0 then 0 else gpr[i]
  {
    forall i | 0 <= i < |gpr|
      ensures ReadRegs(WriteRegs(rf, gpr, |gpr|, zeroReg))[i] == if zeroReg && i == 0 then 0 else gpr[i]
    {
      WriteRegsAt(rf, gpr, |gpr|, zeroReg, i);
    }
  }

  /** The accesses one register copy makes: every register in index order,
      then the program counter. */
  function Transfer(write: bool): (t: seq<Access>)
    ensures |t| == NUM_REGS + 1 && t[NUM_REGS] == Pc(write)
  {
    seq(NUM_REGS, i requires 0 <= i => Gpr(write, i)) + [Pc(write)]
  }

  /** A copy touches registers in strictly increasing index order, touches
      every one of them, touches the program counter exactly once and
      last, and only reads (or only writes). */
  lemma TransferOrder(write: bool)
    ensures |Transfer(write)| == NUM_REGS + 1
    ensures forall a, b :: 0 <= a < b < NUM_REGS ==>
              Transfer(write)[a].Gpr? && Transfer(write)[b].Gpr? &&
              Transfer(write)[a].index < Transfer(write)[b].index
    ensures forall i :: 0 <= i < NUM_REGS ==> Gpr(write, i) in Transfer(write)
    ensures Transfer(write)[NUM_REGS] == Pc(write)
    ensures forall k :: 0 <= k < |Transfer(write)| ==> Transfer(write)[k].write == write
  {
    forall i | 0 <= i < NUM_REGS ensures Gpr(write, i) in Transfer(write) {
      assert Transfer(write)[i] == Gpr(write, i);
    }
  }

  // ---------------------------------------------------------------------
  // Image loading, as functions on the file and the memory
  // ---------------------------------------------------------------------

  /** Opening the image and reading `imgSize` bytes into a buffer: fails
      when the file cannot be opened, fails when it holds fewer than
      `imgSize` bytes, and otherwise yields its first `imgSize` bytes. */
  function ReadImage(file: Option<seq<u8>>, imgSize: nat): (r: Result<seq<u8>>)
    ensures r == Err(OpenError) <==> file.None?
    ensures r == Err(ReadError) <==> file.Some? && |file.value| < imgSize
    ensures r.Ok? ==>
              file.Some? && |r.value| == imgSize &&
              forall i :: 0 <= i < imgSize ==> r.value[i] == file.value[i]
  {
    if file.None? then Err(OpenError)
    else if |file.value| < imgSize then Err(ReadError)
    else Ok(file.value[..imgSize])
  }

  /** Memory after `store(base + i, buf[i])` for i = 0, 1, ..., |buf| - 1,
      in that order. */
  function StoreImage(mem: map<nat, u8>, base: nat, buf: seq<u8>): (r: map<nat, u8>)
    ensures forall a :: a in r <==> a in mem || base <= a < base + |buf|
    decreases |buf|
  {
    if buf == [] then mem
    else StoreImage(mem, base, buf[..|buf| - 1])[base + |buf| - 1 := buf[|buf| - 1]]
  }

  /** The image occupies exactly [base, base + |buf|), address a holding
      byte a - base, and every address outside that window keeps its old
      contents. */
  lemma {:induction false} StoreImageWindow(mem: map<nat, u8>, base: nat, buf: seq<u8>)
    ensures forall a :: base <= a < base + |buf| ==>
              a in StoreImage(mem, base, buf) && StoreImage(mem, base, buf)[a] == buf[a - base]
    ensures forall a :: a < base || base + |buf| <= a ==>
              (a in StoreImage(mem, base, buf) <==> a in mem) &&
              (a in mem ==> StoreImage(mem, base, buf)[a] == mem[a])
  {
    if buf != [] {
      var init := buf[..|buf| - 1];
      StoreImageWindow(mem, base, init);
      assert forall i :: 0 <= i < |init| ==> init[i] == buf[i];
    }
  }

  // ---------------------------------------------------------------------
  // The reference machine and the DUT's register snapshot
  // ---------------------------------------------------------------------

  /** The DRAM region `mem_t` of the static `difftest_mem`, as the physical
      bytes a hart's MMU stores reach. Addresses never written read as the
      engine's default contents and are absent from the map. */
  class Dram {
    var bytes: map<nat, u8>

    /** `new mem_t(MSIZE)`: nothing written yet. */
    constructor ()
      ensures bytes == map[]
    {
      bytes := map[];
    }

    /** `mmu->store<uint8_t>(addr, b)` as it lands in this memory. */
    method Store(addr: nat, b: u8)
      modifies this
      ensures bytes == old(bytes)[addr := b]
    {
      bytes := bytes[addr := b];
    }
  }

  /** Hart "0": its `processor_t` (whose MMU stores into `dram`) and its
      `state_t` (the `XPR` register file and the program counter). */
  class Hart {
    const xpr: array<u64>
    var pc: u64
    const zeroReg: bool
    const dram: Dram
    /** For the proofs only: the accesses register copies made to this
        state. The copy methods append each entry by hand, next to the
        access it records, so the order facts about copies rest on those
        statements sitting beside the accesses. */
    ghost var log: seq<Access>

    ghost predicate Valid()
      reads this, xpr
    {
      xpr.Length == NUM_REGS && (zeroReg ==> xpr[0] == 0)
    }

    constructor (zeroReg: bool, resetVector: u64, dram: Dram)
      ensures Valid() && fresh(xpr)
      ensures this.zeroReg == zeroReg && this.dram == dram
      ensures forall i :: 0 <= i < NUM_REGS ==> xpr[i] == 0
      ensures pc == resetVector && log == []
    {
      xpr := new u64[NUM_REGS](_ => 0);
      pc := resetVector;
      this.zeroReg := zeroReg;
      this.dram := dram;
      log := [];
    }

    /** `XPR.write(i, v)`. */
    method Write(i: nat, v: u64)
      requires Valid() && i < NUM_REGS
      modifies xpr
      ensures Valid()
      ensures xpr[..] == XprWrite(old(xpr[..]), i, v, zeroReg)
    {
      if !(zeroReg && i == 0) {
        xpr[i] := v;
      }
    }
  }

  /** A `sim_t` configured with exactly one hart. */
  class Sim {
    const hart: Hart

    /** Construction over the given memory (every machine gets the same
        static `difftest_mem`, whose contents construction does not touch)
        with one fresh hart at reset; `zeroReg` is the register file's
        hard-wired-zero setting and `resetVector` the engine's reset PC. */
    constructor (zeroReg: bool, resetVector: u64, dram: Dram)
      ensures fresh(hart) && fresh(hart.xpr) && hart.Valid()
      ensures hart.dram == dram && hart.zeroReg == zeroReg
      ensures forall i :: 0 <= i < NUM_REGS ==> hart.xpr[i] == 0
      ensures hart.pc == resetVector && hart.log == []
    {
      hart := new Hart(zeroReg, resetVector, dram);
    }
  }

  /** The DUT's `diff_context_t`: NUM_REGS words, then the PC. */
  class Context {
    const gpr: array<u32>
    var pc: u32

    ghost predicate Valid() {
      gpr.Length == NUM_REGS
    }

    constructor ()
      ensures Valid() && fresh(gpr)
    {
      gpr := new u32[NUM_REGS](_ => 0);
      pc := 0;
    }
  }

  // ---------------------------------------------------------------------
  // The file-level state and the exported entry points
  // ---------------------------------------------------------------------

  /** The translation unit's statics: the memory `difftest_mem`, created
      once and handed to every machine, and the pointers `s` (the machine)
      and `p` (its hart "0"; the `state` pointer is this hart's `state_t`),
      which are null until `difftest_init` runs. */
  class Difftest {
    const dram: Dram
    var s: Sim?
    var p: Hart?

    /** `difftest_init` has run: the machine exists, `p` is its hart "0",
        and that hart stores into `difftest_mem`. */
    ghost predicate Ready()
      reads this, s, p, if p == null then {} else {p.xpr}
    {
      s != null && p == s.hart && p.Valid() && p.dram == dram
    }

    /** Static initialisation: a fresh, unwritten `difftest_mem`, null pointers. */
    constructor ()
      ensures fresh(dram) && dram.bytes == map[]
      ensures s == null && p == null
    {
      dram := new Dram();
      s := null;
      p := null;
    }

    /** `sim_t::diff_init`: resolve hart "0" and its state. */
    method DiffInit()
      requires s != null && s.hart.Valid() && s.hart.dram == dram
      modifies this`p
      ensures Ready() && p == s.hart
    {
      p := s.hart;
    }

    /** `sim_t::diff_mem_init`: read `imgSize` bytes of the image and store
        byte i at MBASE + i through the hart's MMU. Both failures are
        detected before the first store. */
    method DiffMemInit(file: Option<seq<u8>>, imgSize: nat) returns (r: Outcome)
      requires Ready()
      modifies dram
      ensures r == Pass <==> file.Some? && |file.value| >= imgSize
      ensures r == Fail(OpenError) <==> file.None?
      ensures r == Fail(ReadError) <==> file.Some? && |file.value| < imgSize
      ensures r.Fail? ==> dram.bytes == old(dram.bytes)
      ensures r.Pass? ==> dram.bytes == StoreImage(old(dram.bytes), MBASE, file.value[..imgSize])
      ensures r.Pass? ==> forall a :: MBASE <= a < MBASE + imgSize ==>
                a in dram.bytes && dram.bytes[a] == file.value[a - MBASE]
      ensures r.Pass? ==> forall a :: a < MBASE || MBASE + imgSize <= a ==>
                (a in dram.bytes <==> a in old(dram.bytes)) &&
                (a in old(dram.bytes) ==> dram.bytes[a] == old(dram.bytes)[a])
    {
      var read := ReadImage(file, imgSize);
      if read.Err? {
        return Fail(read.error);
      }
      var buf := read.value;
      var mmu := p.dram;
      for i := 0 to imgSize
        invariant mmu.bytes == StoreImage(old(mmu.bytes), MBASE, buf[..i])
      {
        assert buf[..i + 1][..i] == buf[..i];
        mmu.Store(MBASE + i, buf[i]);
      }
      assert buf[..imgSize] == buf;
      StoreImageWindow(old(dram.bytes), MBASE, buf);
      forall a | MBASE <= a < MBASE + imgSize
        ensures a in dram.bytes && dram.bytes[a] == file.value[a - MBASE]
      {
        assert buf[a - MBASE] == file.value[a - MBASE];
      }
      r := Pass;
    }

    /** `sim_t::diff_get_regs`: every register, narrowed, into the
        snapshot in index order, then the PC; the hart is only read. */
    method DiffGetRegs(ctx: Context)
      requires Ready() && ctx.Valid()
      modifies ctx, ctx.gpr, p`log
      ensures Ready()
      ensures ctx.gpr[..] == ReadRegs(p.xpr[..])
      ensures ctx.pc == Narrow(p.pc)
      ensures p.log == old(p.log) + Transfer(false)
    {
      for i := 0 to NUM_REGS
        invariant forall k :: 0 <= k < i ==> ctx.gpr[k] == Narrow(p.xpr[k])
        invariant p.log == old(p.log) + Transfer(false)[..i]
      {
        ctx.gpr[i] := Narrow(p.xpr[i]);
        p.log := p.log + [Gpr(false, i)];
        assert Transfer(false)[..i + 1] == Transfer(false)[..i] + [Gpr(false, i)];
      }
      ctx.pc := Narrow(p.pc);
      p.log := p.log + [Pc(false)];
    }

    /** `sim_t::diff_set_regs`: every snapshot word, sign-extended, through
        `XPR.write` in index order, then the PC; the snapshot is only read. */
    method DiffSetRegs(ctx: Context)
      requires Ready() && ctx.Valid()
      modifies p.xpr, p`pc, p`log
      ensures Ready()
      ensures p.xpr[..] == WriteRegs(old(p.xpr[..]), ctx.gpr[..], NUM_REGS, p.zeroReg)
      ensures p.pc == ZeroExtend(ctx.pc)
      ensures p.log == old(p.log) + Transfer(true)
    {
      for i := 0 to NUM_REGS
        invariant p.Valid()
        invariant p.xpr[..] == WriteRegs(old(p.xpr[..]), ctx.gpr[..], i, p.zeroReg)
        invariant p.log == old(p.log) + Transfer(true)[..i]
      {
        p.Write(i, SignExtend(ctx.gpr[i]));
        p.log := p.log + [Gpr(true, i)];
        assert Transfer(true)[..i + 1] == Transfer(true)[..i] + [Gpr(true, i)];
      }
      p.pc := ZeroExtend(ctx.pc);
      p.log := p.log + [Pc(true)];
    }

    /** `difftest_init`: build the one-hart machine over `difftest_mem`,
        resolve hart "0", then load the image through that hart's MMU. The
        memory is the same on every call, so a repeated call stores over
        what earlier calls left. The engine's XPR file has a hard-wired zero
        register; `resetVector` is its reset PC. */
    method DifftestInit(file: Option<seq<u8>>, imgSize: nat, resetVector: u64) returns (r: Outcome)
      modifies this, dram
      ensures Ready() && p == s.hart && fresh(s) && fresh(p.xpr) && p.zeroReg
      ensures forall i :: 0 <= i < NUM_REGS ==> p.xpr[i] == 0
      ensures p.pc == resetVector
      ensures r == Pass <==> file.Some? && |file.value| >= imgSize
      ensures r == Fail(OpenError) <==> file.None?
      ensures r == Fail(ReadError) <==> file.Some? && |file.value| < imgSize
      ensures r.Fail? ==> dram.bytes == old(dram.bytes)
      ensures r.Pass? ==> dram.bytes == StoreImage(old(dram.bytes), MBASE, file.value[..imgSize])
    {
      s := new Sim(true, resetVector, dram);
      DiffInit();
      r := DiffMemInit(file, imgSize);
    }

    /** `difftest_regcpy`: DIFFTEST_TO_REF runs exactly a set-regs; every
        other direction value runs exactly a get-regs. */
    method DifftestRegcpy(ctx: Context, direction: int)
      requires Ready() && ctx.Valid()
      modifies ctx, ctx.gpr, p.xpr, p`pc, p`log
      ensures Ready()
      ensures direction == DIFFTEST_TO_REF ==>
                p.xpr[..] == WriteRegs(old(p.xpr[..]), ctx.gpr[..], NUM_REGS, p.zeroReg) &&
                p.pc == ZeroExtend(ctx.pc) &&
                ctx.gpr[..] == old(ctx.gpr[..]) && ctx.pc == old(ctx.pc) &&
                p.log == old(p.log) + Transfer(true)
      ensures direction != DIFFTEST_TO_REF ==>
                ctx.gpr[..] == ReadRegs(p.xpr[..]) && ctx.pc == Narrow(p.pc) &&
                p.xpr[..] == old(p.xpr[..]) && p.pc == old(p.pc) &&
                p.log == old(p.log) + Transfer(false)
    {
      if direction == DIFFTEST_TO_REF {
        DiffSetRegs(ctx);
      } else {
        DiffGetRegs(ctx);
      }
    }

    /** One lockstep synchronisation: force the DUT's snapshot into the
        reference hart, then read it straight back into `back`. */
    method RegcpyRoundTrip(ctx: Context, back: Context)
      requires Ready() && ctx.Valid() && back.Valid()
      modifies ctx, ctx.gpr, back, back.gpr, p.xpr, p`pc, p`log
      ensures Ready()
      ensures back.pc == old(ctx.pc)
      ensures forall i :: 0 <= i < NUM_REGS ==>
                back.gpr[i] == if p.zeroReg && i == 0 then 0 else old(ctx.gpr[i])
      ensures p.log == old(p.log) + Transfer(true) + Transfer(false)
    {
      ghost var rf := p.xpr[..];
      ghost var sent := ctx.gpr[..];
      DifftestRegcpy(ctx, DIFFTEST_TO_REF);
      DifftestRegcpy(back, DIFFTEST_TO_DUT);
      SetThenGet(rf, sent, p.zeroReg);
    }
  }
}
