/**
  The compilation context handed from node to node during code generation:
  a symbol table and the table of register descriptors.

  Constructing a context fills the register table with one descriptor per
  integer register of the RISC-V calling convention: the argument
  registers a0-a7, the saved registers s0-s11 and the temporaries t0-t6,
  generated by `InitRegs`, followed by the special registers tp, sp, gp,
  ra and zero. The symbol table starts, and stays, empty.
*/
module AstContext {
  import Decimal
  import opened AstRegister

  /** The source's `int`: a 32-bit two's-complement integer. */
  newtype Int32 = x: int | -0x8000_0000 <= x < 0x8000_0000

  const Int32Max: int := 0x7fff_ffff

  /** Where a symbol's value lives: a static address, an offset from the
      stack pointer, and the name of a register. */
  datatype AddressDescriptor = AddressDescriptor(memAddress: Int32, spOffset: Int32, reg: string)

  /** A symbol-table entry: the declared type and one address descriptor. */
  datatype SymbolRecord = SymbolRecord(ty: string, storedAddress: AddressDescriptor)

  type SymbolTable = map<string, SymbolRecord>

  type RegisterTable = map<string, Register>

  datatype Context = Context(symbolTable: SymbolTable, registers: RegisterTable)

  /** A context whose symbol table and register table are both empty, as the
      member initialisers leave them before the constructor body runs. */
  const EmptyContext: Context := Context(map[], map[])

  /** The register name for index `i` of the class `prefix`, e.g. "a7":
      the prefix followed by the canonical decimal rendering of `i`. */
  function RegisterName(prefix: string, i: nat): (r: string)
    ensures |r| > |prefix| && r[..|prefix|] == prefix
    ensures Decimal.IsCanonical(r[|prefix|..])
  {
    var digits := Decimal.FromNat(i);
    assert (prefix + digits)[|prefix|..] == digits;
    prefix + digits
  }

  /** The names `prefix`+0, ..., `prefix`+amount, the upper bound included;
      empty when amount is negative. */
  function NumberedNames(prefix: string, amount: int): (r: set<string>)
    decreases amount + 1
  {
    if amount < 0 then {} else NumberedNames(prefix, amount - 1) + {RegisterName(prefix, amount)}
  }

  /** A free descriptor, named after its key, for every name in `names`. */
  function FreeDescriptors(names: set<string>): (r: RegisterTable) {
    map k | k in names :: Register(k, FreeContent)
  }

  /** What `initRegs` leaves behind, stated declaratively: the entries for
      `prefix`+0 ... `prefix`+amount are (re)set to free descriptors and
      nothing else changes. */
  function InitRegsSpec(ctx: Context, prefix: string, amount: int): (r: Context) {
    ctx.(registers := ctx.registers + FreeDescriptors(NumberedNames(prefix, amount)))
  }

  /** `Context::initRegs(name, amount)`: the counting loop over
      i = 0, 1, ..., amount (the bound included), storing a free descriptor
      named `prefix`+i under that name. The counter would overflow if
      `amount` were the largest `int`, so that value is excluded. */
  method InitRegs(ctx: Context, prefix: string, amount: Int32) returns (r: Context)
    requires amount as int < Int32Max
    ensures r.symbolTable == ctx.symbolTable
    ensures r.registers.Keys == ctx.registers.Keys + NumberedNames(prefix, amount as int)
    ensures forall k :: k in NumberedNames(prefix, amount as int) ==> r.registers[k] == Register(k, FreeContent)
    ensures forall k :: k in ctx.registers && k !in NumberedNames(prefix, amount as int) ==>
      r.registers[k] == ctx.registers[k]
  {
    var regs := ctx.registers;
    var i: Int32 := 0;
    while i <= amount
      invariant 0 <= i as int <= if amount < 0 then 0 else amount as int + 1
      invariant regs.Keys == ctx.registers.Keys + NumberedNames(prefix, i as int - 1)
      invariant forall k :: k in NumberedNames(prefix, i as int - 1) ==> regs[k] == Register(k, FreeContent)
      invariant forall k :: k in ctx.registers && k !in NumberedNames(prefix, i as int - 1) ==>
        regs[k] == ctx.registers[k]
      decreases amount as int - i as int
    {
      var regName := RegisterName(prefix, i as nat);
      regs := regs[regName := Register(regName, FreeContent)];
      i := i + 1;
    }
    r := ctx.(registers := regs);
  }

  /** The special registers the constructor adds after the numbered classes. */
  const SpecialNames: set<string> := {"tp", "sp", "gp", "ra", "zero"}

  /** The 32 ABI names of the integer registers in the Register Convention
      table of the RISC-V ELF psABI (fp is an alias of s0, not a separate
      register). */
  const AbiIntegerRegisterNames: set<string> :=
    {"zero", "ra", "sp", "gp", "tp",
     "t0", "t1", "t2", "t3", "t4", "t5", "t6",
     "s0", "s1", "s2", "s3", "s4", "s5", "s6", "s7", "s8", "s9", "s10", "s11",
     "a0", "a1", "a2", "a3", "a4", "a5", "a6", "a7"}

  /** The five special-register assignments at the end of the constructor:
      tp, sp, gp and ra are (re)set to free descriptors, zero to a descriptor
      holding "0", and every other entry is left as it was. */
  function AddSpecials(regs: RegisterTable): (r: RegisterTable)
    ensures r.Keys == regs.Keys + SpecialNames
    ensures r["tp"] == Register("tp", FreeContent) && r["sp"] == Register("sp", FreeContent)
    ensures r["gp"] == Register("gp", FreeContent) && r["ra"] == Register("ra", FreeContent)
    ensures r["zero"] == Register("zero", ZeroContent)
    ensures forall k :: k in regs && k !in SpecialNames ==> r[k] == regs[k]
  {
    regs["tp" := Register("tp", FreeContent)]
        ["sp" := Register("sp", FreeContent)]
        ["gp" := Register("gp", FreeContent)]
        ["ra" := Register("ra", FreeContent)]
        ["zero" := Register("zero", ZeroContent)]
  }

  /** The `Context()` constructor: the register table holds exactly the 32
      integer registers of the ABI, each descriptor named after its key, the
      zero register holding "0" and every other register free; the symbol
      table is empty. */
  method NewContext() returns (c: Context)
    ensures c.symbolTable == map[]
    ensures c.registers.Keys == AbiIntegerRegisterNames
    ensures |c.registers| == 32
    ensures forall k :: k in c.registers ==> c.registers[k].name == k
    ensures forall k :: k in c.registers ==>
      c.registers[k].content == if k == "zero" then ZeroContent else FreeContent
  {
    c := EmptyContext;
    c := InitRegs(c, "a", 7);
    c := InitRegs(c, "s", 11);
    c := InitRegs(c, "t", 6);
    ConstructedKeys(c.registers);
    forall k | k in AddSpecials(c.registers)
      ensures AddSpecials(c.registers)[k].name == k
      ensures AddSpecials(c.registers)[k].content == if k == "zero" then ZeroContent else FreeContent
    {
      AddSpecialsEntries(c.registers, k);
    }
    c := c.(registers := AddSpecials(c.registers));
  }

  // ---------------------------------------------------------------------
  // Numbered register names

  /** `NumberedNames` holds exactly the names `prefix`+i with 0 <= i <= amount. */
  lemma {:induction false} NumberedNamesMembership(prefix: string, amount: int, k: string)
    ensures k in NumberedNames(prefix, amount) <==> exists i: nat :: i <= amount && k == RegisterName(prefix, i)
    decreases amount + 1
  {
    if amount >= 0 {
      NumberedNamesMembership(prefix, amount - 1, k);
      if k in NumberedNames(prefix, amount) && k != RegisterName(prefix, amount) {
        var i: nat :| i <= amount - 1 && k == RegisterName(prefix, i);
        assert i <= amount;
      }
    }
  }

  /** Register names of one class are distinct for distinct indices. */
  lemma RegisterNameInjective(prefix: string, i: nat, j: nat)
    ensures RegisterName(prefix, i) == RegisterName(prefix, j) <==> i == j
  {
    if RegisterName(prefix, i) == RegisterName(prefix, j) {
      assert RegisterName(prefix, i)[|prefix|..] == Decimal.FromNat(i);
      assert RegisterName(prefix, j)[|prefix|..] == Decimal.FromNat(j);
      Decimal.FromNatInjective(i, j);
    }
  }

  /** The index of a register name is recovered by reading the digits that
      follow the prefix. */
  lemma RegisterNameIndex(prefix: string, i: nat)
    ensures Decimal.ToNat(RegisterName(prefix, i)[|prefix|..]) == i
  {
    Decimal.ToNatFromNat(i);
  }

  /** Every numbered name is the prefix followed by a canonical numeral. */
  lemma NumberedNameShape(prefix: string, amount: int, k: string)
    requires k in NumberedNames(prefix, amount)
    ensures |k| > |prefix| && k[..|prefix|] == prefix
    ensures Decimal.IsCanonical(k[|prefix|..])
  {
  }

  /** The indices 0..amount yield amount + 1 distinct names. */
  lemma {:induction false} NumberedNamesSize(prefix: string, amount: int)
    requires amount >= -1
    ensures |NumberedNames(prefix, amount)| == amount + 1
    decreases amount + 1
  {
    if amount >= 0 {
      NumberedNamesSize(prefix, amount - 1);
      var last := RegisterName(prefix, amount);
      if last in NumberedNames(prefix, amount - 1) {
        NumberedNamesMembership(prefix, amount - 1, last);
        var i: nat :| i <= amount - 1 && last == RegisterName(prefix, i);
        RegisterNameInjective(prefix, amount, i);
        assert false;
      }
    }
  }

  /** No special register name is a prefix followed by a numeral: each one
      ends in a letter, every numeral ends in a digit. So the special
      assignments of the constructor never overwrite a numbered register. */
  lemma SpecialNamesNotNumbered(k: string, prefix: string, i: nat)
    requires k in SpecialNames
    ensures k != RegisterName(prefix, i)
  {
  }

  /** Numbered classes with distinct prefixes of equal length share no name. */
  lemma ClassesDisjoint(p: string, q: string, amountP: int, amountQ: int)
    requires |p| == |q| && p != q
    ensures NumberedNames(p, amountP) !! NumberedNames(q, amountQ)
  {
  }

  /** No numbered name of any class is a special register name. */
  lemma SpecialsDisjoint(prefix: string, amount: int)
    ensures NumberedNames(prefix, amount) !! SpecialNames
  {
  }

  // ---------------------------------------------------------------------
  // initRegs

  /** After `initRegs` a key is present exactly when it was present before or
      is `prefix`+i for some 0 <= i <= amount. */
  lemma InitRegsKeys(ctx: Context, prefix: string, amount: int, k: string)
    ensures k in InitRegsSpec(ctx, prefix, amount).registers <==>
      k in ctx.registers || exists i: nat :: i <= amount && k == RegisterName(prefix, i)
  {
    NumberedNamesMembership(prefix, amount, k);
  }

  /** The bound is inclusive: `prefix`+amount itself becomes a free register. */
  lemma InitRegsInclusiveBound(ctx: Context, prefix: string, amount: nat)
    ensures RegisterName(prefix, amount) in InitRegsSpec(ctx, prefix, amount).registers
    ensures IsFree(InitRegsSpec(ctx, prefix, amount).registers[RegisterName(prefix, amount)])
  {
  }

  /** The postcondition of the `InitRegs` loop determines its result: any
      context satisfying it is the declarative `InitRegsSpec`. */
  lemma InitRegsMatchesSpec(ctx: Context, prefix: string, amount: int, r: Context)
    requires r.symbolTable == ctx.symbolTable
    requires r.registers.Keys == ctx.registers.Keys + NumberedNames(prefix, amount)
    requires forall k :: k in NumberedNames(prefix, amount) ==> r.registers[k] == Register(k, FreeContent)
    requires forall k :: k in ctx.registers && k !in NumberedNames(prefix, amount) ==>
      r.registers[k] == ctx.registers[k]
    ensures r == InitRegsSpec(ctx, prefix, amount)
  {
  }

  /** With a negative amount the loop body never runs. */
  lemma InitRegsNegativeAmount(ctx: Context, prefix: string, amount: int)
    requires amount < 0
    ensures InitRegsSpec(ctx, prefix, amount) == ctx
  {
  }

  /** Running `initRegs` twice with the same arguments is running it once:
      entries it already reset are reset to the same free descriptor. */
  lemma InitRegsIdempotent(ctx: Context, prefix: string, amount: int)
    ensures InitRegsSpec(InitRegsSpec(ctx, prefix, amount), prefix, amount) == InitRegsSpec(ctx, prefix, amount)
  {
  }

  /** The table grows by at most amount + 1 entries, and by exactly that many
      when none of the generated names was present before. */
  lemma InitRegsSize(ctx: Context, prefix: string, amount: nat)
    ensures |InitRegsSpec(ctx, prefix, amount).registers| <= |ctx.registers| + amount + 1
    ensures ctx.registers.Keys !! NumberedNames(prefix, amount) ==>
      |InitRegsSpec(ctx, prefix, amount).registers| == |ctx.registers| + amount + 1
  {
    NumberedNamesSize(prefix, amount);
    var r := InitRegsSpec(ctx, prefix, amount);
    assert r.registers.Keys == ctx.registers.Keys + NumberedNames(prefix, amount);
  }

  /** Every entry of the table is a descriptor named after its key. */
  ghost predicate WellNamed(regs: RegisterTable) {
    forall k :: k in regs ==> regs[k].name == k
  }

  /** `initRegs` keeps every entry named after its key. */
  lemma InitRegsWellNamed(ctx: Context, prefix: string, amount: int)
    requires WellNamed(ctx.registers)
    ensures WellNamed(InitRegsSpec(ctx, prefix, amount).registers)
  {
  }

  // ---------------------------------------------------------------------
  // The constructor

  lemma ArgumentNames()
    ensures NumberedNames("a", 7) == {"a0", "a1", "a2", "a3", "a4", "a5", "a6", "a7"}
  {
    assert RegisterName("a", 0) == "a0";
    assert RegisterName("a", 1) == "a1";
    assert RegisterName("a", 2) == "a2";
    assert RegisterName("a", 3) == "a3";
    assert RegisterName("a", 4) == "a4";
    assert RegisterName("a", 5) == "a5";
    assert RegisterName("a", 6) == "a6";
    assert RegisterName("a", 7) == "a7";
  }

  lemma SavedNames()
    ensures NumberedNames("s", 11) ==
      {"s0", "s1", "s2", "s3", "s4", "s5", "s6", "s7", "s8", "s9", "s10", "s11"}
  {
    assert RegisterName("s", 0) == "s0";
    assert RegisterName("s", 1) == "s1";
    assert RegisterName("s", 2) == "s2";
    assert RegisterName("s", 3) == "s3";
    assert RegisterName("s", 4) == "s4";
    assert RegisterName("s", 5) == "s5";
    assert RegisterName("s", 6) == "s6";
    assert RegisterName("s", 7) == "s7";
    assert RegisterName("s", 8) == "s8";
    assert RegisterName("s", 9) == "s9";
    assert RegisterName("s", 10) == "s10";
    assert RegisterName("s", 11) == "s11";
  }

  lemma TemporaryNames()
    ensures NumberedNames("t", 6) == {"t0", "t1", "t2", "t3", "t4", "t5", "t6"}
  {
    assert RegisterName("t", 0) == "t0";
    assert RegisterName("t", 1) == "t1";
    assert RegisterName("t", 2) == "t2";
    assert RegisterName("t", 3) == "t3";
    assert RegisterName("t", 4) == "t4";
    assert RegisterName("t", 5) == "t5";
    assert RegisterName("t", 6) == "t6";
  }

  /** Sizes add up over a disjoint union. */
  lemma DisjointUnionSize(x: set<string>, y: set<string>)
    requires x !! y
    ensures |x + y| == |x| + |y|
  {
  }

  /** There are five special registers. */
  lemma SpecialNamesSize()
    ensures |SpecialNames| == 5
  {
  }

  /** Adding the special registers to a table of free, well-named
      descriptors keeps every entry named after its key and leaves every
      register free except zero, which holds "0". */
  lemma AddSpecialsEntries(regs: RegisterTable, k: string)
    requires forall j :: j in regs ==> regs[j] == Register(j, FreeContent)
    requires k in AddSpecials(regs)
    ensures AddSpecials(regs)[k].name == k
    ensures AddSpecials(regs)[k].content == if k == "zero" then ZeroContent else FreeContent
  {
  }

  /** Three numbered classes with distinct one-letter prefixes and the
      special registers are pairwise disjoint, so the table built from them
      has (m + 1) + (n + 1) + (o + 1) + 5 entries. */
  lemma ClassesSize(p: string, q: string, r: string, m: nat, n: nat, o: nat)
    requires |p| == |q| == |r| == 1 && p != q && p != r && q != r
    ensures |NumberedNames(p, m) + NumberedNames(q, n) + NumberedNames(r, o) + SpecialNames| == m + n + o + 8
  {
    var a, s, t := NumberedNames(p, m), NumberedNames(q, n), NumberedNames(r, o);
    assert |a + s| == m + n + 2 by {
      NumberedNamesSize(p, m);
      NumberedNamesSize(q, n);
      ClassesDisjoint(p, q, m, n);
      DisjointUnionSize(a, s);
    }
    assert |a + s + t| == m + n + o + 3 by {
      NumberedNamesSize(r, o);
      ClassesDisjoint(p, r, m, o);
      ClassesDisjoint(q, r, n, o);
      DisjointUnionSize(a + s, t);
    }
    assert (a + s + t) !! SpecialNames by {
      SpecialsDisjoint(p, m);
      SpecialsDisjoint(q, n);
      SpecialsDisjoint(r, o);
    }
    SpecialNamesSize();
    DisjointUnionSize(a + s + t, SpecialNames);
  }

  /** The three numbered classes of the constructor and the special
      registers are exactly the ABI's 32 integer register names. */
  lemma ConstructedNames()
    ensures NumberedNames("a", 7) + NumberedNames("s", 11) + NumberedNames("t", 6) + SpecialNames
      == AbiIntegerRegisterNames
  {
    ArgumentNames();
    SavedNames();
    TemporaryNames();
  }

  /** Adding the special registers to the three numbered classes of the
      constructor gives exactly the ABI's 32 integer registers. */
  lemma ConstructedKeys(numbered: RegisterTable)
    requires numbered.Keys == NumberedNames("a", 7) + NumberedNames("s", 11) + NumberedNames("t", 6)
    ensures AddSpecials(numbered).Keys == AbiIntegerRegisterNames
    ensures |AddSpecials(numbered)| == 32
  {
    assert AddSpecials(numbered).Keys == numbered.Keys + SpecialNames;
    ConstructedNames();
    ClassesSize("a", "s", "t", 7, 11, 6);
  }
}
