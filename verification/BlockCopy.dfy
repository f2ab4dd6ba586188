/** A byte copy loop run by the processor: `MOVB (Rm)+,(Rn)+`, n times over. */
module BlockCopy {
  import opened Words
  import opened Division
  import opened Mmu
  import opened Bus
  import opened CpuState
  import opened Instructions
  import opened Operands
  import VM = VirtualMemory

  /** `MOVB (Rm)+,(Rn)+`. */
  function CopyCode(m: RegNr, n: RegNr): Word {
    0x9410 + m * 0x40 + n
  }

  /** Where the byte at an address lives in RAM. */
  function DataHome(s: Cpu, address: Word): (r: Option<nat>)
    ensures r.Some? ==> r.value < |s.bus.ram|
  {
    VM.Home(s.bus, VM.Key(s.psw.mode, s.bus.mmu.Effective(s.psw.mode, DSpace), address))
  }

  /** Where the byte `i` places after the one a register points to lives. */
  function Pointed(s: Cpu, nr: RegNr, i: nat): (r: Option<nat>)
    ensures r.Some? ==> r.value < |s.bus.ram|
  {
    DataHome(s, Wrap(s.Reg(nr) + i))
  }

  function Repeat(s: Cpu, code: Word, count: nat): Outcome<()>
    decreases count
  {
    if count == 0 then Next((), s)
    else
      var (_, t) :- Execute(s, code);
      Repeat(t, code, count - 1)
  }

  lemma CopyFields(m: RegNr, n: RegNr)
    ensures var code := CopyCode(m, n);
            code / 0x1000 % 8 == 1 && WidthOf(code) == ByteWide && SrcMode(code) == 2 && SrcReg(code) == m
            && DstMode(code) == 2 && DstReg(code) == n
  {
    var code := CopyCode(m, n);
    QuotientIs(code, 8, 0x1282 + m * 8, n);
    QuotientIs(code, 0x40, 0x250 + m, 0x10 + n);
    QuotientIs(code, 0x200, 0x4A, m * 0x40 + 0x10 + n);
    QuotientIs(code, 0x1000, 9, 0x410 + m * 0x40 + n);
  }

  /** A byte with a home is read and stored there. */
  lemma ByteAtHome(s: Cpu, address: Word, value: Word)
    requires DataHome(s, address).Some?
    ensures var home := DataHome(s, address).value;
            var r, w := Read(s.bus, s.psw.mode, address, ByteWide, DSpace), Store(s, address, ByteWide, value, DSpace);
            r.Done? && r.value == s.bus.ram[home] && w.Next? && w.cpu.bus.ram == s.bus.ram[home := Low(value)]
  {
    hide Translate;
    VM.EffectiveIdempotent(s.bus.mmu, s.psw.mode, DSpace);
  }

  lemma HomesKept(s: Cpu, t: Cpu, address: Word)
    requires t.psw.mode == s.psw.mode && SameTranslation(s.bus.mmu, t.bus.mmu) && |t.bus.ram| == |s.bus.ram|
    ensures DataHome(t, address) == DataHome(s, address)
  {
    hide VM.Home;
    TranslationStable(s.bus.mmu, t.bus.mmu, s.psw.mode, address, false, DSpace);
    VM.HomesStable(s.bus, t.bus, VM.Key(s.psw.mode, s.bus.mmu.Effective(s.psw.mode, DSpace), address));
  }

  /** The register `nr` has moved on by one. */
  predicate Advanced(s: Cpu, nr: RegNr, t: Cpu) {
    Sees(s, t) && forall r: RegNr :: t.Reg(r) == if r == nr then Wrap(s.Reg(r) + 1) else s.Reg(r)
  }

  lemma SourceByte(s: Cpu, m: RegNr)
    requires m < 6 && Pointed(s, m, 0).Some?
    ensures var o := GetGam(s, 2, m, ByteWide, true);
            o.Next? && o.value.value == s.bus.ram[Pointed(s, m, 0).value] && Advanced(s, m, o.cpu)
  {
    hide Read, GetGam, DataHome, Cpu.Reg, Sees;
    ByteAtHome(s, s.Reg(m), 0);
    OperandIs(s, 2, m, ByteWide, true);
  }

  lemma TargetByte(s: Cpu, n: RegNr)
    requires n < 6
    ensures var o := GetGam(s, 2, n, ByteWide, false);
            o.Next? && Advanced(s, n, o.cpu)
            && o.value.width == ByteWide && o.value.space == DSpace && o.value.place == AtAddress(s.Reg(n))
  {
    hide Read, GetGam, Cpu.Reg, Sees;
    OperandIs(s, 2, n, ByteWide, false);
  }

  lemma CopyIs(s: Cpu, m: RegNr, n: RegNr, src: Gam, s1: Cpu, dst: Gam, s2: Cpu, s3: Cpu)
    requires GetGam(s, 2, m, ByteWide, true) == Next(src, s1) && GetGam(s1, 2, n, ByteWide, false) == Next(dst, s2)
    requires dst.place.AtAddress? && dst.width == ByteWide && dst.space == DSpace
    requires Store(s2, dst.place.address, ByteWide, src.value, DSpace).Next?
    requires s3 == Store(s2, dst.place.address, ByteWide, src.value, DSpace).cpu
    ensures Execute(s, CopyCode(m, n)).Next? && Execute(s, CopyCode(m, n)).cpu == Nzv(s3, src.value, ByteWide)
  {
    hide GetGam, Store, CopyCode, Nzv;
    CopyFields(m, n);
    assert Execute(s, CopyCode(m, n)) == Mov(s, CopyCode(m, n));
  }

  lemma FlagsAside(s: Cpu, value: Word, width: Width)
    ensures var t := Nzv(s, value, width); t.bus == s.bus && t.psw.mode == s.psw.mode
    ensures forall r: RegNr :: Nzv(s, value, width).Reg(r) == s.Reg(r)
  {
  }

  /** One byte goes from where the one register points to where the other points, and both
      registers move on to the next byte. */
  lemma CopyOne(s: Cpu, m: RegNr, n: RegNr) returns (t: Cpu)
    requires m < 6 && n < 6 && m != n && Pointed(s, m, 0).Some? && Pointed(s, n, 0).Some?
    ensures Execute(s, CopyCode(m, n)).Next? && Execute(s, CopyCode(m, n)).cpu == t
    ensures t.bus.ram == s.bus.ram[Pointed(s, n, 0).value := s.bus.ram[Pointed(s, m, 0).value]]
    ensures SameTranslation(s.bus.mmu, t.bus.mmu) && t.psw.mode == s.psw.mode
    ensures t.Reg(m) == Wrap(s.Reg(m) + 1) && t.Reg(n) == Wrap(s.Reg(n) + 1)
  {
    hide Store, GetGam, DataHome, Cpu.Reg, CopyCode, Execute, Nzv, SameTranslation;
    SourceByte(s, m);
    var src := GetGam(s, 2, m, ByteWide, true);
    TargetByte(src.cpu, n);
    var dst := GetGam(src.cpu, 2, n, ByteWide, false);
    SeesTransitive(s, src.cpu, dst.cpu);
    HomesKept(s, dst.cpu, s.Reg(n));
    ByteAtHome(dst.cpu, s.Reg(n), src.value.value);
    StoreIs(dst.cpu, s.Reg(n), ByteWide, src.value.value, DSpace);
    var s3 := Store(dst.cpu, s.Reg(n), ByteWide, src.value.value, DSpace).cpu;
    SameTranslationTransitive(s.bus.mmu, dst.cpu.bus.mmu, s3.bus.mmu);
    CopyIs(s, m, n, src.value, src.cpu, dst.value, dst.cpu, s3);
    FlagsAside(s3, src.value.value, ByteWide);
    SameRegs(dst.cpu, s3, m);
    SameRegs(dst.cpu, s3, n);
    t := Nzv(s3, src.value.value, ByteWide);
    assert Low(src.value.value) == s.bus.ram[Pointed(s, m, 0).value];
  }

  // --- The loop ---

  /** Every byte has a home, the target's homes are distinct, and none of them is a byte still
      to be read. The ranges may overlap otherwise. */
  predicate Copyable(s: Cpu, m: RegNr, n: RegNr, count: nat) {
    && (forall i :: 0 <= i < count ==> Pointed(s, m, i).Some? && Pointed(s, n, i).Some?)
    && (forall i, j :: 0 <= i < j < count ==>
          Pointed(s, n, i) != Pointed(s, m, j) && Pointed(s, n, i) != Pointed(s, n, j))
  }

  /** The bytes are where they should go, and the rest of RAM is as it was. */
  predicate CopiedTo(s: Cpu, m: RegNr, n: RegNr, count: nat, ram: Ram)
    requires Copyable(s, m, n, count)
  {
    |ram| == |s.bus.ram|
    && (forall i :: 0 <= i < count ==> ram[Pointed(s, n, i).value] == s.bus.ram[Pointed(s, m, i).value])
    && (forall k :: 0 <= k < |ram| && (forall i :: 0 <= i < count ==> Pointed(s, n, i) != Some(k)) ==>
          ram[k] == s.bus.ram[k])
  }

  lemma PointedNext(s: Cpu, t: Cpu, nr: RegNr, i: nat)
    requires t.psw.mode == s.psw.mode && SameTranslation(s.bus.mmu, t.bus.mmu) && |t.bus.ram| == |s.bus.ram|
    requires t.Reg(nr) == Wrap(s.Reg(nr) + 1)
    ensures Pointed(t, nr, i) == Pointed(s, nr, i + 1)
  {
    hide DataHome, Cpu.Reg;
    WrapTwice(s.Reg(nr), i);
    HomesKept(s, t, Wrap(s.Reg(nr) + i + 1));
  }

  lemma WrapTwice(x: Word, i: nat)
    ensures Wrap(Wrap(x + 1) + i) == Wrap(x + i + 1)
  {
    var y := x + 1;
    QuotientIs(y + i, 0x1_0000, y / 0x1_0000 + (y % 0x1_0000 + i) / 0x1_0000, (y % 0x1_0000 + i) % 0x1_0000);
  }

  /** `count` executions copy `count` consecutive bytes, whatever the page table does with them,
      and leave both registers after the last one. */
  lemma {:induction false} BlockCopied(s: Cpu, m: RegNr, n: RegNr, count: nat) returns (t: Cpu)
    requires m < 6 && n < 6 && m != n && Copyable(s, m, n, count)
    ensures Repeat(s, CopyCode(m, n), count).Next? && Repeat(s, CopyCode(m, n), count).cpu == t
    ensures CopiedTo(s, m, n, count, t.bus.ram)
    ensures t.Reg(m) == Wrap(s.Reg(m) + count) && t.Reg(n) == Wrap(s.Reg(n) + count)
    decreases count
  {
    hide Execute, CopyCode, Pointed, Cpu.Reg, SameTranslation, CopiedTo, Wrap;
    if count == 0 {
      t := s;
      NothingCopied(s, m, n);
    } else {
      var s1 := CopyOne(s, m, n);
      forall i: nat ensures Pointed(s1, m, i) == Pointed(s, m, i + 1) && Pointed(s1, n, i) == Pointed(s, n, i + 1) {
        PointedNext(s, s1, m, i);
        PointedNext(s, s1, n, i);
      }
      CopyableNext(s, m, n, count, s1);
      hide Copyable;
      t := BlockCopied(s1, m, n, count - 1);
      WrapTwice(s.Reg(m), count - 1);
      WrapTwice(s.Reg(n), count - 1);
      CopiedOnce(s, m, n, count, s1, t.bus.ram);
    }
  }

  lemma NothingCopied(s: Cpu, m: RegNr, n: RegNr)
    ensures Copyable(s, m, n, 0) && CopiedTo(s, m, n, 0, s.bus.ram)
    ensures s.Reg(m) == Wrap(s.Reg(m) + 0) && s.Reg(n) == Wrap(s.Reg(n) + 0)
  {
    hide Pointed, Cpu.Reg;
  }

  lemma CopyableNext(s: Cpu, m: RegNr, n: RegNr, count: nat, s1: Cpu)
    requires count > 0 && Copyable(s, m, n, count)
    requires forall i: nat :: Pointed(s1, m, i) == Pointed(s, m, i + 1) && Pointed(s1, n, i) == Pointed(s, n, i + 1)
    ensures Copyable(s1, m, n, count - 1)
  {
    hide Pointed;
    forall i | 0 <= i < count - 1 ensures Pointed(s1, m, i).Some? && Pointed(s1, n, i).Some? {
      assert Pointed(s, m, i + 1).Some? && Pointed(s, n, i + 1).Some?;
    }
    forall i, j | 0 <= i < j < count - 1
      ensures Pointed(s1, n, i) != Pointed(s1, m, j) && Pointed(s1, n, i) != Pointed(s1, n, j)
    {
      assert Pointed(s, n, i + 1) != Pointed(s, m, j + 1) && Pointed(s, n, i + 1) != Pointed(s, n, j + 1);
    }
  }

  lemma CopiedOnce(s: Cpu, m: RegNr, n: RegNr, count: nat, s1: Cpu, ram: Ram)
    requires count > 0 && Copyable(s, m, n, count) && Copyable(s1, m, n, count - 1)
    requires s1.bus.ram == s.bus.ram[Pointed(s, n, 0).value := s.bus.ram[Pointed(s, m, 0).value]]
    requires forall i: nat :: Pointed(s1, m, i) == Pointed(s, m, i + 1) && Pointed(s1, n, i) == Pointed(s, n, i + 1)
    requires CopiedTo(s1, m, n, count - 1, ram)
    ensures CopiedTo(s, m, n, count, ram)
  {
    hide Pointed;
    forall i | 0 <= i < count ensures ram[Pointed(s, n, i).value] == s.bus.ram[Pointed(s, m, i).value] {
      if i > 0 {
        assert Pointed(s1, n, i - 1) == Pointed(s, n, i) && Pointed(s1, m, i - 1) == Pointed(s, m, i);
      }
    }
    forall k | 0 <= k < |ram| && (forall i :: 0 <= i < count ==> Pointed(s, n, i) != Some(k))
      ensures ram[k] == s.bus.ram[k]
    {
      forall i | 0 <= i < count - 1 ensures Pointed(s1, n, i) != Some(k) {
        assert Pointed(s1, n, i) == Pointed(s, n, i + 1);
      }
    }
  }

  lemma AddressesApart(s: Cpu, a: Word, b: Word)
    requires s.bus.mmu.Enabled() && VM.DisjointFrames(s.bus.mmu) && a != b && DataHome(s, a).Some?
    ensures DataHome(s, a) != DataHome(s, b)
  {
    hide VM.Home, VM.DisjointFrames;
    if DataHome(s, a) == DataHome(s, b) {
      var space := s.bus.mmu.Effective(s.psw.mode, DSpace);
      VM.HomesDistinct(s.bus, VM.Key(s.psw.mode, space, a), VM.Key(s.psw.mode, space, b));
    }
  }

  /** With disjoint frames it is enough that the target does not begin inside the source. */
  lemma RangesCopyable(s: Cpu, m: RegNr, n: RegNr, count: nat)
    requires s.bus.mmu.Enabled() && VM.DisjointFrames(s.bus.mmu)
    requires forall i :: 0 <= i < count ==> Pointed(s, m, i).Some? && Pointed(s, n, i).Some?
    requires s.Reg(m) + count <= 0x1_0000 && s.Reg(n) + count <= 0x1_0000
    requires s.Reg(n) <= s.Reg(m) || s.Reg(m) + count <= s.Reg(n)
    ensures Copyable(s, m, n, count)
  {
    hide Pointed, Cpu.Reg, VM.DisjointFrames;
    forall i, j | 0 <= i < j < count
      ensures Pointed(s, n, i) != Pointed(s, m, j) && Pointed(s, n, i) != Pointed(s, n, j)
    {
      assert Pointed(s, n, i).Some?;
      PlacesApart(s, n, i, n, j);
      PlacesApart(s, n, i, m, j);
    }
  }

  lemma PlacesApart(s: Cpu, n: RegNr, i: nat, m: RegNr, j: nat)
    requires s.bus.mmu.Enabled() && VM.DisjointFrames(s.bus.mmu) && Pointed(s, n, i).Some?
    requires s.Reg(n) + i < 0x1_0000 && s.Reg(m) + j < 0x1_0000 && s.Reg(n) + i != s.Reg(m) + j
    ensures Pointed(s, n, i) != Pointed(s, m, j)
  {
    hide DataHome, Cpu.Reg, VM.DisjointFrames;
    AddressesApart(s, Wrap(s.Reg(n) + i), Wrap(s.Reg(m) + j));
  }
}
