/** The processor status word (cpu.h, cpu.cpp). `setPSW` masks bits 8..10 away, so the field
    record below is exactly the set of values the word can take. */
module ProcessorStatus {
  import opened Words
  import opened Division

  type Mode = m: int | 0 <= m < 4

  type Level = l: int | 0 <= l < 8

  const KERNEL: Mode := 0

  datatype Psw = Psw(
    mode: Mode,          // bits 15..14
    previous: Mode,      // bits 13..12
    registerSet: bool,   // bit 11
    priority: Level,     // bits 7..5
    t: bool, n: bool, z: bool, v: bool, c: bool)
  {
    /** The word that is pushed on the stack by a trap; bits 10..8 are zero. */
    function Encode(): Word {
      (ControlBits(mode, previous, registerSet) * 0x40 + priority) * 0x20 + FlagBits(t, n, z, v, c)
    }
  }

  /** Bits 15..11. */
  function ControlBits(mode: Mode, previous: Mode, registerSet: bool): (r: int)
    ensures 0 <= r < 0x20
  {
    mode * 8 + previous * 2 + Bit(registerSet)
  }

  /** Bits 4..0. */
  function FlagBits(t: bool, n: bool, z: bool, v: bool, c: bool): (r: int)
    ensures 0 <= r < 0x20
  {
    Bit(t) * 16 + Bit(n) * 8 + Bit(z) * 4 + Bit(v) * 2 + Bit(c)
  }

  /** `setPSW(w, false)`: bits 10..8 are dropped. */
  function Decode(w: Word): Psw {
    var control, flags := w / 0x800, w % 0x20;
    Psw(control / 8, control / 2 % 4, control % 2 == 1, w / 0x20 % 8,
        flags / 16 == 1, flags / 8 % 2 == 1, flags / 4 % 2 == 1, flags / 2 % 2 == 1, flags % 2 == 1)
  }

  /** `setPSW(w, true)`: outside kernel mode a return can only lower privilege, and keeps
      the register set and the priority. */
  function DecodeLimited(current: Psw, w: Word): Psw {
    var p := Decode(w);
    p.(mode := Max(p.mode, current.mode), previous := Max(p.previous, current.previous),
       registerSet := current.registerSet, priority := current.priority)
  }

  function SetPsw(current: Psw, w: Word, limited: bool): Psw {
    if limited then DecodeLimited(current, w) else Decode(w)
  }

  lemma FlagBitsExact(t: bool, n: bool, z: bool, v: bool, c: bool)
    ensures var f := FlagBits(t, n, z, v, c);
            f / 16 == Bit(t) && f / 8 % 2 == Bit(n) && f / 4 % 2 == Bit(z) && f / 2 % 2 == Bit(v) && f % 2 == Bit(c)
  {
  }

  lemma ControlBitsExact(mode: Mode, previous: Mode, registerSet: bool)
    ensures var f := ControlBits(mode, previous, registerSet);
            f / 8 == mode && f / 2 % 4 == previous && f % 2 == Bit(registerSet)
  {
  }

  lemma FieldsExact(control: int, priority: int, flags: int)
    requires 0 <= control < 0x20 && 0 <= priority < 8 && 0 <= flags < 0x20
    ensures var w := (control * 0x40 + priority) * 0x20 + flags;
            w / 0x800 == control && w / 0x20 % 8 == priority && w % 0x20 == flags
  {
    var w := (control * 0x40 + priority) * 0x20 + flags;
    assert w / 0x20 == control * 0x40 + priority;
    assert (control * 0x40 + priority) % 8 == priority;
  }

  /** A saved status word is restored exactly. */
  lemma DecodeEncode(p: Psw)
    ensures Decode(p.Encode()) == p
  {
    FlagBitsExact(p.t, p.n, p.z, p.v, p.c);
    ControlBitsExact(p.mode, p.previous, p.registerSet);
    FieldsExact(ControlBits(p.mode, p.previous, p.registerSet), p.priority, FlagBits(p.t, p.n, p.z, p.v, p.c));
  }

  /** The layout of the saved word, and what becomes of a word that is loaded and saved again:
      bits 10..8 are lost. */
  lemma EncodeDecode(w: Word)
    ensures Decode(w).Encode() == w - w / 0x100 % 8 * 0x100
    ensures var p := Decode(w);
            Decode(w).Encode() == p.mode * 0x4000 + p.previous * 0x1000 + Bit(p.registerSet) * 0x800 + p.priority * 0x20
                                  + Bit(p.t) * 0x10 + Bit(p.n) * 8 + Bit(p.z) * 4 + Bit(p.v) * 2 + Bit(p.c)
  {
    var control, spare, priority, flags := w / 0x800, w / 0x100 % 8, w / 0x20 % 8, w % 0x20;
    DivMod(w / 0x20, 8);
    DivMod(w, 0x20);
    QuotientIs(w, 0x100, w / 0x20 / 8, priority * 0x20 + flags);
    QuotientIs(w, 0x800, w / 0x100 / 8, spare * 0x100 + priority * 0x20 + flags);
    ControlDecodes(control);
    FlagsDecode(flags);
  }

  lemma ControlDecodes(control: nat)
    requires control < 0x20
    ensures ControlBits(control / 8, control / 2 % 4, control % 2 == 1) == control
  {
  }

  lemma FlagsDecode(f: nat)
    requires f < 0x20
    ensures FlagBits(f / 16 == 1, f / 8 % 2 == 1, f / 4 % 2 == 1, f / 2 % 2 == 1, f % 2 == 1) == f
  {
  }

  /** A return outside kernel mode never goes to a more privileged mode than the current or the
      saved one, keeps register set and priority, and takes the other bits as saved. */
  lemma LimitedLowers(current: Psw, w: Word)
    ensures var p := DecodeLimited(current, w);
            && p.mode >= current.mode && p.mode >= w / 0x4000 && (p.mode == current.mode || p.mode == w / 0x4000)
            && p.previous >= current.previous && p.previous >= w / 0x1000 % 4
            && (p.previous == current.previous || p.previous == w / 0x1000 % 4)
            && p.registerSet == current.registerSet && p.priority == current.priority && p.Encode() % 0x20 == w % 0x20
  {
    ModesOf(w);
    var p := DecodeLimited(current, w);
    FlagsDecode(w % 0x20);
    LowFive(ControlBits(p.mode, p.previous, p.registerSet) * 0x40 + p.priority, w % 0x20);
  }

  lemma ModesOf(w: Word)
    ensures Decode(w).mode == w / 0x4000 && Decode(w).previous == w / 0x1000 % 4
  {
    QuotientIs(w, 0x4000, w / 0x800 / 8, w / 0x800 % 8 * 0x800 + w % 0x800);
    QuotientIs(w, 0x1000, w / 0x800 / 2, w / 0x800 % 2 * 0x800 + w % 0x800);
  }

  lemma LowFive(high: nat, low: nat)
    requires low < 0x20
    ensures (high * 0x20 + low) % 0x20 == low
  {
    QuotientIs(high * 0x20 + low, 0x20, high, low);
  }
}
