/** Interrupt priorities, packed four to a register word, and their split into
    preemption and subpriority fields.  All arithmetic is on 32-bit words, as in C:
    a negative interrupt number is its two's complement. */
module Nvic {
  type Word = bv32

  const BYTE: Word := 0xFF

  predicate IsDeviceIrq(irq: Word) {
    irq & 0x8000_0000 == 0
  }

  /** The interrupts that have a priority register: 0..31, and the system handlers
      -8..-1. */
  predicate HasPriority(irq: Word) {
    irq < 32 || irq >= 0xFFFF_FFF8
  }

  function BitShift(irq: Word): (s: Word)
    ensures s <= 24
  {
    (irq & 3) * 8
  }

  function ShpIdx(irq: Word): Word {
    ((irq & 0x0F) - 8) >> 2
  }

  function IpIdx(irq: Word): Word {
    irq >> 2
  }

  /** The word a register holds after the byte at `shift` is replaced. */
  function PutByte(w: Word, shift: Word, b: Word): Word
    requires shift <= 24
  {
    (w & !(BYTE << shift)) | ((b & BYTE) << shift)
  }

  function GetByte(w: Word, shift: Word): Word
    requires shift <= 24
  {
    (w >> shift) & BYTE
  }

  /** The low `n` bits. */
  function Low(n: Word): Word
    requires n <= 8
  {
    ((1 as Word) << n) - 1
  }

  predicate IsLane(shift: Word) {
    shift == 0 || shift == 8 || shift == 16 || shift == 24
  }

  lemma ShiftIsLane(irq: Word)
    ensures IsLane(BitShift(irq))
  {
  }

  /** The byte put in one lane is read back, and the other three lanes of the word are
      not disturbed. */
  lemma ByteLanes(w: Word, s: Word, b: Word, t: Word)
    requires IsLane(s) && IsLane(t)
    ensures GetByte(PutByte(w, s, b), t) == if t == s then b & BYTE else GetByte(w, t)
  {
    if s == 0 {
      LowLane(w, b);
    } else if s == 8 {
      SecondLane(w, b);
    } else if s == 16 {
      ThirdLane(w, b);
    } else {
      TopLane(w, b);
    }
  }

  lemma LowLane(w: Word, b: Word)
    ensures var r := (w & 0xFFFF_FF00) | (b & 0xFF);
            && r & 0xFF == b & 0xFF
            && (r >> 8) & 0xFF == (w >> 8) & 0xFF
            && (r >> 16) & 0xFF == (w >> 16) & 0xFF
            && (r >> 24) & 0xFF == (w >> 24) & 0xFF
  {
  }

  lemma SecondLane(w: Word, b: Word)
    ensures var r := (w & 0xFFFF_00FF) | ((b & 0xFF) << 8);
            && r & 0xFF == w & 0xFF
            && (r >> 8) & 0xFF == b & 0xFF
            && (r >> 16) & 0xFF == (w >> 16) & 0xFF
            && (r >> 24) & 0xFF == (w >> 24) & 0xFF
  {
  }

  lemma ThirdLane(w: Word, b: Word)
    ensures var r := (w & 0xFF00_FFFF) | ((b & 0xFF) << 16);
            && r & 0xFF == w & 0xFF
            && (r >> 8) & 0xFF == (w >> 8) & 0xFF
            && (r >> 16) & 0xFF == b & 0xFF
            && (r >> 24) & 0xFF == (w >> 24) & 0xFF
  {
  }

  lemma TopLane(w: Word, b: Word)
    ensures var r := (w & 0x00FF_FFFF) | ((b & 0xFF) << 24);
            && r & 0xFF == w & 0xFF
            && (r >> 8) & 0xFF == (w >> 8) & 0xFF
            && (r >> 16) & 0xFF == (w >> 16) & 0xFF
            && (r >> 24) & 0xFF == b & 0xFF
  {
  }

  predicate SameRegister(irq: Word, other: Word) {
    IsDeviceIrq(irq) == IsDeviceIrq(other)
    && if IsDeviceIrq(irq) then IpIdx(irq) == IpIdx(other) else ShpIdx(irq) == ShpIdx(other)
  }

  /** Different interrupts in one register use different bytes of it. */
  lemma OwnByte(irq: Word, other: Word)
    requires HasPriority(irq) && HasPriority(other) && irq != other && SameRegister(irq, other)
    ensures BitShift(irq) != BitShift(other)
  {
  }

  lemma IndexInRange(irq: Word)
    requires HasPriority(irq)
    ensures if IsDeviceIrq(irq) then IpIdx(irq) < 8 else ShpIdx(irq) < 2
  {
  }

  /** The stored byte keeps the low `bits` bits of the priority. */
  lemma KeptBits(priority: Word, bits: Word)
    requires 1 <= bits <= 8
    ensures (((priority << (8 - bits)) & BYTE) & BYTE) >> (8 - bits) == (priority & Low(bits))
  {
  }

  /** A register index as a sequence index. */
  function Index(i: Word): (n: nat)
    requires i < 8
    ensures n < 8 && (i < 2 ==> n < 2)
  {
    if i == 0 then 0 else if i == 1 then 1 else if i == 2 then 2 else if i == 3 then 3
    else if i == 4 then 4 else if i == 5 then 5 else if i == 6 then 6 else 7
  }

  /** Register `n` of the file is the `n`-th. */
  lemma IndexIs()
    ensures Index(0) == 0 && Index(1) == 1 && Index(2) == 2 && Index(3) == 3
    ensures Index(4) == 4 && Index(5) == 5 && Index(6) == 6 && Index(7) == 7
  {
  }

  lemma IndexInjective(i: Word, j: Word)
    requires i < 8 && j < 8 && i != j
    ensures Index(i) != Index(j)
  {
  }

  /** The priority registers: eight words for the device, two for the system handlers. */
  datatype Registers = Registers(ip: seq<Word>, shp: seq<Word>)

  predicate Complete(r: Registers) {
    |r.ip| == 8 && |r.shp| == 2
  }

  /** The register word that holds the byte of `irq`. */
  function RegOf(r: Registers, irq: Word): Word
    requires Complete(r) && HasPriority(irq)
  {
    IndexInRange(irq);
    if IsDeviceIrq(irq) then r.ip[Index(IpIdx(irq))] else r.shp[Index(ShpIdx(irq))]
  }

  function SetReg(r: Registers, irq: Word, w: Word): (s: Registers)
    requires Complete(r) && HasPriority(irq)
    ensures Complete(s)
  {
    IndexInRange(irq);
    if IsDeviceIrq(irq) then r.(ip := r.ip[Index(IpIdx(irq)) := w]) else r.(shp := r.shp[Index(ShpIdx(irq)) := w])
  }

  lemma RegAfterSet(r: Registers, irq: Word, w: Word, other: Word)
    requires Complete(r) && HasPriority(irq) && HasPriority(other)
    ensures RegOf(SetReg(r, irq, w), other) == if SameRegister(irq, other) then w else RegOf(r, other)
  {
    IndexInRange(irq);
    IndexInRange(other);
    if !SameRegister(irq, other) && IsDeviceIrq(irq) == IsDeviceIrq(other) {
      if IsDeviceIrq(irq) {
        IndexInjective(IpIdx(irq), IpIdx(other));
      } else {
        IndexInjective(ShpIdx(irq), ShpIdx(other));
      }
    }
  }

  /** The byte stored for a priority. */
  function ByteFor(bits: Word, priority: Word): Word
    requires 1 <= bits <= 8
  {
    (priority << (8 - bits)) & BYTE
  }

  function PriorityIn(w: Word, bits: Word, shift: Word): Word
    requires 1 <= bits <= 8 && shift <= 24
  {
    GetByte(w, shift) >> (8 - bits)
  }

  function Priority(r: Registers, bits: Word, irq: Word): Word
    requires Complete(r) && 1 <= bits <= 8 && HasPriority(irq)
  {
    PriorityIn(RegOf(r, irq), bits, BitShift(irq))
  }

  function WithPriority(r: Registers, bits: Word, irq: Word, priority: Word): (s: Registers)
    requires Complete(r) && 1 <= bits <= 8 && HasPriority(irq)
    ensures Complete(s)
  {
    SetReg(r, irq, PutByte(RegOf(r, irq), BitShift(irq), ByteFor(bits, priority)))
  }

  /** Interrupt `irq` owns bits 8·(irq mod 4) to 8·(irq mod 4) + 7 of register irq / 4, and
      a set leaves the priority's implemented bits there, at the top. */
  lemma DeviceByte(r: Registers, bits: Word, irq: Word, priority: Word)
    requires Complete(r) && 1 <= bits <= 8 && irq < 32
    ensures irq >> 2 < 8
    ensures (WithPriority(r, bits, irq, priority).ip[Index(irq >> 2)] >> ((irq & 3) * 8)) & 0xFF
         == (priority << (8 - bits)) & 0xFF
  {
    DeviceRange(irq);
    ShiftIsLane(irq);
    var b := ByteFor(bits, priority);
    ByteLanes(RegOf(r, irq), BitShift(irq), b, BitShift(irq));
    MaskTwice(priority << (8 - bits), BYTE);
  }

  lemma DeviceRange(irq: Word)
    requires irq < 32
    ensures IsDeviceIrq(irq) && HasPriority(irq) && irq >> 2 < 8
  {
  }

  /** A system handler's byte, by the low four bits of its number. */
  lemma SystemByte(r: Registers, bits: Word, irq: Word, priority: Word)
    requires Complete(r) && 1 <= bits <= 8 && irq >= 0xFFFF_FFF8
    ensures ((irq & 0xF) - 8) >> 2 < 2
    ensures (WithPriority(r, bits, irq, priority).shp[Index(((irq & 0xF) - 8) >> 2)] >> ((irq & 3) * 8)) & 0xFF
         == (priority << (8 - bits)) & 0xFF
  {
    SystemRange(irq);
    ShiftIsLane(irq);
    var b := ByteFor(bits, priority);
    ByteLanes(RegOf(r, irq), BitShift(irq), b, BitShift(irq));
    MaskTwice(priority << (8 - bits), BYTE);
  }

  lemma SystemRange(irq: Word)
    requires irq >= 0xFFFF_FFF8
    ensures !IsDeviceIrq(irq) && HasPriority(irq) && ((irq & 0xF) - 8) >> 2 < 2
  {
  }

  lemma LaneAfterPut(w: Word, bits: Word, s: Word, priority: Word, t: Word)
    requires 1 <= bits <= 8 && IsLane(s) && IsLane(t)
    ensures PriorityIn(PutByte(w, s, ByteFor(bits, priority)), bits, t)
         == if t == s then priority & Low(bits) else PriorityIn(w, bits, t)
  {
    ByteLanes(w, s, ByteFor(bits, priority), t);
    KeptBits(priority, bits);
  }

  /** Setting one priority sets that one, to its low bits, and no other. */
  lemma SetOne(r: Registers, bits: Word, irq: Word, priority: Word, other: Word)
    requires Complete(r) && 1 <= bits <= 8 && HasPriority(irq) && HasPriority(other)
    ensures Priority(WithPriority(r, bits, irq, priority), bits, other)
         == if other == irq then priority & Low(bits) else Priority(r, bits, other)
  {
    var w, s, t := RegOf(r, irq), BitShift(irq), BitShift(other);
    var put := PutByte(w, s, ByteFor(bits, priority));
    RegAfterSet(r, irq, put, other);
    if SameRegister(irq, other) {
      ShiftIsLane(irq);
      ShiftIsLane(other);
      LaneAfterPut(w, bits, s, priority, t);
      SameBytes(irq, other);
    } else {
      assert irq != other;
    }
  }

  lemma SameBytes(irq: Word, other: Word)
    requires HasPriority(irq) && HasPriority(other) && SameRegister(irq, other)
    ensures other == irq <==> BitShift(other) == BitShift(irq)
  {
    if other != irq {
      OwnByte(irq, other);
    }
  }

  /** The code, on the memory-mapped registers. */
  class Controller {
    const bits: Word
    var regs: Registers

    ghost predicate Valid()
      reads this
    {
      1 <= bits <= 8 && Complete(regs)
    }

    constructor (bits: Word)
      requires 1 <= bits <= 8
      ensures Valid() && this.bits == bits
    {
      this.bits := bits;
      regs := Registers([0, 0, 0, 0, 0, 0, 0, 0], [0, 0]);
    }

    /** `SetOne` says what this means for every interrupt. */
    method SetPriority(irq: Word, priority: Word)
      requires Valid() && HasPriority(irq)
      modifies this
      ensures Valid() && regs == WithPriority(old(regs), bits, irq, priority)
    {
      IndexInRange(irq);
      var b := ByteFor(bits, priority);
      if IsDeviceIrq(irq) {
        var i := Index(IpIdx(irq));
        regs := regs.(ip := regs.ip[i := PutByte(regs.ip[i], BitShift(irq), b)]);
      } else {
        var i := Index(ShpIdx(irq));
        regs := regs.(shp := regs.shp[i := PutByte(regs.shp[i], BitShift(irq), b)]);
      }
    }

    method GetPriority(irq: Word) returns (priority: Word)
      requires Valid() && HasPriority(irq)
      ensures priority == Priority(regs, bits, irq)
    {
      priority := PriorityIn(RegOf(regs, irq), bits, BitShift(irq));
    }
  }

  // ----- runs of SetPriority -----

  predicate AllHavePriority(sets: seq<(Word, Word)>) {
    forall i | 0 <= i < |sets| :: HasPriority(sets[i].0)
  }

  function AfterSets(r: Registers, bits: Word, sets: seq<(Word, Word)>): (s: Registers)
    requires Complete(r) && 1 <= bits <= 8 && AllHavePriority(sets)
    ensures Complete(s)
  {
    if sets == [] then r else
      WithPriority(AfterSets(r, bits, sets[..|sets| - 1]), bits, sets[|sets| - 1].0, sets[|sets| - 1].1)
  }

  /** The registers are a map from interrupts to priorities: after any run of calls an
      interrupt has the last priority set for it, cut to the implemented bits. */
  function LastSet(before: Word, bits: Word, sets: seq<(Word, Word)>, irq: Word): Word
    requires bits <= 8
  {
    if sets == [] then before
    else if sets[|sets| - 1].0 == irq then sets[|sets| - 1].1 & Low(bits)
    else LastSet(before, bits, sets[..|sets| - 1], irq)
  }

  lemma {:induction false} RegistersAreAMap(r: Registers, bits: Word, sets: seq<(Word, Word)>, irq: Word)
    requires Complete(r) && 1 <= bits <= 8 && AllHavePriority(sets) && HasPriority(irq)
    ensures Priority(AfterSets(r, bits, sets), bits, irq) == LastSet(Priority(r, bits, irq), bits, sets, irq)
  {
    if sets != [] {
      var n := |sets| - 1;
      RegistersAreAMap(r, bits, sets[..n], irq);
      SetOne(AfterSets(r, bits, sets[..n]), bits, sets[n].0, sets[n].1, irq);
    }
  }

  // ----- priority fields -----

  function PreemptBits(group: Word, bits: Word): (n: Word)
    requires bits <= 8
    ensures n <= 7
  {
    var g := group & 7;
    if 7 - g > bits then bits else 7 - g
  }

  function SubBits(group: Word, bits: Word): (n: Word)
    requires bits <= 8
    ensures n <= 8
  {
    var g := group & 7;
    if g + bits < 7 then 0 else (g - 7) + bits
  }

  function EncodePriority(group: Word, bits: Word, preempt: Word, sub: Word): Word
    requires bits <= 8
  {
    ((preempt & Low(PreemptBits(group, bits))) << SubBits(group, bits)) | (sub & Low(SubBits(group, bits)))
  }

  /** The two fields that encode to the priority, cut to the implemented bits; each fits
      its width, so there are no others (`DecodeOfEncode`). */
  method DecodePriority(priority: Word, group: Word, bits: Word) returns (preempt: Word, sub: Word)
    requires bits <= 8
    ensures EncodePriority(group, bits, preempt, sub) == priority & Low(bits)
    ensures preempt <= Low(PreemptBits(group, bits)) && sub <= Low(SubBits(group, bits))
  {
    preempt := (priority >> SubBits(group, bits)) & Low(PreemptBits(group, bits));
    sub := priority & Low(SubBits(group, bits));
    EncodeOfDecode(group, bits, priority);
    MaskBound(priority >> SubBits(group, bits), Low(PreemptBits(group, bits)));
    MaskBound(priority, Low(SubBits(group, bits)));
  }

  lemma MaskBound(x: Word, m: Word)
    ensures x & m <= m
  {
  }

  /** The two fields share the implemented bits, with the unsigned arithmetic wrapping. */
  lemma FieldWidths(group: Word, bits: Word)
    requires bits <= 8
    ensures PreemptBits(group, bits) + SubBits(group, bits) == bits
  {
  }

  /** The preemption field takes what the group leaves it, or all implemented bits. */
  lemma PreemptIsLeast(group: Word, bits: Word)
    requires bits <= 8
    ensures var n, left := PreemptBits(group, bits), 7 - (group & 7);
            n <= bits && n <= left && (n == bits || n == left)
  {
  }

  lemma FieldsApart(p: Word, s: Word, m: Word, n: Word)
    requires m <= 7 && n <= 8
    ensures ((((p & Low(m)) << n) | (s & Low(n))) >> n) & Low(m) == p & Low(m)
    ensures (((p & Low(m)) << n) | (s & Low(n))) & Low(n) == s & Low(n)
  {
  }

  lemma MaskTwice(x: Word, m: Word)
    ensures (x & m) & m == x & m
  {
  }

  lemma FieldsTogether(x: Word, m: Word, n: Word)
    requires m <= 7 && n <= 8 && m + n <= 8
    ensures (((x >> n) & Low(m)) << n) | (x & Low(n)) == x & Low(m + n)
  {
    if n <= 3 {
    } else {
    }
  }

  /** Decoding an encoded priority gives both fields back, cut to their widths. */
  lemma DecodeOfEncode(group: Word, bits: Word, preempt: Word, sub: Word)
    requires bits <= 8
    ensures var x := EncodePriority(group, bits, preempt, sub);
            && (x >> SubBits(group, bits)) & Low(PreemptBits(group, bits)) == preempt & Low(PreemptBits(group, bits))
            && x & Low(SubBits(group, bits)) == sub & Low(SubBits(group, bits))
  {
    FieldWidths(group, bits);
    FieldsApart(preempt, sub, PreemptBits(group, bits), SubBits(group, bits));
  }

  /** Encoding decoded fields gives the priority back, cut to the implemented bits. */
  lemma EncodeOfDecode(group: Word, bits: Word, x: Word)
    requires bits <= 8
    ensures EncodePriority(group, bits, (x >> SubBits(group, bits)) & Low(PreemptBits(group, bits)),
                           x & Low(SubBits(group, bits)))
         == x & Low(bits)
  {
    FieldWidths(group, bits);
    var m, n := PreemptBits(group, bits), SubBits(group, bits);
    MaskTwice(x >> n, Low(m));
    MaskTwice(x, Low(n));
    FieldsTogether(x, m, n);
  }
}
