/** Page map entries (src/drivers/mmu_reg.h, src/drivers/mmu.c; Intel SDM volume 3A, sections 4.5 and 4.6). */
module Entries {
  import opened Words

  const REG_PRESENT: u64 := 0x01
  const REG_WRITE: u64 := 0x02
  const REG_USER: u64 := 0x04
  const REG_WRITE_THROUGH: u64 := 0x08
  const REG_PAGE_SIZE: u64 := 0x80
  const REG_NO_EXECUTE: u64 := 0x8000_0000_0000_0000
  const PHYS_ADDRESS_MASK: u64 := 0x000f_ffff_ffff_f000

  /** `enum mmu_flags` as a word of bits: MEMORY_USER = 1, MEMORY_EXEC = 2, MEMORY_WRITE = 4,
      MEMORY_CACHE_WRITE_THROUGH = 8. */
  const MEMORY_USER := 1
  const MEMORY_EXEC := 2
  const MEMORY_WRITE := 4
  const MEMORY_CACHE_WRITE_THROUGH := 8

  predicate Present(w: u64) { BitAnd(w, REG_PRESENT) != 0 }

  predicate Large(w: u64) { BitAnd(w, REG_PAGE_SIZE) != 0 }

  predicate User(w: u64) { BitAnd(w, REG_USER) != 0 }

  predicate Writable(w: u64) { BitAnd(w, REG_WRITE) != 0 }

  predicate WriteThrough(w: u64) { BitAnd(w, REG_WRITE_THROUGH) != 0 }

  predicate NoExecute(w: u64) { BitAnd(w, REG_NO_EXECUTE) != 0 }

  function PhysAddr(w: u64): (a: u64)
  {
    AndBound(w, PHYS_ADDRESS_MASK);
    BitAnd(w, PHYS_ADDRESS_MASK)
  }

  /** `convert_flags` (lines 54-67). */
  function ConvertFlags(flags: nat): u64 {
    var f1 := REG_PRESENT;
    var f2 := OrIf(BitAnd(flags, MEMORY_USER) != 0, f1, REG_USER);
    var f3 := OrIf(BitAnd(flags, MEMORY_CACHE_WRITE_THROUGH) != 0, f2, REG_WRITE_THROUGH);
    var f4 := OrIf(BitAnd(flags, MEMORY_WRITE) != 0, f3, REG_WRITE);
    OrIf(BitAnd(flags, MEMORY_EXEC) == 0, f4, REG_NO_EXECUTE)
  }

  /** `if (condition) f |= bit`. */
  function OrIf(condition: bool, f: u64, bit: u64): u64 {
    if condition then Or(f, bit) else f
  }

  function Or(a: u64, b: u64): u64
  {
    PowerValues();
    OrBound(64, a, b);
    BitOr(a, b)
  }

  /** Default permissions of table entries, user | write | present (lines 70-71). */
  function PmPerms(): u64 {
    Or(Or(REG_USER, REG_WRITE), REG_PRESENT)
  }

  /** The entry that `node_callback_reserve` stores for a table in the given frame (line 155). */
  function TableEntry(frame: nat): u64
    requires frame < 0x100_0000_0000
  {
    Or(4096 * frame, PmPerms())
  }

  /** An address field fits an entry: page aligned, below 2^52. */
  predicate PageAddress(a: nat) {
    a % 4096 == 0 && a < 0x10_0000_0000_0000
  }

  /** No bit of the address field. */
  predicate FlagsOnly(f: u64) { BitAnd(f, PHYS_ADDRESS_MASK) == 0 }

  /** `x & MMU_REG_PHYS_ADDRESS_MASK` in arithmetic. */
  lemma AddressField(w: nat)
    ensures BitAnd(w, PHYS_ADDRESS_MASK) == (w / 4096 % 0x100_0000_0000) * 4096
  {
    PowerValues();
    FieldMask(12, 40, w);
  }

  lemma AddressKept(a: nat)
    requires PageAddress(a)
    ensures BitAnd(a, PHYS_ADDRESS_MASK) == a
  {
    AddressField(a);
  }

  /** An entry gives back its address and its flags. */
  lemma Fields(a: u64, f: u64)
    requires PageAddress(a) && FlagsOnly(f)
    ensures PhysAddr(Or(a, f)) == a && BitAnd(Or(a, f), Not64(PHYS_ADDRESS_MASK)) == f
  {
    AddressKept(a);
    MaskOfOr(a, f, PHYS_ADDRESS_MASK);
  }

  /** The bits outside the address field are those of the flags. */
  lemma FlagBit(a: u64, f: u64, i: nat)
    requires PageAddress(a) && (i < 12 || i == 63)
    ensures (BitAnd(Or(a, f), Pow2(i)) != 0) == (BitAnd(f, Pow2(i)) != 0)
  {
    TestBitReadsBit(Or(a, f), i);
    TestBitReadsBit(f, i);
    BitOfOr(a, f, i);
    AddressBit(a, i);
  }

  lemma AddressBit(a: u64, i: nat)
    requires PageAddress(a) && (i < 12 || i == 63)
    ensures !Bit(a, i)
  {
    TestBitReadsBit(a, i);
    if i < 12 {
      PowerValues();
      BitOfLow(12, a, i);
      BitOfZero(i);
    } else {
      PowerValues();
      BitAboveBound(52, a, 63);
    }
  }

  /** Bit i < n of x is bit i of x % 2^n. */
  lemma {:induction false} BitOfLow(n: nat, x: nat, i: nat)
    requires i < n
    ensures Bit(x, i) == Bit(x % Pow2(n), i)
  {
    LowMask(n, x);
    BitOfAnd(x, Pow2(n) - 1, i);
    BitOfOnes(n, i);
  }

  lemma {:induction false} BitAboveBound(n: nat, x: nat, i: nat)
    requires x < Pow2(n) && n <= i
    ensures !Bit(x, i)
  {
    if i == 0 {
    } else if n == 0 {
      BitOfZero(i);
    } else {
      BitAboveBound(n - 1, x / 2, i - 1);
    }
  }

  lemma MaskConstants()
    ensures Pow2(0) == REG_PRESENT && Pow2(1) == REG_WRITE && Pow2(2) == REG_USER
    ensures Pow2(3) == REG_WRITE_THROUGH && Pow2(7) == REG_PAGE_SIZE && Pow2(63) == REG_NO_EXECUTE
  {
    PowerValues();
  }

  /** `convert_flags` sets exactly the bits asked for and never an address bit. */
  lemma ConvertedFlags(flags: nat)
    ensures var f := ConvertFlags(flags);
      && FlagsOnly(f) && Present(f) && !Large(f)
      && (User(f) <==> BitAnd(flags, MEMORY_USER) != 0)
      && (Writable(f) <==> BitAnd(flags, MEMORY_WRITE) != 0)
      && (NoExecute(f) <==> BitAnd(flags, MEMORY_EXEC) == 0)
      && (WriteThrough(f) <==> BitAnd(flags, MEMORY_CACHE_WRITE_THROUGH) != 0)
  {
    var user, through := BitAnd(flags, MEMORY_USER) != 0, BitAnd(flags, MEMORY_CACHE_WRITE_THROUGH) != 0;
    var write, noExec := BitAnd(flags, MEMORY_WRITE) != 0, BitAnd(flags, MEMORY_EXEC) == 0;
    var f1 := REG_PRESENT;
    var f2 := OrIf(user, f1, REG_USER);
    var f3 := OrIf(through, f2, REG_WRITE_THROUGH);
    var f4 := OrIf(write, f3, REG_WRITE);
    var f := OrIf(noExec, f4, REG_NO_EXECUTE);
    MaskConstants();
    hide BitAnd, BitOr, Pow2, Bit, OrIf, Or;
    OneFlag(0);
    OrFlag(user, f1, 2);
    OrFlag(through, f2, 3);
    OrFlag(write, f3, 1);
    OrFlag(noExec, f4, 63);
    forall k: nat
      ensures FlagAt(f, k) ==
              ((noExec && k == 63) || (write && k == 1) || (through && k == 3) || (user && k == 2) || k == 0) {
      assert FlagAt(f, k) == ((noExec && k == 63) || FlagAt(f4, k));
      assert FlagAt(f4, k) == ((write && k == 1) || FlagAt(f3, k));
      assert FlagAt(f3, k) == ((through && k == 3) || FlagAt(f2, k));
      assert FlagAt(f2, k) == ((user && k == 2) || FlagAt(f1, k));
      assert FlagAt(f1, k) == (k == 0);
    }
    assert FlagAt(f, 0) && !FlagAt(f, 7) && FlagAt(f, 2) == user && FlagAt(f, 1) == write && FlagAt(f, 3) == through
      && FlagAt(f, 63) == noExec;
  }

  ghost predicate FlagAt(f: u64, k: nat) { BitAnd(f, Pow2(k)) != 0 }

  lemma PowerIsFlag(i: nat)
    requires i in {0, 1, 2, 3, 63}
    ensures Pow2(i) < WORD && FlagsOnly(Pow2(i))
  {
    MaskConstants();
    AddressField(Pow2(i));
    hide BitAnd, Pow2;
    if i == 63 { assert 0x8000_0000_0000_0000 / 4096 % 0x100_0000_0000 == 0; }
  }

  lemma OneFlag(i: nat)
    requires i in {0, 1, 2, 3, 63}
    ensures Pow2(i) < WORD && FlagsOnly(Pow2(i))
    ensures forall k {:trigger FlagAt(Pow2(i), k)} :: FlagAt(Pow2(i), k) == (k == i)
  {
    PowerIsFlag(i);
    forall k ensures FlagAt(Pow2(i), k) == (k == i) {
      TestBitReadsBit(Pow2(i), k);
      BitOfPow2(i, k);
    }
  }

  lemma OrFlag(c: bool, f: u64, i: nat)
    requires i in {0, 1, 2, 3, 63} && FlagsOnly(f)
    ensures Pow2(i) < WORD && FlagsOnly(OrIf(c, f, Pow2(i)))
    ensures forall k {:trigger FlagAt(OrIf(c, f, Pow2(i)), k)} ::
              FlagAt(OrIf(c, f, Pow2(i)), k) == ((c && k == i) || FlagAt(f, k))
  {
    OneFlag(i);
    OrKeepsClear(f, Pow2(i), PHYS_ADDRESS_MASK);
    hide BitAnd, BitOr, Pow2, Bit;
    forall k ensures FlagAt(OrIf(c, f, Pow2(i)), k) == ((c && k == i) || FlagAt(f, k)) {
      assert FlagAt(Pow2(i), k) == (k == i);
      TestBitReadsBit(Or(f, Pow2(i)), k);
      TestBitReadsBit(f, k);
      TestBitReadsBit(Pow2(i), k);
      BitOfOr(f, Pow2(i), k);
    }
  }

  /** An entry's present, large, user, write, write-through and no-execute bits are those of its flags. */
  lemma Rights(a: u64, f: u64)
    requires PageAddress(a)
    ensures var w := Or(a, f);
      && Present(w) == Present(f) && Large(w) == Large(f) && User(w) == User(f)
      && Writable(w) == Writable(f) && WriteThrough(w) == WriteThrough(f) && NoExecute(w) == NoExecute(f)
  {
    MaskConstants();
    hide BitAnd, BitOr, Pow2, Bit, Or;
    FlagBit(a, f, 0);
    FlagBit(a, f, 1);
    FlagBit(a, f, 2);
    FlagBit(a, f, 3);
    FlagBit(a, f, 7);
    FlagBit(a, f, 63);
  }

  lemma TablePermissions()
    ensures var f := PmPerms();
      FlagsOnly(f) && Present(f) && !Large(f) && User(f) && Writable(f) && !NoExecute(f)
  {
    MaskConstants();
    hide BitAnd, BitOr, Pow2, Bit, Or;
    OneFlag(2);
    OrFlag(true, REG_USER, 1);
    OrFlag(true, Or(REG_USER, REG_WRITE), 0);
    var f := PmPerms();
    forall k: nat ensures FlagAt(f, k) == (k == 0 || k == 1 || k == 2) {
      assert FlagAt(OrIf(true, Or(REG_USER, REG_WRITE), Pow2(0)), k) ==
        (k == 0 || FlagAt(OrIf(true, REG_USER, Pow2(1)), k));
      assert FlagAt(OrIf(true, REG_USER, Pow2(1)), k) == (k == 1 || FlagAt(Pow2(2), k));
    }
    assert FlagAt(f, 0) && FlagAt(f, 1) && FlagAt(f, 2) && !FlagAt(f, 7) && !FlagAt(f, 63);
  }

  /** A table entry leads to its frame and restricts nothing. */
  lemma TableEntryFields(frame: nat)
    requires frame < 0x100_0000_0000
    ensures var w := TableEntry(frame);
      && PhysAddr(w) == 4096 * frame
      && Present(w) && !Large(w) && User(w) && Writable(w) && !NoExecute(w)
  {
    TablePermissions();
    Fields(4096 * frame, PmPerms());
    Rights(4096 * frame, PmPerms());
  }

  lemma ZeroEntry()
    ensures !Present(0)
  {
  }

  // ------------------------------------------------------------------ entries as numbers

  /** The bit of a flag as a number. */
  lemma FlagDigit(flags: nat)
    ensures BitAnd(flags, 1) != 0 <==> flags % 2 == 1
    ensures BitAnd(flags, 2) != 0 <==> flags / 2 % 2 == 1
    ensures BitAnd(flags, 4) != 0 <==> flags / 4 % 2 == 1
    ensures BitAnd(flags, 8) != 0 <==> flags / 8 % 2 == 1
    ensures BitAnd(flags, 0x80) != 0 <==> flags / 0x80 % 2 == 1
  {
    MaskConstants();
    hide BitAnd, Pow2, Bit;
    TestDigit(flags, 0);
    TestDigit(flags, 1);
    TestDigit(flags, 2);
    TestDigit(flags, 3);
    TestDigit(flags, 7);
  }

  lemma TestDigit(w: nat, i: nat)
    ensures BitAnd(w, Pow2(i)) != 0 <==> w / Pow2(i) % 2 == 1
  {
    TestBitReadsBit(w, i);
    BitIs(w, i);
  }

  lemma AddFlag(c: bool, f: u64, i: nat)
    requires i in {0, 1, 2, 3, 63} && !FlagAt(f, i)
    ensures Pow2(i) < WORD && OrIf(c, f, Pow2(i)) == f + if c then Pow2(i) else 0
  {
    MaskConstants();
    OrSum(f, Pow2(i));
  }

  /** The word that `convert_flags` makes of MEMORY_USER = 1, MEMORY_EXEC = 2, MEMORY_WRITE = 4 and
      MEMORY_CACHE_WRITE_THROUGH = 8. */
  lemma ConvertedValue(flags: nat)
    ensures ConvertFlags(flags) ==
            1 + (if flags % 2 == 1 then 4 else 0) + (if flags / 8 % 2 == 1 then 8 else 0)
            + (if flags / 4 % 2 == 1 then 2 else 0) + (if flags / 2 % 2 == 1 then 0 else 0x8000_0000_0000_0000)
  {
    var user, through := BitAnd(flags, MEMORY_USER) != 0, BitAnd(flags, MEMORY_CACHE_WRITE_THROUGH) != 0;
    var write, noExec := BitAnd(flags, MEMORY_WRITE) != 0, BitAnd(flags, MEMORY_EXEC) == 0;
    var f1 := REG_PRESENT;
    var f2 := OrIf(user, f1, REG_USER);
    var f3 := OrIf(through, f2, REG_WRITE_THROUGH);
    var f4 := OrIf(write, f3, REG_WRITE);
    MaskConstants();
    FlagDigit(flags);
    hide BitAnd, BitOr, Pow2, Bit, OrIf, Or;
    OneFlag(0);
    OrFlag(user, f1, 2);
    OrFlag(through, f2, 3);
    OrFlag(write, f3, 1);
    assert forall k: nat :: FlagAt(f1, k) == (k == 0);
    AddFlag(user, f1, 2);
    assert forall k: nat :: FlagAt(f2, k) == ((user && k == 2) || FlagAt(f1, k));
    AddFlag(through, f2, 3);
    assert forall k: nat :: FlagAt(f3, k) == ((through && k == 3) || FlagAt(f2, k));
    AddFlag(write, f3, 1);
    assert forall k: nat :: FlagAt(f4, k) == ((write && k == 1) || FlagAt(f3, k));
    AddFlag(noExec, f4, 63);
  }

  /** An address and flags apart from its field are added. */
  lemma EntrySum(a: u64, f: u64)
    requires PageAddress(a) && FlagsOnly(f)
    ensures Or(a, f) == a + f
  {
    AddressKept(a);
    DisjointFields(a, f, PHYS_ADDRESS_MASK);
    OrSum(a, f);
  }

  /** A table entry is its frame's address with present, write and user. */
  lemma TableEntryValue(frame: nat)
    requires frame < 0x100_0000_0000
    ensures TableEntry(frame) == 4096 * frame + 7
  {
    TablePermissions();
    EntrySum(4096 * frame, PmPerms());
    assert PmPerms() == 7;
  }

  /** What a word says as an entry: bits 12 to 51 are the address, bit 0 means present, bit 1 writable, bit 2 user,
      bit 3 write-through, bit 7 large and bit 63 no-execute. */
  lemma EntryBits(w: u64)
    ensures PhysAddr(w) == w / 4096 % 0x100_0000_0000 * 4096
    ensures Present(w) <==> w % 2 == 1
    ensures Writable(w) <==> w / 2 % 2 == 1
    ensures User(w) <==> w / 4 % 2 == 1
    ensures WriteThrough(w) <==> w / 8 % 2 == 1
    ensures Large(w) <==> w / 0x80 % 2 == 1
    ensures NoExecute(w) <==> w >= 0x8000_0000_0000_0000
  {
    hide BitAnd, Pow2;
    AddressField(w);
    FlagDigit(w);
    TopBit(w);
  }

  lemma TopBit(w: u64)
    ensures NoExecute(w) <==> w >= 0x8000_0000_0000_0000
  {
    MaskConstants();
    TestDigit(w, 63);
    hide BitAnd, Pow2;
  }
}
