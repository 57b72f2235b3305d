/**
 * The architectural state of the 32-bit x86 emulator and the operations of emulator_function.c
 * on it: code-stream fetch relative to EIP, the register file with its legacy 8-bit aliases,
 * byte and little-endian dword memory access, the descending stack, the four status-flag
 * setters and predicates, and the flag update after a subtraction.
 *
 * Addresses and register indices are not checked by the emulator; here every operation requires
 * them in range, as its callers (the instruction decoder) guarantee.
 */
module EmulatorFunction {
  import opened Bytes
  import opened Eflags
  import opened SubtractionFlags

  /** Register index of ESP, the top of the stack. */
  const ESP: nat := 4

  /** The flag positions this core maintains; every other EFLAGS bit is left alone. */
  const STATUS_BITS: set<nat> := {CARRY_BIT, ZERO_BIT, SIGN_BIT, OVERFLOW_BIT}

  /**
   * The 32-bit register an 8-bit register index refers to (Intel SDM Vol. 1, section 3.4.1):
   * AL, CL, DL, BL (0-3) are the low bytes of EAX, ECX, EDX, EBX and AH, CH, DH, BH (4-7) the
   * second bytes of the same four registers.
   */
  function ByteRegisterHost(index: nat): nat
    requires index < 8
  {
    if index < 4 then index else index - 4
  }

  /** Which byte of its host register an 8-bit register is: 0 for AL..BL, 1 for AH..BH. */
  function ByteRegisterLane(index: nat): nat
    requires index < 8
  {
    if index < 4 then 0 else 1
  }

  /** `(w & 0xffffff00) | v`: the word with its low byte replaced by `v`; bits 8..31 are kept. */
  function WithLowByte(w: u32, v: u8): (r: u32)
    ensures r % 0x100 == v
    ensures r / 0x100 == w / 0x100
  {
    w - w % 0x100 + v
  }

  /** `(w & 0xffff00ff) | (v << 8)`: the word with bits 8..15 replaced by `v`; bits 0..7 and 16..31 are kept. */
  function WithSecondByte(w: u32, v: u8): (r: u32)
    ensures r / 0x100 % 0x100 == v
    ensures r % 0x100 == w % 0x100
    ensures r / 0x1_0000 == w / 0x1_0000
  {
    w - w / 0x100 % 0x100 * 0x100 + v * 0x100
  }

  class Emulator {
    /** Flat byte-addressed memory holding code and data. */
    const memory: array<u8>
    /** EAX, ECX, EDX, EBX, ESP, EBP, ESI, EDI. */
    const registers: array<u32>
    var eip: u32
    var eflags: u32

    /** Eight registers, and every byte of memory has a 32-bit address. */
    ghost predicate Valid()
    {
      registers.Length == 8 && memory.Length <= 0x1_0000_0000
    }

    /** A machine with `size` bytes of zeroed memory, zeroed registers except ESP, and clear flags. */
    constructor (size: nat, initialEip: u32, initialEsp: u32)
      requires size <= 0x1_0000_0000
      ensures Valid() && fresh(memory) && fresh(registers)
      ensures memory[..] == seq(size, _ => 0)
      ensures registers[..] == [0, 0, 0, 0, initialEsp, 0, 0, 0]
      ensures eip == initialEip && eflags == 0
    {
      memory := new u8[size](_ => 0);
      var regs := new u32[8](_ => 0);
      regs[ESP] := initialEsp;
      registers := regs;
      eip := initialEip;
      eflags := 0;
    }

    // ----- code-stream fetch -----

    /** get_code8: the code byte at EIP + index, zero-extended to 32 bits. */
    function GetCode8(index: int): (r: u32)
      reads this, memory
      requires 0 <= eip + index < memory.Length
      ensures r < 0x100 && r == memory[eip + index]
    {
      memory[eip + index]
    }

    /** get_sign_code8: the code byte at EIP + index read as a signed 8-bit number. */
    function GetSignCode8(index: int): (r: int)
      reads this, memory
      requires 0 <= eip + index < memory.Length
      ensures -0x80 <= r < 0x80
      ensures r % 0x100 == memory[eip + index]
    {
      Signed8(memory[eip + index])
    }

    /** get_code32: the four code bytes at EIP + index as a little-endian dword. */
    method GetCode32(index: int) returns (r: u32)
      requires 0 <= eip + index && eip + index + 3 < memory.Length
      ensures r == LittleEndian(memory[eip + index .. eip + index + 4])
    {
      var start := eip + index;
      var ret: nat := 0;
      var i := 0;
      while i < 4
        invariant 0 <= i <= 4
        invariant ret == LittleEndian(memory[start .. start + i])
        invariant ret < Pow256(i)
      {
        // `ret |= get_code8(index + i) << (i * 8)`: since ret < 256^i, the byte lands on zero bits and OR is addition
        ret := ret + GetCode8(index + i) * Pow256(i);
        assert memory[start .. start + i + 1] == memory[start .. start + i] + [memory[start + i]];
        LittleEndianSnoc(memory[start .. start + i], memory[start + i]);
        LittleEndianBound(memory[start .. start + i + 1]);
        i := i + 1;
      }
      assert Pow256(4) == 0x1_0000_0000;
      r := ret;
    }

    /** get_sign_code32: the little-endian code dword at EIP + index read as a signed 32-bit number. */
    method GetSignCode32(index: int) returns (r: int)
      requires 0 <= eip + index && eip + index + 3 < memory.Length
      ensures -0x8000_0000 <= r < 0x8000_0000
      ensures r % 0x1_0000_0000 == LittleEndian(memory[eip + index .. eip + index + 4])
    {
      var v := GetCode32(index);
      r := Signed32(v);
    }

    // ----- register file -----

    /** get_register8: 8-bit register `index`, a byte of one of EAX..EBX. */
    function GetRegister8(index: nat): (r: u8)
      reads registers
      requires Valid() && index < 8
      ensures r == ByteOf(registers[ByteRegisterHost(index)], ByteRegisterLane(index))
    {
      LowBytes(registers[ByteRegisterHost(index)]);
      if index < 4 then registers[index] % 0x100
      else registers[index - 4] / 0x100 % 0x100
    }

    /** get_register32: the whole 32-bit register; for EAX..EBX its two low bytes are the 8-bit registers. */
    function GetRegister32(index: nat): (r: u32)
      reads registers
      requires Valid() && index < 8
      ensures index < 4 ==> ByteOf(r, 0) == GetRegister8(index) && ByteOf(r, 1) == GetRegister8(index + 4)
    {
      LowBytes(registers[index]);
      registers[index]
    }

    /** set_register8: replaces one byte of a 32-bit register by a masked read-modify-write. */
    method SetRegister8(index: nat, value: u8)
      requires Valid() && index < 8
      modifies registers
      ensures GetRegister8(index) == value
      ensures forall j :: 0 <= j < 8 && j != index ==> GetRegister8(j) == old(GetRegister8(j))
      ensures index < 4 ==> registers[index] / 0x100 == old(registers[index]) / 0x100
      ensures index >= 4 ==> registers[index - 4] % 0x100 == old(registers[index - 4]) % 0x100
      ensures index >= 4 ==> registers[index - 4] / 0x1_0000 == old(registers[index - 4]) / 0x1_0000
      ensures forall j :: 0 <= j < 8 && j != ByteRegisterHost(index) ==> registers[j] == old(registers[j])
    {
      if index < 4 {
        registers[index] := WithLowByte(registers[index], value);
      } else {
        registers[index - 4] := WithSecondByte(registers[index - 4], value);
      }
    }

    /** set_register32: overwrites a whole register, so reading it back gives `value`. */
    method SetRegister32(index: nat, value: u32)
      requires Valid() && index < 8
      modifies registers
      ensures GetRegister32(index) == value
      ensures registers[..] == old(registers[..])[index := value]
    {
      registers[index] := value;
    }

    // ----- data memory -----

    /** get_memory8: the byte at `address`, zero-extended to 32 bits. */
    function GetMemory8(address: u32): (r: u32)
      reads memory
      requires address < memory.Length
      ensures r < 0x100 && r == memory[address]
    {
      memory[address]
    }

    /** set_memory8: stores the low byte of `value` at `address` and nothing else. */
    method SetMemory8(address: u32, value: u32)
      requires address < memory.Length
      modifies memory
      ensures memory[..] == old(memory[..])[address := ByteOf(value, 0)]
    {
      memory[address] := value % 0x100;
    }

    /** get_memory32: the little-endian dword at `address`. */
    method GetMemory32(address: u32) returns (r: u32)
      requires Valid() && address + 3 < memory.Length
      ensures r == LittleEndian(memory[address .. address + 4])
    {
      var ret: nat := 0;
      var i := 0;
      while i < 4
        invariant 0 <= i <= 4
        invariant ret == LittleEndian(memory[address .. address + i])
        invariant ret < Pow256(i)
      {
        // `ret |= get_memory8(address + i) << (8 * i)`: since ret < 256^i, the byte lands on zero bits and OR is addition
        ret := ret + GetMemory8(address + i) * Pow256(i);
        assert memory[address .. address + i + 1] == memory[address .. address + i] + [memory[address + i]];
        LittleEndianSnoc(memory[address .. address + i], memory[address + i]);
        LittleEndianBound(memory[address .. address + i + 1]);
        i := i + 1;
      }
      assert Pow256(4) == 0x1_0000_0000;
      r := ret;
    }

    /** set_memory32: writes byte i of `value` at address + i and leaves every other byte alone. */
    method SetMemory32(address: u32, value: u32)
      requires Valid() && address + 3 < memory.Length
      modifies memory
      ensures memory[address .. address + 4] == Encode32(value)
      ensures LittleEndian(memory[address .. address + 4]) == value
      ensures forall k :: 0 <= k < memory.Length && !(address <= k < address + 4) ==> memory[k] == old(memory[k])
    {
      var i := 0;
      while i < 4
        invariant 0 <= i <= 4
        invariant forall k :: address <= k < address + i ==> memory[k] == ByteOf(value, k - address)
        invariant forall k :: 0 <= k < memory.Length && !(address <= k < address + i) ==> memory[k] == old(memory[k])
      {
        // set_memory8(address + i, value >> (i * 8))
        SetMemory8(address + i, value / Pow256(i));
        i := i + 1;
      }
      assert memory[address .. address + 4] == Encode32(value);
    }

    // ----- stack -----

    /** push32: moves ESP down by 4 (modulo 2^32), then stores `value` at the new ESP. */
    method Push32(value: u32)
      requires Valid()
      requires Wrap32(registers[ESP] as int - 4) + 3 < memory.Length
      modifies registers, memory
      ensures registers[..] == old(registers[..])[ESP := Wrap32(old(registers[ESP]) as int - 4)]
      ensures memory[registers[ESP] .. registers[ESP] + 4] == Encode32(value)
      ensures forall k :: 0 <= k < memory.Length && !(registers[ESP] <= k < registers[ESP] as int + 4) ==> memory[k] == old(memory[k])
    {
      var address := Wrap32(GetRegister32(ESP) as int - 4);
      SetRegister32(ESP, address);
      SetMemory32(address, value);
    }

    /** pop32: reads the dword at ESP, then moves ESP up by 4 (modulo 2^32). */
    method Pop32() returns (r: u32)
      requires Valid()
      requires registers[ESP] + 3 < memory.Length
      modifies registers
      ensures r == LittleEndian(memory[old(registers[ESP]) .. old(registers[ESP]) + 4])
      ensures registers[..] == old(registers[..])[ESP := Wrap32(old(registers[ESP]) as int + 4)]
    {
      var address := GetRegister32(ESP);
      r := GetMemory32(address);
      SetRegister32(ESP, Wrap32(address as int + 4));
    }

    // ----- status flags -----

    /** is_carry: `(eflags & CARRY_FLAG) != 0`, the binary digit of EFLAGS at the flag's position. */
    predicate IsCarry()
      reads this
      ensures IsCarry() <==> eflags / Pow2(CARRY_BIT) % 2 == 1
    {
      BitIsMaskTest(eflags, CARRY_BIT);
      Bit(eflags, CARRY_BIT)
    }

    /** is_zero: `(eflags & ZERO_FLAG) != 0`, the binary digit of EFLAGS at the flag's position. */
    predicate IsZero()
      reads this
      ensures IsZero() <==> eflags / Pow2(ZERO_BIT) % 2 == 1
    {
      BitIsMaskTest(eflags, ZERO_BIT);
      Bit(eflags, ZERO_BIT)
    }

    /** is_sign: `(eflags & SIGN_FLAG) != 0`, the binary digit of EFLAGS at the flag's position. */
    predicate IsSign()
      reads this
      ensures IsSign() <==> eflags / Pow2(SIGN_BIT) % 2 == 1
    {
      BitIsMaskTest(eflags, SIGN_BIT);
      Bit(eflags, SIGN_BIT)
    }

    /** is_overflow: `(eflags & OVERFLOW_FLAG) != 0`, the binary digit of EFLAGS at the flag's position. */
    predicate IsOverflow()
      reads this
      ensures IsOverflow() <==> eflags / Pow2(OVERFLOW_BIT) % 2 == 1
    {
      BitIsMaskTest(eflags, OVERFLOW_BIT);
      Bit(eflags, OVERFLOW_BIT)
    }

    /** The four status flags as the predicates report them. */
    function StatusFlags(): Status
      reads this
    {
      Status(IsCarry(), IsZero(), IsSign(), IsOverflow())
    }

    /** set_carry: `eflags |= CARRY_FLAG` or `eflags &= ~CARRY_FLAG`; no other bit changes. */
    method SetCarry(isCarry: bool)
      modifies this`eflags
      ensures StatusFlags() == old(StatusFlags()).(carry := isCarry)
      ensures forall k :: k != CARRY_BIT ==> Bit(eflags, k) == Bit(old(eflags), k)
    {
      if isCarry {
        eflags := SetBit(eflags, CARRY_BIT);
      } else {
        eflags := ClearBit(eflags, CARRY_BIT);
      }
    }

    /** set_zero: `eflags |= ZERO_FLAG` or `eflags &= ~ZERO_FLAG`; no other bit changes. */
    method SetZero(isZero: bool)
      modifies this`eflags
      ensures StatusFlags() == old(StatusFlags()).(zero := isZero)
      ensures forall k :: k != ZERO_BIT ==> Bit(eflags, k) == Bit(old(eflags), k)
    {
      if isZero {
        eflags := SetBit(eflags, ZERO_BIT);
      } else {
        eflags := ClearBit(eflags, ZERO_BIT);
      }
    }

    /** set_overflow: `eflags |= OVERFLOW_FLAG` or `eflags &= ~OVERFLOW_FLAG`; no other bit changes. */
    method SetOverflow(isOverflow: bool)
      modifies this`eflags
      ensures StatusFlags() == old(StatusFlags()).(overflow := isOverflow)
      ensures forall k :: k != OVERFLOW_BIT ==> Bit(eflags, k) == Bit(old(eflags), k)
    {
      if isOverflow {
        eflags := SetBit(eflags, OVERFLOW_BIT);
      } else {
        eflags := ClearBit(eflags, OVERFLOW_BIT);
      }
    }

    /** set_sign: `eflags |= SIGN_FLAG` or `eflags &= ~SIGN_FLAG`; no other bit changes. */
    method SetSign(isSign: bool)
      modifies this`eflags
      ensures StatusFlags() == old(StatusFlags()).(sign := isSign)
      ensures forall k :: k != SIGN_BIT ==> Bit(eflags, k) == Bit(old(eflags), k)
    {
      if isSign {
        eflags := SetBit(eflags, SIGN_BIT);
      } else {
        eflags := ClearBit(eflags, SIGN_BIT);
      }
    }

    /**
     * update_eflags_sub: sets all four flags from the operands and the 64-bit result of
     * `v1 - v2`, and leaves every other EFLAGS bit alone.
     */
    method UpdateEflagsSub(v1: u32, v2: u32, result: u64)
      modifies this`eflags
      ensures StatusFlags() == SubStatus(v1, v2, result)
      ensures forall k :: k !in STATUS_BITS ==> Bit(eflags, k) == Bit(old(eflags), k)
    {
      StatusLayout();  // the four setters below touch four different bits
      var sign1 := v1 / 0x8000_0000;            // v1 >> 31
      var sign2 := v2 / 0x8000_0000;            // v2 >> 31
      var signr := result / 0x8000_0000 % 2;    // (result >> 31) & 1
      SetCarry(result / 0x1_0000_0000 != 0);    // result >> 32, nonzero meaning set
      SetZero(result == 0);
      SetSign(signr != 0);
      SetOverflow(sign1 != sign2 && sign1 != signr);
    }
  }

  /** A push followed by a pop gives back the pushed dword and restores ESP and every register. */
  method PushThenPop(emu: Emulator, value: u32) returns (popped: u32)
    requires emu.Valid()
    requires Wrap32(emu.registers[ESP] as int - 4) + 3 < emu.memory.Length
    modifies emu.registers, emu.memory
    ensures popped == value
    ensures emu.registers[..] == old(emu.registers[..])
  {
    ghost var esp := emu.registers[ESP];
    emu.Push32(value);
    ghost var slot := emu.memory[emu.registers[ESP] .. emu.registers[ESP] as int + 4];
    assert LittleEndian(slot) == value;
    popped := emu.Pop32();
    WrapDownUp(esp, 4);
  }
}
