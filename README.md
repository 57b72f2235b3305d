# x86 emulator core: machine state and helper operations

This project models `emu/emulator_function.c` of a small 32-bit x86 emulator in Dafny and proves
what its helper functions promise. These helpers are the layer every instruction implementation
goes through. They cover:

- fetching code bytes and little-endian dwords relative to EIP, zero- or sign-extended;
- reading and writing the eight 32-bit general registers and the legacy 8-bit aliases
  AL, CL, DL, BL (the low bytes of EAX..EBX) and AH, CH, DH, BH (their second bytes);
- byte and little-endian dword access to flat memory;
- the descending stack (`push32`, `pop32`) through ESP;
- setting, clearing and testing the carry, zero, sign and overflow bits of EFLAGS;
- deriving those four flags after a subtraction (`update_eflags_sub`).

Modules:

- `Bytes` (`bytes.dfy`) holds the fixed-width value types `u8`, `u32` and `u64`, wrap-around
  arithmetic, the little-endian decoding `LittleEndian` and encoding `Encode32`, and two's
  complement readings.
- `Eflags` (`eflags.dfy`) holds the flag positions (CF bit 0, ZF bit 6, SF bit 7, OF bit 11) and
  an arithmetic definition of bit `k` of a word. It proves that setting or clearing one bit
  changes no other bit.
- `SubtractionFlags` (`sub_flags.dfy`) defines the flag values after a subtraction as a pure
  function `SubStatus`. It proves what each flag means for the operands.
- `EmulatorFunction` (`emulator.dfy`) holds the class `Emulator`, which has the fields
  `memory`, `registers`, `eip` and `eflags`. The C functions are its methods. Those that only
  read state are functions. Those that write state, or that loop, are methods proved against
  the functions above.

All values are mathematical integers restricted to their width. C shifts and masks on unsigned
values are written as their arithmetic meaning:

- `x >> 8i` is `x / 256^i`;
- `x & 0xFF` is `x % 256`;
- `x << 8i` is `x * 256^i`;
- `ret |= b << 8i` in the dword loops is `+`: the loop invariant `ret < 256^i` shows that the
  byte lands on bits that are still zero.

Register indices and addresses are never checked by the C code. Each operation here requires
them to be in range instead. The C predicates `is_carry` .. `is_overflow` are the predicates
`IsCarry` .. `IsOverflow`. Each is stated as the binary digit of EFLAGS at its flag's position,
which is what `(eflags & FLAG) != 0` tests. `StatusFlags` groups the four of them, and the
setters' contracts are written in terms of it.

## Model

| member | source | states |
|---|---|---|
| EmulatorFunction.Emulator.GetCode8 | emu/emulator_function.c:3-6 | the result is the byte at EIP + index, zero-extended, so it is below 0x100 |
| EmulatorFunction.Emulator.GetSignCode8 | emu/emulator_function.c:8-11 | the result lies in [-128, 128) and is congruent to the code byte modulo 256 (the `int8_t` reading) |
| Bytes.Signed8 | emu/emulator_function.c:10 | two's complement reading of a byte: in [-128, 128) and equal to the byte modulo 256 |
| EmulatorFunction.Emulator.GetCode32 | emu/emulator_function.c:13-24 | the loop returns the four code bytes at EIP + index decoded little-endian, b0 + 256·b1 + 65536·b2 + 2^24·b3; its invariant keeps the accumulator below 256^i, so each OR adds |
| EmulatorFunction.Emulator.GetSignCode32 | emu/emulator_function.c:26-29 | the result lies in [-2^31, 2^31) and is congruent modulo 2^32 to the little-endian code dword |
| Bytes.Signed32 | emu/emulator_function.c:28 | two's complement reading of a dword: in [-2^31, 2^31) and equal to the dword modulo 2^32 |
| Bytes.LittleEndianSnoc | emu/emulator_function.c:19-21 | appending a byte adds it with weight 256^n: the loop step that ORs byte i in at bit 8i extends the decoded prefix by one byte |
| Bytes.LittleEndianBound | emu/emulator_function.c:19-21 | n little-endian bytes decode to a value below 256^n, so four bytes always fit the `uint32_t` accumulator |
| EmulatorFunction.Emulator.GetRegister8 | emu/emulator_function.c:31-38 | 8-bit register i is byte 0 of register i for i < 4, and byte 1 of register i - 4 otherwise |
| EmulatorFunction.Emulator.GetRegister32 | emu/emulator_function.c:40-43 | for EAX..EBX the low byte of the 32-bit register is the 8-bit register i and the second byte is register i + 4 |
| EmulatorFunction.WithLowByte | emu/emulator_function.c:49-50 | the low byte of the result is the new value and bits 8..31 are those of the old word |
| EmulatorFunction.WithSecondByte | emu/emulator_function.c:53-54 | bits 8..15 of the result are the new value; bits 0..7 and 16..31 are those of the old word |
| EmulatorFunction.Emulator.SetRegister8 | emu/emulator_function.c:45-56 | reading the 8-bit register back gives the value; every other 8-bit register, the other bytes of the host register and every other 32-bit register are unchanged |
| EmulatorFunction.Emulator.SetRegister32 | emu/emulator_function.c:58-61 | reading the register back gives the value, and only that register changes |
| EmulatorFunction.Emulator.SetMemory8 | emu/emulator_function.c:63-66 | memory afterwards is memory before with only `address` replaced by the low byte of the value |
| EmulatorFunction.Emulator.GetMemory8 | emu/emulator_function.c:78-81 | the result is the byte at the address, zero-extended |
| EmulatorFunction.Emulator.SetMemory32 | emu/emulator_function.c:68-76 | the four bytes at the address become `Encode32(value)` and decode back to the value; every byte outside them is unchanged |
| Bytes.Encode32 | emu/emulator_function.c:73-75 | splitting a dword into bytes `(v >> 8i) & 0xFF` yields four bytes that decode back to v |
| Bytes.EncodeLittleEndian | emu/emulator_function.c:68-94 | the other direction of the round trip: four bytes decode to a dword whose encoding is those same bytes |
| EmulatorFunction.Emulator.GetMemory32 | emu/emulator_function.c:83-94 | the loop returns the four bytes at the address decoded little-endian; its invariant keeps the accumulator below 256^i, so each OR adds |
| EmulatorFunction.Emulator.Push32 | emu/emulator_function.c:96-101 | ESP becomes ESP - 4 modulo 2^32 and no other register changes; the four bytes at the new ESP encode the value; every other byte is unchanged |
| EmulatorFunction.Emulator.Pop32 | emu/emulator_function.c:103-110 | the result is the little-endian dword at the old ESP; ESP becomes ESP + 4 modulo 2^32 and no other register changes |
| Bytes.WrapDownUp | emu/emulator_function.c:98-107 | moving a 32-bit address down by d and then up by d, both modulo 2^32, gives back the address |
| EmulatorFunction.PushThenPop | emu/emulator_function.c:96-110 | a pop right after a push returns the pushed value and leaves every register, ESP included, as before |
| Eflags.SetBit | emu/emulator_function.c:116 | OR-ing in the mask: bit k is set and every other bit is unchanged |
| Eflags.ClearBit | emu/emulator_function.c:119 | AND-ing with the inverted mask: bit k is clear and every other bit is unchanged |
| Eflags.AddBitAt | emu/emulator_function.c:116 | adding 2^k to a word whose bit k is clear sets bit k and keeps every other bit |
| Eflags.RemoveBitAt | emu/emulator_function.c:119 | subtracting 2^k from a word whose bit k is set clears bit k and keeps every other bit |
| Eflags.AddBitBound | emu/emulator_function.c:116 | setting a clear bit below bit n of a value below 2^n keeps it below 2^n, so EFLAGS stays 32 bits wide |
| Eflags.StatusLayout | emu/emulator_function.c:150-168 | the four flag positions lie in a 32-bit word and are pairwise distinct, so the four setters in update_eflags_sub touch four different bits |
| Eflags.BitIsMaskTest | emu/emulator_function.c:150-168 | for every word and position, the recursive bit holds exactly when the binary digit `(x >> k) & 1` is one, the test `(x & (1 << k)) != 0` performs |
| EmulatorFunction.Emulator.IsCarry | emu/emulator_function.c:150-153 | true exactly when the binary digit of EFLAGS at bit 0 (CF) is one |
| EmulatorFunction.Emulator.IsZero | emu/emulator_function.c:155-158 | true exactly when the binary digit of EFLAGS at bit 6 (ZF) is one |
| EmulatorFunction.Emulator.IsSign | emu/emulator_function.c:160-163 | true exactly when the binary digit of EFLAGS at bit 7 (SF) is one |
| EmulatorFunction.Emulator.IsOverflow | emu/emulator_function.c:165-168 | true exactly when the binary digit of EFLAGS at bit 11 (OF) is one |
| EmulatorFunction.Emulator.SetCarry | emu/emulator_function.c:112-121 | CF afterwards is the argument; ZF, SF and OF, and every other EFLAGS bit, are unchanged |
| EmulatorFunction.Emulator.SetZero | emu/emulator_function.c:123-130 | ZF afterwards is the argument; CF, SF and OF, and every other EFLAGS bit, are unchanged |
| EmulatorFunction.Emulator.SetOverflow | emu/emulator_function.c:132-139 | OF afterwards is the argument; CF, ZF and SF, and every other EFLAGS bit, are unchanged |
| EmulatorFunction.Emulator.SetSign | emu/emulator_function.c:141-148 | SF afterwards is the argument; CF, ZF and OF, and every other EFLAGS bit, are unchanged |
| EmulatorFunction.Emulator.UpdateEflagsSub | emu/emulator_function.c:170-193 | the four flags afterwards are `SubStatus(v1, v2, result)` and every EFLAGS bit other than CF, ZF, SF and OF is unchanged |
| SubtractionFlags.WidenedDifference | emu/emulator_function.c:170 | the 64-bit `result` a caller passes is v1 - v2 when v1 >= v2, and 2^64 + v1 - v2 (a borrow into bits 32..63) otherwise |
| SubtractionFlags.Bit31OfDifference | emu/emulator_function.c:177-179 | bit 31 of the 64-bit result is bit 31 of the 32-bit difference |
| SubtractionFlags.SubCarryIsBorrow | emu/emulator_function.c:181-183 | CF is set exactly when v2 > v1 (unsigned borrow) |
| SubtractionFlags.SubZeroIsEqual | emu/emulator_function.c:185-186 | ZF is set exactly when v1 == v2, and testing the whole 64-bit result is the same as testing its low 32 bits |
| SubtractionFlags.SubSignIsResultSign | emu/emulator_function.c:188-189 | SF is set exactly when the 32-bit difference is negative as a signed number |
| SubtractionFlags.SubOverflowIsSignedOverflow | emu/emulator_function.c:191-192 | OF is set exactly when the signed difference of the operands lies outside [-2^31, 2^31) |
| SubtractionFlags.SubNoOverflowIsExact | emu/emulator_function.c:191-192 | when OF is clear the wrapped 32-bit difference equals the true signed difference |
| SubtractionFlags.SubSignedLess | emu/emulator_function.c:188-192 | SF != OF exactly when v1 < v2 as signed numbers |
| SubtractionFlags.SubExamples | emu/emulator_function.c:170-193 | 5 - 3 sets no flag, 3 - 5 sets CF and SF, and 0x80000000 - 1 sets only OF |

## Left out

- `emu/emulator_function.h` is not part of this model. The register index `ESP = 4`, the
  register order and the flag positions (bits 0, 6, 7, 11, as the x86 EFLAGS register defines
  them) are declared here as constants.
- The creation of an emulator is not part of this model. The constructor only sets up a
  consistent state: zeroed memory and registers except ESP, and clear flags.
- Out-of-range register indices and addresses: the C code reads or writes past its arrays,
  which is undefined behaviour. Each member requires them in range instead.
- `int` arguments used as truth values (`is_carry` .. `is_sign`, and `set_carry(emu, result >> 32)`)
  are `bool`. Under the reading below, converting `result >> 32` to `int` keeps it nonzero
  exactly when it was nonzero, which is all the setter tests.
- `int32_t address` in `push32` is the 32-bit pattern ESP - 4 modulo 2^32, and the `int8_t` and
  `int32_t` casts in `get_sign_code8` and `get_sign_code32` are two's complement readings.
  Converting an out-of-range value to a signed type is implementation-defined (section 6.3.1.3
  of both C11 and C23). The model takes the reduce-modulo-2^N reading that GCC and Clang
  document.
- `get_code8`, `get_code32` and their signed forms compute `eip + index` in 32-bit unsigned
  arithmetic. The model uses the plain sum and requires it to lie within memory, so a negative
  index that wraps the address around is not modelled.
- Instruction decoding, the instruction handlers, program loading, I/O and the main loop are
  not part of this model.
