/** The value types of include/riscv_elf/riscv_elf.hpp, and the closed set of
    failures that the model reports where the C++ code throws or has undefined
    behaviour. */
module ElfTypes {
  import opened Wrappers

  /** One element of the input buffer (`std::byte`). */
  type byte = b: int | 0 <= b < 256

  /** A value held in a `std::uint64_t`. */
  type u64 = x: int | 0 <= x < 0x1_0000_0000_0000_0000

  /** `EiClass`: the ELF class, declared in this order, so kNone is 0, k32b is 1
      and k64b is 2. kNone is the default value in `ElfContent`. */
  datatype EiClass = kNone | k32b | k64b

  /** The enumerator value of a class. */
  function ClassValue(c: EiClass): nat
  {
    match c
    case kNone => 0
    case k32b => 1
    case k64b => 2
  }

  /** `static_cast<EiClass>(b)`: the enumerator whose value is `b`, if any. */
  function ClassOfByte(b: byte): (r: Option<EiClass>)
    ensures r.Some? <==> b <= 2
    ensures r.Some? ==> ClassValue(r.value) == b
  {
    if b == 0 then Some(kNone)
    else if b == 1 then Some(k32b)
    else if b == 2 then Some(k64b)
    else None
  }

  /** Casting the value of a class back gives that class. */
  lemma ClassOfByteInvertsClassValue(c: EiClass)
    ensures ClassOfByte(ClassValue(c)) == Some(c)
  {
  }

  /** `ElfContent`: what the walk extracts from an ELF image. `noTextWarning`
      records that the walk printed its warning because no section is named
      `.text`. */
  datatype ElfContent = ElfContent(eiClass: EiClass, textBytecode: seq<byte>, noTextWarning: bool)

  /** Why a parse fails. Each kind replaces an exception of the C++ code or a
      read that the C++ code performs without checking it. */
  datatype Error =
    | EmptyInput        // the file holds no bytes
    | UnsupportedClass  // class byte is neither 1 nor 2; a layout lookup for kNone
    | OutOfRange        // a view, field read or name lookup past the end of its buffer
    | InvalidIndex      // e_shstrndx does not index a section header
    | BadEntSize        // a section-header entry size of 0 given to the chunking
}
