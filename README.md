# riscv-elf: the section-header walk, in Dafny

This project models how `riscv_elf::Parse` (src/riscv_elf.cpp) gets the
`.text` bytecode out of an ELF image already loaded into memory:

1. It reads the class byte `e_ident[EI_CLASS]` and picks the 32-bit or the
   64-bit layout.
2. It reads `e_shoff`, `e_shnum` and `e_shentsize` from the file header.
3. It cuts the section-header table into `e_shentsize`-byte entries.
4. It checks `e_shstrndx` against the number of entries and takes the
   `sh_offset` of that entry as the base of the section-name string table.
5. It looks for the first entry whose NUL-terminated name is `.text`.
6. It copies that section's `sh_size` bytes at `sh_offset` into
   `ElfContent.text_bytecode`.

The pure helpers are Dafny functions: the position table and word size
(`GetPosition`, `GetWordSize`), the byte window (`GetByteBufferView`) and the
little-endian decode (`ByteBufferViewToInteger`). `ParseImpl` and `Parse` are
methods that run the `find_if` and the `copy` as loops. Each is proved equal
to `ElfWalk.Walk` or `ElfParse.ParseBytes`, the function form of the same
steps.

The C++ code checks only `e_shstrndx` against the number of section headers
(src/riscv_elf.cpp:184-188); every other read is unchecked. In the model,
each failure is a `Result<ElfContent, Error>` failure:

- `OutOfRange` replaces undefined behaviour: a window past the end of the
  buffer, a field read past the end of a section header, a section name with
  no NUL before the end of the file, or a file too short to hold the class
  byte.
- `BadEntSize` replaces undefined behaviour too: an entry size of 0 handed to
  `std::views::chunk`.
- `InvalidIndex`, `UnsupportedClass` and `EmptyInput` are the exceptions the
  C++ code throws (src/riscv_elf.cpp:184-188, 240 and 145-149).

The name test reads the NUL-terminated name at the string-table base plus
`sh_name`, as the C++ code does. It fails with `OutOfRange` when no NUL comes
before the end of the buffer. When it succeeds, its answer agrees with the
bounded check `IsTextAt`: the bytes of `.text` and then a NUL lie in the
buffer at the name's position (`CStringIsText`).

The offset table is checked against an independent reference. The field
layouts of `Elf32_Ehdr`/`Elf64_Ehdr` and `Elf32_Shdr`/`Elf64_Shdr` in the
System V ABI ("ELF Header" and "Sections") are written out field by field,
and the positions are proved to agree with them.

Files:

- `wrappers.dfy`: `Option` and `Result`.
- `elf_types.dfy`: `EiClass`, `ElfContent` and `Error`.
- `byte_view.dfy`: windows, the little-endian decode and C strings.
- `elf_layout.dfy`: the position table and the reference layouts.
- `elf_walk.dfy`: the walk as functions, with its lemmas.
- `elf_parse.dfy`: the walk and the dispatch as methods.

## Model

| member | source | states |
|---|---|---|
| ElfTypes.ClassOfByte | include/riscv_elf/riscv_elf.hpp:15 | `static_cast<EiClass>` of a byte gives an enumerator exactly when the byte is 0, 1 or 2, and that enumerator's value is the byte |
| ElfTypes.ClassOfByteInvertsClassValue | include/riscv_elf/riscv_elf.hpp:15 | casting the value of any class back to `EiClass` gives that class |
| ElfLayout.Position | src/riscv_elf.cpp:46-102 | a position exists exactly for k32b and k64b; kNone gives `UnsupportedClass` |
| ElfLayout.WordSize | src/riscv_elf.cpp:104-113 | a word size exists exactly for k32b and k64b; kNone gives `UnsupportedClass` |
| ElfLayout.FieldWidth | src/riscv_elf.cpp:166-219 | every field read is 2 to 8 bytes wide; it fails only for kNone |
| ElfLayout.PositionsByWordSize | src/riscv_elf.cpp:46-113 | with word size w (4 or 8), e_shoff is at 24+2w, e_shentsize at 34+3w, e_shnum at 36+3w, e_shstrndx at 38+3w, sh_offset at 8+2w and sh_size at 8+3w; offsets and sizes are read w bytes wide, the counts and the index 2 bytes wide |
| ElfLayout.HeaderPositionsFollowAbi | src/riscv_elf.cpp:46-102 | for both classes, the four file-header positions and their read widths equal the offsets and sizes of e_shoff, e_shentsize, e_shnum and e_shstrndx in the System V ABI file-header layout |
| ElfLayout.SectionPositionsFollowAbi | src/riscv_elf.cpp:46-102 | for both classes, the sh_offset and sh_size positions and widths equal the System V ABI section-header layout, and sh_name is the 4-byte field at offset 0 |
| ByteView.View | src/riscv_elf.cpp:115-123 | a window exists exactly when start + size fits in the buffer; it has length size and its byte i is buffer byte start + i; otherwise `OutOfRange` |
| ByteView.ViewOfView | src/riscv_elf.cpp:190-194 | a window at b inside a window at a is the buffer's window at a + b |
| ByteView.ReadUnsignedInView | src/riscv_elf.cpp:190-194 | a number read at pos from a window at a is the number read from the buffer at a + pos |
| ByteView.ToInt32 | src/riscv_elf.cpp:120 | the conversion to `int` lies in [-2^31, 2^31) and is congruent to its argument modulo 2^32 |
| ByteView.ViewAsWritten | src/riscv_elf.cpp:115-123 | when the start modulo 2^32 is below 2^31, the window as written is the intended window at the start modulo 2^32; otherwise the converted start is negative and there is no window (`OutOfRange`) |
| ByteView.ViewAsWrittenAgrees | src/riscv_elf.cpp:119-121 | for starts below 2^31 the window as written is the intended window |
| ByteView.ViewAsWrittenWraps | src/riscv_elf.cpp:119-121 | a start of 2^32 or more, past the end of the buffer, has no intended window, yet the window as written succeeds at the start modulo 2^32 |
| ByteView.LittleEndianBound | src/riscv_elf.cpp:125-130 | n decoded bytes give a value below 256^n |
| ByteView.HostWord | src/riscv_elf.cpp:127-128 | the host word is 8 bytes; its first bytes are the copied ones and every byte after them is 0 |
| ByteView.HostWordValue | src/riscv_elf.cpp:127-129 | copying up to 8 bytes over a zeroed 8-byte word gives the little-endian value of those bytes: the zero padding adds nothing |
| ByteView.ToInteger | src/riscv_elf.cpp:125-130 | `ByteBufferViewToInteger` of at most 8 bytes is their little-endian value, below 256^n and so a valid u64; one byte decodes to itself |
| ByteView.DecodeEncode | src/riscv_elf.cpp:125-130 | decoding the n-byte little-endian encoding of x < 256^n gives x back |
| ByteView.EncodeDecode | src/riscv_elf.cpp:125-130 | encoding the decoded value of a byte string at its own length gives the string back |
| ByteView.ReadUnsigned | src/riscv_elf.cpp:166-168 | a field read succeeds exactly when the field fits; it then gives the little-endian value of those bytes; otherwise `OutOfRange` |
| ByteView.CStringAt | src/riscv_elf.cpp:202-204 | the string at p is the bytes before the first NUL from p; the NUL lies in the buffer and no byte of the string is 0; it fails with `OutOfRange` exactly when no NUL follows p |
| ElfWalk.ReadField | src/riscv_elf.cpp:166-174 | kNone gives `UnsupportedClass`; otherwise the read succeeds exactly when the field fits, with the little-endian value at the class's position and width; otherwise `OutOfRange` |
| ElfWalk.ReadTableInfo | src/riscv_elf.cpp:166-174 | the reads succeed exactly when the class is k32b or k64b and the file reaches the end of e_shnum, the last of the three fields; otherwise kNone gives `UnsupportedClass` and a short file `OutOfRange`; e_shoff, e_shnum and e_shentsize are the values read at their positions, and the two counts are below 2^16, so their product is below 2^32 |
| ElfWalk.ProductBound | src/riscv_elf.cpp:178 | the product of two 16-bit values is below 2^32 and cannot overflow a `std::uint64_t` |
| ElfWalk.Chunk | src/riscv_elf.cpp:179 | every piece is non-empty and at most n bytes long |
| ElfWalk.ChunkFlattens | src/riscv_elf.cpp:179 | the pieces, concatenated, are the input: no byte is lost, repeated or reordered |
| ElfWalk.ChunkCount | src/riscv_elf.cpp:177-179 | count·n bytes cut into n-byte pieces give exactly count pieces |
| ElfWalk.ChunkAt | src/riscv_elf.cpp:177-179 | piece i of count·n bytes is bytes i·n to i·n + n |
| ElfWalk.SectionHeaders | src/riscv_elf.cpp:177-179 | the table fails exactly when e_shoff + e_shnum·e_shentsize passes the end (`OutOfRange`) or e_shentsize is 0 (`BadEntSize`) |
| ElfWalk.EntryAt | src/riscv_elf.cpp:177-179 | entry i is the e_shentsize bytes of the file at e_shoff + i·e_shentsize |
| ElfWalk.SectionHeadersPartition | src/riscv_elf.cpp:177-179 | there are exactly e_shnum entries; entry i is e_shentsize bytes long and equals the file's bytes at e_shoff + i·e_shentsize |
| ElfWalk.EntryWindowInFile | src/riscv_elf.cpp:177-194 | a number read at pos within entry i equals the number read from the file at e_shoff + i·e_shentsize + pos |
| ElfWalk.EntryFieldInFile | src/riscv_elf.cpp:190-219 | a section-header field read from entry i equals the same-width read from the file at e_shoff + i·e_shentsize plus the field's position |
| ElfWalk.NameIsText | src/riscv_elf.cpp:198-205 | the name test succeeds exactly when the entry holds a 4-byte sh_name and a NUL follows base + sh_name in the file; its only failure is `OutOfRange`; a successful answer is the bounded test `IsTextAt` at base + sh_name, and whenever `IsTextAt` holds the test gives true |
| ElfWalk.CStringIsText | src/riscv_elf.cpp:202-205 | a terminated C string equals `.text` exactly when `.text` and a NUL lie at its position |
| ElfWalk.FindFirst | src/riscv_elf.cpp:196-207 | a found index lies in the searched range; a failure is the failure of one of the tests |
| ElfWalk.FindFirstFindsFirst | src/riscv_elf.cpp:196-207 | the search finds k exactly when test k holds and every earlier test ran and was false |
| ElfWalk.FindFirstFindsNone | src/riscv_elf.cpp:196-208 | the search finds nothing exactly when every test is false |
| ElfWalk.FindFirstFails | src/riscv_elf.cpp:196-206 | when test k fails and every earlier test is false, the search fails with test k's error |
| ElfWalk.SectionBytes | src/riscv_elf.cpp:210-223 | a section's bytes exist exactly when sh_offset and sh_size can be read and offset + size fits in the file; they are then the size bytes of the file at the offset |
| ElfWalk.Walk | src/riscv_elf.cpp:161-228 | kNone gives `UnsupportedClass`; a result carries the class it was called with, never kNone; a raised warning comes with empty bytecode |
| ElfWalk.TextOfSections | src/riscv_elf.cpp:196-227 | a result keeps the class; a raised warning comes with empty bytecode |
| ElfWalk.WalkThroughBase | src/riscv_elf.cpp:189-196 | once the header fields, the table, a valid e_shstrndx and the sh_offset of entry e_shstrndx have been read, the rest of the walk is the search and copy from that base |
| ElfWalk.TextErrors | src/riscv_elf.cpp:196-224 | every failure of the search and copy is `OutOfRange` |
| ElfWalk.WalkInvalidIndex | src/riscv_elf.cpp:182-188 | after the table is read, the walk fails with `InvalidIndex` exactly when e_shstrndx ≥ e_shnum |
| ElfWalk.TextNone | src/riscv_elf.cpp:207-208 | the result is empty bytecode with the warning exactly when every name test is false |
| ElfWalk.TextFound | src/riscv_elf.cpp:209-224 | when entry k is the first named `.text`, the result is that section's bytes without the warning, or the failure of reading them |
| ElfWalk.TextIsFirst | src/riscv_elf.cpp:196-224 | returned bytecode is the section of an entry that is the first named `.text` |
| ElfParse.ParseImpl | src/riscv_elf.cpp:161-228 | the method, with its field reads, search loop and copy loop, returns exactly `Walk` |
| ElfParse.FindTextEntry | src/riscv_elf.cpp:196-207 | the `find_if` loop returns the search result; a found index is the first named `.text`; it finds nothing exactly when no entry is named `.text` |
| ElfParse.FindText | src/riscv_elf.cpp:196-227 | the search and the copy into the content return exactly `TextOfSections` |
| ElfParse.AppendAll | src/riscv_elf.cpp:221-224 | copying through a `back_inserter` leaves the destination followed by the copied bytes |
| ElfParse.ParseBytes | src/riscv_elf.cpp:230-241 | an empty file gives `EmptyInput` and a file of at most 4 bytes gives `OutOfRange`; a result's class is never kNone and its value is the class byte; a class byte other than 1 or 2 gives `UnsupportedClass` |
| ElfParse.ParseDispatch | src/riscv_elf.cpp:233-237 | class byte 1 runs the 32-bit walk and class byte 2 the 64-bit walk, over the whole buffer |
| ElfParse.Parse | src/riscv_elf.cpp:230-241 | the method returns exactly `ParseBytes` |
| ElfParse.ParseFindsText | src/riscv_elf.cpp:161-240 | when the class byte is 1 or 2, the walk reaches the string-table base, entry k is the first named `.text` and its section lies in the file, the parse returns exactly the file's bytes from that entry's `sh_offset` to `sh_offset + sh_size`, `sh_size` bytes long, with no warning |
| ElfParse.ParseFindsNoText | src/riscv_elf.cpp:196-240 | when the walk reaches the string-table base and no entry is named `.text`, the parse succeeds with empty bytecode and the warning |

## Left out

- Reading the file (`InputFileStream`, `GetRawBytes`, src/riscv_elf.cpp:30-42 and 136-159) is I/O. `Parse` takes the loaded bytes. Of the I/O failures, only the empty file (src/riscv_elf.cpp:145-149) is kept, as `EmptyInput`.
- The warning printed when no section is named `.text` (src/riscv_elf.cpp:208) is console output. It is recorded as the `noTextWarning` flag of `ElfContent`.
- `memcpy` into a host word (src/riscv_elf.cpp:128) assumes a little-endian host. It is modelled as zero-padding followed by an explicit little-endian decode.
- Exceptions are `Result` failures. The `default:` branches of `GetPosition` (src/riscv_elf.cpp:68-70, 93-95) cannot be reached, because the `match` on the key is exhaustive.
- `std::views::chunk` is lazy in C++. The model computes the entries up front; the values are the same, because the walk only reads them.
- `reserve` (src/riscv_elf.cpp:221) can throw. It throws `std::length_error` when `sh_size` exceeds `max_size()`, for instance an 8-byte `sh_size` of 2^63 or more. A smaller but still huge size can make it throw `std::bad_alloc`. Memory limits are not modelled: on such inputs the model reports the failure of the window (`OutOfRange`, since no buffer is that long) rather than an allocation failure.
- A section name with no NUL before the end of the buffer makes the name test fail with `OutOfRange`. The C++ code reads on past the end instead. So an unterminated name in any entry before the `.text` entry aborts the whole walk (`FindFirstFails`), and the `.text` entry is never reached.
- The input is a `std::span<std::byte const>` and is never written. The model takes it as an immutable `seq`, so this holds by construction and needs no lemma.
- `Walk` and `ParseImpl` use the intended window `View`. The truncation of the window start to `int` is modelled only in `ViewAsWritten`; see Findings.
- Reading past the end of a buffer is undefined behaviour in C++. The model reports it as a failure, so it does not reproduce whatever bytes the C++ code would happen to read.
- example/read_elf.cpp is a demo driver. include/riscv_elf/analyze.hpp only declares instruction counting. Neither is part of this model.
- The rest of ELF is not read by the code and is not modelled: program headers, symbols, relocations, and the byte-order field `EI_DATA`.

## Findings

| source | as written | input that shows it | evidently intended | confidence | as-written member | corrected member |
|---|---|---|---|---|---|---|
| src/riscv_elf.cpp:119-121 | `GetByteBufferView` converts the 64-bit start to `std::iter_difference_t<std::uint8_t>`, which is `int`. Only the low 32 bits, read as signed, choose where the window begins | a file shorter than 4 GiB with `e_shoff = 0x1_0000_0000`: the section-header table is read from the first bytes of the file instead of being out of range | the window at the full 64-bit start, which lies past the end of such a file | high; not executed | ByteView.ViewAsWrittenWraps | ByteView.View |
