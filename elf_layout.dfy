/** Where the fields that the walk reads lie, per ELF class (`GetPosition` and
    `GetWordSize` in src/riscv_elf.cpp), and the structure layouts of the
    System V ABI ("ELF Header" and "Sections" chapters) that those positions
    must agree with. */
module ElfLayout {
  import opened Wrappers
  import opened ElfTypes

  /** `DataPosition`: the fields the walk reads. The first four lie in the file
      header, the last two in a section header. */
  datatype DataPosition =
    | ShOffset
    | ShEntSize
    | ShNum
    | ShStrNdx
    | ShOffsetInSectionHeader
    | ShSizeInSectionHeader

  /** File offset of the class byte `e_ident[EI_CLASS]`. */
  const EiClassPosition: nat := 4

  /** Offset and width of `sh_name` in a section header, for both classes. */
  const NamePosition: nat := 0
  const NameWidth: nat := 4

  /** `GetPosition<cls>(key)`: byte offset of a field inside its structure.
      There is no layout for kNone. */
  function Position(cls: EiClass, key: DataPosition): (r: Result<nat, Error>)
    ensures r.Failure? <==> cls == kNone
    ensures r.Failure? ==> r.error == UnsupportedClass
  {
    match cls
    case kNone => Failure(UnsupportedClass)
    case k32b =>
      Success(match key
              case ShOffset => 32
              case ShEntSize => 46
              case ShNum => 48
              case ShStrNdx => 50
              case ShOffsetInSectionHeader => 16
              case ShSizeInSectionHeader => 20)
    case k64b =>
      Success(match key
              case ShOffset => 40
              case ShEntSize => 58
              case ShNum => 60
              case ShStrNdx => 62
              case ShOffsetInSectionHeader => 24
              case ShSizeInSectionHeader => 32)
  }

  /** `GetWordSize<cls>()`: bytes in an address, offset or size word. */
  function WordSize(cls: EiClass): (r: Result<nat, Error>)
    ensures r.Failure? <==> cls == kNone
    ensures r.Failure? ==> r.error == UnsupportedClass
  {
    match cls
    case kNone => Failure(UnsupportedClass)
    case k32b => Success(4)
    case k64b => Success(8)
  }

  /** How many bytes the walk reads at `Position(cls, key)`: a word for the
      table offset and for a section's offset and size, two bytes for the
      counts and the string-table index. */
  function FieldWidth(cls: EiClass, key: DataPosition): (r: Result<nat, Error>)
    ensures r.Failure? <==> cls == kNone
    ensures r.Failure? ==> r.error == UnsupportedClass
    ensures r.Success? ==> 2 <= r.value <= 8
  {
    var word :- WordSize(cls);
    Success(match key
            case ShOffset | ShOffsetInSectionHeader | ShSizeInSectionHeader => word
            case ShEntSize | ShNum | ShStrNdx => 2)
  }

  // ---------------------------------------------------------------------------
  // Reference layouts of the System V ABI: the fields of Elf32_Ehdr / Elf64_Ehdr
  // and of Elf32_Shdr / Elf64_Shdr in declaration order, for a word size w. The
  // structures have no padding: each field begins where the one declared before
  // it ends.

  datatype HeaderField =
    | EIdent | EType | EMachine | EVersion | EEntry | EPhoff | EShoff | EFlags
    | EEhsize | EPhentsize | EPhnum | EShentsize | EShnum | EShstrndx

  datatype SectionField =
    | SName | SType | SFlags | SAddr | SOffset | SSize | SLink | SInfo | SAddralign | SEntsize

  /** Declaration index of a file-header field. */
  function HeaderRank(f: HeaderField): nat
  {
    match f
    case EIdent => 0      case EType => 1       case EMachine => 2    case EVersion => 3
    case EEntry => 4      case EPhoff => 5      case EShoff => 6      case EFlags => 7
    case EEhsize => 8     case EPhentsize => 9  case EPhnum => 10     case EShentsize => 11
    case EShnum => 12     case EShstrndx => 13
  }

  /** The file-header field declared just before `f`. */
  function HeaderPrevious(f: HeaderField): (g: HeaderField)
    requires f != EIdent
  {
    match f
    case EType => EIdent        case EMachine => EType      case EVersion => EMachine
    case EEntry => EVersion     case EPhoff => EEntry       case EShoff => EPhoff
    case EFlags => EShoff       case EEhsize => EFlags      case EPhentsize => EEhsize
    case EPhnum => EPhentsize   case EShentsize => EPhnum   case EShnum => EShentsize
    case EShstrndx => EShnum
  }

  /** Size of a file-header field: e_ident is 16 bytes; e_entry, e_phoff and
      e_shoff are addresses or offsets (one word); e_version and e_flags are
      4-byte words; the rest are 2-byte halves. */
  function HeaderFieldSize(w: nat, f: HeaderField): nat
  {
    match f
    case EIdent => 16
    case EEntry | EPhoff | EShoff => w
    case EVersion | EFlags => 4
    case _ => 2
  }

  function HeaderFieldOffset(w: nat, f: HeaderField): nat
    decreases HeaderRank(f)
  {
    if f == EIdent then 0
    else
      var g := HeaderPrevious(f);
      assert HeaderRank(g) < HeaderRank(f);
      HeaderFieldOffset(w, g) + HeaderFieldSize(w, g)
  }

  /** Declaration index of a section-header field. */
  function SectionRank(f: SectionField): nat
  {
    match f
    case SName => 0       case SType => 1       case SFlags => 2      case SAddr => 3
    case SOffset => 4     case SSize => 5       case SLink => 6       case SInfo => 7
    case SAddralign => 8  case SEntsize => 9
  }

  /** The section-header field declared just before `f`. */
  function SectionPrevious(f: SectionField): (g: SectionField)
    requires f != SName
  {
    match f
    case SType => SName         case SFlags => SType        case SAddr => SFlags
    case SOffset => SAddr       case SSize => SOffset       case SLink => SSize
    case SInfo => SLink         case SAddralign => SInfo    case SEntsize => SAddralign
  }

  /** Size of a section-header field: sh_name, sh_type, sh_link and sh_info
      are 4-byte words; the flags, address, offset, size, alignment and entry
      size are one word each. */
  function SectionFieldSize(w: nat, f: SectionField): nat
  {
    match f
    case SName | SType | SLink | SInfo => 4
    case _ => w
  }

  function SectionFieldOffset(w: nat, f: SectionField): nat
    decreases SectionRank(f)
  {
    if f == SName then 0
    else
      var g := SectionPrevious(f);
      assert SectionRank(g) < SectionRank(f);
      SectionFieldOffset(w, g) + SectionFieldSize(w, g)
  }

  /** Offsets of the file-header fields the walk reads, for any word size. */
  lemma HeaderOffsets(w: nat)
    ensures HeaderFieldOffset(w, EShoff) == 24 + 2 * w
    ensures HeaderFieldOffset(w, EShentsize) == 34 + 3 * w
    ensures HeaderFieldOffset(w, EShnum) == 36 + 3 * w
    ensures HeaderFieldOffset(w, EShstrndx) == 38 + 3 * w
  {
    assert HeaderFieldOffset(w, EType) == 16;
    assert HeaderFieldOffset(w, EMachine) == 18;
    assert HeaderFieldOffset(w, EVersion) == 20;
    assert HeaderFieldOffset(w, EEntry) == 24;
    assert HeaderFieldOffset(w, EPhoff) == 24 + w;
    assert HeaderFieldOffset(w, EShoff) == 24 + 2 * w;
    assert HeaderFieldOffset(w, EFlags) == 24 + 3 * w;
    assert HeaderFieldOffset(w, EEhsize) == 28 + 3 * w;
    assert HeaderFieldOffset(w, EPhentsize) == 30 + 3 * w;
    assert HeaderFieldOffset(w, EPhnum) == 32 + 3 * w;
    assert HeaderFieldOffset(w, EShentsize) == 34 + 3 * w;
    assert HeaderFieldOffset(w, EShnum) == 36 + 3 * w;
  }

  /** Offsets of the section-header fields the walk reads, for any word size. */
  lemma SectionOffsets(w: nat)
    ensures SectionFieldOffset(w, SName) == 0
    ensures SectionFieldOffset(w, SOffset) == 8 + 2 * w
    ensures SectionFieldOffset(w, SSize) == 8 + 3 * w
  {
    assert SectionFieldOffset(w, SType) == 4;
    assert SectionFieldOffset(w, SFlags) == 8;
    assert SectionFieldOffset(w, SAddr) == 8 + w;
    assert SectionFieldOffset(w, SOffset) == 8 + 2 * w;
  }

  /** The position table and the read widths, in terms of the word size. */
  lemma PositionsByWordSize(cls: EiClass)
    requires cls != kNone
    ensures Position(cls, ShOffset).value == 24 + 2 * WordSize(cls).value
    ensures Position(cls, ShEntSize).value == 34 + 3 * WordSize(cls).value
    ensures Position(cls, ShNum).value == 36 + 3 * WordSize(cls).value
    ensures Position(cls, ShStrNdx).value == 38 + 3 * WordSize(cls).value
    ensures Position(cls, ShOffsetInSectionHeader).value == 8 + 2 * WordSize(cls).value
    ensures Position(cls, ShSizeInSectionHeader).value == 8 + 3 * WordSize(cls).value
    ensures FieldWidth(cls, ShOffset).value == WordSize(cls).value
    ensures FieldWidth(cls, ShOffsetInSectionHeader).value == WordSize(cls).value
    ensures FieldWidth(cls, ShSizeInSectionHeader).value == WordSize(cls).value
    ensures FieldWidth(cls, ShEntSize).value == 2
    ensures FieldWidth(cls, ShNum).value == 2
    ensures FieldWidth(cls, ShStrNdx).value == 2
  {
  }

  /** The file-header positions and the widths the walk reads there agree with
      the System V ABI layout of Elf32_Ehdr / Elf64_Ehdr. */
  lemma HeaderPositionsFollowAbi(cls: EiClass)
    requires cls != kNone
    ensures Position(cls, ShOffset).value == HeaderFieldOffset(WordSize(cls).value, EShoff)
    ensures FieldWidth(cls, ShOffset).value == HeaderFieldSize(WordSize(cls).value, EShoff)
    ensures Position(cls, ShEntSize).value == HeaderFieldOffset(WordSize(cls).value, EShentsize)
    ensures FieldWidth(cls, ShEntSize).value == HeaderFieldSize(WordSize(cls).value, EShentsize)
    ensures Position(cls, ShNum).value == HeaderFieldOffset(WordSize(cls).value, EShnum)
    ensures FieldWidth(cls, ShNum).value == HeaderFieldSize(WordSize(cls).value, EShnum)
    ensures Position(cls, ShStrNdx).value == HeaderFieldOffset(WordSize(cls).value, EShstrndx)
    ensures FieldWidth(cls, ShStrNdx).value == HeaderFieldSize(WordSize(cls).value, EShstrndx)
  {
    var w := WordSize(cls).value;
    PositionsByWordSize(cls);
    assert HeaderFieldSize(w, EShoff) == w;
    assert HeaderFieldSize(w, EShentsize) == HeaderFieldSize(w, EShnum) == HeaderFieldSize(w, EShstrndx) == 2;
    HeaderOffsets(w);
  }

  /** The section-header positions and widths agree with the System V ABI
      layout of Elf32_Shdr / Elf64_Shdr; `sh_name` is its first field, four
      bytes wide. */
  lemma SectionPositionsFollowAbi(cls: EiClass)
    requires cls != kNone
    ensures Position(cls, ShOffsetInSectionHeader).value == SectionFieldOffset(WordSize(cls).value, SOffset)
    ensures FieldWidth(cls, ShOffsetInSectionHeader).value == SectionFieldSize(WordSize(cls).value, SOffset)
    ensures Position(cls, ShSizeInSectionHeader).value == SectionFieldOffset(WordSize(cls).value, SSize)
    ensures FieldWidth(cls, ShSizeInSectionHeader).value == SectionFieldSize(WordSize(cls).value, SSize)
    ensures NamePosition == SectionFieldOffset(WordSize(cls).value, SName)
    ensures NameWidth == SectionFieldSize(WordSize(cls).value, SName)
  {
    var w := WordSize(cls).value;
    PositionsByWordSize(cls);
    assert SectionFieldSize(w, SOffset) == SectionFieldSize(w, SSize) == w;
    SectionOffsets(w);
  }
}
