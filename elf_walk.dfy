/** The section-header walk of src/riscv_elf.cpp: `ParseImpl` and the class
    dispatch of `Parse`. Each step is a function; `Walk` composes them as the
    specification, and the methods `ParseImpl` and `Parse` carry out the same
    steps with the loops of the C++ code and are proved equal to it. */
module ElfWalk {
  import opened Wrappers
  import opened ElfTypes
  import opened ByteView
  import opened ElfLayout

  /** The field `key` of an ELF structure held in `v` (the whole file for a
      file-header field, one section header for an entry field), read as an
      unsigned little-endian integer of its width. */
  function ReadField(v: seq<byte>, cls: EiClass, key: DataPosition): (r: Result<u64, Error>)
    ensures cls == kNone ==> r == Failure(UnsupportedClass)
    ensures cls != kNone ==>
              (r.Success? <==> Position(cls, key).value + FieldWidth(cls, key).value <= |v|)
    ensures r.Success? ==>
              var pos := Position(cls, key).value;
              r.value == LittleEndian(v[pos..pos + FieldWidth(cls, key).value])
    ensures r.Success? ==> r.value < Pow256(FieldWidth(cls, key).value)
    ensures r.Failure? && cls != kNone ==> r.error == OutOfRange
  {
    if cls == kNone then Failure(UnsupportedClass)
    else ReadUnsigned(v, Position(cls, key).value, FieldWidth(cls, key).value)
  }

  /** The file-header fields that locate the section-header table. */
  datatype TableInfo = TableInfo(shOffset: u64, shNum: u64, shEntSize: u64)

  /** Reads `e_shoff`, `e_shnum` and `e_shentsize`, in that order. The count and
      the entry size are 16-bit fields, so their product needs at most 32 bits
      and cannot overflow a `std::uint64_t`. */
  function ReadTableInfo(cls: EiClass, buf: seq<byte>): (r: Result<TableInfo, Error>)
    ensures r.Success? ==> cls != kNone
    ensures r.Success? ==> ReadField(buf, cls, ShOffset) == Success(r.value.shOffset)
    ensures r.Success? ==> ReadField(buf, cls, ShNum) == Success(r.value.shNum)
    ensures r.Success? ==> ReadField(buf, cls, ShEntSize) == Success(r.value.shEntSize)
    ensures r.Success? ==> r.value.shNum < 0x1_0000 && r.value.shEntSize < 0x1_0000
    ensures r.Success? ==> r.value.shNum * r.value.shEntSize < 0x1_0000_0000
    ensures r.Success? <==> cls != kNone && Position(cls, ShNum).value + 2 <= |buf|
    ensures r.Failure? ==> r.error == if cls == kNone then UnsupportedClass else OutOfRange
  {
    var shOffset :- ReadField(buf, cls, ShOffset);
    var shNum :- ReadField(buf, cls, ShNum);
    PositionsByWordSize(cls);
    // e_shentsize lies just before e_shnum, so once e_shnum is read it is too
    var shEntSize := ReadField(buf, cls, ShEntSize).value;
    ProductBound(shNum, shEntSize);
    Success(TableInfo(shOffset, shNum, shEntSize))
  }

  lemma MulMonotone(a: nat, b: nat, n: nat)
    requires a <= b
    ensures a * n <= b * n
  {
    assert b * n == a * n + (b - a) * n;
  }

  lemma ProductBound(a: nat, b: nat)
    requires a < 0x1_0000 && b < 0x1_0000
    ensures a * b < 0x1_0000_0000
  {
    MulMonotone(b, 0xFFFF, a);
    MulMonotone(a, 0xFFFF, 0xFFFF);
  }

  /** `std::views::chunk(n)`: consecutive pieces of `n` elements; the last piece
      is shorter when `n` does not divide the length. */
  function Chunk(s: seq<byte>, n: nat): (r: seq<seq<byte>>)
    requires n > 0
    decreases |s|
    ensures forall i :: 0 <= i < |r| ==> 0 < |r[i]| <= n
  {
    if |s| == 0 then []
    else if |s| <= n then [s]
    else [s[..n]] + Chunk(s[n..], n)
  }

  /** The pieces, put back together, are the whole input: nothing is dropped,
      repeated or reordered. */
  lemma {:induction false} ChunkFlattens(s: seq<byte>, n: nat)
    requires n > 0
    decreases |s|
    ensures Flatten(Chunk(s, n)) == s
  {
    if |s| == 0 {
    } else if |s| <= n {
      assert Flatten([s]) == s + Flatten([]);
    } else {
      var rest := Chunk(s[n..], n);
      ChunkFlattens(s[n..], n);
      assert ([s[..n]] + rest)[1..] == rest;
      assert s == s[..n] + s[n..];
    }
  }

  /** Concatenation of pieces. */
  function Flatten(pieces: seq<seq<byte>>): seq<byte>
  {
    if pieces == [] then [] else pieces[0] + Flatten(pieces[1..])
  }

  lemma MulSucc(a: nat, n: nat)
    ensures (a + 1) * n == a * n + n
  {
  }

  /** A table of `count` entries of `n` bytes is cut into exactly `count`
      pieces. */
  lemma {:induction false} ChunkCount(s: seq<byte>, n: nat, count: nat)
    requires n > 0 && |s| == count * n
    ensures |Chunk(s, n)| == count
  {
    if count > 1 {
      MulSucc(count - 1, n);
      MulMonotone(1, count - 1, n);
      ChunkCount(s[n..], n, count - 1);
    }
  }

  /** Past the first piece, the pieces are those of the rest of the input. */
  lemma ChunkShift(s: seq<byte>, n: nat, i: nat)
    requires n > 0 && |s| > n && 0 < i < |Chunk(s, n)|
    ensures Chunk(s, n)[i] == Chunk(s[n..], n)[i - 1]
  {
  }

  /** Piece `i` of such a table is bytes `i * n` to `(i + 1) * n`. */
  lemma {:induction false} ChunkAt(s: seq<byte>, n: nat, count: nat, i: nat)
    requires n > 0 && |s| == count * n && i < count
    ensures i * n + n <= |s| && i < |Chunk(s, n)| && Chunk(s, n)[i] == s[i * n..i * n + n]
  {
    ChunkCount(s, n, count);
    assert i * n + n <= |s| by {
      MulSucc(i, n);
      MulMonotone(i + 1, count, n);
    }
    if i == 0 {
      assert Chunk(s, n)[0] == s[..n] by {
        MulMonotone(1, count, n);
      }
    } else {
      var rest := s[n..];
      assert |s| > n && |rest| == (count - 1) * n by {
        MulSucc(1, n);
        MulMonotone(2, count, n);
        MulSucc(count - 1, n);
      }
      ChunkShift(s, n, i);
      ChunkAt(rest, n, count - 1, i - 1);
      var lo := (i - 1) * n;
      assert i * n == n + lo by {
        MulSucc(i - 1, n);
      }
      assert rest[lo..lo + n] == s[n + lo..n + lo + n];
    }
  }

  /** The section-header table: `e_shnum * e_shentsize` bytes at `e_shoff`, cut
      into entries of `e_shentsize` bytes. An entry size of 0, which the C++
      code hands to `std::views::chunk` unchecked, is a `BadEntSize` failure. */
  function SectionHeaders(buf: seq<byte>, t: TableInfo): (r: Result<seq<seq<byte>>, Error>)
    ensures r.Failure? <==> t.shOffset + t.shNum * t.shEntSize > |buf| || t.shEntSize == 0
    ensures r.Failure? ==>
              r.error == if t.shOffset + t.shNum * t.shEntSize > |buf| then OutOfRange else BadEntSize
  {
    var table :- View(buf, t.shOffset, t.shNum * t.shEntSize);
    if t.shEntSize == 0 then Failure(BadEntSize) else Success(Chunk(table, t.shEntSize))
  }

  /** Entry `i` of the section-header table is the `e_shentsize` bytes of the
      file at `e_shoff + i * e_shentsize`. */
  lemma EntryAt(buf: seq<byte>, t: TableInfo, entries: seq<seq<byte>>, i: nat)
    requires SectionHeaders(buf, t) == Success(entries) && i < |entries|
    ensures t.shOffset + i * t.shEntSize + t.shEntSize <= |buf|
    ensures entries[i] == buf[t.shOffset + i * t.shEntSize..t.shOffset + i * t.shEntSize + t.shEntSize]
  {
    var n := t.shEntSize;
    var table := buf[t.shOffset..t.shOffset + t.shNum * n];
    assert entries == Chunk(table, n) && |table| == t.shNum * n by {
      assert View(buf, t.shOffset, t.shNum * n) == Success(table);
    }
    assert |entries| == t.shNum by {
      ChunkCount(table, n, t.shNum);
    }
    var lo := i * n;
    assert lo + n <= |table| && entries[i] == table[lo..lo + n] by {
      ChunkAt(table, n, t.shNum, i);
    }
    assert table[lo..lo + n] == buf[t.shOffset + lo..t.shOffset + lo + n];
  }

  /** The walk sees exactly `e_shnum` entries, each `e_shentsize` bytes long,
      and entry `i` is the bytes of the file at `e_shoff + i * e_shentsize`. */
  lemma SectionHeadersPartition(buf: seq<byte>, t: TableInfo, entries: seq<seq<byte>>)
    requires SectionHeaders(buf, t) == Success(entries)
    ensures |entries| == t.shNum
    ensures forall i :: 0 <= i < t.shNum ==>
              |entries[i]| == t.shEntSize &&
              t.shOffset + i * t.shEntSize + t.shEntSize <= |buf| &&
              entries[i] == buf[t.shOffset + i * t.shEntSize..t.shOffset + i * t.shEntSize + t.shEntSize]
  {
    var table := buf[t.shOffset..t.shOffset + t.shNum * t.shEntSize];
    assert entries == Chunk(table, t.shEntSize);
    ChunkCount(table, t.shEntSize, t.shNum);
    forall i | 0 <= i < t.shNum
      ensures |entries[i]| == t.shEntSize
      ensures t.shOffset + i * t.shEntSize + t.shEntSize <= |buf|
      ensures entries[i] == buf[t.shOffset + i * t.shEntSize..t.shOffset + i * t.shEntSize + t.shEntSize]
    {
      EntryAt(buf, t, entries, i);
    }
  }

  /** Bytes `pos` to `pos + width` of entry `i`, read as an unsigned number,
      are the same bytes of the file at `e_shoff + i * e_shentsize + pos`. */
  lemma EntryWindowInFile(buf: seq<byte>, t: TableInfo, entries: seq<seq<byte>>, i: nat, pos: nat, width: nat)
    requires SectionHeaders(buf, t) == Success(entries)
    requires i < |entries| && width <= 8 && pos + width <= t.shEntSize
    ensures ReadUnsigned(entries[i], pos, width) ==
              ReadUnsigned(buf, t.shOffset + i * t.shEntSize + pos, width)
  {
    var n := t.shEntSize;
    var start := t.shOffset + i * n;
    assert start + n <= |buf| && entries[i] == View(buf, start, n).value by {
      EntryAt(buf, t, entries, i);
    }
    ReadUnsignedInView(buf, start, n, pos, width);
  }

  /** A field of entry `i` is the field of the file at the entry's place:
      reading it from the entry equals reading the same width from the file at
      `e_shoff + i * e_shentsize` plus the field's position. */
  lemma EntryFieldInFile(buf: seq<byte>, t: TableInfo, entries: seq<seq<byte>>, i: nat, cls: EiClass, key: DataPosition)
    requires SectionHeaders(buf, t) == Success(entries)
    requires i < |entries| && cls != kNone
    requires Position(cls, key).value + FieldWidth(cls, key).value <= t.shEntSize
    ensures ReadField(entries[i], cls, key) ==
              ReadUnsigned(buf, t.shOffset + i * t.shEntSize + Position(cls, key).value, FieldWidth(cls, key).value)
  {
    EntryWindowInFile(buf, t, entries, i, Position(cls, key).value, FieldWidth(cls, key).value);
  }

  /** The section name `.text` as bytes. */
  const TextName: seq<byte> := [0x2E, 0x74, 0x65, 0x78, 0x74]

  /** The bounded form of the name test: the bytes of `.text` and then a NUL
      lie in the buffer at `p`. */
  predicate IsTextAt(buf: seq<byte>, p: nat)
  {
    p + 6 <= |buf| &&
    buf[p] == 0x2E && buf[p + 1] == 0x74 && buf[p + 2] == 0x65 && buf[p + 3] == 0x78 && buf[p + 4] == 0x74 &&
    buf[p + 5] == 0
  }

  /** Whether a section is named `.text`: its 4-byte `sh_name` is an offset into
      the section-name string table at `base`, and the name is the C string
      there. A name with no NUL before the end of the buffer is an `OutOfRange`
      failure. The outcome agrees with the bounded test `IsTextAt`. */
  function NameIsText(buf: seq<byte>, base: nat, entry: seq<byte>): (r: Result<bool, Error>)
    ensures r.Failure? ==> r.error == OutOfRange
    ensures r.Success? <==>
              |entry| >= NameWidth &&
              exists i :: base + LittleEndian(entry[..NameWidth]) <= i < |buf| && buf[i] == 0
    ensures r.Success? ==>
              (|entry| >= NameWidth && (r.value <==> IsTextAt(buf, base + LittleEndian(entry[..NameWidth]))))
    ensures |entry| >= NameWidth && IsTextAt(buf, base + LittleEndian(entry[..NameWidth])) ==>
              r == Success(true)
  {
    var nameOffset :- ReadUnsigned(entry, NamePosition, NameWidth);
    var name :- CStringAt(buf, base + nameOffset);
    CStringIsText(buf, base + nameOffset, name);
    Success(name == TextName)
  }

  /** A terminated C string at `p` equals `.text` exactly when the bounded test
      holds at `p`, and the bounded test guarantees that the string is
      terminated. */
  lemma CStringIsText(buf: seq<byte>, p: nat, name: seq<byte>)
    requires CStringAt(buf, p) == Success(name)
    ensures name == TextName <==> IsTextAt(buf, p)
  {
    if IsTextAt(buf, p) {
      assert name == buf[p..p + 5];
    }
  }

  /** The outcome of the name test of every entry, in table order. */
  function NameTests(buf: seq<byte>, base: nat, entries: seq<seq<byte>>): (tests: seq<Result<bool, Error>>)
    ensures |tests| == |entries|
    ensures forall j :: 0 <= j < |entries| ==> tests[j] == NameIsText(buf, base, entries[j])
  {
    seq(|entries|, j requires 0 <= j < |entries| => NameIsText(buf, base, entries[j]))
  }

  /** `std::ranges::find_if` with a test that may fail, from index `i` on: the
      index of the first test that holds, `None` when none does, or the failure
      of the first test that fails before either. */
  function FindFirst(tests: seq<Result<bool, Error>>, i: nat): (r: Result<Option<nat>, Error>)
    requires i <= |tests|
    decreases |tests| - i
    ensures r.Success? && r.value.Some? ==> i <= r.value.value < |tests|
    ensures r.Failure? ==> exists j :: i <= j < |tests| && tests[j] == Failure(r.error)
  {
    if i == |tests| then Success(None)
    else
      var holds :- tests[i];
      if holds then Success(Some(i)) else FindFirst(tests, i + 1)
  }

  /** Entry `k` is the first whose test holds: every earlier test ran and
      came out false. */
  predicate IsFirst(tests: seq<Result<bool, Error>>, k: nat)
  {
    k < |tests| && tests[k] == Success(true) &&
    forall j :: 0 <= j < k ==> tests[j] == Success(false)
  }

  /** The search from `i` finds `k` exactly when `k` is the first index from
      `i` on whose test holds, every test between them coming out false. */
  lemma {:induction false} FindFirstFindsFirst(tests: seq<Result<bool, Error>>, i: nat, k: nat)
    requires i <= |tests|
    decreases |tests| - i
    ensures FindFirst(tests, i) == Success(Some(k)) <==>
              i <= k < |tests| && tests[k] == Success(true) &&
              forall j :: i <= j < k ==> tests[j] == Success(false)
  {
    if i < |tests| && tests[i] == Success(false) {
      FindFirstFindsFirst(tests, i + 1, k);
    }
  }

  /** The search from `i` finds nothing exactly when every test from `i` on
      comes out false. */
  lemma {:induction false} FindFirstFindsNone(tests: seq<Result<bool, Error>>, i: nat)
    requires i <= |tests|
    decreases |tests| - i
    ensures FindFirst(tests, i) == Success(None) <==>
              forall j :: i <= j < |tests| ==> tests[j] == Success(false)
  {
    if i < |tests| {
      FindFirstFindsNone(tests, i + 1);
    }
  }

  /** The search fails exactly with the failure of the first test that fails,
      every test before it coming out false. */
  lemma {:induction false} FindFirstFails(tests: seq<Result<bool, Error>>, i: nat, k: nat)
    requires i <= k < |tests| && tests[k].Failure?
    requires forall j :: i <= j < k ==> tests[j] == Success(false)
    decreases k - i
    ensures FindFirst(tests, i) == Failure(tests[k].error)
  {
    if i < k {
      FindFirstFails(tests, i + 1, k);
    }
  }

  /** The bytes of the section an entry describes: `sh_size` bytes at
      `sh_offset`. They are there exactly when both fields are readable and the
      range lies in the file, and they are then the file's bytes at that range. */
  function SectionBytes(cls: EiClass, buf: seq<byte>, entry: seq<byte>): (r: Result<seq<byte>, Error>)
    ensures r.Success? <==>
              ReadField(entry, cls, ShOffsetInSectionHeader).Success? &&
              ReadField(entry, cls, ShSizeInSectionHeader).Success? &&
              ReadField(entry, cls, ShOffsetInSectionHeader).value +
              ReadField(entry, cls, ShSizeInSectionHeader).value <= |buf|
    ensures r.Success? ==>
              var offset := ReadField(entry, cls, ShOffsetInSectionHeader).value;
              var size := ReadField(entry, cls, ShSizeInSectionHeader).value;
              |r.value| == size && r.value == buf[offset..offset + size]
  {
    var offset :- ReadField(entry, cls, ShOffsetInSectionHeader);
    var size :- ReadField(entry, cls, ShSizeInSectionHeader);
    View(buf, offset, size)
  }

  /** `ParseImpl<cls>` as a function of the buffer. */
  function Walk(cls: EiClass, buf: seq<byte>): (r: Result<ElfContent, Error>)
    ensures cls == kNone ==> r == Failure(UnsupportedClass)
    ensures r.Success? ==> r.value.eiClass == cls != kNone
    ensures r.Success? && r.value.noTextWarning ==> r.value.textBytecode == []
  {
    var t :- ReadTableInfo(cls, buf);
    var entries :- SectionHeaders(buf, t);
    var strndx :- ReadField(buf, cls, ShStrNdx);
    if strndx >= |entries| then Failure(InvalidIndex)
    else
      var base :- ReadField(entries[strndx], cls, ShOffsetInSectionHeader);
      TextOfSections(cls, buf, entries, base)
  }

  /** The search for the `.text` entry among the section headers, given the
      offset of the section-name string table, and the copy of its bytes. */
  function TextOfSections(cls: EiClass, buf: seq<byte>, entries: seq<seq<byte>>, base: nat): (r: Result<ElfContent, Error>)
    ensures r.Success? ==> r.value.eiClass == cls
    ensures r.Success? && r.value.noTextWarning ==> r.value.textBytecode == []
  {
    var found :- FindFirst(NameTests(buf, base, entries), 0);
    match found
    case None => Success(ElfContent(cls, [], true))
    case Some(k) =>
      var text :- SectionBytes(cls, buf, entries[k]);
      Success(ElfContent(cls, text, false))
  }

  /** The steps of the walk up to the string-table base succeeded with these
      intermediate values. */
  predicate WalkReaches(cls: EiClass, buf: seq<byte>, t: TableInfo, entries: seq<seq<byte>>, strndx: u64, base: u64)
  {
    ReadTableInfo(cls, buf) == Success(t) &&
    SectionHeaders(buf, t) == Success(entries) &&
    ReadField(buf, cls, ShStrNdx) == Success(strndx) &&
    strndx < |entries| &&
    ReadField(entries[strndx], cls, ShOffsetInSectionHeader) == Success(base)
  }

  /** Once the string-table base is known, the rest of the walk is
      `TextOfSections`. */
  lemma WalkThroughBase(cls: EiClass, buf: seq<byte>, t: TableInfo, entries: seq<seq<byte>>, strndx: u64, base: u64)
    requires WalkReaches(cls, buf, t, entries, strndx, base)
    ensures Walk(cls, buf) == TextOfSections(cls, buf, entries, base)
  {
  }

  /** Every failure of the search and copy is `OutOfRange`: a name without a
      terminator, a truncated entry or a section beyond the end of the file. */
  lemma TextErrors(cls: EiClass, buf: seq<byte>, entries: seq<seq<byte>>, base: nat)
    requires cls != kNone
    ensures TextOfSections(cls, buf, entries, base).Failure? ==>
              TextOfSections(cls, buf, entries, base).error == OutOfRange
  {
    var tests := NameTests(buf, base, entries);
    var found := FindFirst(tests, 0);
    if found.Failure? {
      var j :| 0 <= j < |tests| && tests[j] == Failure(found.error);
      assert NameIsText(buf, base, entries[j]).error == OutOfRange;
    }
  }

  /** An `e_shstrndx` that is not the index of one of the `e_shnum` entries is
      an `InvalidIndex` failure, and no other step fails with that error. */
  lemma WalkInvalidIndex(cls: EiClass, buf: seq<byte>, t: TableInfo, entries: seq<seq<byte>>, strndx: u64)
    requires ReadTableInfo(cls, buf) == Success(t)
    requires SectionHeaders(buf, t) == Success(entries)
    requires ReadField(buf, cls, ShStrNdx) == Success(strndx)
    ensures Walk(cls, buf) == Failure(InvalidIndex) <==> strndx >= t.shNum
  {
    SectionHeadersPartition(buf, t, entries);
    if strndx < |entries| {
      var base := ReadField(entries[strndx], cls, ShOffsetInSectionHeader);
      if base.Success? {
        WalkThroughBase(cls, buf, t, entries, strndx, base.value);
        TextErrors(cls, buf, entries, base.value);
      }
    }
  }

  /** When no entry is named `.text`, the search succeeds with no bytecode and
      the warning raised, and this is the only way it does. */
  lemma TextNone(cls: EiClass, buf: seq<byte>, entries: seq<seq<byte>>, base: nat)
    ensures TextOfSections(cls, buf, entries, base) == Success(ElfContent(cls, [], true)) <==>
              forall j :: 0 <= j < |entries| ==> NameIsText(buf, base, entries[j]) == Success(false)
  {
    FindFirstFindsNone(NameTests(buf, base, entries), 0);
  }

  /** When entry `k` is the first named `.text`, the result is the `sh_size`
      bytes of the file at that entry's `sh_offset`, or `OutOfRange` when they
      do not lie in the file. */
  lemma TextFound(cls: EiClass, buf: seq<byte>, entries: seq<seq<byte>>, base: nat, k: nat)
    requires IsFirst(NameTests(buf, base, entries), k)
    ensures SectionBytes(cls, buf, entries[k]).Success? ==>
              TextOfSections(cls, buf, entries, base) ==
              Success(ElfContent(cls, SectionBytes(cls, buf, entries[k]).value, false))
    ensures SectionBytes(cls, buf, entries[k]).Failure? ==>
              TextOfSections(cls, buf, entries, base) == Failure(SectionBytes(cls, buf, entries[k]).error)
  {
    FindFirstFindsFirst(NameTests(buf, base, entries), 0, k);
  }

  /** Bytecode that is returned comes from the first entry named `.text`. */
  lemma TextIsFirst(cls: EiClass, buf: seq<byte>, entries: seq<seq<byte>>, base: nat)
    requires TextOfSections(cls, buf, entries, base).Success?
    requires !TextOfSections(cls, buf, entries, base).value.noTextWarning
    ensures exists k: nat :: k < |entries| && IsFirst(NameTests(buf, base, entries), k) &&
              SectionBytes(cls, buf, entries[k]) == Success(TextOfSections(cls, buf, entries, base).value.textBytecode)
  {
    var tests := NameTests(buf, base, entries);
    var k := FindFirst(tests, 0).value.value;
    FindFirstFindsFirst(tests, 0, k);
    assert IsFirst(tests, k);
  }
}
