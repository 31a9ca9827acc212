/** `riscv_elf::Parse` and `ParseImpl<ei_class>` as the C++ code runs them:
    field reads one after the other, the `find_if` over the section headers
    and the `copy` of the `.text` bytes as loops, each proved to compute the
    specification `ElfWalk.Walk`. */
module ElfParse {
  import opened Wrappers
  import opened ElfTypes
  import opened ByteView
  import opened ElfLayout
  import opened ElfWalk

  /** `ParseImpl<cls>`: the `.text` bytecode of the file in `buf`. */
  method ParseImpl(cls: EiClass, buf: seq<byte>) returns (r: Result<ElfContent, Error>)
    ensures r == Walk(cls, buf)
  {
    var content := ElfContent(cls, [], false);

    var shOffset :- ReadField(buf, cls, ShOffset);
    var shNum :- ReadField(buf, cls, ShNum);
    var shEntSize :- ReadField(buf, cls, ShEntSize);
    PositionsByWordSize(cls);
    ProductBound(shNum, shEntSize);
    var t := TableInfo(shOffset, shNum, shEntSize);

    var entries :- SectionHeaders(buf, t);

    var strndx :- ReadField(buf, cls, ShStrNdx);
    if strndx >= |entries| {
      return Failure(InvalidIndex);
    }
    var base :- ReadField(entries[strndx], cls, ShOffsetInSectionHeader);
    assert WalkReaches(cls, buf, t, entries, strndx, base);
    WalkThroughBase(cls, buf, t, entries, strndx, base);
    r := FindText(content, buf, entries, base);
  }

  /** `std::ranges::find_if` over the section headers: the index of the first
      entry named `.text`, `None` when there is none, or the failure of the
      first name lookup that fails before either. */
  method FindTextEntry(buf: seq<byte>, base: nat, entries: seq<seq<byte>>) returns (r: Result<Option<nat>, Error>)
    ensures r == FindFirst(NameTests(buf, base, entries), 0)
    ensures r.Success? && r.value.Some? ==> IsFirst(NameTests(buf, base, entries), r.value.value)
    ensures r == Success(None) <==>
              forall j :: 0 <= j < |entries| ==> NameTests(buf, base, entries)[j] == Success(false)
  {
    ghost var tests := NameTests(buf, base, entries);
    r := Success(None);
    var i := 0;
    while i < |entries|
      invariant i <= |entries|
      invariant FindFirst(tests, i) == FindFirst(tests, 0)
    {
      var isText := NameIsText(buf, base, entries[i]);
      assert tests[i] == isText;
      if isText.Failure? {
        r := Failure(isText.error);
        break;
      }
      if isText.value {
        r := Success(Some(i));
        break;
      }
      i := i + 1;
    }
    assert r == FindFirst(tests, 0);
    if r.Success? && r.value.Some? {
      FindFirstFindsFirst(tests, 0, r.value.value);
    }
    FindFirstFindsNone(tests, 0);
  }

  /** The search for the `.text` entry and, when there is one, the copy of
      its bytes into `content`. */
  method FindText(content: ElfContent, buf: seq<byte>, entries: seq<seq<byte>>, base: nat)
    returns (r: Result<ElfContent, Error>)
    requires content.textBytecode == [] && !content.noTextWarning
    ensures r == TextOfSections(content.eiClass, buf, entries, base)
  {
    var cls := content.eiClass;
    var search := FindTextEntry(buf, base, entries);
    if search.Failure? {
      assert TextOfSections(cls, buf, entries, base) == Failure(search.error);
      return Failure(search.error);
    }
    if search.value.None? {
      assert TextOfSections(cls, buf, entries, base) == Success(ElfContent(cls, [], true));
      // the C++ code prints a warning here
      return Success(content.(noTextWarning := true));
    }
    var k := search.value.value;
    ghost var textBytes := SectionBytes(cls, buf, entries[k]);
    assert TextOfSections(cls, buf, entries, base) ==
           if textBytes.Failure? then Failure(textBytes.error) else Success(ElfContent(cls, textBytes.value, false));
    var textOffset :- ReadField(entries[k], cls, ShOffsetInSectionHeader);
    var textSize :- ReadField(entries[k], cls, ShSizeInSectionHeader);
    var view :- View(buf, textOffset, textSize);
    assert textBytes == Success(view);
    var text := AppendAll(content.textBytecode, view);
    assert text == view;
    assert content.(textBytecode := text) == ElfContent(cls, view, false);
    return Success(content.(textBytecode := text));
  }

  /** `std::ranges::copy` into a `std::back_inserter`: the bytes of `view`
      appended one by one to `dest`. */
  method AppendAll(dest: seq<byte>, view: seq<byte>) returns (out: seq<byte>)
    ensures out == dest + view
  {
    out := dest;
    var j := 0;
    while j < |view|
      invariant j <= |view|
      invariant out == dest + view[..j]
    {
      out := out + [view[j]];
      j := j + 1;
    }
  }

  /** `Parse` on the bytes of a file: the class byte `e_ident[EI_CLASS]`
      chooses the 32-bit or the 64-bit walk; any other value is refused. */
  function ParseBytes(buf: seq<byte>): (r: Result<ElfContent, Error>)
    ensures |buf| == 0 ==> r == Failure(EmptyInput)
    ensures 0 < |buf| <= EiClassPosition ==> r == Failure(OutOfRange)
    ensures r.Success? ==>
              |buf| > EiClassPosition && r.value.eiClass != kNone &&
              ClassValue(r.value.eiClass) == buf[EiClassPosition]
    ensures |buf| > EiClassPosition && buf[EiClassPosition] != 1 && buf[EiClassPosition] != 2 ==>
              r == Failure(UnsupportedClass)
  {
    if |buf| == 0 then Failure(EmptyInput)
    else if |buf| <= EiClassPosition then Failure(OutOfRange)
    else
      match ClassOfByte(buf[EiClassPosition])
      case Some(k32b) => Walk(k32b, buf)
      case Some(k64b) => Walk(k64b, buf)
      case _ => Failure(UnsupportedClass)
  }

  /** A class byte of 1 runs the 32-bit walk and a class byte of 2 the 64-bit
      walk, each over the whole buffer. */
  lemma ParseDispatch(buf: seq<byte>)
    requires |buf| > EiClassPosition
    ensures buf[EiClassPosition] == 1 ==> ParseBytes(buf) == Walk(k32b, buf)
    ensures buf[EiClassPosition] == 2 ==> ParseBytes(buf) == Walk(k64b, buf)
  {
    if buf[EiClassPosition] == 1 {
      ClassOfByteInvertsClassValue(k32b);
    } else if buf[EiClassPosition] == 2 {
      ClassOfByteInvertsClassValue(k64b);
    }
  }

  /** End to end: when the class byte names `cls`, the walk reaches the
      string-table base, entry `k` is the first named `.text` and its section
      lies in the file, `Parse` returns exactly the `sh_size` bytes of the file
      at that entry's `sh_offset`, with no warning. */
  lemma ParseFindsText(buf: seq<byte>, cls: EiClass, t: TableInfo, entries: seq<seq<byte>>,
                       strndx: u64, base: u64, k: nat, offset: u64, size: u64)
    requires |buf| > EiClassPosition && cls != kNone && buf[EiClassPosition] == ClassValue(cls)
    requires WalkReaches(cls, buf, t, entries, strndx, base)
    requires IsFirst(NameTests(buf, base, entries), k)
    requires ReadField(entries[k], cls, ShOffsetInSectionHeader) == Success(offset)
    requires ReadField(entries[k], cls, ShSizeInSectionHeader) == Success(size)
    requires offset + size <= |buf|
    ensures ParseBytes(buf) == Success(ElfContent(cls, buf[offset..offset + size], false))
    ensures |ParseBytes(buf).value.textBytecode| == size
  {
    var text := buf[offset..offset + size];
    assert SectionBytes(cls, buf, entries[k]) == Success(text) by {
      assert SectionBytes(cls, buf, entries[k]) == View(buf, offset, size);
    }
    assert TextOfSections(cls, buf, entries, base) == Success(ElfContent(cls, text, false)) by {
      TextFound(cls, buf, entries, base, k);
    }
    assert Walk(cls, buf) == TextOfSections(cls, buf, entries, base) by {
      WalkThroughBase(cls, buf, t, entries, strndx, base);
    }
    ParseDispatch(buf);
  }

  /** End to end: when the walk reaches the string-table base and no entry is
      named `.text`, `Parse` succeeds with no bytecode and the warning. */
  lemma ParseFindsNoText(buf: seq<byte>, cls: EiClass, t: TableInfo, entries: seq<seq<byte>>,
                         strndx: u64, base: u64)
    requires |buf| > EiClassPosition && cls != kNone && buf[EiClassPosition] == ClassValue(cls)
    requires WalkReaches(cls, buf, t, entries, strndx, base)
    requires forall j :: 0 <= j < |entries| ==> NameIsText(buf, base, entries[j]) == Success(false)
    ensures ParseBytes(buf) == Success(ElfContent(cls, [], true))
  {
    ParseDispatch(buf);
    WalkThroughBase(cls, buf, t, entries, strndx, base);
    TextNone(cls, buf, entries, base);
  }

  /** `Parse`, after the file has been read into `buf`. */
  method Parse(buf: seq<byte>) returns (r: Result<ElfContent, Error>)
    ensures r == ParseBytes(buf)
  {
    if |buf| == 0 {
      return Failure(EmptyInput);
    }
    if |buf| <= EiClassPosition {
      return Failure(OutOfRange);
    }
    var eiClass := ClassOfByte(buf[EiClassPosition]);
    if eiClass == Some(k32b) {
      r := ParseImpl(k32b, buf);
    } else if eiClass == Some(k64b) {
      r := ParseImpl(k64b, buf);
    } else {
      r := Failure(UnsupportedClass);
    }
  }
}
