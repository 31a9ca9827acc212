/** Read-only windows over a byte buffer and the decoding of a window as an
    unsigned little-endian integer (`GetByteBufferView` and
    `ByteBufferViewToInteger` in src/riscv_elf.cpp), plus the NUL-terminated
    string that a `char const*` into the buffer denotes. */
module ByteView {
  import opened Wrappers
  import opened ElfTypes

  /** `GetByteBufferView(buf, start, size)`: the `size` bytes of `buf` that begin
      at `start`. The C++ code builds the span without checking it; here a window
      that does not fit in the buffer is an `OutOfRange` failure. */
  function View(buf: seq<byte>, start: nat, size: nat): (r: Result<seq<byte>, Error>)
    ensures r.Success? <==> start + size <= |buf|
    ensures r.Failure? ==> r.error == OutOfRange
    ensures r.Success? ==> |r.value| == size && forall i :: 0 <= i < size ==> r.value[i] == buf[start + i]
  {
    if start + size <= |buf| then Success(buf[start..start + size]) else Failure(OutOfRange)
  }

  /** A window of a window is the window of the buffer at the summed start. */
  lemma ViewOfView(buf: seq<byte>, a: nat, n: nat, b: nat, m: nat)
    requires a + n <= |buf| && b + m <= n
    ensures View(View(buf, a, n).value, b, m) == View(buf, a + b, m)
  {
    var inner := buf[a..a + n][b..b + m];
    assert |inner| == m;
    assert forall i :: 0 <= i < m ==> inner[i] == buf[a + b + i];
    assert inner == buf[a + b..a + b + m];
  }

  /** A number read from a window is the number read from the buffer at the
      window's start plus the position within the window. */
  lemma ReadUnsignedInView(buf: seq<byte>, a: nat, n: nat, pos: nat, width: nat)
    requires a + n <= |buf| && width <= 8 && pos + width <= n
    ensures ReadUnsigned(View(buf, a, n).value, pos, width) == ReadUnsigned(buf, a + pos, width)
  {
    ViewOfView(buf, a, n, pos, width);
    assert View(buf, a, n).value[pos..pos + width] == buf[a + pos..a + pos + width];
  }

  /** The conversion of a `std::uint64_t` to `int` (32 bits), which is what
      `std::iter_difference_t<std::uint8_t>` names: the value modulo 2^32, read
      as a two's-complement number. */
  function ToInt32(x: u64): (r: int)
    ensures -0x8000_0000 <= r < 0x8000_0000
    ensures (x - r) % 0x1_0000_0000 == 0
  {
    var low := x % 0x1_0000_0000;
    if low < 0x8000_0000 then low else low - 0x1_0000_0000
  }

  /** `GetByteBufferView` as written: the start goes through `ToInt32` before
      the iterator is advanced, so only its low 32 bits choose where the window
      begins. A negative distance, which would move before the buffer, is an
      `OutOfRange` failure like a window past its end. */
  function ViewAsWritten(buf: seq<byte>, start: u64, size: nat): (r: Result<seq<byte>, Error>)
    ensures start % 0x1_0000_0000 < 0x8000_0000 ==> r == View(buf, start % 0x1_0000_0000, size)
    ensures start % 0x1_0000_0000 >= 0x8000_0000 ==> r == Failure(OutOfRange)
  {
    var first := ToInt32(start);
    if 0 <= first && first + size <= |buf| then Success(buf[first..first + size]) else Failure(OutOfRange)
  }

  /** For a start below 2^31 the conversion changes nothing and the view as
      written is the intended one. */
  lemma ViewAsWrittenAgrees(buf: seq<byte>, start: u64, size: nat)
    requires start < 0x8000_0000
    ensures ViewAsWritten(buf, start, size) == View(buf, start, size)
  {
    assert ToInt32(start) == start;
  }

  /** A start of 2^32 or more past the end of the buffer should give no window,
      but the view as written wraps it: its low 32 bits, when below 2^31, pick a
      window inside the buffer. With a section-header offset of `0x1_0000_0000`,
      say, the table is read from the first bytes of the file. */
  lemma ViewAsWrittenWraps(buf: seq<byte>, start: u64, size: nat)
    requires |buf| < start
    requires start % 0x1_0000_0000 < 0x8000_0000
    requires start % 0x1_0000_0000 + size <= |buf|
    ensures View(buf, start, size) == Failure(OutOfRange)
    ensures ViewAsWritten(buf, start, size) == View(buf, start % 0x1_0000_0000, size)
    ensures ViewAsWritten(buf, start, size).Success?
  {
    assert ToInt32(start) == start % 0x1_0000_0000;
  }

  /** 256 to the power n. */
  function Pow256(n: nat): (p: nat)
    ensures p > 0
  {
    if n == 0 then 1 else 256 * Pow256(n - 1)
  }

  /** The unsigned value of bytes stored least-significant first:
      the sum of s[i] * 256^i. */
  function LittleEndian(s: seq<byte>): nat
  {
    if s == [] then 0 else s[0] + 256 * LittleEndian(s[1..])
  }

  /** `n` zero bytes. */
  function Zeros(n: nat): (z: seq<byte>)
    ensures |z| == n && forall i :: 0 <= i < n ==> z[i] == 0
  {
    seq(n, _ => 0)
  }

  /** The eight bytes of a zero-initialised `std::uint64_t` after `memcpy` has
      copied `v` over its first bytes. */
  function HostWord(v: seq<byte>): (w: seq<byte>)
    requires |v| <= 8
    ensures |w| == 8 && w[..|v|] == v
    ensures forall i :: |v| <= i < 8 ==> w[i] == 0
  {
    v + Zeros(8 - |v|)
  }

  lemma {:induction false} LittleEndianBound(s: seq<byte>)
    ensures LittleEndian(s) < Pow256(|s|)
  {
    if s != [] {
      LittleEndianBound(s[1..]);
    }
  }

  lemma {:induction false} LittleEndianAppend(a: seq<byte>, b: seq<byte>)
    ensures LittleEndian(a + b) == LittleEndian(a) + Pow256(|a|) * LittleEndian(b)
  {
    if a == [] {
      assert a + b == b;
    } else {
      assert (a + b)[1..] == a[1..] + b;
      LittleEndianAppend(a[1..], b);
      var p, tail := Pow256(|a| - 1), LittleEndian(b);
      assert Pow256(|a|) * tail == 256 * (p * tail) by {
        assert Pow256(|a|) == 256 * p;
      }
      calc {
        LittleEndian(a + b);
        a[0] + 256 * LittleEndian(a[1..] + b);
        a[0] + 256 * (LittleEndian(a[1..]) + p * tail);
        a[0] + 256 * LittleEndian(a[1..]) + 256 * (p * tail);
      }
    }
  }

  lemma {:induction false} LittleEndianZeros(n: nat)
    ensures LittleEndian(Zeros(n)) == 0
  {
    if n > 0 {
      assert Zeros(n)[1..] == Zeros(n - 1);
      LittleEndianZeros(n - 1);
    }
  }

  /** Zero-extension: the trailing zero bytes of the host word add nothing to
      the value. */
  lemma HostWordValue(v: seq<byte>)
    requires |v| <= 8
    ensures LittleEndian(HostWord(v)) == LittleEndian(v)
  {
    var z := Zeros(8 - |v|);
    LittleEndianAppend(v, z);
    LittleEndianZeros(8 - |v|);
    calc {
      LittleEndian(HostWord(v));
      LittleEndian(v + z);
      LittleEndian(v) + Pow256(|v|) * LittleEndian(z);
      LittleEndian(v) + Pow256(|v|) * 0;
      LittleEndian(v);
    }
  }

  /** `ByteBufferViewToInteger(v)`: the `std::uint64_t` that `memcpy` of the
      at most eight bytes of `v` into a zeroed word yields on a little-endian
      host. */
  function ToInteger(v: seq<byte>): (r: u64)
    requires |v| <= 8
    ensures r == LittleEndian(v)
    ensures r < Pow256(|v|)
    ensures |v| == 1 ==> r == v[0]
  {
    HostWordValue(v);
    LittleEndianBound(v);
    assert Pow256(|v|) <= Pow256(8) == 0x1_0000_0000_0000_0000 by {
      PowMonotone(|v|, 8);
    }
    LittleEndian(HostWord(v))
  }

  lemma {:induction false} PowMonotone(m: nat, n: nat)
    requires m <= n
    ensures Pow256(m) <= Pow256(n)
  {
    if m < n {
      PowMonotone(m, n - 1);
    }
  }

  /** The `n` little-endian bytes of `x`: the inverse of `LittleEndian`. */
  function EncodeLittleEndian(x: nat, n: nat): (s: seq<byte>)
    ensures |s| == n
  {
    if n == 0 then [] else [x % 256] + EncodeLittleEndian(x / 256, n - 1)
  }

  lemma {:induction false} DecodeEncode(x: nat, n: nat)
    requires x < Pow256(n)
    ensures LittleEndian(EncodeLittleEndian(x, n)) == x
  {
    if n > 0 {
      var s := EncodeLittleEndian(x, n);
      assert s[1..] == EncodeLittleEndian(x / 256, n - 1);
      DecodeEncode(x / 256, n - 1);
    }
  }

  lemma {:induction false} EncodeDecode(s: seq<byte>)
    ensures EncodeLittleEndian(LittleEndian(s), |s|) == s
  {
    if s != [] {
      var x := LittleEndian(s);
      assert x % 256 == s[0] && x / 256 == LittleEndian(s[1..]);
      EncodeDecode(s[1..]);
    }
  }

  /** The view `v[pos..pos + width]` read as an unsigned integer:
      `ByteBufferViewToInteger(GetByteBufferView(v, pos, width))`. */
  function ReadUnsigned(v: seq<byte>, pos: nat, width: nat): (r: Result<u64, Error>)
    requires width <= 8
    ensures r.Success? <==> pos + width <= |v|
    ensures r.Failure? ==> r.error == OutOfRange
    ensures r.Success? ==> r.value == LittleEndian(v[pos..pos + width]) && r.value < Pow256(width)
  {
    var window :- View(v, pos, width);
    assert window == v[pos..pos + width];
    Success(ToInteger(window))
  }

  /** The bytes of the C string that begins at `buf[p]`: everything up to the
      first NUL byte. The C++ code measures it with no limit; here a string with
      no NUL before the end of the buffer is an `OutOfRange` failure. */
  function CStringAt(buf: seq<byte>, p: nat): (r: Result<seq<byte>, Error>)
    decreases |buf| - p
    ensures r.Success? ==> p + |r.value| < |buf| && buf[p + |r.value|] == 0
    ensures r.Success? ==> r.value == buf[p..p + |r.value|]
    ensures r.Success? ==> forall i :: 0 <= i < |r.value| ==> r.value[i] != 0
    ensures r.Failure? <==> forall i :: p <= i < |buf| ==> buf[i] != 0
    ensures r.Failure? ==> r.error == OutOfRange
  {
    if p >= |buf| then Failure(OutOfRange)
    else if buf[p] == 0 then Success([])
    else
      var rest :- CStringAt(buf, p + 1);
      Success([buf[p]] + rest)
  }
}
