/** The `dump` command (src/start.c:92-117): a hex listing of `len` bytes of
    memory from `start`, sixteen to a row, each row headed by its address. */
module MemoryDump {
  import opened MachineTypes
  import opened CStrings
  import opened HexCodec

  const LF: char := '\n'
  const CR: char := '\r'

  /** The address `k` bytes after `start`, with 16-bit wrap-around. */
  function Address(start: Word, k: nat): Word
  {
    (start + k) % WordModulus
  }

  /** What the loop emits after the byte at position `k`: LF then CR at the end of
      a row of sixteen, a space after the eighth byte of a row, nothing otherwise. */
  function CellSeparator(k: nat): seq<char>
  {
    if k % 16 == 15 then [LF, CR] else if k % 8 == 7 then " " else []
  }

  /** The same separator, by column `j` within a row. */
  function ColumnSeparator(j: nat): seq<char>
  {
    if j == 15 then [LF, CR] else if j == 7 then " " else []
  }

  lemma CellSeparatorByColumn(k: nat)
    ensures CellSeparator(k) == ColumnSeparator(k % 16)
  {
  }

  /** What the loop emits before the byte at position `k`: at the start of each
      row of sixteen, the byte's address and two spaces. */
  function Gutter(start: Word, k: nat): seq<char>
  {
    if k % 16 == 0 then PutHex16(Address(start, k)) + "  " else []
  }

  /** What the loop emits for the byte it reads at position `k` of the dump
      (`out_count == k`, `addr == (start + k) mod 2^16`). */
  function DumpCell(mem: Memory, start: Word, k: nat): seq<char>
  {
    Gutter(start, k) + PutHex8(mem(Address(start, k))) + CellSeparator(k)
  }

  /** The whole output of a dump of `n` bytes from `start`, byte by byte. */
  function DumpText(mem: Memory, start: Word, n: nat): seq<char>
  {
    if n == 0 then [] else DumpText(mem, start, n - 1) + DumpCell(mem, start, n - 1)
  }

  /** The byte columns of a row at `addr` holding its first `m` bytes. */
  function RowBytes(mem: Memory, addr: Word, m: nat): seq<char>
    requires m <= 16
  {
    if m == 0 then []
    else RowBytes(mem, addr, m - 1) + PutHex8(mem(Address(addr, m - 1))) + ColumnSeparator(m - 1)
  }

  /** One row of the listing: the address, two spaces, then `m` byte columns. */
  function Row(mem: Memory, addr: Word, m: nat): seq<char>
    requires 1 <= m <= 16
  {
    PutHex16(addr) + "  " + RowBytes(mem, addr, m)
  }

  /** The listing as a sequence of rows: full rows of 16, then a last partial one;
      each row starts sixteen addresses (mod 2^16) after the previous. */
  function DumpRows(mem: Memory, start: Word, n: nat): seq<char>
    decreases n
  {
    if n == 0 then []
    else if n <= 16 then Row(mem, start, n)
    else Row(mem, start, 16) + DumpRows(mem, Address(start, 16), n - 16)
  }

  /** The number of characters in a row of `m` bytes (0 for no row). */
  function RowLength(m: nat): nat
  {
    if m == 0 then 0 else 6 + 2 * m + (if m >= 8 then 1 else 0) + (if m == 16 then 2 else 0)
  }

  /** Column `j` of a row starts this many characters after the two-space gutter. */
  function ColumnOffset(j: nat): nat
  {
    2 * j + (if j >= 8 then 1 else 0)
  }

  lemma AppendAssoc(a: seq<char>, b: seq<char>, c: seq<char>)
    ensures a + b + c == a + (b + c)
  {
  }

  lemma SliceOfPrefix(a: seq<char>, b: seq<char>, i: nat, j: nat)
    requires i <= j <= |a|
    ensures (a + b)[i..j] == a[i..j]
  {
    assert (a + b)[..|a|] == a;
  }

  lemma SliceAfterPrefix(a: seq<char>, b: seq<char>, i: nat, j: nat)
    requires i <= j <= |b|
    ensures (a + b)[|a| + i..|a| + j] == b[i..j]
  {
    assert (a + b)[|a|..] == b;
  }

  /** Appending `d` to `a == x + b` is appending `b + d` to `x`. */
  lemma AppendAfter(a: seq<char>, x: seq<char>, b: seq<char>, c: seq<char>, d: seq<char>)
    requires a == x + b && c == b + d
    ensures a + d == x + c
  {
    AppendAssoc(x, b, d);
  }

  lemma AddressShift(start: Word, d: nat, k: nat)
    ensures Address(start, d + k) == Address(Address(start, d), k)
  {
    var q := (start + d) / WordModulus;
    assert start + d == q * WordModulus + (start + d) % WordModulus;
    assert start + (d + k) == q * WordModulus + ((start + d) % WordModulus + k);
  }

  /** Distinct positions less than 2^16 apart read distinct addresses. */
  lemma AddressInjective(start: Word, i: nat, j: nat)
    requires i <= j < i + WordModulus && Address(start, i) == Address(start, j)
    ensures i == j
  {
    var qi, qj := (start + i) / WordModulus, (start + j) / WordModulus;
    assert start + i == qi * WordModulus + Address(start, i);
    assert start + j == qj * WordModulus + Address(start, i);
    assert (qj - qi) * WordModulus == j - i;
  }

  lemma CellShift(mem: Memory, start: Word, k: nat)
    ensures DumpCell(mem, start, 16 + k) == DumpCell(mem, Address(start, 16), k)
  {
    AddressShift(start, 16, k);
    assert (16 + k) % 16 == k % 16 && (16 + k) % 8 == k % 8;
    assert Gutter(start, 16 + k) == Gutter(Address(start, 16), k);
    assert CellSeparator(16 + k) == CellSeparator(k);
  }

  /** Bytes 16 and on of a dump are a dump from sixteen addresses further on. */
  lemma {:induction false} DumpTextSplit(mem: Memory, start: Word, n: nat)
    requires n >= 16
    ensures DumpText(mem, start, n) == DumpText(mem, start, 16) + DumpText(mem, Address(start, 16), n - 16)
  {
    if n > 16 {
      var next := Address(start, 16);
      var whole, head := DumpText(mem, start, n - 1), DumpText(mem, start, 16);
      var tail, tail' := DumpText(mem, next, n - 17), DumpText(mem, next, n - 16);
      DumpTextSplit(mem, start, n - 1);
      CellShift(mem, start, n - 17);
      assert tail' == tail + DumpCell(mem, next, n - 17);
      AppendAfter(whole, head, tail, tail', DumpCell(mem, start, n - 1));
    }
  }

  /** The first byte of a dump opens a row with its address. */
  lemma FirstCell(mem: Memory, start: Word)
    ensures DumpCell(mem, start, 0) == PutHex16(start) + "  " + RowBytes(mem, start, 1)
  {
    assert Address(start, 0) == start;
    assert Gutter(start, 0) == PutHex16(start) + "  ";
    assert CellSeparator(0) == ColumnSeparator(0);
    AppendAssoc(Gutter(start, 0), PutHex8(mem(start)), ColumnSeparator(0));
    assert RowBytes(mem, start, 0) == [];
  }

  /** Any other byte of the first row is just its column. */
  lemma InnerCell(mem: Memory, start: Word, k: nat)
    requires 0 < k < 16
    ensures DumpCell(mem, start, k) == PutHex8(mem(Address(start, k))) + ColumnSeparator(k)
  {
    assert Gutter(start, k) == [];
    assert CellSeparator(k) == ColumnSeparator(k);
  }

  /** The first `m` bytes (m <= 16) of a dump are one row. */
  lemma {:induction false} DumpTextFirstRow(mem: Memory, start: Word, m: nat)
    requires 1 <= m <= 16
    ensures DumpText(mem, start, m) == Row(mem, start, m)
  {
    if m == 1 {
      FirstCell(mem, start);
    } else {
      DumpTextFirstRow(mem, start, m - 1);
      InnerCell(mem, start, m - 1);
      AppendAfter(DumpText(mem, start, m - 1), PutHex16(start) + "  ", RowBytes(mem, start, m - 1),
                  RowBytes(mem, start, m), DumpCell(mem, start, m - 1));
    }
  }

  /** The byte-by-byte loop and the row-by-row layout produce the same text. */
  lemma {:induction false} DumpAsRows(mem: Memory, start: Word, n: nat)
    ensures DumpText(mem, start, n) == DumpRows(mem, start, n)
    decreases n
  {
    if 1 <= n <= 16 {
      DumpTextFirstRow(mem, start, n);
    } else if n > 16 {
      DumpTextSplit(mem, start, n);
      DumpTextFirstRow(mem, start, 16);
      DumpAsRows(mem, Address(start, 16), n - 16);
    }
  }

  lemma {:induction false} RowBytesLength(mem: Memory, addr: Word, m: nat)
    requires m <= 16
    ensures |RowBytes(mem, addr, m)| == 2 * m + (if m >= 8 then 1 else 0) + (if m == 16 then 2 else 0)
  {
    if m > 0 {
      RowBytesLength(mem, addr, m - 1);
    }
  }

  lemma {:induction false} DumpRowsLength(mem: Memory, start: Word, n: nat)
    ensures |DumpRows(mem, start, n)| == 41 * (n / 16) + RowLength(n % 16)
    decreases n
  {
    if 1 <= n <= 16 {
      RowBytesLength(mem, start, n);
      OneRowCount(n);
    } else if n > 16 {
      RowBytesLength(mem, start, 16);
      DumpRowsLength(mem, Address(start, 16), n - 16);
      NextRowCount(n);
    }
  }

  lemma OneRowCount(n: nat)
    requires 1 <= n <= 16
    ensures 41 * (n / 16) + RowLength(n % 16) == RowLength(n)
  {
  }

  lemma NextRowCount(n: nat)
    requires n > 16
    ensures (n - 16) / 16 == n / 16 - 1 && (n - 16) % 16 == n % 16
  {
  }

  /** Every full row is 41 characters and a last partial row of `m` bytes is
      RowLength(m); so the dump is empty exactly when `n` is 0. */
  lemma DumpLength(mem: Memory, start: Word, n: nat)
    ensures |DumpText(mem, start, n)| == 41 * (n / 16) + RowLength(n % 16)
    ensures |DumpText(mem, start, n)| == 0 <==> n == 0
  {
    DumpAsRows(mem, start, n);
    DumpRowsLength(mem, start, n);
  }

  /** Column `j` of a row shows the byte at `addr + j` (mod 2^16). */
  lemma {:induction false} RowByteAt(mem: Memory, addr: Word, m: nat, j: nat)
    requires j < m <= 16
    ensures |RowBytes(mem, addr, m)| >= ColumnOffset(j) + 2
    ensures RowBytes(mem, addr, m)[ColumnOffset(j)..ColumnOffset(j) + 2] == PutHex8(mem(Address(addr, j)))
  {
    var prev := RowBytes(mem, addr, m - 1);
    var cell := PutHex8(mem(Address(addr, m - 1)));
    var sep := ColumnSeparator(m - 1);
    RowBytesLength(mem, addr, m - 1);
    AppendAssoc(prev, cell, sep);
    if j < m - 1 {
      RowByteAt(mem, addr, m - 1, j);
      SliceOfPrefix(prev, cell + sep, ColumnOffset(j), ColumnOffset(j) + 2);
    } else {
      SliceOfPrefix(cell, sep, 0, 2);
      SliceAfterPrefix(prev, cell + sep, 0, 2);
    }
  }

  /** The dump reads memory only at the `n` addresses `start + k` (mod 2^16), k < n:
      two memories that agree there give the same listing. */
  lemma {:induction false} DumpReadsOnlyVisited(mem1: Memory, mem2: Memory, start: Word, n: nat)
    requires forall k :: 0 <= k < n ==> mem1(Address(start, k)) == mem2(Address(start, k))
    ensures DumpText(mem1, start, n) == DumpText(mem2, start, n)
  {
    if n > 0 {
      DumpReadsOnlyVisited(mem1, mem2, start, n - 1);
      assert mem1(Address(start, n - 1)) == mem2(Address(start, n - 1));
    }
  }

  /** Column `j` of a row, after the address and two spaces, shows the byte at `addr + j` (mod 2^16). */
  lemma RowColumn(mem: Memory, addr: Word, m: nat, j: nat)
    requires j < m <= 16
    ensures |Row(mem, addr, m)| >= 6 + ColumnOffset(j) + 2
    ensures Row(mem, addr, m)[6 + ColumnOffset(j)..6 + ColumnOffset(j) + 2] == PutHex8(mem(Address(addr, j)))
  {
    RowByteAt(mem, addr, m, j);
    SliceAfterPrefix(PutHex16(addr) + "  ", RowBytes(mem, addr, m), ColumnOffset(j), ColumnOffset(j) + 2);
  }

  lemma HeaderFFF8()
    ensures PutHex16(0xFFF8) + "  " == "FFF8  "
  {
    assert PutHex8(0xFF) == "FF";
    assert PutHex8(0xF8) == "F8";
    assert PutHex16(0xFFF8) == "FFF8";
  }

  /** A dump of sixteen bytes from FFF8 is one row headed FFF8 whose ninth column,
      past the wrap, shows the byte at 0000. */
  lemma WrapAroundRow(mem: Memory)
    ensures DumpText(mem, 0xFFF8, 16) == "FFF8  " + RowBytes(mem, 0xFFF8, 16)
    ensures |RowBytes(mem, 0xFFF8, 16)| == 35
    ensures RowBytes(mem, 0xFFF8, 16)[ColumnOffset(8)..ColumnOffset(8) + 2] == PutHex8(mem(0))
  {
    DumpTextFirstRow(mem, 0xFFF8, 16);
    HeaderFFF8();
    RowBytesLength(mem, 0xFFF8, 16);
    RowByteAt(mem, 0xFFF8, 16, 8);
    assert Address(0xFFF8, 8) == 0;
  }

  /** An argument pointer of the command line: it points at a null-terminated string
      short enough for parse_hex_16's 8-bit index. */
  predicate ArgOk(buf: seq<char>, offset: nat) {
    Terminated(buf, offset) && StrLen(buf, offset) < 256
  }

  /** The argument offsets the line assembler hands over: at least two, and the
      two that dump reads point at valid arguments (any further ones are not read). */
  predicate ArgsOk(buf: seq<char>, offsets: seq<nat>) {
    |offsets| >= 2 && ArgOk(buf, offsets[0]) && ArgOk(buf, offsets[1])
  }

  /** The start address: the first argument, parsed leniently. */
  function DumpStart(buf: seq<char>, offsets: seq<nat>): Word
    requires ArgsOk(buf, offsets)
  {
    ParsedWord(CStr(buf, offsets[0]))
  }

  /** The byte count: the second argument, or 0x100 when it is empty. */
  function DumpLengthArg(buf: seq<char>, offsets: seq<nat>): Word
    requires ArgsOk(buf, offsets)
  {
    if buf[offsets[1]] == '\0' then 0x100 else ParsedWord(CStr(buf, offsets[1]))
  }

  /** Every non-empty dump opens with the start address and two spaces. */
  lemma {:induction false} DumpHeader(mem: Memory, start: Word, n: nat)
    requires n >= 1
    ensures |DumpText(mem, start, n)| >= 6
    ensures DumpText(mem, start, n)[..6] == PutHex16(start) + "  "
  {
    if n == 1 {
      var g, rest := Gutter(start, 0), PutHex8(mem(Address(start, 0))) + CellSeparator(0);
      assert Address(start, 0) == start;
      assert g == PutHex16(start) + "  ";
      AppendAssoc(g, PutHex8(mem(Address(start, 0))), CellSeparator(0));
      assert DumpText(mem, start, 1) == g + rest;
      SliceOfPrefix(g, rest, 0, 6);
    } else {
      DumpHeader(mem, start, n - 1);
      SliceOfPrefix(DumpText(mem, start, n - 1), DumpCell(mem, start, n - 1), 0, 6);
    }
  }

  /** An empty second argument selects 0x100 bytes. */
  lemma EmptyLengthArg(buf: seq<char>, offsets: seq<nat>)
    requires ArgsOk(buf, offsets) && buf[offsets[1]] == '\0'
    ensures DumpLengthArg(buf, offsets) == 0x100
  {
  }

  /** A dump of 0x100 bytes, by its length and its first six characters. */
  lemma FullPage(mem: Memory, start: Word, n: nat)
    requires n == 0x100
    ensures |DumpText(mem, start, n)| == 16 * 41
    ensures DumpText(mem, start, n)[..6] == PutHex16(start) + "  "
  {
    DumpLength(mem, start, n);
    DumpHeader(mem, start, n);
  }

  /** Without a length argument the dump lists 256 bytes: sixteen full rows of 41
      characters, the first headed by the start address. */
  lemma DefaultDump(mem: Memory, buf: seq<char>, offsets: seq<nat>)
    requires ArgsOk(buf, offsets) && buf[offsets[1]] == '\0'
    ensures |DumpText(mem, DumpStart(buf, offsets), DumpLengthArg(buf, offsets))| == 16 * 41
    ensures DumpText(mem, DumpStart(buf, offsets), DumpLengthArg(buf, offsets))[..6]
         == PutHex16(DumpStart(buf, offsets)) + "  "
  {
    var start, n := DumpStart(buf, offsets), DumpLengthArg(buf, offsets);
    EmptyLengthArg(buf, offsets);
    FullPage(mem, start, n);
  }

  /** One turn of the dump loop appends exactly DumpCell to what it had emitted. */
  lemma EmittedCell(out: seq<char>, before: seq<char>, after: seq<char>, mem: Memory, start: Word, k: nat)
    requires before == out + DumpText(mem, start, k)
    requires after == before + Gutter(start, k) + PutHex8(mem(Address(start, k))) + CellSeparator(k)
    ensures after == out + DumpText(mem, start, k + 1)
  {
    var g, b, c := Gutter(start, k), PutHex8(mem(Address(start, k))), CellSeparator(k);
    calc {
      after;
      before + g + b + c;
      { AppendAssoc(before, g, b); }
      before + (g + b) + c;
      { AppendAssoc(before, g + b, c); }
      before + (g + b + c);
      out + DumpText(mem, start, k) + DumpCell(mem, start, k);
      { AppendAssoc(out, DumpText(mem, start, k), DumpCell(mem, start, k)); }
      out + DumpText(mem, start, k + 1);
    }
  }

  /** The listing loop of dump (src/start.c:99-116): appends to `out` the listing of
      the `len` bytes from `start`, wrapping modulo 2^16. */
  method DumpRange(mem: Memory, start: Word, len: Word, out: seq<char>) returns (res: seq<char>)
    ensures res == out + DumpText(mem, start, len)
  {
    var end := Address(start, len);
    var addr := start;
    var outCount := 0;
    res := out;
    while addr != end
      invariant outCount <= len
      invariant addr == Address(start, outCount)
      invariant res == out + DumpText(mem, start, outCount)
      decreases len - outCount
    {
      assert outCount < len;
      ghost var before := res;
      var val := mem(addr);
      if outCount % 16 == 0 {
        res := res + PutHex16(addr) + "  ";
      }
      assert res == before + Gutter(start, outCount) by {
        AppendAssoc(before, PutHex16(addr), "  ");
      }
      res := res + PutHex8(val);
      if outCount % 16 == 15 {
        res := res + [LF, CR];
      } else if outCount % 8 == 7 {
        res := res + " ";
      }
      EmittedCell(out, before, res, mem, start, outCount);
      AddressShift(start, outCount, 1);
      addr := Address(addr, 1);
      outCount := outCount + 1;
    }
    if outCount < len {
      AddressInjective(start, outCount, len);
    }
  }

  /** dump (src/start.c:92-117): appends to `out` the listing of the bytes from the
      first argument's address, as many as the second argument says, 0x100 when
      the second argument is empty. */
  method Dump(mem: Memory, buf: seq<char>, offsets: seq<nat>, out: seq<char>) returns (res: seq<char>)
    requires ArgsOk(buf, offsets)
    ensures res == out + DumpText(mem, DumpStart(buf, offsets), DumpLengthArg(buf, offsets))
  {
    var start := ParseHex16(buf, offsets[0]);
    var len := ParseHex16(buf, offsets[1]);
    if buf[offsets[1]] == '\0' {
      len := 0x100;
    }
    res := DumpRange(mem, start, len, out);
  }
}
