/** The `x N EXPR` command: argument checks, and the dump of `N` consecutive
    words as lines of an address, four hexadecimal bytes and four characters. */
module Examine {
  import opened Options
  import opened Words
  import opened Scan
  import opened Hex
  import opened Effects

  const NeedCount: string := "Please input n"
  const NeedExpr: string := "Please input EXPR"

  /** Bytes the character column shows as themselves. */
  predicate Printable(b: u8) {
    32 <= b <= 126
  }

  /** How the character column shows one byte. */
  function Shown(b: u8): (c: char)
    ensures Printable(b) ==> c as int == b
    ensures c == '.' <==> !Printable(b) || b == '.' as int
  {
    if Printable(b) then b as char else '.'
  }

  /** Each byte as `%02x ` in order. */
  function HexColumn(bs: seq<u8>): (r: string)
    ensures |r| == 3 * |bs|
  {
    if |bs| == 0 then "" else Hex2(bs[0]) + " " + HexColumn(bs[1..])
  }

  /** Field `j` of the hexadecimal column is byte `j` as two digits and a space. */
  lemma {:induction false} HexColumnField(bs: seq<u8>, j: nat)
    requires j < |bs|
    ensures HexColumn(bs)[3 * j..3 * j + 2] == Hex2(bs[j])
    ensures HexColumn(bs)[3 * j + 2] == ' '
  {
    var tail := HexColumn(bs[1..]);
    var r := Hex2(bs[0]) + " " + tail;
    assert HexColumn(bs) == r;
    if j > 0 {
      HexColumnField(bs[1..], j - 1);
      assert r[3 * j..3 * j + 2] == tail[3 * (j - 1)..3 * (j - 1) + 2];
    }
  }

  /** Each byte shown as a character in order. */
  function CharColumn(bs: seq<u8>): (r: string)
    ensures |r| == |bs|
    ensures forall j :: 0 <= j < |bs| ==> r[j] == Shown(bs[j])
  {
    if |bs| == 0 then "" else [Shown(bs[0])] + CharColumn(bs[1..])
  }

  /** One line of the dump of word `value` read at `addr`:
      `0x%08x: ` then byte 0 to byte 3 as `%02x `, then the same bytes as characters. */
  function FormatLine(addr: u32, value: u32): (r: string)
    ensures |r| == 28
    ensures r[..10] == "0x" + Hex8(addr) && r[10..12] == ": "
  {
    var bs := WordBytes(value);
    "0x" + Hex8(addr) + ": " + HexColumn(bs) + CharColumn(bs)
  }

  /** The columns of a line: byte `j` of the word, least significant first,
      as two lowercase hexadecimal digits and a space at column `12 + 3j`,
      and as a character at column `24 + j`. */
  lemma LineColumns(addr: u32, value: u32, j: nat)
    requires j < 4
    ensures FormatLine(addr, value)[12 + 3 * j..14 + 3 * j] == Hex2(ByteOf(value, j))
    ensures FormatLine(addr, value)[14 + 3 * j] == ' '
    ensures FormatLine(addr, value)[24 + j] == Shown(ByteOf(value, j))
  {
    var bs := WordBytes(value);
    var head := "0x" + Hex8(addr) + ": ";
    var hex := HexColumn(bs);
    var chars := CharColumn(bs);
    var r := head + hex + chars;
    assert FormatLine(addr, value) == r;
    HexColumnField(bs, j);
    assert r[12 + 3 * j..14 + 3 * j] == hex[3 * j..3 * j + 2];
    assert r[14 + 3 * j] == hex[3 * j + 2];
    assert r[24 + j] == chars[j];
  }

  /** A printed line gives back what it was printed from: `%x` reads the
      address from its first column, and hexadecimal byte field `j` reads
      back as byte `j` of the word (the bytes reassemble the word by
      `WordFromBytes`). */
  lemma LineRecoversAddressAndByte(addr: u32, value: u32, j: nat)
    requires j < 4
    ensures ScanHex(FormatLine(addr, value)[..10]) == Some(addr)
    ensures var field := FormatLine(addr, value)[12 + 3 * j..14 + 3 * j];
      AllHexDigits(field) && HexValue(field) == ByteOf(value, j)
  {
    ScanHexOfHex8(addr);
    LineColumns(addr, value, j);
    HexValueOfHex2(ByteOf(value, j));
  }

  /** The word 0x20FF0041 at 0x1000 prints its bytes in address order and
      shows 0x00 and 0xFF as dots and 0x20 as a space.

      The proof is cut into the small lemmas below on purpose: the head, the
      bytes of the word, each `%02x` field and the character column are
      computed separately, and the literal line is assembled one
      concatenation at a time. Asked to evaluate the whole line at once, the
      solver's cost varies widely with its random seed. */
  lemma FormatLineExample(addr: u32, value: u32)
    requires addr == 0x1000 && value == 0x20FF0041
    ensures FormatLine(addr, value) == "0x00001000: 41 00 ff 20 A.. "
  {
    ExampleHead(addr);
    WordBytesExample();
    ExampleColumns(WordBytes(value));
    ExampleLine(addr, value);
  }

  lemma ExampleLine(addr: u32, value: u32)
    requires "0x" + Hex8(addr) + ": " == "0x00001000: "
    requires HexColumn(WordBytes(value)) == "41 00 ff 20 "
    requires CharColumn(WordBytes(value)) == "A.. "
    ensures FormatLine(addr, value) == "0x00001000: 41 00 ff 20 A.. "
  {
    FormatLineParts(addr, value, "0x00001000: ", "41 00 ff 20 ", "A.. ");
    assert "0x00001000: " + "41 00 ff 20 " == "0x00001000: 41 00 ff 20 ";
    assert "0x00001000: 41 00 ff 20 " + "A.. " == "0x00001000: 41 00 ff 20 A.. ";
  }

  lemma FormatLineParts(addr: u32, value: u32, head: string, hex: string, chars: string)
    requires "0x" + Hex8(addr) + ": " == head
    requires HexColumn(WordBytes(value)) == hex && CharColumn(WordBytes(value)) == chars
    ensures FormatLine(addr, value) == head + hex + chars
  {
  }

  lemma ExampleHead(addr: u32)
    requires addr == 0x1000
    ensures "0x" + Hex8(addr) + ": " == "0x00001000: "
  {
    ExampleAddress();
  }

  lemma ExampleAddress()
    ensures Hex8(0x1000) == "00001000"
  {
    assert HexFixed(0, 1) == "0";
    assert HexFixed(0, 2) == "00";
    assert HexFixed(0, 3) == "000";
    assert HexFixed(0, 4) == "0000";
    assert HexFixed(1, 5) == "00001";
    assert HexFixed(0x10, 6) == "000010";
    assert HexFixed(0x100, 7) == "0000100";
  }

  lemma ExampleColumns(bs: seq<u8>)
    requires bs == [0x41, 0x00, 0xFF, 0x20]
    ensures HexColumn(bs) == "41 00 ff 20 "
    ensures CharColumn(bs) == "A.. "
  {
    ExampleHexColumn(bs);
    ExampleCharColumn(bs);
  }

  lemma ExampleHexColumn(bs: seq<u8>)
    requires bs == [0x41, 0x00, 0xFF, 0x20]
    ensures HexColumn(bs) == "41 00 ff 20 "
  {
    Hex2Of(bs[0], '4', '1');
    Hex2Of(bs[1], '0', '0');
    Hex2Of(bs[2], 'f', 'f');
    Hex2Of(bs[3], '2', '0');
    ExampleHexFields(bs);
  }

  lemma ExampleHexFields(bs: seq<u8>)
    requires |bs| == 4
    requires Hex2(bs[0]) == "41" && Hex2(bs[1]) == "00" && Hex2(bs[2]) == "ff" && Hex2(bs[3]) == "20"
    ensures HexColumn(bs) == "41 00 ff 20 "
  {
    HexColumnOfFour(bs);
    assert "41" + " " == "41 ";
    assert "41 " + "00" == "41 00";
    assert "41 00" + " " == "41 00 ";
    assert "41 00 " + "ff" == "41 00 ff";
    assert "41 00 ff" + " " == "41 00 ff ";
    assert "41 00 ff " + "20" == "41 00 ff 20";
    assert "41 00 ff 20" + " " == "41 00 ff 20 ";
  }

  lemma ExampleCharColumn(bs: seq<u8>)
    requires bs == [0x41, 0x00, 0xFF, 0x20]
    ensures CharColumn(bs) == "A.. "
  {
  }

  lemma HexColumnOfFour(bs: seq<u8>)
    requires |bs| == 4
    ensures HexColumn(bs) == Hex2(bs[0]) + " " + Hex2(bs[1]) + " " + Hex2(bs[2]) + " " + Hex2(bs[3]) + " "
  {
    var f0, f1, f2, f3 := Hex2(bs[0]) + " ", Hex2(bs[1]) + " ", Hex2(bs[2]) + " ", Hex2(bs[3]) + " ";
    assert bs[3..][1..] == [];
    assert HexColumn(bs[3..]) == f3;
    assert bs[2..][1..] == bs[3..];
    assert HexColumn(bs[2..]) == f2 + f3;
    assert bs[1..][1..] == bs[2..];
    assert HexColumn(bs[1..]) == f1 + f2 + f3;
    assert HexColumn(bs) == f0 + (f1 + f2 + f3);
  }

  lemma Hex2Of(b: u8, hi: char, lo: char)
    requires HexChar(b / 16) == hi && HexChar(b % 16) == lo
    ensures Hex2(b) == [hi, lo]
  {
    assert HexFixed(b / 16, 1) == [hi];
  }


  lemma WordBytesExample()
    ensures WordBytes(0x20FF0041) == [0x41, 0x00, 0xFF, 0x20]
  {
    var v := 0x20FF0041;
    assert ShiftBytes(v, 0) == v;
    assert ShiftBytes(v, 1) == 0x20FF00;
    assert ShiftBytes(v, 2) == 0x20FF;
    assert ShiftBytes(v, 3) == 0x20;
  }

  /** The address of word `i` of a dump starting at `addr`: `addr += 4` on a `paddr_t`. */
  function WordAddr(addr: u32, i: nat): u32
  {
    Wrap32(addr + 4 * i)
  }

  lemma NextWordAddr(addr: u32, i: nat)
    ensures WordAddr(Wrap32(addr + 4), i) == WordAddr(addr, i + 1)
  {
    if addr + 4 >= WordModulus {
      assert Wrap32(addr + 4) == addr + 4 - WordModulus;
      assert (addr + 4 - WordModulus + 4 * i) % WordModulus == (addr + 4 + 4 * i) % WordModulus;
    }
  }

  /** How many times `for (int i = 0; i < n; i++)` runs. */
  function Times(n: int): nat
  {
    if n > 0 then n else 0
  }

  /** The loop of `x` with the rendering of a line left open: for each of
      `n` words, a read then the line `render` makes of the address and the
      word; the address wraps around modulo 2^32. */
  function DumpWith(render: (u32, u32) -> string, read: u32 -> u32, addr: u32, n: int): (trace: seq<Effect>)
    ensures |trace| == 2 * Times(n)
    decreases n
  {
    if n <= 0 then []
    else [ReadWord(addr), Output(render(addr, read(addr)))] + DumpWith(render, read, Wrap32(addr + 4), n - 1)
  }

  /** The loop of `x`: each word read is printed by `FormatLine`. */
  function Dump(read: u32 -> u32, addr: u32, n: int): (trace: seq<Effect>)
  {
    DumpWith(FormatLine, read, addr, n)
  }

  /** The effects of the first word of a non-empty dump, and the rest. */
  lemma DumpStep(render: (u32, u32) -> string, read: u32 -> u32, addr: u32, n: int)
    requires n > 0
    ensures DumpWith(render, read, addr, n) ==
              [ReadWord(addr), Output(render(addr, read(addr)))] + DumpWith(render, read, Wrap32(addr + 4), n - 1)
  {
  }

  /** The effects of one word: one read, at its address, and one line. */
  lemma WordEffects(addr: u32, line: string)
    ensures Reads([ReadWord(addr), Output(line)]) == [addr]
    ensures Outputs([ReadWord(addr), Output(line)]) == [line]
  {
    var head := [ReadWord(addr), Output(line)];
    assert head[1..][1..] == [];
  }

  /** Word `i` of a dump is read at `WordAddr(addr, i)` and rendered right after. */
  lemma {:induction false} DumpWithWord(render: (u32, u32) -> string, read: u32 -> u32, addr: u32, n: int, i: nat)
    requires i < Times(n)
    ensures DumpWith(render, read, addr, n)[2 * i] == ReadWord(WordAddr(addr, i))
    ensures DumpWith(render, read, addr, n)[2 * i + 1] == Output(render(WordAddr(addr, i), read(WordAddr(addr, i))))
    decreases n
  {
    var next := Wrap32(addr + 4);
    var head := [ReadWord(addr), Output(render(addr, read(addr)))];
    var tail := DumpWith(render, read, next, n - 1);
    DumpStep(render, read, addr, n);
    if i == 0 {
      assert WordAddr(addr, 0) == addr;
    } else {
      DumpWithWord(render, read, next, n - 1, i - 1);
      NextWordAddr(addr, i - 1);
      PairAfterHead(head, tail, i - 1);
    }
  }

  /** Pair `k` of the tail is pair `k + 1` of the whole trace. */
  lemma PairAfterHead(head: seq<Effect>, tail: seq<Effect>, k: nat)
    requires |head| == 2 && 2 * k + 1 < |tail|
    ensures (head + tail)[2 * (k + 1)] == tail[2 * k]
    ensures (head + tail)[2 * (k + 1) + 1] == tail[2 * k + 1]
  {
  }

  /** Word `i` of the dump of `x` is read at `WordAddr(addr, i)` and its
      line, printed right after, is `FormatLine` of that address and word. */
  lemma DumpWord(read: u32 -> u32, addr: u32, n: int, i: nat)
    requires i < Times(n)
    ensures Dump(read, addr, n)[2 * i] == ReadWord(WordAddr(addr, i))
    ensures Dump(read, addr, n)[2 * i + 1] == Output(FormatLine(WordAddr(addr, i), read(WordAddr(addr, i))))
  {
    DumpWithWord(FormatLine, read, addr, n, i);
  }

  /** A dump of `n` words reads exactly `max(n, 0)` words, at `addr`, `addr + 4`, ...
      modulo 2^32, in that order. */
  lemma {:induction false} DumpWithReads(render: (u32, u32) -> string, read: u32 -> u32, addr: u32, n: int)
    ensures |Reads(DumpWith(render, read, addr, n))| == Times(n)
    ensures forall i :: 0 <= i < Times(n) ==> Reads(DumpWith(render, read, addr, n))[i] == WordAddr(addr, i)
    decreases n
  {
    if n > 0 {
      var next := Wrap32(addr + 4);
      var head := [ReadWord(addr), Output(render(addr, read(addr)))];
      var tail := DumpWith(render, read, next, n - 1);
      DumpStep(render, read, addr, n);
      WordEffects(addr, render(addr, read(addr)));
      DumpWithReads(render, read, next, n - 1);
      ReadsAppend(head, tail);
      var rs := Reads(DumpWith(render, read, addr, n));
      assert rs == [addr] + Reads(tail);
      forall i | 0 <= i < n
        ensures rs[i] == WordAddr(addr, i)
      {
        if i == 0 {
          assert WordAddr(addr, 0) == addr;
        } else {
          assert rs[i] == Reads(tail)[i - 1];
          NextWordAddr(addr, i - 1);
        }
      }
    }
  }

  /** A dump of `n` words prints exactly `max(n, 0)` lines. */
  lemma {:induction false} DumpWithLines(render: (u32, u32) -> string, read: u32 -> u32, addr: u32, n: int)
    ensures |Outputs(DumpWith(render, read, addr, n))| == Times(n)
    decreases n
  {
    if n > 0 {
      var next := Wrap32(addr + 4);
      var head := [ReadWord(addr), Output(render(addr, read(addr)))];
      DumpStep(render, read, addr, n);
      WordEffects(addr, render(addr, read(addr)));
      DumpWithLines(render, read, next, n - 1);
      OutputsAppend(head, DumpWith(render, read, next, n - 1));
    }
  }

  /** The dump of `x` reads `max(n, 0)` consecutive words from `addr` on and
      prints as many lines. */
  lemma DumpReads(read: u32 -> u32, addr: u32, n: int)
    ensures |Reads(Dump(read, addr, n))| == Times(n)
    ensures forall i :: 0 <= i < Times(n) ==> Reads(Dump(read, addr, n))[i] == WordAddr(addr, i)
    ensures |Outputs(Dump(read, addr, n))| == Times(n)
  {
    DumpWithReads(FormatLine, read, addr, n);
    DumpWithLines(FormatLine, read, addr, n);
  }

  /** The count argument: `%d` into `n`, which starts at 1. */
  function Count(token: string): int
  {
    ScanDecimal(token).GetOr(1)
  }

  /** The address argument: `%x` into a `paddr_t` `addr`, which starts at 0. */
  function Address(token: string): u32
  {
    Wrap32(ScanHex(token).GetOr(0))
  }

  /** A negative address wraps around: `x 1 -4` reads the last word below
      2^32. */
  lemma NegativeAddressWraps(token: string)
    requires token == "-4"
    ensures Address(token) == 0xFFFF_FFFC
  {
    ScanHexSigned("4");
    assert token == "-" + "4";
    assert HexRun("4") == 1;
    assert "4"[..1] == "4";
    assert ScanHex("4") == Some(4);
  }

  /** `cmd_x` given the tokens after `x`. */
  function ExamineReply(args: seq<string>, read: u32 -> u32): (r: Reply)
    ensures r.status == 0
    ensures |args| == 0 ==> r.effects == [Output(NeedCount)]
    ensures |args| == 1 ==> r.effects == [Output(NeedExpr)]
    ensures |args| >= 2 ==> r.effects == Dump(read, Address(args[1]), Count(args[0]))
  {
    if |args| == 0 then Reply(0, [Output(NeedCount)])
    else if |args| == 1 then Reply(0, [Output(NeedExpr)])
    else Reply(0, Dump(read, Address(args[1]), Count(args[0])))
  }

  /** `x` reads memory only when both arguments are present; then it reads
      `max(n, 0)` consecutive words from the scanned address and prints one
      line for each; otherwise it prints one hint and reads nothing. A count
      token without a leading number counts 1; an address token without a
      hexadecimal number addresses 0. */
  lemma ExamineReadsAndLines(args: seq<string>, read: u32 -> u32)
    ensures var r := ExamineReply(args, read);
      && (|args| < 2 ==> Reads(r.effects) == [] && |Outputs(r.effects)| == 1)
      && (|args| >= 2 ==>
            var n := Count(args[0]);
            && |Reads(r.effects)| == Times(n)
            && (forall i :: 0 <= i < Times(n) ==> Reads(r.effects)[i] == WordAddr(Address(args[1]), i))
            && |Outputs(r.effects)| == Times(n))
    ensures |args| >= 1 && ScanDecimal(args[0]).None? ==> Count(args[0]) == 1
    ensures |args| >= 1 && ScanDecimal(args[0]).Some? ==> Count(args[0]) == ScanDecimal(args[0]).value
    ensures |args| >= 2 && ScanHex(args[1]).None? ==> Address(args[1]) == 0
    ensures |args| >= 2 && ScanHex(args[1]).Some? ==> Address(args[1]) == Wrap32(ScanHex(args[1]).value)
  {
    var r := ExamineReply(args, read);
    if |args| < 2 {
      var e := r.effects;
      assert e[1..] == [];
    } else {
      DumpReads(read, Address(args[1]), Count(args[0]));
    }
  }
}
