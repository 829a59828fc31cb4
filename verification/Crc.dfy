/** The CRC-16 of the XMODEM receiver: the table-driven loop against the bit-serial definition. */
module Crc {

  type byte = bv8

  function Xor(x: bv16, y: bv16): bv16 { x ^ y }

  function Left(x: bv16): bv16 { x << 1 }

  predicate Top(w: bv16) { w & 0x8000 != 0 }

  /** The polynomial when a one falls out at the top. */
  function Tap(out: bool): bv16 { if out then 0x1021 else 0 }

  /** One shift of the register without input. */
  function Shift(crc: bv16): bv16 { Xor(Left(crc), Tap(Top(crc))) }

  function Shifts(crc: bv16, n: nat): bv16
    decreases n
  {
    if n == 0 then crc else Shifts(Shift(crc), n - 1)
  }

  /** The bit-serial register: feeds the n highest bits of w, highest first. */
  function Feed(crc: bv16, w: bv16, n: nat): bv16
    decreases n
  {
    if n == 0 then crc else Feed(Xor(Left(crc), Tap(Top(crc) != Top(w))), Left(w), n - 1)
  }

  function High(b: byte): bv16 { (b as bv16) << 8 }

  function FeedByte(crc: bv16, b: byte): bv16 { Feed(crc, High(b), 8) }

  function CrcFrom(crc: bv16, data: seq<byte>): bv16
    decreases data
  {
    if data == [] then crc else CrcFrom(FeedByte(crc, data[0]), data[1..])
  }

  /** The CRC of a message, bit by bit: polynomial 0x1021, initial value 0. */
  function Checksum(data: seq<byte>): bv16 { CrcFrom(0, data) }

  // ---- Laws of the bit operations ----

  lemma XorAssoc(a: bv16, b: bv16, c: bv16)
    ensures Xor(Xor(a, b), c) == Xor(a, Xor(b, c))
  {
    assert (a ^ b) ^ c == a ^ (b ^ c);
  }

  lemma XorComm(a: bv16, b: bv16)
    ensures Xor(a, b) == Xor(b, a)
  {
  }

  lemma XorSwap(a: bv16, b: bv16, c: bv16, d: bv16)
    ensures Xor(Xor(a, b), Xor(c, d)) == Xor(Xor(a, c), Xor(b, d))
  {
    hide Xor;
    XorAssoc(Xor(a, b), c, d);
    XorAssoc(a, b, c);
    XorComm(b, c);
    XorAssoc(a, c, b);
    XorAssoc(Xor(a, c), b, d);
  }

  lemma XorSelf(a: bv16)
    ensures Xor(a, a) == 0 && Xor(a, 0) == a
  {
  }

  lemma LeftXor(x: bv16, y: bv16)
    ensures Left(Xor(x, y)) == Xor(Left(x), Left(y))
  {
  }

  lemma TopXor(x: bv16, y: bv16)
    ensures Top(Xor(x, y)) == (Top(x) != Top(y))
  {
  }

  lemma TapXor(p: bool, q: bool)
    ensures Tap(p != q) == Xor(Tap(p), Tap(q))
  {
    assert (0x1021 as bv16) ^ 0x1021 == 0;
  }

  // ---- Linearity ----

  lemma ShiftLinear(x: bv16, y: bv16)
    ensures Shift(Xor(x, y)) == Xor(Shift(x), Shift(y))
  {
    hide Xor, Left, Top, Tap;
    LeftXor(x, y);
    TopXor(x, y);
    TapXor(Top(x), Top(y));
    XorSwap(Left(x), Left(y), Tap(Top(x)), Tap(Top(y)));
  }

  lemma {:induction false} ShiftsLinear(x: bv16, y: bv16, n: nat)
    ensures Shifts(Xor(x, y), n) == Xor(Shifts(x, n), Shifts(y, n))
    decreases n
  {
    hide Xor, Shift;
    if n > 0 {
      ShiftLinear(x, y);
      ShiftsLinear(Shift(x), Shift(y), n - 1);
    }
  }

  lemma {:induction false} ShiftsAdd(x: bv16, m: nat, n: nat)
    ensures Shifts(x, m + n) == Shifts(Shifts(x, m), n)
    decreases m
  {
    hide Shift;
    if m > 0 {
      ShiftsAdd(Shift(x), m - 1, n);
    }
  }

  /** Feeding bits is shifting the register with the bits added at the top. */
  lemma {:induction false} FeedIsShift(crc: bv16, w: bv16, n: nat)
    ensures Xor(Feed(crc, w, n), Lefts(w, n)) == Shifts(Xor(crc, w), n)
    decreases n
  {
    hide Xor, Left, Top, Tap;
    if n > 0 {
      var next := Xor(Left(crc), Tap(Top(crc) != Top(w)));
      FeedIsShift(next, Left(w), n - 1);
      assert Shift(Xor(crc, w)) == Xor(next, Left(w)) by {
        LeftXor(crc, w);
        TopXor(crc, w);
        XorAssoc(Left(crc), Left(w), Tap(Top(crc) != Top(w)));
        XorComm(Left(w), Tap(Top(crc) != Top(w)));
        XorAssoc(Left(crc), Tap(Top(crc) != Top(w)), Left(w));
      }
    }
  }

  function Lefts(w: bv16, n: nat): bv16
    decreases n
  {
    if n == 0 then w else Lefts(Left(w), n - 1)
  }

  lemma EightLefts(w: bv16)
    ensures Lefts(w, 8) == w << 8
  {
    var w1, w2, w3, w4 := w << 1, w << 2, w << 3, w << 4;
    var w5, w6, w7, w8 := w << 5, w << 6, w << 7, w << 8;
    assert Left(w) == w1 && Left(w1) == w2 && Left(w2) == w3 && Left(w3) == w4;
    assert Left(w4) == w5 && Left(w5) == w6 && Left(w6) == w7 && Left(w7) == w8;
    hide Left;
    assert Lefts(w, 8) == Lefts(w1, 7) == Lefts(w2, 6) == Lefts(w3, 5) == Lefts(w4, 4);
    assert Lefts(w4, 4) == Lefts(w5, 3) == Lefts(w6, 2) == Lefts(w7, 1) == Lefts(w8, 0);
  }

  lemma FeedByteIsShift(crc: bv16, b: byte)
    ensures FeedByte(crc, b) == Shifts(Xor(crc, High(b)), 8)
  {
    hide Xor, Feed, Lefts, Shifts;
    FeedIsShift(crc, High(b), 8);
    EightLefts(High(b));
    HighGone(b);
    XorSelf(Feed(crc, High(b), 8));
  }

  lemma HighGone(b: byte)
    ensures High(b) << 8 == 0
  {
  }

  // ---- The table ----

  /** The register when only its low byte is set: no one falls out in eight shifts. */
  lemma LowShifts(w: bv16)
    requires w <= 0xFF
    ensures Shifts(w, 8) == w << 8
  {
    var w1, w2, w3, w4 := w << 1, w << 2, w << 3, w << 4;
    var w5, w6, w7, w8 := w << 5, w << 6, w << 7, w << 8;
    assert Shift(w) == w1 by { XorSelf(w1); }
    assert Shift(w1) == w2 by { XorSelf(w2); }
    assert Shift(w2) == w3 by { XorSelf(w3); }
    assert Shift(w3) == w4 by { XorSelf(w4); }
    assert Shift(w4) == w5 by { XorSelf(w5); }
    assert Shift(w5) == w6 by { XorSelf(w6); }
    assert Shift(w6) == w7 by { XorSelf(w7); }
    assert Shift(w7) == w8 by { XorSelf(w8); }
    hide Shift;
    assert Shifts(w, 8) == Shifts(w1, 7) == Shifts(w2, 6) == Shifts(w3, 5) == Shifts(w4, 4);
    assert Shifts(w4, 4) == Shifts(w5, 3) == Shifts(w6, 2) == Shifts(w7, 1) == Shifts(w8, 0);
  }

  /** The index into the table. */
  function Index(crc: bv16, b: byte): bv16 { (crc >> 8) ^ (b as bv16) }

  lemma IndexSmall(crc: bv16, b: byte)
    ensures Index(crc, b) <= 0xFF && Index(crc, b) as int < 256
  {
  }

  lemma HighPart(crc: bv16, b: byte)
    ensures Index(crc, b) << 8 == Xor((crc >> 8) << 8, High(b))
  {
  }

  lemma RegisterParts(crc: bv16)
    ensures crc == Xor((crc >> 8) << 8, crc & 0xFF)
    ensures (crc & 0xFF) << 8 == crc << 8
  {
  }

  lemma SplitRegister(crc: bv16, b: byte)
    ensures Xor(crc, High(b)) == Xor(Index(crc, b) << 8, crc & 0xFF)
  {
    hide Xor, Index, High;
    HighPart(crc, b);
    RegisterParts(crc);
    var h, l := (crc >> 8) << 8, crc & 0xFF;
    XorAssoc(h, l, High(b));
    XorComm(l, High(b));
    XorAssoc(h, High(b), l);
  }

  /** One table look-up does the work of eight bits. */
  lemma TableStep(crc: bv16, b: byte)
    ensures FeedByte(crc, b) == Xor(crc << 8, Shifts(Index(crc, b) << 8, 8))
  {
    hide Xor, Index, High, FeedByte, Shifts;
    FeedByteIsShift(crc, b);
    SplitRegister(crc, b);
    RegisterParts(crc);
    ShiftsLinear(Index(crc, b) << 8, crc & 0xFF, 8);
    LowIsSmall(crc);
    LowShifts(crc & 0xFF);
    XorComm(Shifts(Index(crc, b) << 8, 8), crc << 8);
  }

  lemma LowIsSmall(crc: bv16)
    ensures crc & 0xFF <= 0xFF
  {
  }

  /** Entry i holds the register i, placed at the top, after eight shifts. */
  ghost predicate TableOk(table: seq<bv16>) {
    |table| == 256 && forall i | 0 <= i < 256 :: table[i] == Shifts((i as bv16) << 8, 8)
  }

  /** The inner loop of the table set-up. */
  method TableEntry(i: int) returns (crc: bv16)
    requires 0 <= i < 256
    ensures crc == Shifts((i as bv16) << 8, 8)
  {
    hide Shift;
    crc := (i as bv16) << 8;
    ghost var start := crc;
    var j := 0;
    while j < 8
      invariant 0 <= j <= 8 && Shifts(crc, 8 - j) == Shifts(start, 8)
    {
      ShiftUnfolds(crc);
      if crc & 0x8000 != 0 {
        crc := (crc << 1) ^ 0x1021;
      } else {
        crc := crc << 1;
      }
      j := j + 1;
    }
  }

  /** Fills the table in place. */
  method InitCrc(table: array<bv16>)
    requires table.Length == 256
    modifies table
    ensures TableOk(table[..])
  {
    hide Shifts;
    var i: int := 0;
    while i < 256
      invariant 0 <= i <= 256
      invariant forall k | 0 <= k < i :: table[k] == Shifts((k as bv16) << 8, 8)
    {
      table[i] := TableEntry(i);
      i := i + 1;
    }
  }

  lemma ShiftUnfolds(crc: bv16)
    ensures Shift(crc) == if crc & 0x8000 != 0 then (crc << 1) ^ 0x1021 else crc << 1
  {
    XorSelf(crc << 1);
  }

  /** The table-driven loop computes the bit-serial CRC. */
  method Crc16(table: array<bv16>, data: seq<byte>) returns (crc: bv16)
    requires TableOk(table[..])
    ensures crc == Checksum(data)
  {
    hide FeedByte, Shifts, Index;
    crc := 0;
    assert data[0..] == data;
    for i := 0 to |data|
      invariant CrcFrom(crc, data[i..]) == Checksum(data)
    {
      var b := data[i];
      assert data[i..][0] == b && data[i..][1..] == data[i + 1..];
      var w := LookUp(table, crc, b);
      TableStep(crc, b);
      crc := Xor(crc << 8, w);
    }
  }

  lemma BackAndForth(w: bv16)
    ensures (w as int) as bv16 == w
  {
  }

  method LookUp(table: array<bv16>, crc: bv16, b: byte) returns (w: bv16)
    requires TableOk(table[..])
    ensures w == Shifts(Index(crc, b) << 8, 8)
  {
    hide Shifts, Index;
    IndexSmall(crc, b);
    var i := Index(crc, b);
    BackAndForth(i);
    w := table[..][i as int];
  }

  // ---- What the CRC detects ----

  lemma ShiftInjective(x: bv16)
    requires Shift(x) == 0
    ensures x == 0
  {
    ShiftUnfolds(x);
  }

  lemma {:induction false} ShiftsInjective(x: bv16, y: bv16, n: nat)
    requires Shifts(x, n) == Shifts(y, n)
    ensures x == y
  {
    hide Xor, Shifts;
    ShiftsLinear(x, y, n);
    XorSelf(Shifts(x, n));
    ShiftsNotZero(Xor(x, y), n);
    XorZero(x, y);
  }

  lemma XorZero(x: bv16, y: bv16)
    ensures Xor(x, y) == 0 <==> x == y
  {
    hide Xor;
    XorSelf(x);
    XorSelf(y);
    XorAssoc(x, x, y);
    XorComm(y, 0);
  }

  lemma {:induction false} ShiftsNotZero(x: bv16, n: nat)
    requires Shifts(x, n) == 0
    ensures x == 0
    decreases n
  {
    hide Shift;
    if n > 0 {
      ShiftsNotZero(Shift(x), n - 1);
      ShiftInjective(x);
    }
  }

  lemma XorCancel(x: bv16, y: bv16, z: bv16)
    requires Xor(x, z) == Xor(y, z)
    ensures x == y
  {
  }

  lemma {:induction false} CrcFromInjective(x: bv16, y: bv16, data: seq<byte>)
    requires CrcFrom(x, data) == CrcFrom(y, data)
    ensures x == y
    decreases data
  {
    hide FeedByte, Shifts, Xor;
    if data != [] {
      CrcFromInjective(FeedByte(x, data[0]), FeedByte(y, data[0]), data[1..]);
      FeedByteIsShift(x, data[0]);
      FeedByteIsShift(y, data[0]);
      ShiftsInjective(Xor(x, High(data[0])), Xor(y, High(data[0])), 8);
      XorCancel(x, y, High(data[0]));
    }
  }

  lemma {:induction false} CrcFromConcat(crc: bv16, p: seq<byte>, q: seq<byte>)
    ensures CrcFrom(crc, p + q) == CrcFrom(CrcFrom(crc, p), q)
    decreases p
  {
    hide FeedByte;
    if p == [] {
      assert p + q == q;
    } else {
      assert (p + q)[1..] == p[1..] + q;
      CrcFromConcat(FeedByte(crc, p[0]), p[1..], q);
    }
  }

  /** Two bytes as one 16-bit word. */
  function Word(a: byte, b: byte): bv16 { Xor(High(a), b as bv16) }

  /** Two bytes are fed as sixteen shifts of the register with their word added. */
  lemma FeedTwo(crc: bv16, a: byte, b: byte)
    ensures CrcFrom(crc, [a, b]) == Shifts(Xor(crc, Word(a, b)), 16)
  {
    hide Xor, Shifts, FeedByte;
    var x := Xor(crc, High(a));
    assert [a, b][1..] == [b] && [b][1..] == [];
    assert CrcFrom(crc, [a, b]) == CrcFrom(FeedByte(crc, a), [b]);
    assert CrcFrom(FeedByte(crc, a), [b]) == CrcFrom(FeedByte(FeedByte(crc, a), b), []);
    FeedByteIsShift(crc, a);
    FeedByteIsShift(Shifts(x, 8), b);
    ByteIsLow(b);
    LowShifts(b as bv16);
    ShiftsLinear(x, b as bv16, 8);
    ShiftsAdd(Xor(x, b as bv16), 8, 8);
    XorAssoc(crc, High(a), b as bv16);
  }

  lemma ByteIsLow(b: byte)
    ensures (b as bv16) <= 0xFF && High(b) == (b as bv16) << 8
  {
  }

  lemma WordInjective(a: byte, b: byte, c: byte, d: byte)
    requires Word(a, b) == Word(c, d)
    ensures a == c && b == d
  {
  }

  /** Damage confined to two neighbouring bytes always changes the CRC. */
  lemma DetectsTwoBytes(pre: seq<byte>, a: byte, b: byte, c: byte, d: byte, post: seq<byte>)
    requires a != c || b != d
    ensures Checksum(pre + [a, b] + post) != Checksum(pre + [c, d] + post)
  {
    hide Xor, Shifts, Word, FeedByte;
    var s := CrcFrom(0, pre);
    CrcFromConcat(0, pre + [a, b], post);
    CrcFromConcat(0, pre + [c, d], post);
    CrcFromConcat(0, pre, [a, b]);
    CrcFromConcat(0, pre, [c, d]);
    FeedTwo(s, a, b);
    FeedTwo(s, c, d);
    if Checksum(pre + [a, b] + post) == Checksum(pre + [c, d] + post) {
      CrcFromInjective(CrcFrom(s, [a, b]), CrcFrom(s, [c, d]), post);
      ShiftsInjective(Xor(s, Word(a, b)), Xor(s, Word(c, d)), 16);
      XorComm(s, Word(a, b));
      XorComm(s, Word(c, d));
      XorCancel(Word(a, b), Word(c, d), s);
      WordInjective(a, b, c, d);
    }
  }

  // ---- Laws of the checksum ----

  function Bytewise(p: seq<byte>, q: seq<byte>): (r: seq<byte>)
    requires |p| == |q|
    ensures |r| == |p|
  {
    seq(|p|, i requires 0 <= i < |p| => p[i] ^ q[i])
  }

  lemma HighXor(a: byte, b: byte)
    ensures High(a ^ b) == Xor(High(a), High(b))
  {
  }

  lemma FeedByteLinear(x: bv16, y: bv16, a: byte, b: byte)
    ensures FeedByte(Xor(x, y), a ^ b) == Xor(FeedByte(x, a), FeedByte(y, b))
  {
    hide Xor, Shifts, FeedByte, High;
    FeedByteIsShift(Xor(x, y), a ^ b);
    FeedByteIsShift(x, a);
    FeedByteIsShift(y, b);
    HighXor(a, b);
    XorSwap(x, y, High(a), High(b));
    ShiftsLinear(Xor(x, High(a)), Xor(y, High(b)), 8);
  }

  lemma {:induction false} CrcFromLinear(x: bv16, y: bv16, p: seq<byte>, q: seq<byte>)
    requires |p| == |q|
    ensures CrcFrom(Xor(x, y), Bytewise(p, q)) == Xor(CrcFrom(x, p), CrcFrom(y, q))
    decreases p
  {
    hide Xor, FeedByte;
    if p != [] {
      var r := Bytewise(p, q);
      assert r[0] == p[0] ^ q[0] && r[1..] == Bytewise(p[1..], q[1..]);
      FeedByteLinear(x, y, p[0], q[0]);
      CrcFromLinear(FeedByte(x, p[0]), FeedByte(y, q[0]), p[1..], q[1..]);
    }
  }

  /** The checksum of the exclusive or of two messages is the exclusive or of their checksums. */
  lemma ChecksumIsLinear(p: seq<byte>, q: seq<byte>)
    requires |p| == |q|
    ensures Checksum(Bytewise(p, q)) == Xor(Checksum(p), Checksum(q))
  {
    hide Xor, CrcFrom;
    XorSelf(0);
    CrcFromLinear(0, 0, p, q);
  }

  function Zeros(n: nat): seq<byte> { seq(n, i => 0) }

  /** Zero bytes have checksum zero, however many there are. */
  lemma ZerosHaveNone(n: nat)
    ensures Checksum(Zeros(n)) == 0
  {
    hide Xor, CrcFrom, Checksum;
    assert Bytewise(Zeros(n), Zeros(n)) == Zeros(n);
    ChecksumIsLinear(Zeros(n), Zeros(n));
    XorSelf(Checksum(Zeros(n)));
  }

  /** Zero bytes in front of a message are not seen. */
  lemma LeadingZerosUnseen(n: nat, data: seq<byte>)
    ensures Checksum(Zeros(n) + data) == Checksum(data)
  {
    hide CrcFrom;
    CrcFromConcat(0, Zeros(n), data);
    ZerosHaveNone(n);
  }

  lemma {:induction false} ShiftsOfZero(n: nat)
    ensures Shifts(0, n) == 0
  {
    if n > 0 {
      assert Shift(0) == 0;
      ShiftsOfZero(n - 1);
    }
  }

  /** A message and two bytes after it have checksum zero together exactly when the two bytes are the checksum of the
      message, the high byte first. */
  lemma ResidueIsZero(data: seq<byte>, hi: byte, lo: byte)
    ensures Checksum(data + [hi, lo]) == 0 <==> Word(hi, lo) == Checksum(data)
  {
    hide Xor, Shifts, Word, CrcFrom;
    var c := Checksum(data);
    CrcFromConcat(0, data, [hi, lo]);
    FeedTwo(c, hi, lo);
    if Word(hi, lo) == c {
      XorSelf(c);
      ShiftsOfZero(16);
    } else {
      XorZero(c, Word(hi, lo));
      if Shifts(Xor(c, Word(hi, lo)), 16) == 0 {
        ShiftsNotZero(Xor(c, Word(hi, lo)), 16);
      }
    }
  }

  /** The last bit of a message alone leaves the polynomial. */
  lemma LastBitIsPolynomial()
    ensures Checksum([1]) == 0x1021
  {
    var b: byte := 1;
    assert Checksum([b]) == FeedByte(0, b) by {
      hide FeedByte;
      assert [b][1..] == [];
      assert CrcFrom(0, [b]) == CrcFrom(FeedByte(0, b), []);
    }
    FeedByteIsShift(0, b);
    assert High(b) == 0x100 && Xor(0, 0x100) == 0x100;
    assert Shift(0x100) == 0x200 && Shift(0x200) == 0x400 && Shift(0x400) == 0x800 && Shift(0x800) == 0x1000;
    assert Shift(0x1000) == 0x2000 && Shift(0x2000) == 0x4000 && Shift(0x4000) == 0x8000 && Shift(0x8000) == 0x1021;
    hide Shift, FeedByte;
    assert Shifts(0x100, 8) == Shifts(0x200, 7) == Shifts(0x400, 6) == Shifts(0x800, 5) == Shifts(0x1000, 4);
    assert Shifts(0x1000, 4) == Shifts(0x2000, 3) == Shifts(0x4000, 2) == Shifts(0x8000, 1) == Shifts(0x1021, 0);
  }
}
