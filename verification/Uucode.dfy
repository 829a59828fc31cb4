/** The traditional uuencode format: encoder, decoder, and their round trip. */
module Uucode {

  type byte = bv8
  type Bytes = seq<byte>

  const LINE_MAX: nat := 45
  const GRAVE: byte := 96
  const NEWLINE: byte := 10
  const RETURN: byte := 13

  /** The terminator line and the closing line. */
  const TERMINATOR: Bytes := [GRAVE]
  const END: Bytes := [101, 110, 100]

  // ---- Groups of three bytes and four characters ----

  function Enc(val: byte): byte {
    var v := (val & 63) + 32;
    if v == 32 then GRAVE else v
  }

  function Dec(c: byte): byte { (c - 32) & 0x3F }

  lemma DecEnc(v: byte)
    ensures Dec(Enc(v)) == v & 63
  {
  }

  /** Encoded characters are printable and none is a blank, a line end or above the grave accent. */
  lemma EncRange(v: byte)
    ensures 33 <= Enc(v) <= 96
    ensures v & 63 != 0 ==> Enc(v) != GRAVE
  {
  }

  function Six1(b1: byte): byte { b1 >> 2 }
  function Six2(b1: byte, b2: byte): byte { ((b1 & 3) << 4) | (b2 >> 4) }
  function Six3(b2: byte, b3: byte): byte { ((b2 & 15) << 2) | (b3 >> 6) }
  function Six4(b3: byte): byte { b3 & 63 }

  function Byte1(v1: byte, v2: byte): byte { (v1 << 2) | (v2 >> 4) }
  function Byte2(v2: byte, v3: byte): byte { ((v2 & 15) << 4) | (v3 >> 2) }
  function Byte3(v3: byte, v4: byte): byte { ((v3 & 3) << 6) | v4 }

  lemma Repack(b1: byte, b2: byte, b3: byte)
    ensures Byte1(Six1(b1) & 63, Six2(b1, b2) & 63) == b1
    ensures Byte2(Six2(b1, b2) & 63, Six3(b2, b3) & 63) == b2
    ensures Byte3(Six3(b2, b3) & 63, Six4(b3) & 63) == b3
  {
  }

  function At(data: Bytes, i: nat): byte { if i < |data| then data[i] else 0 }

  function Group(b1: byte, b2: byte, b3: byte): Bytes {
    [Enc(Six1(b1)), Enc(Six2(b1, b2)), Enc(Six3(b2, b3)), Enc(Six4(b3))]
  }

  function Drop(data: Bytes, n: nat): Bytes { if n < |data| then data[n..] else [] }

  /** The characters of a line after its length character. */
  function EncodeGroups(data: Bytes): Bytes
    decreases |data|
  {
    if data == [] then [] else Group(data[0], At(data, 1), At(data, 2)) + EncodeGroups(Drop(data, 3))
  }

  function Min(a: int, b: int): int { if a < b then a else b }

  /** Missing characters of a short group read as blanks. */
  function CharAt(chars: Bytes, i: nat): byte { if i < |chars| then chars[i] else 32 }

  function Ungroup(chars: Bytes): Bytes {
    var v1, v2, v3, v4 := Dec(CharAt(chars, 0)), Dec(CharAt(chars, 1)), Dec(CharAt(chars, 2)), Dec(CharAt(chars, 3));
    [Byte1(v1, v2), Byte2(v2, v3), Byte3(v3, v4)]
  }

  /** Decodes groups until `need` bytes are there or the characters run out. */
  function DecodeGroups(chars: Bytes, need: nat): Bytes
    decreases |chars|
  {
    if |chars| < 2 || need == 0 then []
    else Ungroup(chars)[..Min(3, need)] + DecodeGroups(Drop(chars, 4), need - Min(3, need))
  }

  lemma UngroupGroup(b1: byte, b2: byte, b3: byte, rest: Bytes)
    ensures Ungroup(Group(b1, b2, b3) + rest) == [b1, b2, b3]
  {
    hide Dec, Enc, Byte1, Byte2, Byte3, Six1, Six2, Six3, Six4;
    var chars := Group(b1, b2, b3) + rest;
    DecEnc(Six1(b1));
    DecEnc(Six2(b1, b2));
    DecEnc(Six3(b2, b3));
    DecEnc(Six4(b3));
    Repack(b1, b2, b3);
    assert chars[0] == Enc(Six1(b1)) && chars[1] == Enc(Six2(b1, b2));
    assert chars[2] == Enc(Six3(b2, b3)) && chars[3] == Enc(Six4(b3));
  }

  /** Decoding as many bytes as were encoded gives them back. */
  lemma {:induction false} GroupsRoundTrip(data: Bytes)
    ensures DecodeGroups(EncodeGroups(data), |data|) == data
    decreases |data|
  {
    hide Group, Ungroup;
    if data != [] {
      var b2, b3 := At(data, 1), At(data, 2);
      var rest := Drop(data, 3);
      var chars := EncodeGroups(data);
      GroupsRoundTrip(rest);
      UngroupGroup(data[0], b2, b3, EncodeGroups(rest));
      GroupLength(data[0], b2, b3);
      assert Drop(chars, 4) == EncodeGroups(rest);
      assert |data| - Min(3, |data|) == |rest|;
      assert [data[0], b2, b3][..Min(3, |data|)] + rest == data;
    }
  }

  lemma GroupLength(b1: byte, b2: byte, b3: byte)
    ensures |Group(b1, b2, b3)| == 4
  {
  }

  // ---- Lines ----

  function EncodeLine(data: Bytes): Bytes { [Enc((|data| % 256) as byte)] + EncodeGroups(data) }

  lemma LengthChar(n: nat)
    requires 1 <= n <= LINE_MAX
    ensures var c := Enc((n % 256) as byte);
      c != GRAVE && c != 32 && c != END[0] && Dec(c) as int == n
  {
    var b := n as byte;
    SmallByte(n);
    DecEnc(b);
    EncRange(b);
  }

  lemma SmallByte(n: nat)
    requires 1 <= n < 64
    ensures (n as byte) & 63 == n as byte && (n as byte) & 63 != 0 && (n as byte) as int == n
  {
  }

  method EncodeTraditionalLine(data: Bytes) returns (res: Bytes)
    ensures res == EncodeLine(data)
  {
    hide Group, Enc;
    var n := |data|;
    res := [Enc((n % 256) as byte)];
    var i := 0;
    while i < n
      invariant 0 <= i
      invariant res + EncodeGroups(Drop(data, i)) == EncodeLine(data)
      decreases n - i
    {
      var b1, b2, b3 := data[i], 0, 0;
      if i + 1 < n {
        b2 := data[i + 1];
      }
      if i + 2 < n {
        b3 := data[i + 2];
      }
      ghost var left := Drop(data, i);
      assert Drop(left, 3) == Drop(data, i + 3);
      assert EncodeGroups(left) == Group(b1, b2, b3) + EncodeGroups(Drop(data, i + 3));
      res := res + Group(b1, b2, b3);
      i := i + 3;
    }
    assert EncodeGroups(Drop(data, i)) == [];
  }

  /** What the decoder makes of a data line. */
  method DecodeTraditionalLine(line: Bytes) returns (decoded: Bytes)
    requires line != []
    ensures decoded == DecodeGroups(line[1..], Dec(line[0]) as int)
  {
    hide DecodeGroups, Dec;
    var decLen := Dec(line[0]) as int;
    assert Drop(line, 1) == line[1..];
    decoded := DecodeChunks(line, decLen);
  }

  method DecodeChunks(line: Bytes, decLen: nat) returns (decoded: Bytes)
    ensures decoded == DecodeGroups(Drop(line, 1), decLen)
  {
    hide Ungroup, DecodeGroups, Drop, Min;
    decoded := [];
    var chunkStart := 1;
    while chunkStart < |line| && |decoded| < decLen
      invariant 1 <= chunkStart && |decoded| <= decLen
      invariant decoded + DecodeGroups(Drop(line, chunkStart), decLen - |decoded|) == DecodeGroups(Drop(line, 1), decLen)
      decreases |line| - chunkStart
    {
      ChunkOf(line, chunkStart);
      var chunk := line[chunkStart..Min(chunkStart + 4, |line|)];
      if |chunk| < 2 {
        break;
      }
      DecodeStep(Drop(line, chunkStart), decLen - |decoded|, Drop(line, chunkStart + 4));
      decoded := TakeGroup(chunk, decoded, decLen);
      chunkStart := chunkStart + 4;
    }
    NothingLeft(line, chunkStart);
    DecodeStop(Drop(line, chunkStart), decLen - |decoded|);
  }

  lemma NothingLeft(line: Bytes, start: nat)
    ensures start >= |line| ==> Drop(line, start) == []
  {
  }

  /** A group of up to four characters is all that decoding looks at. */
  lemma ChunkOf(line: Bytes, start: nat)
    requires start < |line|
    ensures start <= Min(start + 4, |line|) <= |line|
    ensures var chunk, left := line[start..Min(start + 4, |line|)], Drop(line, start);
      Ungroup(left) == Ungroup(chunk) && Drop(left, 4) == Drop(line, start + 4) && (|chunk| < 2 <==> |left| < 2)
  {
    hide Ungroup;
    ChunkIsEnough(Drop(line, start), line[start..Min(start + 4, |line|)]);
  }

  /** Appends the bytes of one group that are still needed. */
  method TakeGroup(chunk: Bytes, decoded0: Bytes, decLen: int) returns (decoded: Bytes)
    requires |decoded0| < decLen
    ensures decoded == decoded0 + Ungroup(chunk)[..Min(3, decLen - |decoded0|)]
  {
    hide Dec, Byte1, Byte2, Byte3;
    var bs := Ungroup(chunk);
    decoded := decoded0 + [bs[0]];
    if |decoded| < decLen {
      decoded := decoded + [bs[1]];
    }
    if |decoded| < decLen {
      decoded := decoded + [bs[2]];
    }
  }

  lemma DecodeStep(left: Bytes, need: nat, rest: Bytes)
    requires |left| >= 2 && need > 0 && rest == Drop(left, 4)
    ensures |Ungroup(left)| == 3 && 0 < Min(3, need) <= 3 && Min(3, need) <= need
    ensures DecodeGroups(left, need) == Ungroup(left)[..Min(3, need)] + DecodeGroups(rest, need - Min(3, need))
  {
  }

  lemma DecodeStop(left: Bytes, need: nat)
    requires |left| < 2 || need == 0
    ensures DecodeGroups(left, need) == []
  {
  }

  lemma ChunkIsEnough(left: Bytes, chunk: Bytes)
    requires chunk == left[..Min(4, |left|)]
    ensures Ungroup(left) == Ungroup(chunk)
  {
    hide Dec, Byte1, Byte2, Byte3;
    assert forall i: nat | i < 4 :: CharAt(left, i) == CharAt(chunk, i);
  }

  // ---- Files ----

  /** The data lines of a file: at most 45 bytes each. */
  function EncodeLines(data: Bytes): seq<Bytes>
    decreases |data|
  {
    if data == [] then [] else [EncodeLine(data[..Min(LINE_MAX, |data|)])] + EncodeLines(Drop(data, LINE_MAX))
  }

  /** The decoder's loop over the lines after the header. */
  function DecodeLines(lines: seq<Bytes>): Bytes {
    if lines == [] then []
    else
      var line := lines[0];
      if line == [] then DecodeLines(lines[1..])
      else if line == END then []
      else if line[0] == GRAVE || line[0] == 32 then []
      else if Dec(line[0]) as int <= 0 then []
      else DecodeGroups(line[1..], Dec(line[0]) as int) + DecodeLines(lines[1..])
  }

  /** A data line is neither empty, nor the closing line, nor taken for the terminator. */
  lemma DataLineIsData(data: Bytes)
    requires 1 <= |data| <= LINE_MAX
    ensures var line := EncodeLine(data);
      line != [] && line != END && line[0] != GRAVE && line[0] != 32 && Dec(line[0]) as int == |data|
  {
    hide Enc, Dec, EncodeGroups;
    LengthChar(|data|);
  }

  lemma {:induction false} LinesRoundTrip(data: Bytes, tail: seq<Bytes>)
    requires tail != [] && tail[0] == TERMINATOR
    ensures DecodeLines(EncodeLines(data) + tail) == data
    decreases |data|
  {
    hide DecodeGroups, EncodeLine, Dec;
    if data == [] {
      assert EncodeLines(data) + tail == tail;
      assert tail[0] != [];
    } else {
      var n := Min(LINE_MAX, |data|);
      var first, rest := data[..n], Drop(data, LINE_MAX);
      var lines := EncodeLines(data) + tail;
      assert lines[0] == EncodeLine(first) && lines[1..] == EncodeLines(rest) + tail;
      DataLineIsData(first);
      LineDecodes(first);
      LinesRoundTrip(rest, tail);
      assert first + rest == data;
    }
  }

  lemma LineDecodes(data: Bytes)
    ensures EncodeLine(data) != [] && DecodeGroups(EncodeLine(data)[1..], |data|) == data
  {
    hide Enc, EncodeGroups, DecodeGroups;
    assert EncodeLine(data)[1..] == EncodeGroups(data);
    GroupsRoundTrip(data);
  }

  // ---- Text ----

  function Unlines(lines: seq<Bytes>): Bytes {
    if lines == [] then [] else lines[0] + [NEWLINE] + Unlines(lines[1..])
  }

  function DropReturn(line: Bytes): Bytes {
    if line != [] && line[|line| - 1] == RETURN then line[..|line| - 1] else line
  }

  /** The lines a scanner delivers: split at newlines, a final carriage return dropped from each. */
  function ScanLines(text: Bytes, line: Bytes): seq<Bytes>
    decreases text
  {
    if text == [] then (if line == [] then [] else [DropReturn(line)])
    else if text[0] == NEWLINE then [DropReturn(line)] + ScanLines(text[1..], [])
    else ScanLines(text[1..], line + [text[0]])
  }

  predicate Plain(line: Bytes) { forall i | 0 <= i < |line| :: line[i] != NEWLINE && line[i] != RETURN }

  lemma {:induction false} ScanOne(seen: Bytes, rest: Bytes, text: Bytes)
    requires Plain(rest) && Plain(seen)
    ensures ScanLines(rest + [NEWLINE] + text, seen) == [seen + rest] + ScanLines(text, [])
    decreases |rest|
  {
    var all := rest + [NEWLINE] + text;
    if rest == [] {
      assert all[1..] == text && seen + rest == seen;
    } else {
      assert all[1..] == rest[1..] + [NEWLINE] + text;
      ScanOne(seen + [rest[0]], rest[1..], text);
      assert seen + [rest[0]] + rest[1..] == seen + rest;
    }
  }

  lemma {:induction false} ScanUnlines(lines: seq<Bytes>)
    requires forall i | 0 <= i < |lines| :: Plain(lines[i])
    ensures ScanLines(Unlines(lines), []) == lines
  {
    if lines != [] {
      ScanOne([], lines[0], Unlines(lines[1..]));
      assert [] + lines[0] == lines[0];
      ScanUnlines(lines[1..]);
    }
  }

  lemma {:induction false} GroupsArePlain(data: Bytes)
    ensures forall i | 0 <= i < |EncodeGroups(data)| :: 33 <= EncodeGroups(data)[i] <= 96
    decreases |data|
  {
    hide Enc, Six1, Six2, Six3, Six4;
    if data != [] {
      var b1, b2, b3 := data[0], At(data, 1), At(data, 2);
      EncRange(Six1(b1));
      EncRange(Six2(b1, b2));
      EncRange(Six3(b2, b3));
      EncRange(Six4(b3));
      var g := Group(b1, b2, b3);
      assert forall i | 0 <= i < |g| :: 33 <= g[i] <= 96;
      GroupsArePlain(Drop(data, 3));
    }
  }

  lemma LineIsPlain(data: Bytes)
    ensures Plain(EncodeLine(data))
  {
    hide Enc, EncodeGroups;
    GroupsArePlain(data);
    EncRange((|data| % 256) as byte);
  }

  lemma {:induction false} LinesArePlain(data: Bytes)
    ensures forall i | 0 <= i < |EncodeLines(data)| :: Plain(EncodeLines(data)[i])
    decreases |data|
  {
    hide EncodeLine, Plain;
    if data != [] {
      LineIsPlain(data[..Min(LINE_MAX, |data|)]);
      LinesArePlain(Drop(data, LINE_MAX));
    }
  }

  /** The body that uuencode writes after its header. */
  method EncodeBody(data: Bytes) returns (out: Bytes)
    ensures out == Unlines(EncodeLines(data) + [TERMINATOR, END])
  {
    hide EncodeLines;
    out := EncodeDataLines(data);
    UnlinesConcat(EncodeLines(data), [TERMINATOR, END]);
    Closing();
    out := out + (TERMINATOR + [NEWLINE] + END + [NEWLINE]);
  }

  lemma Closing()
    ensures Unlines([TERMINATOR, END]) == TERMINATOR + [NEWLINE] + END + [NEWLINE]
  {
    var two, one: seq<Bytes> := [TERMINATOR, END], [END];
    assert two[1..] == one && one[1..] == [];
    assert Unlines(two) == TERMINATOR + [NEWLINE] + Unlines(one);
    assert Unlines(one) == END + [NEWLINE] + Unlines([]);
  }

  lemma {:induction false} UnlinesConcat(p: seq<Bytes>, q: seq<Bytes>)
    ensures Unlines(p + q) == Unlines(p) + Unlines(q)
  {
    if p == [] {
      assert p + q == q;
    } else {
      assert (p + q)[1..] == p[1..] + q;
      UnlinesConcat(p[1..], q);
    }
  }

  /** The string form: data lines and terminator, without the closing line. */
  method EncodeData(data: Bytes) returns (out: Bytes)
    ensures out == Unlines(EncodeLines(data) + [TERMINATOR])
  {
    hide EncodeLines;
    out := EncodeDataLines(data);
    var one: seq<Bytes> := [TERMINATOR];
    UnlinesConcat(EncodeLines(data), one);
    assert one[1..] == [];
    assert Unlines(one) == TERMINATOR + [NEWLINE] + Unlines([]);
    out := out + (TERMINATOR + [NEWLINE]);
  }

  method EncodeDataLines(data: Bytes) returns (out: Bytes)
    ensures out == Unlines(EncodeLines(data))
  {
    hide EncodeLine, EncodeLines, Unlines;
    out := [];
    var i := 0;
    assert Drop(data, 0) == data;
    while i < |data|
      invariant 0 <= i
      invariant out + Unlines(EncodeLines(Drop(data, i))) == Unlines(EncodeLines(data))
      decreases |data| - i
    {
      var end := i + LINE_MAX;
      if end > |data| {
        end := |data|;
      }
      EncodeStep(data, i, end);
      var line := EncodeTraditionalLine(data[i..end]);
      out := out + (line + [NEWLINE]);
      i := i + LINE_MAX;
    }
    NoLines(data, i);
  }

  lemma NoLines(data: Bytes, i: nat)
    requires i >= |data|
    ensures Unlines(EncodeLines(Drop(data, i))) == []
  {
  }

  lemma EncodeStep(data: Bytes, i: nat, end: nat)
    requires i < |data| && end == Min(i + LINE_MAX, |data|)
    ensures forall out: Bytes ::
      out + Unlines(EncodeLines(Drop(data, i))) ==
      out + (EncodeLine(data[i..end]) + [NEWLINE]) + Unlines(EncodeLines(Drop(data, i + LINE_MAX)))
  {
    hide EncodeLine;
    var left := Drop(data, i);
    assert left[..Min(LINE_MAX, |left|)] == data[i..end];
    assert Drop(left, LINE_MAX) == Drop(data, i + LINE_MAX);
    var lines := EncodeLines(left);
    assert lines[0] == EncodeLine(data[i..end]) && lines[1..] == EncodeLines(Drop(data, i + LINE_MAX));
  }

  /** The decoder's loop. */
  method DecodeBody(text: Bytes) returns (decoded: Bytes)
    ensures decoded == DecodeLines(ScanLines(text, []))
  {
    hide DecodeGroups, Dec;
    var lines := ScanLines(text, []);
    decoded := [];
    assert lines[0..] == lines;
    for i := 0 to |lines|
      invariant decoded + DecodeLines(lines[i..]) == DecodeLines(lines)
    {
      var line := lines[i];
      assert lines[i..][0] == line && lines[i..][1..] == lines[i + 1..];
      if line == [] {
        continue;
      }
      if line == END {
        break;
      }
      if line[0] == GRAVE || line[0] == 32 {
        break;
      }
      if Dec(line[0]) as int <= 0 {
        break;
      }
      var bytes := DecodeTraditionalLine(line);
      decoded := decoded + bytes;
    }
  }

  /** Decoding what was encoded gives back every byte string. */
  lemma RoundTrip(data: Bytes)
    ensures DecodeLines(ScanLines(Unlines(EncodeLines(data) + [TERMINATOR, END]), [])) == data
    ensures DecodeLines(ScanLines(Unlines(EncodeLines(data) + [TERMINATOR]), [])) == data
  {
    LinesArePlain(data);
    ScanUnlines(EncodeLines(data) + [TERMINATOR, END]);
    ScanUnlines(EncodeLines(data) + [TERMINATOR]);
    LinesRoundTrip(data, [TERMINATOR, END]);
    LinesRoundTrip(data, [TERMINATOR]);
  }

  // ---- The format itself ----

  /** Full lines carry 45 bytes in 61 characters and start with M; only the last line may be shorter. */
  lemma {:induction false} LinesAreFull(data: Bytes, i: nat)
    requires i < |EncodeLines(data)|
    ensures 45 * (|EncodeLines(data)| - 1) < |data| <= 45 * |EncodeLines(data)|
    ensures 45 * (i + 1) <= |data| ==> |EncodeLines(data)[i]| == 61 && EncodeLines(data)[i][0] == 77
    decreases |data|
  {
    hide EncodeLine;
    var n := Min(LINE_MAX, |data|);
    var rest := Drop(data, LINE_MAX);
    if n == 45 {
      FullLine(data[..n]);
    }
    if rest != [] {
      LinesAreFull(rest, if i > 0 then i - 1 else 0);
    }
    assert EncodeLines(data) == [EncodeLine(data[..n])] + EncodeLines(rest);
  }

  lemma FullLine(data: Bytes)
    requires |data| == 45
    ensures |EncodeLine(data)| == 61 && EncodeLine(data)[0] == 77
  {
    hide EncodeGroups;
    LineLength(data);
    assert Enc(45) == 77;
  }

  lemma {:induction false} LineLength(data: Bytes)
    ensures |EncodeLine(data)| == 1 + 4 * ((|data| + 2) / 3)
    decreases |data|
  {
    hide Enc, Group;
    if data != [] {
      GroupLength(data[0], At(data, 1), At(data, 2));
      LineLength(Drop(data, 3));
      assert EncodeGroups(data) == Group(data[0], At(data, 1), At(data, 2)) + EncodeGroups(Drop(data, 3));
    }
  }

  /** The three bytes of the word Cat make the line #0V%T, and a zero byte is written with grave accents. */
  lemma KnownLines()
    ensures EncodeLine([67, 97, 116]) == [35, 48, 86, 37, 84]
    ensures EncodeLine([0]) == [33, 96, 96, 96, 96]
  {
    var cat: Bytes := [67, 97, 116];
    assert Drop(cat, 3) == [] && EncodeGroups([]) == [];
    assert EncodeGroups(cat) == Group(67, 97, 116) + [];
    assert Group(67, 97, 116) == [48, 86, 37, 84] && Enc(3) == 35;
    var zero: Bytes := [0];
    assert Drop(zero, 3) == [];
    assert EncodeGroups(zero) == Group(0, 0, 0) + [];
    assert Group(0, 0, 0) == [96, 96, 96, 96] && Enc(1) == 33;
  }
}
