/** The XMODEM receiver, and its safety against a stop-and-wait sender over a lossy line. */
module Xmodem {
  import opened Crc

  const SOH: int := 0x01
  const EOT: int := 0x04
  const ACK: int := 0x06
  const NAK: int := 0x15
  const CAN: int := 0x18
  const C: int := 0x43
  const PAD: byte := 0x1A
  const BLOCK: nat := 128
  const MAX_RETRIES: nat := 10

  type u8 = x: int | 0 <= x < 256

  /** What one turn reads: nothing, a byte other than SOH, SOH without a whole frame, or a frame. */
  datatype Event =
    | ReadError
    | Byte(b: u8)
    | ShortFrame
    | Frame(num: u8, complement: u8, data: seq<byte>, crc: bv16)

  datatype Phase = Handshake(attempt: nat) | Receiving | Done | Failed

  /** The receiver's variables. */
  datatype State = State(phase: Phase, expected: u8, buf: seq<byte>)

  const START: State := State(Handshake(0), 1, [])

  /** The next handshake attempt, which asks for CRC mode again, or giving up. */
  function Retry(s: State, reply: seq<int>): (State, seq<int>)
    requires s.phase.Handshake?
  {
    if s.phase.attempt + 1 < MAX_RETRIES then (s.(phase := Handshake(s.phase.attempt + 1)), reply + [C])
    else (s.(phase := Failed), reply)
  }

  /** One turn of the receiver: its new state and the bytes it writes. */
  function Turn(s: State, e: Event): (State, seq<int>) {
    match s.phase
    case Done => (s, [])
    case Failed => (s, [])
    case Handshake(_) => (
      match e
      case ReadError => Retry(s, [])
      case ShortFrame => (s.(phase := Failed), [])
      case Byte(b) =>
        if b == EOT then (s.(phase := Done), [ACK])
        else if b == CAN then (s.(phase := Failed), [])
        else Retry(s, [])
      case Frame(num, complement, data, crc) =>
        if num != 1 || complement != 0xFE then (s.(phase := Failed), [])
        else if Checksum(data) != crc then Retry(s, [NAK])
        else (State(Receiving, 2, s.buf + data), [ACK]))
    case Receiving =>
      match e
      case ReadError => (s.(phase := Done), [])
      case ShortFrame => (s.(phase := Done), [])
      case Byte(b) =>
        if b == EOT then (s.(phase := Done), [ACK])
        else if b == CAN then (s.(phase := Failed), [])
        else (s, [])
      case Frame(num, complement, data, crc) =>
        if num != s.expected then
          if num == (s.expected - 1) % 256 then (s, [ACK]) else (s.(phase := Done), [])
        else if complement != 255 - num then (s.(phase := Done), [])
        else if Checksum(data) != crc then (s, [NAK])
        else (State(Receiving, (s.expected + 1) % 256, s.buf + data), [ACK])
  }

  class Receiver {
    const table: array<bv16>
    var phase: Phase
    var blockExpected: u8
    var fileBuf: seq<byte>

    constructor (table: array<bv16>)
      requires TableOk(table[..])
      ensures this.table == table && Snapshot() == START
    {
      this.table := table;
      phase, blockExpected, fileBuf := Handshake(0), 1, [];
    }

    function Snapshot(): State
      reads this
    {
      State(phase, blockExpected, fileBuf)
    }

    /** Handles what one turn of the loop reads. */
    method Handle(e: Event) returns (reply: seq<int>)
      requires TableOk(table[..])
      modifies this
      ensures (Snapshot(), reply) == Turn(old(Snapshot()), e)
    {
      reply := [];
      if phase.Handshake? {
        var retry := false;
        match e {
          case ReadError => retry := true;
          case ShortFrame => phase := Failed;
          case Byte(b) =>
            if b == EOT {
              reply := [ACK];
              phase := Done;
            } else if b == CAN {
              phase := Failed;
            } else {
              retry := true;
            }
          case Frame(num, complement, data, crc) =>
            if num != 1 || complement != 0xFE {
              phase := Failed;
            } else {
              var computed := Crc16(table, data);
              if computed != crc {
                reply := [NAK];
                retry := true;
              } else {
                fileBuf := fileBuf + data;
                blockExpected := 2;
                reply := [ACK];
                phase := Receiving;
              }
            }
        }
        if retry {
          if phase.attempt + 1 < MAX_RETRIES {
            phase := Handshake(phase.attempt + 1);
            reply := reply + [C];
          } else {
            phase := Failed;
          }
        }
      } else if phase.Receiving? {
        match e {
          case ReadError => phase := Done;
          case ShortFrame => phase := Done;
          case Byte(b) =>
            if b == EOT {
              reply := [ACK];
              phase := Done;
            } else if b == CAN {
              phase := Failed;
            }
          case Frame(num, complement, data, crc) =>
            if num != blockExpected {
              if num == (blockExpected - 1) % 256 {
                reply := [ACK];
              } else {
                phase := Done;
              }
            } else if complement != 255 - num {
              phase := Done;
            } else {
              var computed := Crc16(table, data);
              if computed != crc {
                reply := [NAK];
              } else {
                fileBuf := fileBuf + data;
                blockExpected := (blockExpected + 1) % 256;
                reply := [ACK];
              }
            }
        }
      }
    }
  }

  // ---- A stop-and-wait sender and the line between ----

  /** The file as the sender cuts it, the block it is on, and the receiver. */
  datatype System = System(blocks: seq<seq<byte>>, cur: nat, receiver: State)

  /** One exchange on the line. A frame arrives whole or with payload or check bytes damaged in a way the CRC
      notices; the reply arrives, or is lost, or is garbled into an ACK, whatever it was. */
  datatype Action =
    | Send(damage: Damage, reply: Reply)
    | SendEot
    | Silence
    | Noise(b: u8)

  datatype Reply = Arrives | Lost | Forged

  datatype Damage = Intact | Damaged(data: seq<byte>, crc: bv16)

  function Number(i: nat): u8 { (i + 1) % 256 }

  function FrameOf(y: System, d: Damage): Event
    requires y.cur < |y.blocks|
  {
    var n := Number(y.cur);
    match d
    case Intact => Frame(n, 255 - n, y.blocks[y.cur], Checksum(y.blocks[y.cur]))
    case Damaged(data, crc) => Frame(n, 255 - n, data, crc)
  }

  predicate Possible(y: System, a: Action) {
    match a
    case Send(d, _) => y.cur < |y.blocks| && (d.Damaged? ==> Checksum(d.data) != d.crc)
    case SendEot => y.cur == |y.blocks|
    case Silence => true
    case Noise(b) => b != SOH
  }

  function Next(y: System, a: Action): System
    requires Possible(y, a)
  {
    match a
    case Send(d, line) =>
      var (r, reply) := Turn(y.receiver, FrameOf(y, d));
      System(y.blocks, if line.Forged? || (line.Arrives? && ACK in reply) then y.cur + 1 else y.cur, r)
    case SendEot => y.(receiver := Turn(y.receiver, Byte(EOT)).0)
    case Silence => y.(receiver := Turn(y.receiver, ReadError).0)
    case Noise(b) => y.(receiver := Turn(y.receiver, Byte(b)).0)
  }

  predicate Run(y: System, actions: seq<Action>)
    decreases |actions|
  {
    actions == [] || (Possible(y, actions[0]) && Run(Next(y, actions[0]), actions[1..]))
  }

  function End(y: System, actions: seq<Action>): System
    requires Run(y, actions)
    decreases |actions|
  {
    if actions == [] then y else End(Next(y, actions[0]), actions[1..])
  }

  function Concat(blocks: seq<seq<byte>>): seq<byte> {
    if blocks == [] then [] else Concat(blocks[..|blocks| - 1]) + blocks[|blocks| - 1]
  }

  /** The receiver holds the first k blocks, and the sender is on block k, waits for a lost ACK of block k - 1,
      or believes in a forged one of block k. */
  ghost predicate InStep(y: System, k: nat) {
    && k <= |y.blocks|
    && y.receiver.buf == Concat(y.blocks[..k])
    && (y.receiver.phase.Handshake? ==> k == 0 && y.cur <= 1)
    && (y.receiver.phase.Receiving? ==>
          k >= 1 && y.receiver.expected == Number(k) && k - 1 <= y.cur <= k + 1)
  }

  predicate IsForged(a: Action) { a.Send? && a.reply.Forged? }

  predicate NoneForged(actions: seq<Action>) { forall a | a in actions :: !IsForged(a) }

  /** The receiver has not stopped. */
  predicate Live(y: System) { y.receiver.phase.Handshake? || y.receiver.phase.Receiving? }

  /** The sender sends its last block, and it goes out undamaged. */
  predicate SendsLast(y: System, a: Action) { a.Send? && a.damage.Intact? && y.cur == |y.blocks| - 1 }

  /** It does so at some point of the run. */
  predicate LastSent(y: System, actions: seq<Action>)
    requires Run(y, actions)
    decreases |actions|
  {
    actions != [] && (SendsLast(y, actions[0]) || LastSent(Next(y, actions[0]), actions[1..]))
  }

  lemma NumbersDiffer(k: nat)
    requires k >= 1
    ensures Number(k - 1) != Number(k) && Number(k - 1) == (Number(k) - 1) % 256
    ensures Number(k + 1) == (Number(k) + 1) % 256 && Number(k + 1) != Number(k) && Number(k + 1) != Number(k - 1)
  {
  }

  lemma ConcatPush(blocks: seq<seq<byte>>, k: nat)
    requires k < |blocks|
    ensures Concat(blocks[..k + 1]) == Concat(blocks[..k]) + blocks[k]
  {
    assert blocks[..k + 1][..k] == blocks[..k];
  }

  /** Every exchange keeps sender and receiver in step, although block numbers wrap at 256. */
  lemma StaysInStep(y: System, a: Action, k: nat) returns (k': nat)
    requires InStep(y, k) && Possible(y, a)
    ensures InStep(Next(y, a), k') && k <= k' && Next(y, a).blocks == y.blocks
    ensures y.cur <= k && !IsForged(a) ==> Next(y, a).cur <= k'
    ensures Live(Next(y, a)) ==> (k' == |y.blocks| <==> k == |y.blocks| || SendsLast(y, a))
  {
    hide Checksum, Concat;
    k' := k;
    if a.Send? {
      var e := FrameOf(y, a.damage);
      if y.receiver.phase.Handshake? && y.cur == 0 && a.damage.Intact? {
        ConcatPush(y.blocks, 0);
        k' := 1;
      } else if y.receiver.phase.Receiving? {
        NumbersDiffer(k);
        if y.cur == k && a.damage.Intact? {
          ConcatPush(y.blocks, k);
          k' := k + 1;
        }
      }
    }
  }

  /** At every point of every run, forged replies included, the receiver's buffer is a run of whole blocks from the start of the file. */
  lemma {:induction false} BufferIsPrefix(y: System, actions: seq<Action>, k: nat) returns (k': nat)
    requires InStep(y, k) && Run(y, actions)
    ensures End(y, actions).blocks == y.blocks
    ensures InStep(End(y, actions), k') && End(y, actions).receiver.buf == Concat(y.blocks[..k'])
    ensures y.cur <= k && NoneForged(actions) ==> End(y, actions).cur <= k'
    ensures Live(End(y, actions)) ==> (k' == |y.blocks| <==> k == |y.blocks| || LastSent(y, actions))
    decreases |actions|
  {
    hide InStep, SendsLast;
    if actions == [] {
      k' := k;
      InStepBuffer(y, k);
    } else {
      var m := StaysInStep(y, actions[0], k);
      k' := BufferIsPrefix(Next(y, actions[0]), actions[1..], m);
      if Live(End(y, actions)) {
        StoppedStays(Next(y, actions[0]), actions[1..]);
      }
    }
  }

  lemma {:induction false} StoppedStays(y: System, actions: seq<Action>)
    requires Run(y, actions) && Live(End(y, actions))
    ensures Live(y)
    decreases |actions|
  {
    hide Checksum;
    if actions != [] {
      StoppedStays(Next(y, actions[0]), actions[1..]);
    }
  }

  lemma InStepBuffer(y: System, k: nat)
    requires InStep(y, k)
    ensures k <= |y.blocks| && y.receiver.buf == Concat(y.blocks[..k])
  {
  }

  // ---- The file that is written ----

  /** The bytes without trailing padding. */
  function Strip(raw: seq<byte>): seq<byte> {
    if raw != [] && raw[|raw| - 1] == PAD then Strip(raw[..|raw| - 1]) else raw
  }

  method StripPadding(raw: seq<byte>) returns (file: seq<byte>)
    ensures file == Strip(raw)
  {
    var n := |raw| - 1;
    assert raw[..n + 1] == raw;
    while n >= 0 && raw[n] == PAD
      invariant -1 <= n < |raw| && Strip(raw[..n + 1]) == Strip(raw)
    {
      assert raw[..n + 1][..n] == raw[..n];
      n := n - 1;
    }
    file := raw[..n + 1];
  }

  /** What the receiver writes when it stops. */
  function Written(s: State): seq<byte> { Strip(s.buf) }

  /** The sender believes it is through while the receiver still listens: it now sends EOT. */
  predicate Through(blocks: seq<seq<byte>>, actions: seq<Action>) {
    && Run(System(blocks, 0, START), actions)
    && End(System(blocks, 0, START), actions).cur == |blocks| && Live(End(System(blocks, 0, START), actions))
  }

  /** What the receiver holds when it has handled that EOT. */
  function Received(blocks: seq<seq<byte>>, actions: seq<Action>): (s: State)
    requires Through(blocks, actions)
    ensures s.phase.Done?
  {
    BlocksStay(System(blocks, 0, START), actions);
    Next(End(System(blocks, 0, START), actions), SendEot).receiver
  }

  lemma {:induction false} BlocksStay(y: System, actions: seq<Action>)
    requires Run(y, actions)
    ensures End(y, actions).blocks == y.blocks
    decreases |actions|
  {
    hide Turn;
    if actions != [] {
      BlocksStay(Next(y, actions[0]), actions[1..]);
    }
  }

  /** Such an EOT finds every block or all but the last, and every block exactly when there is none or the last one
      was sent undamaged at least once. This holds whatever happens to replies. */
  lemma EotFinds(blocks: seq<seq<byte>>, actions: seq<Action>) returns (k: nat)
    requires Through(blocks, actions)
    ensures |blocks| - 1 <= k <= |blocks| && Received(blocks, actions).buf == Concat(blocks[..k])
    ensures k == |blocks| <==> blocks == [] || LastSent(System(blocks, 0, START), actions)
    ensures NoneForged(actions) ==> k == |blocks|
  {
    assert blocks[..0] == [];
    k := BufferIsPrefix(System(blocks, 0, START), actions, 0);
  }

  /** The transfer is complete exactly when the last block, if any, was sent undamaged at least once; the file is then
      all blocks without trailing padding. */
  lemma EotCompletes(blocks: seq<seq<byte>>, actions: seq<Action>)
    requires Through(blocks, actions) && (blocks != [] ==> blocks[|blocks| - 1] != [])
    ensures Received(blocks, actions).buf == Concat(blocks) <==> blocks == [] || LastSent(System(blocks, 0, START), actions)
    ensures blocks == [] || LastSent(System(blocks, 0, START), actions) ==>
      Written(Received(blocks, actions)) == Strip(Concat(blocks))
  {
    hide Received;
    var k := EotFinds(blocks, actions);
    if k < |blocks| {
      ConcatPush(blocks, k);
    }
    assert blocks[..|blocks|] == blocks;
  }

  /** Without forged replies it always is. */
  lemma HonestRepliesComplete(blocks: seq<seq<byte>>, actions: seq<Action>)
    requires Through(blocks, actions) && NoneForged(actions)
    ensures blocks == [] || LastSent(System(blocks, 0, START), actions)
  {
    var k := EotFinds(blocks, actions);
  }

  /** A block is lost when its only copy is damaged and the refusal garbled into an ACK. */
  lemma ForgedAckLosesBlock(block: seq<byte>, data: seq<byte>, crc: bv16)
    requires Checksum(data) != crc
    ensures var actions := [Send(Damaged(data, crc), Forged)];
      Through([block], actions) && Received([block], actions) == State(Done, 1, [])
  {
    hide Checksum;
    var y0, a := System([block], 0, START), Send(Damaged(data, crc), Forged);
    assert [a][1..] == [];
    var y1 := Next(y0, a);
    assert Run(y1, []) && End(y1, []) == y1;
  }

  /** A round without damage or loss gets the sender on to the next block. */
  lemma GoodRoundAdvances(y: System, k: nat)
    requires InStep(y, k) && y.cur <= k && y.cur < |y.blocks|
    requires y.receiver.phase.Receiving? || y.receiver.phase.Handshake?
    ensures Next(y, Send(Intact, Arrives)).cur == y.cur + 1
  {
    hide Checksum, Concat;
    if y.receiver.phase.Receiving? {
      NumbersDiffer(k);
    }
  }

  // ---- Padding ----

  /** The blocks of a file, the last one filled up with padding. */
  function Blocks(file: seq<byte>): seq<seq<byte>>
    decreases |file|
  {
    if |file| == 0 then []
    else if |file| <= BLOCK then [file + Pads(BLOCK - |file|)]
    else [file[..BLOCK]] + Blocks(file[BLOCK..])
  }

  function Pads(n: nat): seq<byte> { seq(n, _ => PAD) }

  lemma {:induction false} ConcatFront(b: seq<byte>, rest: seq<seq<byte>>)
    ensures Concat([b] + rest) == b + Concat(rest)
    decreases |rest|
  {
    if rest == [] {
      assert [b] + rest == [b] && [b][..0] == [];
    } else {
      var n := |rest| - 1;
      ConcatFront(b, rest[..n]);
      var all := [b] + rest;
      assert all[..n + 1] == [b] + rest[..n] && all[n + 1] == rest[n];
      Regrouped(b, Concat(rest[..n]), rest[n]);
    }
  }

  lemma Regrouped(p: seq<byte>, q: seq<byte>, r: seq<byte>)
    ensures p + (q + r) == (p + q) + r
  {
  }

  lemma {:induction false} BlocksArePaddedFile(file: seq<byte>) returns (n: nat)
    ensures n < BLOCK
    ensures Concat(Blocks(file)) == file + Pads(n)
    ensures forall i | 0 <= i < |Blocks(file)| :: |Blocks(file)[i]| == BLOCK
    decreases |file|
  {
    if |file| == 0 {
      n := 0;
    } else if |file| <= BLOCK {
      n := BLOCK - |file|;
      ConcatFront(file + Pads(n), []);
      assert [file + Pads(n)] + [] == [file + Pads(n)];
    } else {
      n := BlocksArePaddedFile(file[BLOCK..]);
      ConcatFront(file[..BLOCK], Blocks(file[BLOCK..]));
      assert file[..BLOCK] + file[BLOCK..] == file;
    }
  }

  lemma {:induction false} StripPads(file: seq<byte>, n: nat)
    ensures Strip(file + Pads(n)) == Strip(file)
  {
    if n == 0 {
      assert file + Pads(0) == file;
    } else {
      assert (file + Pads(n))[..|file| + n - 1] == file + Pads(n - 1);
      StripPads(file, n - 1);
    }
  }

  lemma {:induction false} StripShortens(file: seq<byte>)
    ensures |Strip(file)| <= |file|
    ensures Strip(file) == file <==> file == [] || file[|file| - 1] != PAD
  {
    if file != [] && file[|file| - 1] == PAD {
      StripShortens(file[..|file| - 1]);
    }
  }

  /** A whole transfer writes exactly the file that was sent, if and only if that file does not end in the
      padding byte. */
  lemma TransferIsFaithful(file: seq<byte>)
    ensures Strip(Concat(Blocks(file))) == file <==> file == [] || file[|file| - 1] != PAD
  {
    var n := BlocksArePaddedFile(file);
    StripPads(file, n);
    StripShortens(file);
  }

  /** End to end: the receiver writes the file that was sent exactly when the file is empty, or its last block went out
      undamaged and it does not itself end in padding. */
  lemma TransferDelivers(file: seq<byte>, actions: seq<Action>)
    requires Through(Blocks(file), actions)
    ensures Written(Received(Blocks(file), actions)) == file <==>
      file == [] || (LastSent(System(Blocks(file), 0, START), actions) && file[|file| - 1] != PAD)
  {
    hide Run, End, Next, Received, Strip, LastSent;
    var blocks := Blocks(file);
    var k := EotFinds(blocks, actions);
    TransferIsFaithful(file);
    assert blocks == [] <==> file == [];
    assert blocks[..|blocks|] == blocks;
    if k < |blocks| {
      MissingBlockShows(file, k);
    }
  }

  /** Without its last block the file is shorter than it was. */
  lemma MissingBlockShows(file: seq<byte>, k: nat)
    requires k == |Blocks(file)| - 1
    ensures |Strip(Concat(Blocks(file)[..k]))| < |file|
  {
    hide Blocks, Strip, Concat;
    var blocks := Blocks(file);
    var n := BlocksArePaddedFile(file);
    ConcatPush(blocks, k);
    assert blocks[..k + 1] == blocks;
    assert |blocks[k]| == BLOCK;
    StripShortens(Concat(blocks[..k]));
  }

  /** A file that is a single padding byte arrives empty. */
  lemma PaddingByteIsLost()
    ensures var actions := [Send(Intact, Arrives)];
      Through(Blocks([PAD]), actions) && Written(Received(Blocks([PAD]), actions)) != [PAD]
  {
    hide Checksum;
    var file, a := [PAD], Send(Intact, Arrives);
    var blocks := Blocks(file);
    var y0 := System(blocks, 0, START);
    assert [a][1..] == [];
    var y1 := Next(y0, a);
    assert Run(y1, []) && End(y1, []) == y1;
    TransferDelivers(file, [a]);
  }

  // ---- What the receiver writes ----

  /** Whatever came before, as long as no reply was forged: an undamaged block that is due is acknowledged and kept,
      a damaged one is refused and nothing is kept, one that is sent again is acknowledged and not kept twice. */
  lemma RepliesInRuns(blocks: seq<seq<byte>>, actions: seq<Action>, d: Damage) returns (k: nat)
    requires Run(System(blocks, 0, START), actions) && NoneForged(actions)
    requires var y := End(System(blocks, 0, START), actions); Live(y) && y.blocks == blocks
    requires Possible(End(System(blocks, 0, START), actions), Send(d, Arrives))
    ensures var y := End(System(blocks, 0, START), actions);
      var (r, reply) := Turn(y.receiver, FrameOf(y, d));
      && k <= |blocks| && k - 1 <= y.cur <= k && y.receiver.buf == Concat(blocks[..k])
      && (y.cur == k && d.Intact? ==> reply == [0x06] && r.buf == Concat(blocks[..k + 1]))
      && (y.cur == k && d.Damaged? ==> r.buf == Concat(blocks[..k]) && reply != [] && reply[0] == 0x15 && 0x06 !in reply)
      && (y.cur == k && d.Damaged? && y.receiver.phase.Receiving? ==> reply == [0x15] && r == y.receiver)
      && (y.cur == k - 1 ==> reply == [0x06] && r == y.receiver)
  {
    hide Checksum, Concat, Run, End;
    assert blocks[..0] == [] && Concat([]) == [] by {
      EmptyConcat();
    }
    k := BufferIsPrefix(System(blocks, 0, START), actions, 0);
    var y := End(System(blocks, 0, START), actions);
    if y.receiver.phase.Receiving? {
      NumbersDiffer(k);
    }
    if y.cur == k {
      ConcatPush(blocks, k);
    }
  }

  lemma EmptyConcat()
    ensures Concat([]) == []
  {
  }

  /** The control bytes: EOT ends the transfer and is acknowledged, CAN ends it without a file being complete. */
  lemma ControlBytes(s: State)
    requires s.phase.Handshake? || s.phase.Receiving?
    ensures Turn(s, Byte(0x04)) == (s.(phase := Done), [0x06])
    ensures Turn(s, Byte(0x18)) == (s.(phase := Failed), [])
  {
  }

  /** A line that stays silent is asked for CRC mode again after each of the first nine attempts and given up after
      the tenth. */
  lemma {:induction false} SilenceGivesUp(y: System, n: nat)
    requires y.receiver.phase == Handshake(0)
    ensures Run(y, seq(n, i => Silence))
    ensures End(y, seq(n, i => Silence)) == y.(receiver := y.receiver.(phase := if n < 10 then Handshake(n) else Failed))
    ensures n < 9 ==> Turn(End(y, seq(n, i => Silence)).receiver, ReadError).1 == [0x43]
    ensures n >= 9 ==> Turn(End(y, seq(n, i => Silence)).receiver, ReadError).1 == []
  {
    SilenceFrom(y, 0, n);
  }

  lemma {:induction false} SilenceFrom(y: System, attempt: nat, n: nat)
    requires attempt <= 10 && y.receiver.phase == if attempt < 10 then Handshake(attempt) else Failed
    ensures Run(y, seq(n, i => Silence))
    ensures End(y, seq(n, i => Silence)) ==
      y.(receiver := y.receiver.(phase := if attempt + n < 10 then Handshake(attempt + n) else Failed))
    decreases n
  {
    hide Checksum;
    var quiet: seq<Action> := seq(n, i => Silence);
    if n > 0 {
      assert quiet[1..] == seq(n - 1, i => Silence);
      SilenceFrom(Next(y, Silence), if attempt < 10 then attempt + 1 else 10, n - 1);
    }
  }
}
