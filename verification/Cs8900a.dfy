/** The CS8900A's one-frame receive mailbox and its transmit buffer. */
module Cs8900a {
  import opened Common

  const RX_WORDS := 1024
  const TX_WORDS := 512
  const RX_MAX := 1514

  /** Bit 0x100 of a register. */
  predicate Bit8(w: nat) {
    w / 0x100 % 2 == 1
  }

  function SetBit8(w: u16): (r: u16)
    ensures Bit8(r)
  {
    if Bit8(w) then w else w + 0x100
  }

  function ClearBit8(w: u16): (r: u16)
    ensures !Bit8(r)
  {
    if Bit8(w) then w - 0x100 else w
  }

  function Low(w: nat): nat {
    w % 0x100
  }

  function High(w: nat): nat {
    w / 0x100
  }

  // ---------- Receive ----------

  /** `rx_frame` with the status and length words first, `rx_head`, `rx_tail` and the RxEvent register. */
  datatype Rx = Rx(frame: seq<u16>, head: nat, tail: nat, event: u16)

  ghost predicate Valid(s: Rx) {
    |s.frame| == RX_WORDS && s.head < RX_WORDS && s.tail <= RX_WORDS
  }

  /** A packet is held until the guest has drained it. */
  predicate Held(s: Rx) {
    Bit8(s.event)
  }

  function WordsOf(n: nat): nat {
    (n + 1) / 2
  }

  /** Word `k` of a packet stored over `was`, low byte first; an odd packet leaves the last high byte. */
  function PacketWord(packet: seq<byte>, k: nat, was: u16): (w: u16)
    requires k < WordsOf(|packet|)
    ensures Low(w) == packet[2 * k] && High(w) == if 2 * k + 1 < |packet| then packet[2 * k + 1] else High(was)
  {
    packet[2 * k] + 0x100 * if 2 * k + 1 < |packet| then packet[2 * k + 1] else was / 0x100
  }

  /** The buffer with a packet from word 2 on. */
  function Loaded(frame: seq<u16>, packet: seq<byte>): (f: seq<u16>)
    requires |frame| == RX_WORDS && |packet| <= RX_MAX
    ensures |f| == RX_WORDS
  {
    seq(RX_WORDS, i requires 0 <= i < RX_WORDS =>
      if 2 <= i < 2 + WordsOf(|packet|) then PacketWord(packet, i - 2, frame[i]) else frame[i])
  }

  /** cs8900a_input, for a packet the host delivers. */
  function Receive(s: Rx, packet: seq<byte>): (t: Rx)
    requires Valid(s) && |packet| <= RX_MAX
    ensures Valid(t)
  {
    if Held(s) then s
    else
      var f := Loaded(s.frame, packet);
      Rx(f[0 := SetBit8(f[0])][1 := |packet|], 2 + WordsOf(|packet|) - 1, 0, SetBit8(s.event))
  }

  datatype Op = Arrive(packet: seq<byte>) | ReadStatus | ReadLength | ReadData

  /** A read of PP_RxStatus or PP_RxLength: the word is cleared and counts as read. */
  function ReadWord(s: Rx, i: nat): (r: (Rx, u16))
    requires Valid(s) && i < 2 && s.tail < RX_WORDS
    ensures Valid(r.0)
  {
    (s.(frame := s.frame[i := 0], tail := s.tail + 1), s.frame[i])
  }

  /** frame_read; the caller has set the result to 0. */
  function FrameRead(s: Rx): (r: (Rx, u16))
    requires Valid(s)
    ensures Valid(r.0)
  {
    if s.tail > s.head then (s.(head := 0, tail := 0), 0)
    else
      (s.(tail := s.tail + 1, event := if s.tail == s.head then ClearBit8(s.event) else s.event), s.frame[s.tail])
  }

  /** One access, and the words the guest has read so far. */
  function Step(s: Rx, op: Op): (r: (Rx, seq<u16>))
    requires Valid(s) && s.tail < RX_WORDS && (op.Arrive? ==> |op.packet| <= RX_MAX)
    ensures Valid(r.0)
  {
    match op
    case Arrive(p) => (Receive(s, p), [])
    case ReadStatus => (ReadWord(s, 0).0, [ReadWord(s, 0).1])
    case ReadLength => (ReadWord(s, 1).0, [ReadWord(s, 1).1])
    case ReadData => (FrameRead(s).0, [FrameRead(s).1])
  }

  /** The guest's reads among the accesses. */
  function Reads(ops: seq<Op>): seq<Op> {
    if ops == [] then []
    else Reads(ops[..|ops| - 1]) + if ops[|ops| - 1].Arrive? then [] else [ops[|ops| - 1]]
  }

  /** Status, length, and the data words of a packet of `n` bytes. */
  function Drain(n: nat): (d: seq<Op>)
    ensures |d| == 2 + WordsOf(n)
  {
    [ReadStatus, ReadLength] + seq(WordsOf(n), _ => ReadData)
  }

  /** Where the mailbox stands after `k` reads of draining the packet it took in state `t`. */
  ghost predicate Draining(t: Rx, n: nat, s: Rx, k: nat)
    requires Valid(t)
  {
    && Valid(s) && k <= 2 + WordsOf(n)
    && s.head == t.head && s.tail == k && (k < 2 + WordsOf(n) ==> Held(s))
    && (k == 2 + WordsOf(n) ==> !Held(s))
    && s.frame[2..] == t.frame[2..] && (k == 0 ==> s.frame == t.frame) && (k == 1 ==> s.frame[1] == t.frame[1])
    && (k >= 1 ==> s.frame[0] == 0) && (k >= 2 ==> s.frame[1] == 0)
  }

  /** Accesses in which the reads drain a packet of `n` bytes in order, with any arrivals in between. */
  ghost predicate Draws(ops: seq<Op>, n: nat) {
    && (forall i :: 0 <= i < |ops| && ops[i].Arrive? ==> |ops[i].packet| <= RX_MAX)
    && Reads(ops) <= Drain(n)
    && (Reads(ops) == Drain(n) ==> !ops[|ops| - 1].Arrive?)
  }

  ghost function Run(s: Rx, ops: seq<Op>): (r: (Rx, seq<u16>))
    requires Valid(s) && forall i :: 0 <= i < |ops| && ops[i].Arrive? ==> |ops[i].packet| <= RX_MAX
    ensures Valid(r.0)
  {
    if ops == [] then (s, [])
    else
      var (t, out) := Run(s, ops[..|ops| - 1]);
      if t.tail == RX_WORDS then (t, out)
      else
        var (u, more) := Step(t, ops[|ops| - 1]);
        (u, out + more)
  }

  lemma DrainStep(t: Rx, n: nat, s: Rx, k: nat)
    requires Valid(t) && 1 <= n <= RX_MAX && t.head == 1 + WordsOf(n) && Draining(t, n, s, k) && k < 2 + WordsOf(n)
    ensures s.tail < RX_WORDS
    ensures var (u, out) := Step(s, Drain(n)[k]);
      Draining(t, n, u, k + 1) && out == [t.frame[k]]
  {
    hide Bit8, SetBit8, ClearBit8;
    if k >= 2 {
      assert s.frame[k] == s.frame[2..][k - 2] && t.frame[k] == t.frame[2..][k - 2];
    }
  }

  /** An accepted packet of at least one byte: in any run whose reads are the status, the length and the data words, the
      guest reads the buffer in order, the event bit clears exactly at the last read, and no other packet gets in before. */
  lemma {:induction false} MailboxDrains(s: Rx, packet: seq<byte>, ops: seq<Op>)
    requires Valid(s) && !Held(s) && 1 <= |packet| <= 1514 && Draws(ops, |packet|)
    ensures var t := Receive(s, packet);
      var (u, out) := Run(t, ops);
      && Draining(t, |packet|, u, |Reads(ops)|)
      && out == t.frame[..|Reads(ops)|]
    decreases |ops|
  {
    var t, n := Receive(s, packet), |packet|;
    hide Step, Drain, Receive, Loaded, Draining, Draws, Reads, Held, Run;
    ReceivedHead(s, packet);
    DrawsFit(ops, n);
    if ops == [] {
      NoReads();
      RunNone(t);
      assert t.frame[..0] == [];
    } else {
      var m := |ops| - 1;
      RunNext(t, ops);
      ReadsSplit(ops, n);
      MailboxDrains(s, packet, ops[..m]);
      var (v, out) := Run(t, ops[..m]);
      var k := |Reads(ops[..m])|;
      DrainingHeld(t, n, v, k);
      if ops[m].Arrive? {
        HeldIgnores(v, ops[m].packet);
      } else {
        DrainStep(t, n, v, k);
        assert t.frame[..k] + [t.frame[k]] == t.frame[..k + 1];
      }
    }
  }

  lemma DrawsFit(ops: seq<Op>, n: nat)
    requires Draws(ops, n)
    ensures forall i :: 0 <= i < |ops| && ops[i].Arrive? ==> |ops[i].packet| <= RX_MAX
  {
  }

  lemma RunNone(s: Rx)
    requires Valid(s)
    ensures Run(s, []) == (s, [])
  {
  }

  lemma RunNext(s: Rx, ops: seq<Op>)
    requires Valid(s) && ops != [] && forall i :: 0 <= i < |ops| && ops[i].Arrive? ==> |ops[i].packet| <= RX_MAX
    ensures var (t, out) := Run(s, ops[..|ops| - 1]);
      t.tail < RX_WORDS ==>
        Run(s, ops) == (Step(t, ops[|ops| - 1]).0, out + Step(t, ops[|ops| - 1]).1)
  {
    hide Step;
  }

  lemma NoReads()
    ensures Reads([]) == []
  {
  }

  lemma DrainingHeld(t: Rx, n: nat, s: Rx, k: nat)
    requires Valid(t) && Draining(t, n, s, k) && k < 2 + WordsOf(n) && n <= RX_MAX
    ensures Held(s) && s.tail < RX_WORDS
  {
    hide Held;
  }

  lemma ReceivedHead(s: Rx, packet: seq<byte>)
    requires Valid(s) && !Held(s) && |packet| <= RX_MAX
    ensures var t := Receive(s, packet);
      && t.head == 1 + WordsOf(|packet|) && t.tail == 0 && Held(t) && Draining(t, |packet|, t, 0)
  {
  }

  lemma HeldIgnores(s: Rx, packet: seq<byte>)
    requires Valid(s) && Held(s) && |packet| <= RX_MAX && s.tail < RX_WORDS
    ensures Step(s, Arrive(packet)) == (s, [])
  {
  }

  /** Before its last access a draining run has not read everything. */
  lemma ReadsSplit(ops: seq<Op>, n: nat)
    requires Draws(ops, n) && ops != []
    ensures var m := |ops| - 1; var k := |Reads(ops[..m])|;
      && Draws(ops[..m], n) && k < 2 + WordsOf(n)
      && (ops[m].Arrive? ==> Reads(ops) == Reads(ops[..m]))
      && (!ops[m].Arrive? ==> ops[m] == Drain(n)[k] && |Reads(ops)| == k + 1)
  {
    var m := |ops| - 1;
    var r := Reads(ops[..m]);
    ReadsNext(ops);
    hide Drain, Reads, WordsOf;
    if ops[m].Arrive? {
      PrefixShort(r, Drain(n));
    } else {
      PrefixNext(r, ops[m], Drain(n));
    }
    DrawsShorter(ops, n);
  }

  lemma DrawsShorter(ops: seq<Op>, n: nat)
    requires ops != [] && forall i :: 0 <= i < |ops| && ops[i].Arrive? ==> |ops[i].packet| <= RX_MAX
    requires Reads(ops[..|ops| - 1]) <= Drain(n) && |Reads(ops[..|ops| - 1])| < |Drain(n)|
    ensures Draws(ops[..|ops| - 1], n)
  {
    hide Drain, Reads, WordsOf;
  }

  lemma ReadsNext(ops: seq<Op>)
    requires ops != []
    ensures var r := Reads(ops[..|ops| - 1]); Reads(ops) == if ops[|ops| - 1].Arrive? then r else r + [ops[|ops| - 1]]
  {
  }

  lemma PrefixShort(r: seq<Op>, d: seq<Op>)
    requires r <= d && r != d
    ensures |r| < |d|
  {
  }

  lemma PrefixNext(r: seq<Op>, e: Op, d: seq<Op>)
    requires r + [e] <= d
    ensures r <= d && |r| < |d| && d[|r|] == e
  {
    assert (r + [e])[..|r|] == r && (r + [e])[|r|] == e;
    assert d[..|r| + 1][..|r|] == d[..|r|];
  }

  /** What the words read out are: the status with RxOK, the length, and the packet's bytes. */
  lemma MailboxWords(s: Rx, packet: seq<byte>)
    requires Valid(s) && !Held(s) && |packet| <= RX_MAX
    ensures var f := Receive(s, packet).frame;
      && Bit8(f[0]) && f[1] == |packet|
      && forall i :: 0 <= i < |packet| ==> packet[i] == if i % 2 == 0 then Low(f[2 + i / 2]) else High(f[2 + i / 2])
  {
    hide Bit8, SetBit8, Low, High;
    var f := Receive(s, packet).frame;
    forall i | 0 <= i < |packet|
      ensures packet[i] == if i % 2 == 0 then Low(f[2 + i / 2]) else High(f[2 + i / 2])
    {
      assert i / 2 < WordsOf(|packet|);
      assert f[2 + i / 2] == PacketWord(packet, i / 2, s.frame[2 + i / 2]);
      assert i == 2 * (i / 2) + i % 2;
    }
  }

  /** In plain numbers: a held mailbox ignores a packet; a free one takes it from word 2 on, an odd packet leaving the
      last high byte, sets bit 8 of the status and of the event, and starts over. */
  lemma ReceivesExactly(s: Rx, packet: seq<byte>)
    requires Valid(s) && |packet| <= 1514
    ensures var t, n := Receive(s, packet), |packet|;
      if s.event / 0x100 % 2 == 1 then t == s
      else
        && t.event == s.event + 0x100 && t.tail == 0 && t.head == 1 + (n + 1) / 2 && |t.frame| == 1024
        && t.frame[0] == (if s.frame[0] / 0x100 % 2 == 1 then s.frame[0] else s.frame[0] + 0x100) && t.frame[1] == n
        && forall i :: 2 <= i < 1024 ==>
             t.frame[i] == if 2 * i - 4 >= n then s.frame[i]
                           else packet[2 * i - 4] + 0x100 * if 2 * i - 3 < n then packet[2 * i - 3] else s.frame[i] / 0x100
  {
  }

  /** A data read past the last word returns 0 and starts the mailbox over. */
  lemma ReadPastEnd(s: Rx)
    requires Valid(s) && s.tail > s.head
    ensures FrameRead(s) == (s.(head := 0, tail := 0), 0)
  {
  }

  /** A packet of no bytes is not released by reading its status and length; it takes two data reads. */
  lemma EmptyPacketSticks(s: Rx)
    requires Valid(s) && !Held(s)
    ensures var t := Receive(s, []);
      var u := Step(Step(t, ReadStatus).0, ReadLength).0;
      && Held(u) && Held(Step(u, ReadData).0) && !Held(Step(Step(u, ReadData).0, ReadData).0)
  {
    hide Bit8;
  }

  lemma {:induction false} ReadsAll(ops: seq<Op>)
    requires forall i :: 0 <= i < |ops| ==> !ops[i].Arrive?
    ensures Reads(ops) == ops
    decreases |ops|
  {
    if ops != [] {
      ReadsAll(ops[..|ops| - 1]);
      assert ops == ops[..|ops| - 1] + [ops[|ops| - 1]];
    }
  }

  /** Reading the status, the length and the data words releases the mailbox exactly when the packet was not empty. */
  lemma ReleasedExactly(s: Rx, packet: seq<byte>)
    requires Valid(s) && !Held(s) && |packet| <= RX_MAX
    ensures forall i :: 0 <= i < |Drain(|packet|)| ==> !Drain(|packet|)[i].Arrive?
    ensures Held(Run(Receive(s, packet), Drain(|packet|)).0) <==> packet == []
  {
    var t, d := Receive(s, packet), Drain(|packet|);
    ReadsAll(d);
    if packet == [] {
      EmptyPacketSticks(s);
      ReceivedHead(s, packet);
      assert d == [ReadStatus, ReadLength] && d[..1] == [ReadStatus] && d[..1][..0] == [];
      hide Step, Receive, Held;
      assert Run(t, d[..1]).0 == Step(t, ReadStatus).0 by { assert Run(t, d[..1][..0]) == (t, []); }
      assert Run(t, d).0 == Step(Step(t, ReadStatus).0, ReadLength).0;
    } else {
      assert !d[|d| - 1].Arrive?;
      MailboxDrains(s, packet, d);
    }
  }

  // ---------- Transmit ----------

  /** `tx_frame`, `tx_tail`, the TxEvent register, and the frames handed to the host. */
  datatype Tx = Tx(frame: seq<u16>, tail: nat, event: u16, sent: seq<seq<byte>>)

  /** One data write, and whether the host takes the frame if this write completes it. */
  datatype TxWord = TxWord(data: u16, ok: bool)

  function BytesOf(words: seq<u16>): (b: seq<byte>)
    ensures |b| == 2 * |words|
  {
    if words == [] then []
    else BytesOf(words[..|words| - 1]) + [words[|words| - 1] % 0x100, words[|words| - 1] / 0x100]
  }

  /** Each word goes out low byte first. */
  lemma {:induction false} BytesOfAt(words: seq<u16>, i: nat)
    requires i < |words|
    ensures BytesOf(words)[2 * i] == words[i] % 0x100 && BytesOf(words)[2 * i + 1] == words[i] / 0x100
    decreases |words|
  {
    if i < |words| - 1 {
      BytesOfAt(words[..|words| - 1], i);
    }
  }

  /** The writes that make one frame of `length` bytes. */
  function FrameWords(length: nat): (n: nat)
    ensures n >= 1
  {
    if length <= 2 then 1 else WordsOf(length)
  }

  /** frame_write */
  function FrameWrite(s: Tx, length: nat, w: TxWord): Tx
    requires s.tail < |s.frame|
  {
    var f := s.frame[s.tail := w.data];
    var tail := s.tail + 1;
    if tail * 2 >= length then
      Tx(f, 0, if w.ok then SetBit8(s.event) else s.event, s.sent + [BytesOf(f[..tail])])
    else s.(frame := f, tail := tail)
  }

  /** One data write: the word goes into the buffer, and if it is the frame's last the buffer goes out and starts over;
      bit 8 of the event tells that the host took it. */
  lemma FrameWritten(s: Tx, length: nat, w: TxWord)
    requires s.tail < |s.frame|
    ensures var t := FrameWrite(s, length, w);
      && t.frame == s.frame[s.tail := w.data]
      && (if 2 * s.tail + 2 >= length then
            && t.tail == 0 && |t.sent| == |s.sent| + 1 && t.sent[..|s.sent|] == s.sent && |t.sent[|s.sent|]| == 2 * s.tail + 2
            && (forall i :: 0 <= i <= s.tail ==>
                  t.sent[|s.sent|][2 * i] == t.frame[i] % 0x100 && t.sent[|s.sent|][2 * i + 1] == t.frame[i] / 0x100)
            && t.event == (if w.ok && s.event / 0x100 % 2 == 0 then s.event + 0x100 else s.event)
          else t.tail == s.tail + 1 && t.sent == s.sent && t.event == s.event)
  {
    var f := s.frame[s.tail := w.data][..s.tail + 1];
    hide BytesOf;
    forall i | 0 <= i <= s.tail
      ensures BytesOf(f)[2 * i] == f[i] % 0x100 && BytesOf(f)[2 * i + 1] == f[i] / 0x100
    {
      BytesOfAt(f, i);
    }
  }

  function Write(s: Tx, length: nat, data: seq<TxWord>): (t: Tx)
    requires |s.frame| == TX_WORDS && length <= 2 * TX_WORDS && s.tail < FrameWords(length)
    ensures |t.frame| == TX_WORDS && t.tail < FrameWords(length)
  {
    if data == [] then s else FrameWrite(Write(s, length, data[..|data| - 1]), length, data[|data| - 1])
  }

  function Data(data: seq<TxWord>): (d: seq<u16>)
    ensures |d| == |data|
  {
    seq(|data|, i requires 0 <= i < |data| => data[i].data)
  }

  /** The frames in a row of words cut every `n` words, and the words left over. */
  function Frames(words: seq<u16>, n: nat): seq<seq<byte>>
    requires n > 0
    decreases |words|
  {
    if |words| < n then [] else [BytesOf(words[..n])] + Frames(words[n..], n)
  }

  function Rest(words: seq<u16>, n: nat): (r: seq<u16>)
    requires n > 0
    ensures |r| < n
    decreases |words|
  {
    if |words| < n then words else Rest(words[n..], n)
  }

  /** One frame for every `n` words. */
  lemma {:induction false} FramesCount(words: seq<u16>, n: nat)
    requires n > 0
    ensures |Frames(words, n)| * n + |Rest(words, n)| == |words|
    decreases |words|
  {
    if |words| >= n {
      FramesCount(words[n..], n);
      assert (1 + |Frames(words[n..], n)|) * n == n + |Frames(words[n..], n)| * n;
    }
  }

  lemma {:induction false} FramesNext(words: seq<u16>, w: u16, n: nat)
    requires n > 0
    ensures var r := Rest(words, n);
      if |r| + 1 == n then
        Frames(words + [w], n) == Frames(words, n) + [BytesOf(r + [w])] && Rest(words + [w], n) == []
      else Frames(words + [w], n) == Frames(words, n) && Rest(words + [w], n) == r + [w]
    decreases |words|
  {
    hide BytesOf;
    var u := words + [w];
    if |words| < n {
      if |u| == n {
        assert u[..n] == u && u[n..] == [];
      }
    } else {
      assert u[..n] == words[..n] && u[n..] == words[n..] + [w];
      FramesNext(words[n..], w, n);
    }
  }

  /** With the length register fixed, the data writes go out cut into frames of one size, whether the host takes them
      or not, and the buffer holds the words left over. */
  lemma {:induction false} TransmitsFrames(s: Tx, length: nat, data: seq<TxWord>)
    requires |s.frame| == 512 && length <= 1024 && s.tail == 0
    ensures var t := Write(s, length, data); var n := FrameWords(length);
      && t.sent == s.sent + Frames(Data(data), n)
      && t.tail == |Rest(Data(data), n)| && t.frame[..t.tail] == Rest(Data(data), n)
    decreases |data|
  {
    hide BytesOf, SetBit8, Frames, Rest;
    var n := FrameWords(length);
    if data == [] {
      assert Data(data) == [];
      NoWords(n);
    } else {
      var m := |data| - 1;
      TransmitsFrames(s, length, data[..m]);
      var t := Write(s, length, data[..m]);
      FramesNext(Data(data[..m]), data[m].data, n);
      assert Data(data) == Data(data[..m]) + [data[m].data];
      var f := t.frame[t.tail := data[m].data];
      assert f[..t.tail + 1] == t.frame[..t.tail] + [data[m].data];
    }
  }

  lemma NoWords(n: nat)
    requires n > 0
    ensures Frames([], n) == [] && Rest([], n) == []
  {
  }

  // ---------- The device ----------

  class Chip {
    const rxFrame: array<u16>
    var rxHead: nat
    var rxTail: nat
    var rxEvent: u16
    const txFrame: array<u16>
    var txTail: nat
    var txLength: u16
    var txEvent: u16
    var sent: seq<seq<byte>>

    ghost predicate Ok()
      reads this
    {
      && rxFrame.Length == RX_WORDS && rxHead < RX_WORDS && rxTail <= RX_WORDS
      && txFrame.Length == TX_WORDS && txTail < FrameWords(txLength) && txLength <= 2 * TX_WORDS
      && rxFrame != txFrame
    }

    ghost function Receiver(): Rx
      reads this, rxFrame
    {
      Rx(rxFrame[..], rxHead, rxTail, rxEvent)
    }

    ghost function Transmitter(): Tx
      reads this, txFrame
    {
      Tx(txFrame[..], txTail, txEvent, sent)
    }

    constructor ()
      ensures Ok() && fresh(rxFrame) && fresh(txFrame)
      ensures Receiver() == Rx(seq(RX_WORDS, _ => 0), 0, 0, 0) && Transmitter() == Tx(seq(TX_WORDS, _ => 0), 0, 0, [])
    {
      rxFrame, rxHead, rxTail, rxEvent := new u16[RX_WORDS](_ => 0), 0, 0, 0;
      txFrame, txTail, txLength, txEvent, sent := new u16[TX_WORDS](_ => 0), 0, 0, 0, [];
    }

    /** cs8900a_input */
    method Input(packet: seq<byte>)
      requires Ok() && |packet| <= RX_MAX
      modifies this`rxHead, this`rxTail, this`rxEvent, rxFrame
      ensures Ok() && Receiver() == Receive(old(Receiver()), packet)
    {
      hide Bit8, SetBit8, PacketWord, Loaded;
      if Bit8(rxEvent) {
        return;
      }
      NetRead(rxFrame, packet);
      ghost var f := rxFrame[..];
      rxFrame[0] := SetBit8(rxFrame[0]);
      rxFrame[1] := |packet|;
      assert rxFrame[..] == f[0 := SetBit8(f[0])][1 := |packet|];
      rxHead := 2;
      rxHead := rxHead + WordsOf(|packet|) - 1;
      rxTail := 0;
      rxEvent := SetBit8(rxEvent);
    }

    /** net_read into the buffer from word 2 on, on a little-endian host. */
    static method NetRead(frame: array<u16>, packet: seq<byte>)
      requires frame.Length == RX_WORDS && |packet| <= RX_MAX
      modifies frame
      ensures frame[..] == Loaded(old(frame[..]), packet)
    {
      hide PacketWord;
      ghost var f := frame[..];
      for k := 0 to WordsOf(|packet|)
        invariant forall i :: 0 <= i < RX_WORDS ==>
          frame[i] == if 2 <= i < 2 + k then PacketWord(packet, i - 2, f[i]) else f[i]
      {
        frame[2 + k] := PacketWord(packet, k, frame[2 + k]);
      }
      assert frame[..] == Loaded(f, packet);
    }

    /** A read of PP_RxStatus (0) or PP_RxLength (1). */
    method ReadHeader(i: nat) returns (data: u16)
      requires Ok() && i < 2 && rxTail < RX_WORDS
      modifies this`rxTail, rxFrame
      ensures Ok() && (Receiver(), data) == ReadWord(old(Receiver()), i)
    {
      data := rxFrame[i];
      rxFrame[i] := 0;
      rxTail := rxTail + 1;
    }

    /** frame_read */
    method ReadFrame() returns (data: u16)
      requires Ok()
      modifies this`rxHead, this`rxTail, this`rxEvent
      ensures Ok() && (Receiver(), data) == FrameRead(old(Receiver()))
    {
      hide ClearBit8;
      data := 0;
      if rxTail > rxHead {
        rxHead, rxTail := 0, 0;
        return;
      }
      data := rxFrame[rxTail];
      if rxTail == rxHead {
        rxEvent := ClearBit8(rxEvent);
      }
      rxTail := rxTail + 1;
    }

    /** frame_write; `ok` is whether the host takes the frame. */
    method WriteFrame(data: u16, ok: bool)
      requires Ok()
      modifies this`txTail, this`txEvent, this`sent, txFrame
      ensures Ok() && Transmitter() == FrameWrite(old(Transmitter()), txLength, TxWord(data, ok))
    {
      hide SetBit8, BytesOf;
      txFrame[txTail] := data;
      txTail := txTail + 1;
      if txTail * 2 >= txLength {
        var bytes := Output(txFrame[..txTail]);
        sent := sent + [bytes];
        if ok {
          txEvent := SetBit8(txEvent);
        }
        txTail := 0;
      }
    }
  }

  /** The bytes of the transmit buffer's words on a little-endian host. */
  method Output(words: seq<u16>) returns (bytes: seq<byte>)
    ensures bytes == BytesOf(words)
  {
    bytes := [];
    for i := 0 to |words|
      invariant bytes == BytesOf(words[..i])
    {
      bytes := bytes + [words[i] % 0x100, words[i] / 0x100];
      assert words[..i + 1][..i] == words[..i];
    }
    assert words[..|words|] == words;
  }
}
