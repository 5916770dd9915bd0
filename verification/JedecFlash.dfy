/** The command recognisers of the SST39LVF160 and Am29 flash chips: a short history of bus writes. */
module JedecFlash {

  datatype Part = Sst39 | Am29Byte | Am29Word

  datatype Entry = Entry(offset: nat, data: bv32)

  /** `cnt`, `n_bus` and `bus[6]`. */
  datatype History = History(cnt: nat, nBus: nat, bus: seq<Entry>)

  function Empty(): History {
    var z := Entry(0, 0);
    History(0, 0, [z, z, z, z, z, z])
  }

  /** The offsets the two unlock cycles are written to. */
  function First(p: Part): nat {
    match p case Sst39 => 0x5555 case Am29Byte => 0xaaa case Am29Word => 0x555
  }

  function Second(p: Part): nat {
    match p case Sst39 => 0x2aaa case Am29Byte => 0x555 case Am29Word => 0x2aa
  }

  ghost predicate WellFormed(r: History) {
    |r.bus| == 6 && r.cnt <= 6 && (r.nBus == r.cnt || r.nBus == 0)
  }

  predicate Check(r: History, n: nat, offset: nat, data: bv32)
    requires |r.bus| == 6 && n < 6
  {
    r.bus[n].offset == offset && r.bus[n].data == data
  }

  /** The three-cycle command with last data `data`. */
  predicate Command(p: Part, r: History, data: bv32)
    requires |r.bus| == 6
  {
    r.cnt == 3 && Check(r, 0, First(p), 0xaa) && Check(r, 1, Second(p), 0x55) && Check(r, 2, First(p), data)
  }

  predicate ProgramUnlocked(p: Part, r: History)
    requires |r.bus| == 6
  {
    Command(p, r, 0xa0)
  }

  predicate EraseUnlocked(p: Part, r: History)
    requires |r.bus| == 6
  {
    && r.cnt == 5 && Check(r, 0, First(p), 0xaa) && Check(r, 1, Second(p), 0x55) && Check(r, 2, First(p), 0x80)
    && Check(r, 3, First(p), 0xaa) && Check(r, 4, Second(p), 0x55)
  }

  datatype Action = Drop | Program | Erase | Record

  /** What a write does: the Am29 first drops erase suspend and resume when nothing is recorded. */
  function Act(p: Part, r: History, data: bv32): Action
    requires |r.bus| == 6
  {
    if p != Sst39 && r.nBus == 0 && (data == 0xb0 || data == 0x30) then Drop
    else if ProgramUnlocked(p, r) then Program
    else if EraseUnlocked(p, r) then Erase
    else Record
  }

  /** The Am29's unlock-bypass program and reset test, grouped as the macro groups it. */
  predicate BypassReset(r: History)
    requires |r.bus| == 6
  {
    (r.cnt == 2 && r.bus[0].data == 0xa0) || r.bus[0].data == 0x90
  }

  /** Whether a write that is not a command's last cycle clears the history. */
  predicate Ends(p: Part, r: History, data: bv32, recorded: bool)
    requires |r.bus| == 6
  {
    match p
    case Sst39 => recorded && ((r.cnt == 1 && r.bus[0].data == 0xf0) || Command(p, r, 0xf0))
    case _ => (recorded && data == 0xf0) || Command(p, r, 0x20) || BypassReset(r)
  }

  function Recorded(r: History, e: Entry): (t: History)
    requires |r.bus| == 6
    ensures |t.bus| == 6
  {
    if r.nBus < 6 then History(r.nBus + 1, r.nBus + 1, r.bus[r.nBus := e]) else r
  }

  function AfterWrite(p: Part, r: History, e: Entry): (t: History)
    requires |r.bus| == 6
    ensures |t.bus| == 6
  {
    match Act(p, r, e.data)
    case Drop => r
    case Program => Empty()
    case Erase => Empty()
    case Record =>
      var t := Recorded(r, e);
      if Ends(p, t, e.data, r.nBus < 6) then Empty() else t
  }

  /** A read forgets how far the history had come, but not the history. */
  function AfterRead(r: History): History {
    r.(nBus := 0)
  }

  // ---------- Every run ----------

  datatype Event = Write(entry: Entry) | Read

  function Run(p: Part, h: seq<Event>): (r: History)
    ensures |r.bus| == 6
  {
    if h == [] then Empty()
    else
      var r := Run(p, h[..|h| - 1]);
      match h[|h| - 1]
      case Write(e) => AfterWrite(p, r, e)
      case Read => AfterRead(r)
  }

  /** The run up to its last write that was not dropped. */
  function Stripped(p: Part, h: seq<Event>): (g: seq<Event>)
    ensures |g| <= |h| && g == h[..|g|]
  {
    if h == [] then []
    else
      var q := h[..|h| - 1];
      if h[|h| - 1].Read? || Act(p, Run(p, q), h[|h| - 1].entry.data).Drop? then Stripped(p, q) else h
  }

  /** A point of the run where the next write starts a new sequence. */
  predicate Boundary(p: Part, h: seq<Event>) {
    var r := Run(p, h);
    r.nBus == 0 && !ProgramUnlocked(p, r) && !EraseUnlocked(p, r)
  }

  function ProgramSequence(p: Part): seq<Event> {
    [Write(Entry(First(p), 0xaa)), Write(Entry(Second(p), 0x55)), Write(Entry(First(p), 0xa0))]
  }

  function EraseSequence(p: Part): seq<Event> {
    [Write(Entry(First(p), 0xaa)), Write(Entry(Second(p), 0x55)), Write(Entry(First(p), 0x80)),
     Write(Entry(First(p), 0xaa)), Write(Entry(Second(p), 0x55))]
  }

  /** The run `g` ends with the events `last`, from a boundary on. */
  predicate EndsWith(p: Part, g: seq<Event>, last: seq<Event>) {
    |last| <= |g| && g[|g| - |last|..] == last && Boundary(p, g[..|g| - |last|])
  }

  lemma EndsWithNext(p: Part, g: seq<Event>, last: seq<Event>, e: Event)
    requires EndsWith(p, g, last)
    ensures EndsWith(p, g + [e], last + [e])
  {
    hide Boundary;
    assert (g + [e])[..|g| - |last|] == g[..|g| - |last|];
  }

  function Writes(entries: seq<Entry>): (w: seq<Event>)
    ensures |w| == |entries|
  {
    seq(|entries|, i requires 0 <= i < |entries| => Write(entries[i]))
  }

  lemma WritesNext(bus: seq<Entry>, n: nat, e: Entry)
    requires n < |bus|
    ensures Writes(bus[n := e][..n + 1]) == Writes(bus[..n]) + [Write(e)]
  {
  }

  /** What the six entries remember of the run: the writes since the last boundary, unless they overflowed. */
  ghost predicate Remembers(p: Part, h: seq<Event>) {
    var r := Run(p, h);
    && WellFormed(r)
    && (r.nBus != 0 ==> Stripped(p, h) == h)
    && (r.cnt < 6 ==> EndsWith(p, Stripped(p, h), Writes(r.bus[..r.cnt])))
  }

  lemma RunOn(p: Part, q: seq<Event>, e: Event)
    ensures Run(p, q + [e]) == match e { case Write(w) => AfterWrite(p, Run(p, q), w) case Read => AfterRead(Run(p, q)) }
    ensures Stripped(p, q + [e])
         == if e.Read? || Act(p, Run(p, q), e.entry.data).Drop? then Stripped(p, q) else q + [e]
  {
    assert (q + [e])[..|q + [e]| - 1] == q;
  }

  /** Over every run the history holds the writes since the last boundary. */
  lemma {:induction false} HistoryRemembers(p: Part, h: seq<Event>)
    ensures Remembers(p, h)
    ensures Run(p, Stripped(p, h)).cnt == Run(p, h).cnt && Run(p, Stripped(p, h)).bus == Run(p, h).bus
    decreases |h|
  {
    if h == [] {
      EmptyRemembers(p, h);
    } else {
      var q, e := h[..|h| - 1], h[|h| - 1];
      HistoryRemembers(p, q);
      assert h == q + [e];
      if e.Read? || Act(p, Run(p, q), e.entry.data).Drop? {
        QuietRemembered(p, q, e);
      } else {
        WriteRemembered(p, q, e.entry);
      }
      RunOn(p, q, e);
      hide *;
    }
  }

  lemma EmptyRemembers(p: Part, h: seq<Event>)
    requires Run(p, h) == Empty()
    ensures Remembers(p, h)
  {
    hide Run, Stripped;
    var g := Stripped(p, h);
    StrippedRun(p, h);
    RunWellFormed(p, g);
    assert g[..|g|] == g && g[|g|..] == [] == Writes([]);
  }

  lemma {:induction false} RunWellFormed(p: Part, h: seq<Event>)
    ensures WellFormed(Run(p, h))
    decreases |h|
  {
    hide Act, Ends;
    if h != [] {
      RunWellFormed(p, h[..|h| - 1]);
    }
  }

  lemma {:induction false} StrippedRun(p: Part, h: seq<Event>)
    ensures Run(p, Stripped(p, h)).cnt == Run(p, h).cnt && Run(p, Stripped(p, h)).bus == Run(p, h).bus
    decreases |h|
  {
    if h != [] {
      var q, e := h[..|h| - 1], h[|h| - 1];
      StrippedRun(p, q);
    }
  }

  lemma QuietRemembered(p: Part, q: seq<Event>, e: Event)
    requires Remembers(p, q) && (e.Read? || Act(p, Run(p, q), e.entry.data).Drop?)
    ensures Remembers(p, q + [e])
  {
    RunOn(p, q, e);
    hide EndsWith, Stripped, Run, ProgramUnlocked, EraseUnlocked, Writes;
  }

  lemma WriteShape(p: Part, s: History, e: Entry)
    requires |s.bus| == 6 && !Act(p, s, e.data).Drop?
    ensures AfterWrite(p, s, e) == Empty()
      || (AfterWrite(p, s, e) == Recorded(s, e) && !ProgramUnlocked(p, s) && !EraseUnlocked(p, s))
  {
    hide ProgramUnlocked, EraseUnlocked, Recorded, Ends;
  }

  lemma WriteRemembered(p: Part, q: seq<Event>, e: Entry)
    requires Remembers(p, q) && !Act(p, Run(p, q), e.data).Drop?
    ensures Remembers(p, q + [Write(e)])
  {
    var s, h := Run(p, q), q + [Write(e)];
    RunOn(p, q, Write(e));
    WriteShape(p, s, e);
    var t := AfterWrite(p, s, e);
    hide Run, Stripped, Act, ProgramUnlocked, EraseUnlocked, Ends, AfterWrite, EndsWith, Writes;
    if t == Empty() {
      EmptyRemembers(p, h);
    } else if s.nBus < 6 {
      assert t == History(s.nBus + 1, s.nBus + 1, s.bus[s.nBus := e]);
      WritesNext(s.bus, s.nBus, e);
      if s.nBus == 0 {
        StartsHere(p, q, Write(e));
        assert Writes(s.bus[..0]) + [Write(e)] == [Write(e)];
      } else {
        assert s.cnt == s.nBus && Stripped(p, q) == q;
        EndsWithNext(p, q, Writes(s.bus[..s.cnt]), Write(e));
      }
    } else {
      assert t == s && t.cnt == 6;
    }
  }

  lemma StartsHere(p: Part, q: seq<Event>, e: Event)
    requires Run(p, q).nBus == 0 && !ProgramUnlocked(p, Run(p, q)) && !EraseUnlocked(p, Run(p, q))
    ensures EndsWith(p, q + [e], [e])
  {
    hide Run;
    assert (q + [e])[..|q|] == q;
  }

  // ---------- When a write reaches the array ----------

  lemma Unlocks(p: Part, r: History, last: seq<Event>, data: bv32)
    requires |r.bus| == 6 && r.cnt == 3 && last == Writes(r.bus[..3])
    ensures Command(p, r, data) <==> last == [Write(Entry(First(p), 0xaa)), Write(Entry(Second(p), 0x55)), Write(Entry(First(p), data))]
  {
    assert last[0] == Write(r.bus[0]) && last[1] == Write(r.bus[1]) && last[2] == Write(r.bus[2]);
  }

  lemma EraseUnlocks(p: Part, r: History, last: seq<Event>)
    requires |r.bus| == 6 && r.cnt == 5 && last == Writes(r.bus[..5])
    ensures EraseUnlocked(p, r) <==> last == EraseSequence(p)
  {
    assert last[0] == Write(r.bus[0]) && last[1] == Write(r.bus[1]) && last[2] == Write(r.bus[2]);
    assert last[3] == Write(r.bus[3]) && last[4] == Write(r.bus[4]);
  }

  lemma UnlockCycle(p: Part, r: History, e: Entry)
    requires WellFormed(r) && !ProgramUnlocked(p, r) && !EraseUnlocked(p, r) && r.nBus < 6
    requires e.data in {0xaa, 0x55, 0xa0, 0x80, 0x90, 0x98} && (r.nBus == 2 ==> e.data in {0xa0, 0x80, 0x90, 0x98})
    requires if r.nBus == 0 then e.data == 0xaa else r.bus[0].data == 0xaa
    ensures AfterWrite(p, r, e) == Recorded(r, e)
  {
    hide ProgramUnlocked, EraseUnlocked;
  }

  lemma ThreeCycles(p: Part, r: History, data: bv32)
    requires WellFormed(r) && !ProgramUnlocked(p, r) && !EraseUnlocked(p, r) && r.nBus == 0
    requires data in {0xa0, 0x80, 0x90, 0x98}
    ensures var e0, e1, e2 := Entry(First(p), 0xaa), Entry(Second(p), 0x55), Entry(First(p), data);
      AfterWrite(p, AfterWrite(p, AfterWrite(p, r, e0), e1), e2) == History(3, 3, r.bus[0 := e0][1 := e1][2 := e2])
  {
    hide AfterWrite;
    var e0, e1, e2 := Entry(First(p), 0xaa), Entry(Second(p), 0x55), Entry(First(p), data);
    UnlockCycle(p, r, e0);
    var r1 := Recorded(r, e0);
    UnlockCycle(p, r1, e1);
    UnlockCycle(p, Recorded(r1, e1), e2);
  }

  lemma TwoCycles(p: Part, r: History)
    requires |r.bus| == 6 && r.cnt == r.nBus == 3 && !ProgramUnlocked(p, r) && r.bus[0].data == 0xaa
    ensures var e0, e1 := Entry(First(p), 0xaa), Entry(Second(p), 0x55);
      AfterWrite(p, AfterWrite(p, r, e0), e1) == History(5, 5, r.bus[3 := e0][4 := e1])
  {
    hide AfterWrite;
    var e0, e1 := Entry(First(p), 0xaa), Entry(Second(p), 0x55);
    UnlockCycle(p, r, e0);
    UnlockCycle(p, Recorded(r, e0), e1);
  }

  lemma RunTwo(p: Part, b: seq<Event>, e0: Entry, e1: Entry)
    ensures Run(p, b + [Write(e0), Write(e1)]) == AfterWrite(p, AfterWrite(p, Run(p, b), e0), e1)
  {
    hide Run, AfterWrite, Stripped, Act;
    RunOn(p, b, Write(e0));
    RunOn(p, b + [Write(e0)], Write(e1));
    assert b + [Write(e0), Write(e1)] == b + [Write(e0)] + [Write(e1)];
  }

  lemma RunThree(p: Part, b: seq<Event>, e0: Entry, e1: Entry, e2: Entry)
    ensures Run(p, b + [Write(e0), Write(e1), Write(e2)])
         == AfterWrite(p, AfterWrite(p, AfterWrite(p, Run(p, b), e0), e1), e2)
  {
    hide Run, AfterWrite, Stripped, Act;
    RunTwo(p, b, e0, e1);
    RunOn(p, b + [Write(e0), Write(e1)], Write(e2));
    assert b + [Write(e0), Write(e1), Write(e2)] == b + [Write(e0), Write(e1)] + [Write(e2)];
  }

  /** From a boundary, the program and erase sequences lead to the states that program and erase. */
  lemma SequencesUnlock(p: Part, b: seq<Event>)
    requires Boundary(p, b)
    ensures ProgramUnlocked(p, Run(p, b + ProgramSequence(p))) && EraseUnlocked(p, Run(p, b + EraseSequence(p)))
  {
    hide Run, AfterWrite, Stripped, Act;
    var e0, e1 := Entry(First(p), 0xaa), Entry(Second(p), 0x55);
    RunWellFormed(p, b);
    ThreeCycles(p, Run(p, b), 0xa0);
    RunThree(p, b, e0, e1, Entry(First(p), 0xa0));
    ThreeCycles(p, Run(p, b), 0x80);
    RunThree(p, b, e0, e1, Entry(First(p), 0x80));
    var c := b + [Write(e0), Write(e1), Write(Entry(First(p), 0x80))];
    TwoCycles(p, Run(p, c));
    RunTwo(p, c, e0, e1);
    assert b + EraseSequence(p) == c + [Write(e0), Write(e1)];
  }

  /** Over every run, the chip is ready to program, or to erase, exactly when the last effective writes are the
      unlock sequence from a boundary on; reads and dropped writes may follow it but not break it. */
  lemma UnlockedExactly(p: Part, h: seq<Event>)
    ensures ProgramUnlocked(p, Run(p, h)) <==> EndsWith(p, Stripped(p, h), ProgramSequence(p))
    ensures EraseUnlocked(p, Run(p, h)) <==> EndsWith(p, Stripped(p, h), EraseSequence(p))
  {
    hide Run, Stripped, Boundary, Writes;
    HistoryRemembers(p, h);
    var r, g := Run(p, h), Stripped(p, h);
    if r.cnt == 3 {
      Unlocks(p, r, Writes(r.bus[..3]), 0xa0);
    }
    if r.cnt == 5 {
      EraseUnlocks(p, r, Writes(r.bus[..5]));
    }
    if EndsWith(p, g, ProgramSequence(p)) {
      SequencesUnlock(p, g[..|g| - 3]);
      assert g[..|g| - 3] + ProgramSequence(p) == g;
    }
    if EndsWith(p, g, EraseSequence(p)) {
      SequencesUnlock(p, g[..|g| - 5]);
      assert g[..|g| - 5] + EraseSequence(p) == g;
    }
  }

  // ---------- The same chip, told from its writes alone ----------

  /** The three-cycle command with last data `data`, and the five cycles before an erase. */
  function ThreeCycle(p: Part, data: bv32): seq<Entry> {
    [Entry(First(p), 0xaa), Entry(Second(p), 0x55), Entry(First(p), data)]
  }

  function FiveCycle(p: Part): seq<Entry> {
    ThreeCycle(p, 0x80) + [Entry(First(p), 0xaa), Entry(Second(p), 0x55)]
  }

  predicate UnlockSequence(p: Part, w: seq<Entry>) {
    w == ThreeCycle(p, 0xa0) || w == FiveCycle(p)
  }

  /** The writes `w`, made since a boundary, reach the next one with their last: it carries out a command, or exits
      one, or belongs to the Am29's unlock bypass, or is an Am29's erase suspend or resume with nothing to suspend. */
  predicate Closes(p: Part, w: seq<Entry>)
    requires w != []
  {
    var n, data := |w|, w[|w| - 1].data;
    UnlockSequence(p, w[..n - 1]) ||
    match p
    case Sst39 => (n == 1 && data == 0xf0) || w == ThreeCycle(p, 0xf0)
    case _ =>
      || (n <= 6 && data == 0xf0) || w == ThreeCycle(p, 0x20)
      || (n == 2 && w[0].data == 0xa0) || (n == 1 && data in {0x90, 0xb0, 0x30})
  }

  /** The writes since the last boundary and, once they unlock a command, whether it waited through a read. */
  datatype Since = Since(writes: seq<Entry>, waited: bool)

  function SinceBoundary(p: Part, h: seq<Event>): Since {
    if h == [] then Since([], false)
    else
      var q := SinceBoundary(p, h[..|h| - 1]);
      match h[|h| - 1]
      case Read => if UnlockSequence(p, q.writes) then q.(waited := true) else Since([], false)
      case Write(e) =>
        if p != Sst39 && q.waited && e.data in {0xb0, 0x30} then q
        else if Closes(p, q.writes + [e]) then Since([], false)
        else q.(writes := q.writes + [e])
  }

  /** The six entries hold the front of the writes `w`. */
  predicate Front(r: History, w: seq<Entry>)
    requires |r.bus| == 6
  {
    r.cnt == (if |w| < 6 then |w| else 6) && forall i :: 0 <= i < r.cnt ==> r.bus[i] == w[i]
  }

  predicate Agrees(p: Part, r: History, q: Since)
    requires |r.bus| == 6
  {
    if q.writes == [] then r.nBus == 0 && !q.waited && !ProgramUnlocked(p, r) && !EraseUnlocked(p, r)
    else
      && Front(r, q.writes) && (p != Sst39 ==> q.writes[0].data != 0x90)
      && r.nBus == (if q.waited then 0 else r.cnt) && (q.waited ==> UnlockSequence(p, q.writes))
  }

  lemma SequenceAt(p: Part, w: seq<Entry>, data: bv32)
    ensures w == ThreeCycle(p, data) <==>
      |w| == 3 && w[0] == Entry(First(p), 0xaa) && w[1] == Entry(Second(p), 0x55) && w[2] == Entry(First(p), data)
    ensures w == FiveCycle(p) <==>
      && |w| == 5 && w[0] == Entry(First(p), 0xaa) && w[1] == Entry(Second(p), 0x55) && w[2] == Entry(First(p), 0x80)
      && w[3] == Entry(First(p), 0xaa) && w[4] == Entry(Second(p), 0x55)
  {
  }

  lemma AgreesUnlocked(p: Part, r: History, q: Since)
    requires |r.bus| == 6 && Agrees(p, r, q)
    ensures ProgramUnlocked(p, r) <==> q.writes == ThreeCycle(p, 0xa0)
    ensures EraseUnlocked(p, r) <==> q.writes == FiveCycle(p)
  {
    SequenceAt(p, q.writes, 0xa0);
    hide ThreeCycle, FiveCycle;
  }

  lemma ReadAgrees(p: Part, r: History, q: Since)
    requires |r.bus| == 6 && Agrees(p, r, q)
    ensures Agrees(p, AfterRead(r), if UnlockSequence(p, q.writes) then q.(waited := true) else Since([], false))
  {
    AgreesUnlocked(p, r, q);
    SequenceAt(p, q.writes, 0xa0);
    hide ThreeCycle, FiveCycle;
  }

  lemma FrontNext(p: Part, r: History, q: Since, e: Entry)
    requires |r.bus| == 6 && Agrees(p, r, q) && !q.waited
    ensures Front(Recorded(r, e), q.writes + [e]) && Recorded(r, e).nBus == Recorded(r, e).cnt
    ensures r.nBus < 6 <==> |q.writes| < 6
  {
    hide ProgramUnlocked, EraseUnlocked, UnlockSequence;
  }

  lemma FrontCommand(p: Part, t: History, w: seq<Entry>, data: bv32)
    requires |t.bus| == 6 && Front(t, w)
    ensures Command(p, t, data) <==> w == ThreeCycle(p, data)
  {
    SequenceAt(p, w, data);
    hide ThreeCycle, FiveCycle;
  }

  /** The source's exit and bypass tests, on the entries, are the conditions on the writes. */
  lemma EndsCloses(p: Part, t: History, w: seq<Entry>)
    requires |t.bus| == 6 && w != [] && Front(t, w) && !UnlockSequence(p, w[..|w| - 1])
    requires p != Sst39 ==> (if |w| > 1 then w[0].data != 0x90 else w[0].data !in {0xb0, 0x30})
    ensures Ends(p, t, w[|w| - 1].data, |w| <= 6) <==> Closes(p, w)
  {
    FrontCommand(p, t, w, 0xf0);
    FrontCommand(p, t, w, 0x20);
    hide ThreeCycle, Command, UnlockSequence;
  }

  /** A write that is neither dropped nor a command's last cycle is recorded, and clears the history if it closes. */
  lemma RecordsOrCloses(p: Part, r: History, q: Since, e: Entry)
    requires |r.bus| == 6 && Agrees(p, r, q) && !UnlockSequence(p, q.writes)
    requires p != Sst39 && q.writes == [] ==> e.data !in {0xb0, 0x30}
    ensures AfterWrite(p, r, e) == if Closes(p, q.writes + [e]) then Empty() else Recorded(r, e)
  {
    var w := q.writes + [e];
    assert w[..|w| - 1] == q.writes && w[|w| - 1] == e;
    NotDropped(p, r, q, e.data);
    WaitsForUnlock(p, r, q);
    FrontNext(p, r, q, e);
    assert q.writes != [] ==> w[0] == q.writes[0];
    EndsCloses(p, Recorded(r, e), w);
    hide Closes, Ends, Recorded, Act, ProgramUnlocked, EraseUnlocked, UnlockSequence, Front;
  }

  lemma WaitsForUnlock(p: Part, r: History, q: Since)
    requires |r.bus| == 6 && Agrees(p, r, q) && !UnlockSequence(p, q.writes)
    ensures !q.waited && (p != Sst39 && q.writes != [] ==> q.writes[0].data != 0x90)
  {
    hide ProgramUnlocked, EraseUnlocked, UnlockSequence, Front;
  }

  lemma RecordAgrees(p: Part, r: History, q: Since, e: Entry)
    requires |r.bus| == 6 && Agrees(p, r, q) && !UnlockSequence(p, q.writes)
    requires p != Sst39 && q.writes == [] ==> e.data !in {0xb0, 0x30}
    ensures Agrees(p, AfterWrite(p, r, e),
                   if Closes(p, q.writes + [e]) then Since([], false) else Since(q.writes + [e], false))
  {
    var w := q.writes + [e];
    RecordsOrCloses(p, r, q, e);
    EmptyAgrees(p);
    if !Closes(p, w) {
      WaitsForUnlock(p, r, q);
      FrontNext(p, r, q, e);
      CloseFirst(p, w);
      assert q.writes != [] ==> w[0] == q.writes[0];
      hide Closes, AfterWrite, Recorded, ProgramUnlocked, EraseUnlocked, UnlockSequence, Front;
    }
  }

  lemma NotDropped(p: Part, r: History, q: Since, data: bv32)
    requires |r.bus| == 6 && Agrees(p, r, q) && !UnlockSequence(p, q.writes)
    requires p != Sst39 && q.writes == [] ==> data !in {0xb0, 0x30}
    ensures Act(p, r, data) == Record
  {
    AgreesUnlocked(p, r, q);
    hide ProgramUnlocked, EraseUnlocked, ThreeCycle, FiveCycle;
  }

  lemma CloseFirst(p: Part, w: seq<Entry>)
    requires w != []
    ensures p != Sst39 && |w| == 1 && w[0].data == 0x90 ==> Closes(p, w)
  {
  }

  lemma WriteAgrees(p: Part, r: History, q: Since, e: Entry)
    requires |r.bus| == 6 && Agrees(p, r, q)
    ensures Agrees(p, AfterWrite(p, r, e),
      if p != Sst39 && q.waited && e.data in {0xb0, 0x30} then q
      else if Closes(p, q.writes + [e]) then Since([], false)
      else q.(writes := q.writes + [e]))
  {
    assert (q.writes + [e])[..|q.writes|] == q.writes;
    if UnlockSequence(p, q.writes) {
      LastCycle(p, r, q, e);
    } else if p != Sst39 && q.writes == [] && e.data in {0xb0, 0x30} {
      hide ProgramUnlocked, EraseUnlocked, Ends;
    } else {
      RecordAgrees(p, r, q, e);
      hide AfterWrite, Agrees, Closes;
    }
  }

  lemma LastCycle(p: Part, r: History, q: Since, e: Entry)
    requires |r.bus| == 6 && Agrees(p, r, q) && UnlockSequence(p, q.writes)
    ensures AfterWrite(p, r, e) == if p != Sst39 && q.waited && e.data in {0xb0, 0x30} then r else Empty()
    ensures Agrees(p, Empty(), Since([], false))
  {
    AgreesUnlocked(p, r, q);
    EmptyAgrees(p);
    hide ProgramUnlocked, EraseUnlocked, Ends;
  }

  lemma {:induction false} RunAgrees(p: Part, h: seq<Event>)
    ensures Agrees(p, Run(p, h), SinceBoundary(p, h))
    decreases |h|
  {
    hide Agrees, AfterWrite, Closes, UnlockSequence;
    if h == [] {
      EmptyAgrees(p);
    } else {
      var q := h[..|h| - 1];
      RunAgrees(p, q);
      match h[|h| - 1]
      case Read => ReadAgrees(p, Run(p, q), SinceBoundary(p, q));
      case Write(e) => WriteAgrees(p, Run(p, q), SinceBoundary(p, q), e);
    }
  }

  lemma EmptyAgrees(p: Part)
    ensures Agrees(p, Empty(), Since([], false))
  {
  }

  /** Over every run: a new sequence starts exactly when no writes are left since the last boundary, and a program or an
      erase waits for its last cycle exactly when those writes are its unlock sequence. */
  lemma BoundaryExactly(p: Part, h: seq<Event>)
    ensures Boundary(p, h) <==> SinceBoundary(p, h).writes == []
    ensures ProgramUnlocked(p, Run(p, h)) <==> SinceBoundary(p, h).writes == ThreeCycle(p, 0xa0)
    ensures EraseUnlocked(p, Run(p, h)) <==> SinceBoundary(p, h).writes == FiveCycle(p)
  {
    RunAgrees(p, h);
    AgreesUnlocked(p, Run(p, h), SinceBoundary(p, h));
    hide Run, SinceBoundary, ProgramUnlocked, EraseUnlocked;
  }

  // ---------- When the chip can still be brought to a command ----------

  /** The first `nBus` entries start an unlock sequence. */
  predicate StartsUnlock(p: Part, r: History)
    requires |r.bus| == 6
  {
    && r.nBus < 6
    && (r.nBus >= 1 ==> Check(r, 0, First(p), 0xaa)) && (r.nBus >= 2 ==> Check(r, 1, Second(p), 0x55))
    && (r.nBus == 3 ==> Check(r, 2, First(p), 0xa0) || Check(r, 2, First(p), 0x80))
    && (r.nBus >= 4 ==> Check(r, 2, First(p), 0x80) && Check(r, 3, First(p), 0xaa))
    && (r.nBus >= 5 ==> Check(r, 4, Second(p), 0x55))
  }

  /** That is: as a sequence of writes they are a prefix of the program or of the erase sequence. */
  lemma StartsArePrefixes(p: Part, r: History)
    requires WellFormed(r)
    ensures StartsUnlock(p, r)
      <==> Writes(r.bus[..r.nBus]) <= ProgramSequence(p) || Writes(r.bus[..r.nBus]) <= EraseSequence(p)
  {
    var w := Writes(r.bus[..r.nBus]);
    assert forall i :: 0 <= i < |w| ==> w[i] == Write(r.bus[i]);
    PrefixOf(w, ProgramSequence(p));
    PrefixOf(w, EraseSequence(p));
  }

  lemma PrefixOf(a: seq<Event>, b: seq<Event>)
    ensures a <= b <==> |a| <= |b| && forall i :: 0 <= i < |a| ==> a[i] == b[i]
  {
  }

  /** An Am29 listens until its six entries are full, the SST39 only while they start an unlock sequence. */
  predicate Listens(p: Part, r: History)
    requires |r.bus| == 6
  {
    if p == Sst39 then StartsUnlock(p, r) else r.nBus < 6
  }

  /** Writes that clear the history of a chip that listens. */
  function Clearing(p: Part, r: History): seq<Entry>
    requires |r.bus| == 6
  {
    var e0, e1, exit := Entry(First(p), 0xaa), Entry(Second(p), 0x55), Entry(First(p), 0xf0);
    if p != Sst39 || r.nBus == 0 || r.nBus == 2 || r.nBus == 5 then [exit]
    else if r.nBus == 1 then [e1, exit]
    else if r.nBus == 3 && Check(r, 2, First(p), 0xa0) then [exit]
    else if r.nBus == 3 then [e0, e1, exit]
    else [e1, exit]
  }

  function AfterWrites(p: Part, r: History, more: seq<Entry>): (t: History)
    requires |r.bus| == 6
    ensures |t.bus| == 6
    decreases |more|
  {
    if more == [] then r else AfterWrites(p, AfterWrite(p, r, more[0]), more[1..])
  }

  lemma {:induction false} RunWrites(p: Part, h: seq<Event>, more: seq<Entry>)
    ensures Run(p, h + Writes(more)) == AfterWrites(p, Run(p, h), more)
    decreases |more|
  {
    hide Run, AfterWrite, Stripped, Act;
    if more == [] {
      assert h + Writes(more) == h;
    } else {
      RunOn(p, h, Write(more[0]));
      RunWrites(p, h + [Write(more[0])], more[1..]);
      assert h + Writes(more) == h + [Write(more[0])] + Writes(more[1..]);
    }
  }

  /** The Am29 clears on 0xf0 whenever it records it. */
  lemma ExitAm29(p: Part, r: History)
    requires WellFormed(r) && p != Sst39 && r.nBus < 6
    ensures AfterWrite(p, r, Entry(First(p), 0xf0)) == Empty()
  {
    hide Command, EraseUnlocked, ProgramUnlocked;
  }

  /** The SST39 clears on 0xf0 as a first cycle, as the third of a command, or as the data of a program or erase. */
  lemma ExitSst39(r: History)
    requires WellFormed(r)
    requires ProgramUnlocked(Sst39, r) || EraseUnlocked(Sst39, r) || r.nBus == 0
      || (r.nBus == 2 && StartsUnlock(Sst39, r))
    ensures AfterWrite(Sst39, r, Entry(First(Sst39), 0xf0)) == Empty()
  {
  }

  lemma ClearingClears(p: Part, r: History)
    requires WellFormed(r) && Listens(p, r)
    ensures AfterWrites(p, r, Clearing(p, r)) == Empty()
  {
    var e0, e1, exit := Entry(First(p), 0xaa), Entry(Second(p), 0x55), Entry(First(p), 0xf0);
    var c := Clearing(p, r);
    if p != Sst39 {
      ExitAm29(p, r);
    } else if r.nBus == 0 || r.nBus == 2 || r.nBus == 5 || (r.nBus == 3 && Check(r, 2, First(p), 0xa0)) {
      ExitSst39(r);
    } else if r.nBus == 3 {
      UnlockCycle(p, r, e0);
      var r1 := Recorded(r, e0);
      UnlockCycle(p, r1, e1);
      ExitSst39(Recorded(r1, e1));
      hide AfterWrite;
      assert c[1..] == [e1, exit] && c[1..][1..] == [exit] && c[1..][1..][1..] == [];
      assert AfterWrites(p, r, c) == AfterWrites(p, Recorded(r, e0), c[1..]);
      assert AfterWrites(p, r1, c[1..]) == AfterWrites(p, Recorded(r1, e1), c[1..][1..]);
    } else {
      UnlockCycle(p, r, e1);
      ExitSst39(Recorded(r, e1));
      hide AfterWrite;
      assert c[1..] == [exit] && c[1..][1..] == [];
      assert AfterWrites(p, r, c) == AfterWrites(p, Recorded(r, e1), c[1..]);
      assert AfterWrites(p, Recorded(r, e1), c[1..]) == AfterWrites(p, Empty(), c[1..][1..]);
    }
  }

  /** A chip that does not listen is not ready, and no write makes it listen. */
  lemma DeafStays(p: Part, r: History, e: Entry)
    requires WellFormed(r) && !Listens(p, r) && (p != Sst39 ==> r.bus[0].data != 0x90)
    ensures !ProgramUnlocked(p, r) && !EraseUnlocked(p, r)
    ensures var t := AfterWrite(p, r, e); WellFormed(t) && !Listens(p, t) && t.bus[0] == r.bus[0]
  {
  }

  lemma {:induction false} DeafForWrites(p: Part, r: History, more: seq<Entry>)
    requires WellFormed(r) && !Listens(p, r) && (p != Sst39 ==> r.bus[0].data != 0x90)
    ensures var t := AfterWrites(p, r, more); !ProgramUnlocked(p, t) && !EraseUnlocked(p, t)
    decreases |more|
  {
    hide Listens, ProgramUnlocked, EraseUnlocked, AfterWrite;
    DeafStays(p, r, if more == [] then Entry(0, 0) else more[0]);
    if more != [] {
      DeafForWrites(p, AfterWrite(p, r, more[0]), more[1..]);
    }
  }

  ghost predicate CanReachProgram(p: Part, h: seq<Event>) {
    exists more: seq<Entry> :: ProgramUnlocked(p, Run(p, h + Writes(more)))
  }

  ghost predicate CanReachErase(p: Part, h: seq<Event>) {
    exists more: seq<Entry> :: EraseUnlocked(p, Run(p, h + Writes(more)))
  }

  /** Over every run, some further writes lead to a program, and some to an erase, exactly while the chip listens:
      an Am29 until six unmatched writes, an SST39 until the first. Otherwise only a read helps. */
  lemma ReachableExactly(p: Part, h: seq<Event>)
    ensures CanReachProgram(p, h) <==> Listens(p, Run(p, h))
    ensures CanReachErase(p, h) <==> Listens(p, Run(p, h))
  {
    RunWellFormed(p, h);
    NoLateReset(p, h);
    hide Run, Listens, ProgramUnlocked, EraseUnlocked, AfterWrites;
    if Listens(p, Run(p, h)) {
      ReachFromListening(p, h);
    } else {
      forall more: seq<Entry>
        ensures !ProgramUnlocked(p, Run(p, h + Writes(more))) && !EraseUnlocked(p, Run(p, h + Writes(more)))
      {
        RunWrites(p, h, more);
        DeafForWrites(p, Run(p, h), more);
      }
    }
  }

  lemma ReachFromListening(p: Part, h: seq<Event>)
    requires Listens(p, Run(p, h))
    ensures CanReachProgram(p, h) && CanReachErase(p, h)
  {
    RunWellFormed(p, h);
    hide Run, Listens, ProgramUnlocked, EraseUnlocked, AfterWrites, Clearing;
    var c := Clearing(p, Run(p, h));
    ClearingClears(p, Run(p, h));
    RunWrites(p, h, c);
    var b := h + Writes(c);
    EmptyIsBoundary(p, b);
    SequencesUnlock(p, b);
    var e0, e1, e2, e3 := Entry(First(p), 0xaa), Entry(Second(p), 0x55), Entry(First(p), 0xa0), Entry(First(p), 0x80);
    WritesAdd(c, [e0, e1, e2]);
    WritesAdd(c, [e0, e1, e3, e0, e1]);
    assert Writes([e0, e1, e2]) == ProgramSequence(p) && Writes([e0, e1, e3, e0, e1]) == EraseSequence(p);
    assert b + ProgramSequence(p) == h + Writes(c + [e0, e1, e2]);
    assert b + EraseSequence(p) == h + Writes(c + [e0, e1, e3, e0, e1]);
  }

  lemma WritesAdd(a: seq<Entry>, b: seq<Entry>)
    ensures Writes(a + b) == Writes(a) + Writes(b)
  {
  }

  lemma EmptyIsBoundary(p: Part, h: seq<Event>)
    requires Run(p, h) == Empty()
    ensures Boundary(p, h)
  {
  }

  /** While only writes follow, a chip that does not listen stays so; with its entries full it does not change at all. */
  lemma {:induction false} StuckUntilRead(p: Part, h: seq<Event>, more: seq<Event>)
    requires !Listens(p, Run(p, h)) && forall i :: 0 <= i < |more| ==> more[i].Write?
    ensures var r := Run(p, h + more); !Listens(p, r) && !ProgramUnlocked(p, r) && !EraseUnlocked(p, r)
    ensures Run(p, h).nBus == 6 ==> Run(p, h + more) == Run(p, h)
    decreases |more|
  {
    var m := |more| - 1;
    if more == [] {
      assert h + more == h;
      RunWellFormed(p, h);
      NoLateReset(p, h);
      DeafStays(p, Run(p, h), Entry(0, 0));
    } else {
      StuckUntilRead(p, h, more[..m]);
      var g := h + more[..m];
      assert h + more == g + [more[m]];
      RunOn(p, g, more[m]);
      RunWellFormed(p, g + [more[m]]);
      NoLateReset(p, g + [more[m]]);
      RunWellFormed(p, g);
      NoLateReset(p, g);
      hide Run, Stripped;
      DeafStays(p, Run(p, g), more[m].entry);
      DeafStays(p, Run(p, g + [more[m]]), Entry(0, 0));
    }
  }

  /** One stray write leaves an SST39 deaf, while an Am29 still listens. */
  lemma OneStrayWrite(p: Part, e: Entry)
    requires e.data != 0xaa && e.data != 0xf0
    ensures CanReachProgram(p, [Write(e)]) <==> p != Sst39
    ensures CanReachErase(p, [Write(e)]) <==> p != Sst39
  {
    ReachableExactly(p, [Write(e)]);
    hide CanReachProgram, CanReachErase, Run;
    FirstWrite(p, e);
  }

  lemma FirstWrite(p: Part, e: Entry)
    ensures Run(p, [Write(e)]) == AfterWrite(p, Empty(), e)
  {
    assert [Write(e)][..0] == [];
  }

  /** The Am29's misgrouped reset test never fires late: a first cycle 0x90 clears the history at once. */
  lemma {:induction false} NoLateReset(p: Part, h: seq<Event>)
    ensures p != Sst39 ==> Run(p, h).bus[0].data != 0x90
    decreases |h|
  {
    hide Act, Command;
    if h != [] {
      NoLateReset(p, h[..|h| - 1]);
    }
  }
}
