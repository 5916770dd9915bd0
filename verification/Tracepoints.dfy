/** Tracepoints of the GDB stub: action trees, the frames they record, and frame lookup. */
module Tracepoints {
  import opened Common

  datatype Collected = Registers | Memory(baseReg: int, offset: nat, length: nat)

  /** An action list is the chain of siblings; a while-stepping action has a child list. */
  datatype Action = Unassigned | Collect(what: Collected) | While(stepCount: nat, remaining: nat, child: seq<Action>)

  datatype Status = Disabled | Enabled | Stepping

  /** What the machine holds when an action collects. */
  type Machine = Collected -> seq<nat>

  datatype Record = Record(what: Collected, data: seq<nat>)

  datatype Tracepoint = Tracepoint(address: nat, number: nat, actions: seq<Action>, status: Status,
                                   passCount: nat, remainingPass: nat)

  datatype Frame = Frame(tracepoint: nat, number: nat, records: seq<Record>)

  /** No action of the tree is unassigned: do_action_list would not get past one. */
  predicate Assigned(actions: seq<Action>) {
    forall i :: 0 <= i < |actions| ==> match actions[i]
      case Unassigned => false
      case Collect(_) => true
      case While(_, _, child) => Assigned(child)
  }

  datatype Outcome = Outcome(actions: seq<Action>, status: Status, records: seq<Record>)

  /** One while-stepping action in do_action_list. */
  function Step(a: Action, status: Status, m: Machine): (r: (Action, Status, seq<Record>))
    requires a.While? && Assigned(a.child)
    ensures r.0.While? && Assigned(r.0.child)
    decreases a
  {
    var (b, st, recs) :=
      if a.remaining != 0 then
        var o := RunList(a.child, Stepping, m);
        (While(a.stepCount, a.remaining - 1, o.actions), o.status, o.records)
      else (a, status, []);
    if b.remaining == 0 then (b.(remaining := b.stepCount), Enabled, recs) else (b, st, recs)
  }

  /** do_action_list */
  function RunList(actions: seq<Action>, status: Status, m: Machine): (r: Outcome)
    requires Assigned(actions)
    ensures |r.actions| == |actions| && Assigned(r.actions)
    decreases actions
  {
    if actions == [] then Outcome([], status, [])
    else
      var (a, st, recs) :=
        if actions[0].Collect? then (actions[0], status, [Record(actions[0].what, m(actions[0].what))])
        else Step(actions[0], status, m);
      var rest := RunList(actions[1..], st, m);
      Outcome([a] + rest.actions, rest.status, recs + rest.records)
  }

  /** The first while-stepping action of a list, or its length. */
  function FindWhile(actions: seq<Action>): (i: nat)
    ensures i <= |actions| && (i < |actions| ==> actions[i].While?)
    ensures forall k :: 0 <= k < i ==> !actions[k].While?
  {
    if actions == [] || actions[0].While? then 0 else 1 + FindWhile(actions[1..])
  }

  /** handle_tracepoint: the tracepoint after it, and the records of the frame it adds, if it adds one. */
  function Handle(t: Tracepoint, m: Machine): (r: (Tracepoint, Option<seq<Record>>))
    requires Assigned(t.actions)
    ensures Assigned(r.0.actions) && r.0.number == t.number && r.0.address == t.address
  {
    match t.status
    case Stepping =>
      var i := FindWhile(t.actions);
      if i == |t.actions| then (t, None)
      else
        var o := RunList(t.actions[i..], Stepping, m);
        (t.(actions := t.actions[..i] + o.actions, status := o.status), Some(o.records))
    case Enabled =>
      if t.passCount != 0 && t.remainingPass == 0 then (t, None)
      else
        var o := RunList(t.actions, Enabled, m);
        (t.(actions := o.actions, status := o.status, remainingPass := if t.passCount != 0 then t.remainingPass - 1 else t.remainingPass),
         Some(o.records))
    case Disabled => (t, None)
  }

  // ---------- One top-level while-stepping action ----------

  predicate Plain(actions: seq<Action>) {
    forall i :: 0 <= i < |actions| ==> actions[i].Collect?
  }

  function Data(actions: seq<Action>, m: Machine): seq<Record>
    requires Plain(actions)
  {
    if actions == [] then [] else [Record(actions[0].what, m(actions[0].what))] + Data(actions[1..], m)
  }

  lemma {:induction false} PlainRuns(actions: seq<Action>, status: Status, m: Machine)
    requires Plain(actions)
    ensures Assigned(actions) && RunList(actions, status, m) == Outcome(actions, status, Data(actions, m))
    decreases |actions|
  {
    if actions != [] {
      PlainRuns(actions[1..], status, m);
      assert actions == [actions[0]] + actions[1..];
    }
  }

  lemma CollectFirst(a: Action, rest: seq<Action>, status: Status, m: Machine)
    requires a.Collect? && Assigned(rest)
    ensures Assigned([a] + rest)
    ensures RunList([a] + rest, status, m) ==
      (var o := RunList(rest, status, m); Outcome([a] + o.actions, o.status, [Record(a.what, m(a.what))] + o.records))
  {
    hide Step;
    assert ([a] + rest)[1..] == rest;
  }

  lemma {:induction false} PlainFirst(pre: seq<Action>, rest: seq<Action>, status: Status, m: Machine)
    requires Plain(pre) && Assigned(rest)
    ensures Assigned(pre + rest)
    ensures RunList(pre + rest, status, m)
         == (var o := RunList(rest, status, m); Outcome(pre + o.actions, o.status, Data(pre, m) + o.records))
    decreases |pre|
  {
    hide RunList, Assigned;
    var o := RunList(rest, status, m);
    if pre == [] {
      assert pre + rest == rest && pre + o.actions == o.actions && Data(pre, m) + o.records == o.records;
    } else {
      PlainFirst(pre[1..], rest, status, m);
      CollectFirst(pre[0], pre[1..] + rest, status, m);
      assert pre + rest == [pre[0]] + (pre[1..] + rest);
      assert [pre[0]] + (pre[1..] + o.actions) == pre + o.actions;
      assert Data(pre, m) + o.records == [Record(pre[0].what, m(pre[0].what))] + (Data(pre[1..], m) + o.records);
    }
  }

  /** A tracepoint that collects `pre`, then steps `steps` times collecting `child`, then collects `post`. */
  datatype Shape = Shape(pre: seq<Action>, steps: nat, child: seq<Action>, post: seq<Action>)

  ghost predicate Sound(h: Shape) {
    Plain(h.pre) && Plain(h.child) && Plain(h.post) && h.steps >= 1
  }

  function Actions(h: Shape, remaining: nat): seq<Action> {
    h.pre + ([While(h.steps, remaining, h.child)] + h.post)
  }

  /** Between passes, or with `remaining` steps of a pass to go. */
  ghost predicate Ready(t: Tracepoint, h: Shape) {
    t.status == Enabled && t.actions == Actions(h, h.steps)
  }

  ghost predicate Amid(t: Tracepoint, h: Shape, remaining: nat) {
    t.status == Stepping && 0 < remaining < h.steps && t.actions == Actions(h, remaining)
  }

  lemma StepOnce(h: Shape, status: Status, remaining: nat, m: Machine)
    requires Sound(h) && 0 < remaining <= h.steps
    ensures var a := [While(h.steps, remaining, h.child)] + h.post;
      Assigned(a) && RunList(a, status, m)
        == Outcome([While(h.steps, if remaining == 1 then h.steps else remaining - 1, h.child)] + h.post,
                   if remaining == 1 then Enabled else Stepping, Data(h.child, m) + Data(h.post, m))
  {
    var w := While(h.steps, remaining, h.child);
    var a := [w] + h.post;
    PlainRuns(h.child, Stepping, m);
    PlainRuns(h.post, if remaining == 1 then Enabled else Stepping, m);
    assert a[1..] == h.post;
    assert Step(w, status, m) == (While(h.steps, if remaining == 1 then h.steps else remaining - 1, h.child),
                                  if remaining == 1 then Enabled else Stepping, Data(h.child, m));
  }

  lemma WhileFound(h: Shape, remaining: nat)
    requires Plain(h.pre)
    ensures FindWhile(Actions(h, remaining)) == |h.pre|
  {
    var a := Actions(h, remaining);
    assert a[|h.pre|].While?;
  }

  /** What one call does at each point of a pass. */
  lemma HandleShape(t: Tracepoint, h: Shape, remaining: nat, m: Machine)
    requires Sound(h) && (Ready(t, h) || Amid(t, h, remaining))
    ensures Assigned(t.actions)
    ensures var (u, recs) := Handle(t, m);
      if Ready(t, h) && t.passCount != 0 && t.remainingPass == 0 then u == t && recs == None
      else if Ready(t, h) then
        && (if h.steps == 1 then Ready(u, h) else Amid(u, h, h.steps - 1))
        && u.passCount == t.passCount && u.remainingPass == (if t.passCount == 0 then t.remainingPass else t.remainingPass - 1)
        && recs == Some(Data(h.pre, m) + (Data(h.child, m) + Data(h.post, m)))
      else
        && (if remaining == 1 then Ready(u, h) else Amid(u, h, remaining - 1))
        && u.passCount == t.passCount && u.remainingPass == t.remainingPass
        && recs == Some(Data(h.child, m) + Data(h.post, m))
  {
    if Ready(t, h) {
      StepOnce(h, Enabled, h.steps, m);
      PlainFirst(h.pre, [While(h.steps, h.steps, h.child)] + h.post, Enabled, m);
      hide RunList, Data, Assigned, FindWhile, Plain;
    } else {
      StepOnce(h, Stepping, remaining, m);
      PlainFirst(h.pre, [While(h.steps, remaining, h.child)] + h.post, Stepping, m);
      WhileFound(h, remaining);
      assert t.actions[|h.pre|..] == [While(h.steps, remaining, h.child)] + h.post;
      assert t.actions[..|h.pre|] == h.pre;
      hide RunList, Data, Assigned, FindWhile, Plain;
    }
  }

  /** Repeated calls, and the frames they record. */
  function Calls(t: Tracepoint, ms: seq<Machine>): (r: (Tracepoint, seq<seq<Record>>))
    requires Assigned(t.actions)
    ensures Assigned(r.0.actions)
  {
    if ms == [] then (t, [])
    else
      var (u, frames) := Calls(t, ms[..|ms| - 1]);
      var (v, recs) := Handle(u, ms[|ms| - 1]);
      (v, if recs.Some? then frames + [recs.value] else frames)
  }

  /** An accepted pass records one frame a call for exactly `steps` calls, the first with the leading actions, and
      ends enabled with its step count restored. */
  lemma {:induction false} PassRecords(t: Tracepoint, h: Shape, ms: seq<Machine>)
    requires Sound(h) && Ready(t, h) && Assigned(t.actions) && (t.passCount == 0 || t.remainingPass > 0)
    requires 0 < |ms| <= h.steps
    ensures var (u, frames) := Calls(t, ms);
      && |frames| == |ms|
      && frames[0] == Data(h.pre, ms[0]) + (Data(h.child, ms[0]) + Data(h.post, ms[0]))
      && (forall k :: 0 < k < |ms| ==> frames[k] == Data(h.child, ms[k]) + Data(h.post, ms[k]))
      && (if |ms| < h.steps then Amid(u, h, h.steps - |ms|) else Ready(u, h))
      && u.passCount == t.passCount && u.remainingPass == (if t.passCount == 0 then t.remainingPass else t.remainingPass - 1)
    decreases |ms|
  {
    hide Handle, Data, Ready, Amid;
    var n := |ms| - 1;
    if n == 0 {
      assert ms[..0] == [] && Calls(t, ms[..0]) == (t, []);
      HandleShape(t, h, 0, ms[0]);
    } else {
      PassRecords(t, h, ms[..n]);
      HandleShape(Calls(t, ms[..n]).0, h, h.steps - n, ms[n]);
      NotBoth(Calls(t, ms[..n]).0, h, h.steps - n);
    }
  }

  lemma NotBoth(t: Tracepoint, h: Shape, remaining: nat)
    requires Amid(t, h, remaining)
    ensures !Ready(t, h)
  {
  }

  // ---------- All tracepoints, every run ----------

  /** The tracepoints and frames of `skyeye_ice`. */
  datatype Ice = Ice(tps: seq<Tracepoint>, frames: seq<Frame>)

  ghost predicate AllAssigned(s: Ice) {
    forall i :: 0 <= i < |s.tps| ==> Assigned(s.tps[i].actions)
  }

  predicate Triggered(t: Tracepoint, address: nat) {
    (t.address == address && t.status == Enabled) || t.status == Stepping
  }

  ghost function HandleAt(s: Ice, i: nat, m: Machine): (r: Ice)
    requires i < |s.tps| && AllAssigned(s)
    ensures |r.tps| == |s.tps| && AllAssigned(r)
  {
    var (t, recs) := Handle(s.tps[i], m);
    Ice(s.tps[i := t],
        if recs.Some? then s.frames + [Frame(t.number, |s.frames|, recs.value)] else s.frames)
  }

  /** One instruction at `address`: the tracepoints from `i` on it triggers, in turn. */
  ghost function Tick(s: Ice, address: nat, m: Machine, i: nat): (r: Ice)
    requires i <= |s.tps| && AllAssigned(s)
    ensures |r.tps| == |s.tps| && AllAssigned(r)
    decreases |s.tps| - i
  {
    if i == |s.tps| then s
    else Tick(if Triggered(s.tps[i], address) then HandleAt(s, i, m) else s, address, m, i + 1)
  }

  /** One instruction handles exactly the tracepoints enabled at its address and those stepping, each once, keeps the
      frames there were, and adds one numbered frame for each that records. */
  lemma {:induction false} TickHandles(s: Ice, address: nat, m: Machine, i: nat, k: nat)
    requires i <= |s.tps| && AllAssigned(s) && k < |s.tps|
    ensures var r, t := Tick(s, address, m, i), s.tps[k];
      var due := i <= k && (t.status == Stepping || (t.status == Enabled && t.address == address));
      && r.tps[k] == (if due then Handle(t, m).0 else t)
      && |r.frames| >= |s.frames| && r.frames[..|s.frames|] == s.frames
      && (due && Handle(t, m).1.Some? ==>
            exists f :: |s.frames| <= f < |r.frames| && r.frames[f] == Frame(t.number, f, Handle(t, m).1.value))
    decreases |s.tps| - i
  {
    hide Handle, AllAssigned;
    if i < |s.tps| {
      var u := if Triggered(s.tps[i], address) then HandleAt(s, i, m) else s;
      TickHandles(u, address, m, i + 1, k);
      var r := Tick(u, address, m, i + 1);
      assert r.frames[..|s.frames|] == r.frames[..|u.frames|][..|s.frames|];
      if |u.frames| > |s.frames| {
        assert r.frames[|s.frames|] == r.frames[..|u.frames|][|s.frames|];
      }
    }
  }

  datatype Instruction = Instruction(address: nat, machine: Machine)

  ghost function Run(s: Ice, trace: seq<Instruction>): (r: Ice)
    requires AllAssigned(s)
    ensures |r.tps| == |s.tps| && AllAssigned(r)
  {
    if trace == [] then s
    else
      var e := trace[|trace| - 1];
      Tick(Run(s, trace[..|trace| - 1]), e.address, e.machine, 0)
  }

  /** In every run, an instruction at an enabled tracepoint with passes left records a frame of its own, with what its
      leading, stepped and trailing actions collect. */
  lemma EnabledRecords(s: Ice, trace: seq<Instruction>, k: nat, h: Shape)
    requires AllAssigned(s) && trace != [] && k < |s.tps| && Sound(h)
    requires var t, e := Run(s, trace[..|trace| - 1]).tps[k], trace[|trace| - 1];
      Ready(t, h) && t.address == e.address && (t.passCount == 0 || t.remainingPass > 0)
    ensures var before, after, m := Run(s, trace[..|trace| - 1]), Run(s, trace), trace[|trace| - 1].machine;
      && |before.frames| <= |after.frames| && after.frames[..|before.frames|] == before.frames
      && exists f :: |before.frames| <= f < |after.frames| && after.frames[f]
           == Frame(before.tps[k].number, f, Data(h.pre, m) + (Data(h.child, m) + Data(h.post, m)))
  {
    var before, e := Run(s, trace[..|trace| - 1]), trace[|trace| - 1];
    HandleShape(before.tps[k], h, 0, e.machine);
    TickHandles(before, e.address, e.machine, 0, k);
    hide Handle, Data, Tick, AllAssigned;
  }

  function Count(frames: seq<Frame>, number: nat): nat {
    if frames == [] then 0
    else Count(frames[..|frames| - 1], number) + if frames[|frames| - 1].tracepoint == number then 1 else 0
  }

  ghost predicate Numbered(frames: seq<Frame>) {
    forall k :: 0 <= k < |frames| ==> frames[k].number == k
  }

  /** A tracepoint of shape `h` with a pass count, wherever it stands in a pass. */
  ghost predicate On(t: Tracepoint, h: Shape) {
    && Sound(h) && t.passCount > 0
    && (Ready(t, h) || (|h.pre| < |t.actions| && t.actions[|h.pre|].While? && Amid(t, h, t.actions[|h.pre|].remaining)))
  }

  /** The frames the tracepoint may still record. */
  ghost function Budget(t: Tracepoint, h: Shape): nat
    requires On(t, h)
  {
    t.remainingPass * h.steps + if t.status == Stepping then t.actions[|h.pre|].remaining else 0
  }

  /** A call spends one of the budget for a frame, and records none only when the budget is spent. */
  lemma HandleSpends(t: Tracepoint, h: Shape, m: Machine)
    requires On(t, h) && Assigned(t.actions)
    ensures var (u, recs) := Handle(t, m);
      && On(u, h) && (recs.Some? <==> Budget(t, h) > 0)
      && Budget(u, h) == Budget(t, h) - if recs.Some? then 1 else 0
  {
    hide Handle, Data;
    var remaining := if Ready(t, h) then 0 else t.actions[|h.pre|].remaining;
    HandleShape(t, h, remaining, m);
    var (u, recs) := Handle(t, m);
    assert Ready(t, h) && t.remainingPass > 0 ==> t.remainingPass * h.steps == u.remainingPass * h.steps + h.steps;
  }

  /** No other tracepoint has tracepoint k's number. */
  ghost predicate Distinct(s: Ice, k: nat)
    requires k < |s.tps|
  {
    forall j :: 0 <= j < |s.tps| && j != k ==> s.tps[j].number != s.tps[k].number
  }

  /** Frames recorded for tracepoint k and frames it may still record. */
  ghost function Total(s: Ice, k: nat, h: Shape): nat
    requires k < |s.tps| && On(s.tps[k], h)
  {
    Count(s.frames, s.tps[k].number) + Budget(s.tps[k], h)
  }

  ghost predicate Kept(s: Ice, r: Ice, k: nat, h: Shape)
    requires k < |s.tps| == |r.tps| && On(s.tps[k], h)
  {
    && On(r.tps[k], h) && Total(r, k, h) == Total(s, k, h) && r.tps[k].number == s.tps[k].number
    && Distinct(r, k) && Numbered(r.frames)
  }

  lemma CountNext(frames: seq<Frame>, f: Frame, number: nat)
    ensures Count(frames + [f], number) == Count(frames, number) + if f.tracepoint == number then 1 else 0
  {
    assert (frames + [f])[..|frames|] == frames;
  }

  lemma HandleKeeps(s: Ice, i: nat, m: Machine, k: nat, h: Shape)
    requires i < |s.tps| && k < |s.tps| && AllAssigned(s) && On(s.tps[k], h) && Distinct(s, k) && Numbered(s.frames)
    ensures Kept(s, HandleAt(s, i, m), k, h)
  {
    hide Handle, Budget, On, Count;
    var (t, recs) := Handle(s.tps[i], m);
    if recs.Some? {
      CountNext(s.frames, Frame(t.number, |s.frames|, recs.value), s.tps[k].number);
    }
    if i == k {
      HandleSpends(s.tps[k], h, m);
    }
  }

  lemma {:induction false} TickKeeps(s: Ice, address: nat, m: Machine, i: nat, k: nat, h: Shape)
    requires i <= |s.tps| && k < |s.tps| && AllAssigned(s) && On(s.tps[k], h) && Distinct(s, k) && Numbered(s.frames)
    ensures Kept(s, Tick(s, address, m, i), k, h)
    decreases |s.tps| - i
  {
    hide HandleAt, Budget, On, Count, Numbered, Distinct, AllAssigned;
    if i < |s.tps| {
      if Triggered(s.tps[i], address) {
        HandleKeeps(s, i, m, k, h);
        TickKeeps(HandleAt(s, i, m), address, m, i + 1, k, h);
      } else {
        TickKeeps(s, address, m, i + 1, k, h);
      }
    }
  }

  /** Over every run, frames recorded and frames left add up to passes times steps, and frames number themselves in order. */
  lemma {:induction false} RunKeeps(s: Ice, trace: seq<Instruction>, k: nat, h: Shape)
    requires k < |s.tps| && AllAssigned(s) && On(s.tps[k], h) && Distinct(s, k) && Numbered(s.frames)
    ensures Kept(s, Run(s, trace), k, h)
    decreases |trace|
  {
    hide Tick, Budget, On, Count, Numbered, Distinct, AllAssigned;
    if trace != [] {
      var n := |trace| - 1;
      RunKeeps(s, trace[..n], k, h);
      TickKeeps(Run(s, trace[..n]), trace[n].address, trace[n].machine, 0, k, h);
    }
  }

  /** A tracepoint set for p passes of s steps records at most p*s frames, and stops recording only when they are spent. */
  lemma FramesBounded(s: Ice, trace: seq<Instruction>, k: nat, h: Shape)
    requires k < |s.tps| && AllAssigned(s) && Sound(h) && Ready(s.tps[k], h) && Distinct(s, k) && s.frames == []
    requires s.tps[k].remainingPass == s.tps[k].passCount > 0
    ensures var n, p := Count(Run(s, trace).frames, s.tps[k].number), s.tps[k].passCount * h.steps;
      && n <= p
      && (n < p ==> On(Run(s, trace).tps[k], h) && Budget(Run(s, trace).tps[k], h) == p - n > 0)
  {
    hide Run, AllAssigned;
    RunKeeps(s, trace, k, h);
  }
}
