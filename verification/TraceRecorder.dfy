/** `skyeye_ice`'s tracepoints and frame list, updated in place, and the lookup of recorded frames. */
module TraceRecorder {
  import opened Common
  import opened Tracepoints

  class Recorder {
    var tps: seq<Tracepoint>
    /** The frame list from `fb` on; `num_fb` is its length. */
    var frames: seq<Frame>
    /** `selected_fb`, as a place in the list. */
    var selected: Option<nat>

    ghost predicate Valid()
      reads this
    {
      && AllAssigned(View()) && Numbered(frames) && |frames| < 0x8000_0000
      && (selected.Some? ==> selected.value < |frames|)
    }

    ghost function View(): Ice
      reads this
    {
      Ice(tps, frames)
    }

    constructor (tps: seq<Tracepoint>)
      requires AllAssigned(Ice(tps, []))
      ensures Valid() && View() == Ice(tps, []) && selected == None
    {
      this.tps, frames, selected := tps, [], None;
    }

    /** add_frame_buffer, with the tracepoint number and records its caller puts in. */
    method AddFrame(number: nat, records: seq<Record>)
      requires |frames| < 0x7fff_ffff && Valid()
      modifies this`frames
      ensures Valid() && frames == old(frames) + [Frame(number, |old(frames)|, records)]
    {
      hide Assigned;
      frames := frames + [Frame(number, |frames|, records)];
    }

    /** do_action_list, on the chain of siblings `actions`. */
    static method DoActionList(actions: seq<Action>, status: Status, m: Machine) returns (o: Outcome)
      requires Assigned(actions)
      ensures o == RunList(actions, status, m)
      decreases actions
    {
      hide RunList, Step, Assigned;
      o := Outcome([], status, []);
      var i := 0;
      assert actions[0..] == actions;
      while i < |actions|
        invariant i <= |actions| && Assigned(actions[i..])
        invariant RunList(actions, status, m) == Joined(o, RunList(actions[i..], o.status, m))
      {
        var a := actions[i];
        NextAction(actions, i, o, m);
        if a.Collect? {
          o := Outcome(o.actions + [a], o.status, o.records + [Record(a.what, m(a.what))]);
        } else {
          var b, st, recs := DoWhile(a, o.status, m);
          o := Outcome(o.actions + [b], st, o.records + recs);
        }
        i := i + 1;
      }
      assert actions[i..] == [];
      ListEnd(o, m);
    }

    /** The while-stepping case of do_action_list. */
    static method DoWhile(a: Action, status: Status, m: Machine) returns (b: Action, st: Status, recs: seq<Record>)
      requires a.While? && Assigned(a.child)
      ensures (b, st, recs) == Step(a, status, m)
      decreases a
    {
      hide RunList, Assigned;
      b, st, recs := a, status, [];
      if b.remaining != 0 {
        var o := DoActionList(a.child, Stepping, m);
        b, st, recs := While(a.stepCount, a.remaining - 1, o.actions), o.status, o.records;
      }
      if b.remaining == 0 {
        b, st := b.(remaining := b.stepCount), Enabled;
      }
    }

    /** handle_tracepoint */
    method HandleTracepoint(i: nat, m: Machine)
      requires Valid() && i < |tps| && |frames| < 0x7fff_ffff
      modifies this`tps, this`frames
      ensures Valid() && View() == HandleAt(old(View()), i, m)
    {
      hide Assigned, RunList;
      var t := tps[i];
      if t.status == Stepping {
        var w := 0;
        while w < |t.actions| && !t.actions[w].While?
          invariant w <= |t.actions| && FindWhile(t.actions) == w + FindWhile(t.actions[w..])
        {
          assert t.actions[w..][1..] == t.actions[w + 1..];
          w := w + 1;
        }
        assert FindWhile(t.actions) == w;
        if w == |t.actions| {
          return;
        }
        AssignedFrom(t.actions, w);
        var o := DoActionList(t.actions[w..], Stepping, m);
        AddFrame(t.number, o.records);
        SetTracepoint(i, t.(actions := t.actions[..w] + o.actions, status := o.status), old(View()), m);
        return;
      }
      if t.status == Enabled {
        if t.passCount != 0 {
          if t.remainingPass != 0 {
            t := t.(remainingPass := t.remainingPass - 1);
          } else {
            return;
          }
        }
        var o := DoActionList(t.actions, Enabled, m);
        AddFrame(t.number, o.records);
        SetTracepoint(i, t.(actions := o.actions, status := o.status), old(View()), m);
      }
    }

    /** The handled tracepoint written back. */
    method SetTracepoint(i: nat, t: Tracepoint, ghost before: Ice, ghost m: Machine)
      requires Valid() && i < |tps| && AllAssigned(before) && |before.tps| == |tps| && before.tps == tps
      requires t == Handle(before.tps[i], m).0
      modifies this`tps
      ensures Valid() && tps == before.tps[i := t]
    {
      hide Handle;
      tps := tps[i := t];
    }

    /** The loop over the tracepoints before the instruction at `address`. */
    method CheckTracepoints(address: nat, m: Machine)
      requires Valid() && |frames| + |tps| < 0x7fff_ffff
      modifies this`tps, this`frames
      ensures Valid() && View() == Tick(old(View()), address, m, 0)
    {
      hide HandleAt, Numbered, AllAssigned;
      for i := 0 to |tps|
        invariant Valid() && |tps| == |old(tps)| && |frames| + |tps| < 0x7fff_ffff + i
        invariant Tick(View(), address, m, i) == Tick(old(View()), address, m, 0)
      {
        if Triggered(tps[i], address) {
          FrameAtMost(View(), i, m);
          HandleTracepoint(i, m);
        }
      }
    }

    /** select_frame_buffer_by_fn: found exactly when the number is in use. A negative number, and the number one past
        the last frame, pass the first test and move the selection to the first frame before they fail. */
    method SelectByNumber(number: int) returns (ok: bool, tracepoint: nat)
      requires Valid() && -0x8000_0000 <= number < 0x8000_0000
      modifies this`selected
      ensures Valid() && (ok <==> 0 <= number < |frames|)
      ensures ok ==> selected == Some(number) && tracepoint == frames[number].tracepoint
      ensures number < 0 || number == |frames| ==> selected == First()
      ensures number > |frames| ==> selected == old(selected)
      ensures selected == AfterNumber(|frames|, old(selected), number)
    {
      hide AllAssigned;
      if number > |frames| {
        return false, 0;
      }
      selected := First();
      var current := 0;
      while current < |frames|
        invariant current <= |frames| && (0 <= number ==> current <= number) && selected == First()
      {
        if frames[current].number == Unsigned(number) {
          selected := Some(current);
          return true, frames[current].tracepoint;
        }
        current := current + 1;
      }
      return false, 0;
    }

    /** select_frame_buffer_by_tpn: the next frame of a tracepoint after the selected one; with nothing selected the
        first frame of the list is selected and passed over. */
    method SelectByTracepoint(tracepoint: int) returns (ok: bool, number: nat)
      requires Valid() && -0x8000_0000 <= tracepoint < 0x8000_0000
      modifies this`selected
      ensures Valid()
      ensures var start := if old(selected).Some? then old(selected).value else 0;
        && (ok <==> exists k :: start < k < |frames| && frames[k].tracepoint == Unsigned(tracepoint))
        && (ok ==> start < number < |frames| && frames[number].tracepoint == Unsigned(tracepoint) && selected == Some(number)
                   && forall k :: start < k < number ==> frames[k].tracepoint != Unsigned(tracepoint))
      ensures !ok ==> selected == if old(selected).None? then First() else old(selected)
      ensures Later(frames, old(selected), Unsigned(tracepoint)) == if ok then Some(number) else None
    {
      hide AllAssigned;
      LaterIs(frames, selected, Unsigned(tracepoint));
      if selected.None? {
        selected := First();
      }
      if selected.None? {
        return false, 0;
      }
      var start := selected.value;
      var current := start + 1;
      while current < |frames|
        invariant start < current <= |frames| && selected == Some(start)
        invariant forall k :: start < k < current ==> frames[k].tracepoint != Unsigned(tracepoint)
      {
        if frames[current].tracepoint == Unsigned(tracepoint) {
          selected := Some(current);
          return true, frames[current].number;
        }
        current := current + 1;
      }
      return false, 0;
    }

    /** The head of the frame list. */
    function First(): Option<nat>
      reads this`frames
    {
      if |frames| == 0 then None else Some(0)
    }
  }

  // ---------- What the two lookups do to the selection ----------

  /** The first frame of a tracepoint from number `from` on. */
  function FrameOf(frames: seq<Frame>, from: nat, tracepoint: int): (r: Option<nat>)
    ensures r.Some? ==> from <= r.value < |frames| && frames[r.value].tracepoint == tracepoint
    ensures forall k :: from <= k < (if r.Some? then r.value else |frames|) ==> frames[k].tracepoint != tracepoint
    decreases |frames| - from
  {
    if from >= |frames| then None
    else if frames[from].tracepoint == tracepoint then Some(from)
    else FrameOf(frames, from + 1, tracepoint)
  }

  /** What a lookup by tracepoint finds: it begins one past the selected frame, or one past the first. */
  function Later(frames: seq<Frame>, selected: Option<nat>, tracepoint: int): Option<nat> {
    FrameOf(frames, (if selected.Some? then selected.value else 0) + 1, tracepoint)
  }

  lemma LaterIs(frames: seq<Frame>, selected: Option<nat>, tracepoint: int)
    ensures var start := if selected.Some? then selected.value else 0;
      var r := Later(frames, selected, tracepoint);
      && (r.Some? <==> exists k :: start < k < |frames| && frames[k].tracepoint == tracepoint)
      && (r.Some? ==> start < r.value < |frames| && frames[r.value].tracepoint == tracepoint
                      && forall k :: start < k < r.value ==> frames[k].tracepoint != tracepoint)
  {
  }

  /** From no selection a lookup finds the tracepoint's first frame exactly when the list is empty or begins with a frame
      of another tracepoint. */
  lemma FirstFoundExactly(frames: seq<Frame>, tracepoint: int)
    ensures Later(frames, None, tracepoint) == FrameOf(frames, 0, tracepoint)
      <==> frames == [] || frames[0].tracepoint != tracepoint
  {
  }

  /** The tracepoint's only frame is not found. */
  lemma OnlyFrameMissed(f: Frame)
    ensures FrameOf([f], 0, f.tracepoint) == Some(0) && Later([f], None, f.tracepoint) == None
  {
  }

  /** The selection after a lookup by number among `n` frames. */
  function AfterNumber(n: nat, selected: Option<nat>, number: int): Option<nat> {
    if number > n then selected
    else if 0 <= number < n then Some(number)
    else if n == 0 then None else Some(0)
  }

  predicate InList(n: nat, selected: Option<nat>) {
    selected.Some? ==> selected.value < n
  }

  /** A failed lookup by number leaves every selection alone exactly when the number is above the frame count, or there
      are no frames. */
  lemma FailureKeepsExactly(n: nat, number: int)
    requires !(0 <= number < n)
    ensures (forall selected: Option<nat> :: InList(n, selected) ==> AfterNumber(n, selected, number) == selected)
      <==> number > n || n == 0
  {
    assert InList(n, None);
  }

  /** With two frames and the second selected, the numbers -1 and 2 fail and select the first. */
  lemma FailureMovesSelection()
    ensures AfterNumber(2, Some(1), -1) == Some(0) && AfterNumber(2, Some(1), 2) == Some(0)
  {
  }

  /** An `int` compared with an `unsigned int`. */
  function Unsigned(x: int): int {
    if x < 0 then x + 0x1_0000_0000 else x
  }

  /** What a list's front did, then what its rest does. */
  function Joined(o: Outcome, rest: Outcome): Outcome {
    Outcome(o.actions + rest.actions, rest.status, o.records + rest.records)
  }

  lemma ListEnd(o: Outcome, m: Machine)
    ensures Assigned([]) && Joined(o, RunList([], o.status, m)) == o
  {
    assert o.actions + [] == o.actions && o.records + [] == o.records;
  }

  lemma NextAction(actions: seq<Action>, i: nat, o: Outcome, m: Machine)
    requires i < |actions| && Assigned(actions[i..])
    ensures Assigned(actions[i + 1..]) && !actions[i].Unassigned? && (actions[i].While? ==> Assigned(actions[i].child))
    ensures var a := actions[i];
      var (b, st, recs) := if a.Collect? then (a, o.status, [Record(a.what, m(a.what))]) else Step(a, o.status, m);
      Joined(o, RunList(actions[i..], o.status, m))
        == Joined(Outcome(o.actions + [b], st, o.records + recs), RunList(actions[i + 1..], st, m))
  {
    var a, t := actions[i], actions[i..];
    assert t[0] == a && t[1..] == actions[i + 1..];
    hide Step;
    var (b, st, recs) := if a.Collect? then (a, o.status, [Record(a.what, m(a.what))]) else Step(a, o.status, m);
    var rest := RunList(actions[i + 1..], st, m);
    assert o.actions + ([b] + rest.actions) == o.actions + [b] + rest.actions;
    assert o.records + (recs + rest.records) == o.records + recs + rest.records;
  }

  lemma AssignedFrom(actions: seq<Action>, w: nat)
    requires Assigned(actions) && w <= |actions|
    ensures Assigned(actions[w..])
  {
  }

  lemma FrameAtMost(s: Ice, i: nat, m: Machine)
    requires i < |s.tps| && AllAssigned(s)
    ensures |HandleAt(s, i, m).frames| <= |s.frames| + 1
  {
    hide Handle;
  }
}
