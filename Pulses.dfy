/** The pulse machine of 2023/20: modules that receive a high or low pulse, change
    their memory and send pulses on to their targets, driven by a FIFO queue. */
module Pulses {
  import opened Common

  datatype ModuleType = Broadcast | FlipFlop | Conjunction | Untyped

  /** A module: its name, its type, a flip-flop's (or untyped module's) memory,
      its targets in order and, for a conjunction, the last pulse from each input. */
  datatype Module = Module(name: string, kind: ModuleType, mem: bool,
                           targets: seq<string>, inputs: map<string, bool>)

  /** A pulse: sender, value (true is high) and receiver. */
  datatype Pulse = Pulse(from: string, val: bool, to: string)

  /** How PressButton ends: the queue ran empty, a CHECK failed (or the
      broadcaster is missing), or the step bound ran out first. */
  datatype Outcome = Drained | Failed | OutOfFuel

  const Broadcaster: string := "broadcaster"

  /** The pulses a module sends with value v: one to each target, in order. */
  function Emitted(m: Module, v: bool): seq<Pulse> {
    seq(|m.targets|, k requires 0 <= k < |m.targets| => Pulse(m.name, v, m.targets[k]))
  }

  /** Every remembered input of a conjunction is high. */
  predicate AllHigh(inputs: map<string, bool>) {
    forall k :: k in inputs ==> inputs[k]
  }

  /** AcceptPulse as a function: the new modules and the pulses the target sends, or
      None where the source stops (a conjunction hearing from an unknown input, a
      pulse to the broadcaster, or to a module that is not in the map). */
  function Accept(mods: map<string, Module>, p: Pulse): Option<(map<string, Module>, seq<Pulse>)> {
    if p.to !in mods then None
    else
      var m := mods[p.to];
      match m.kind
      case FlipFlop =>
        if p.val then Some((mods, []))
        else
          var m' := m.(mem := !m.mem);
          Some((mods[p.to := m'], Emitted(m', m'.mem)))
      case Conjunction =>
        if p.from !in m.inputs then None
        else
          var m' := m.(inputs := m.inputs[p.from := p.val]);
          Some((mods[p.to := m'], Emitted(m', !AllHigh(m'.inputs))))
      case Untyped => Some((mods[p.to := m.(mem := p.val)], []))
      case Broadcast => None
  }

  /** A pulse changes only its target, and only the target's memory or inputs;
      whatever it sends comes from the target, one pulse per target, in order, all
      with the same value. */
  lemma AcceptFrame(mods: map<string, Module>, p: Pulse)
    requires Accept(mods, p).Some?
    ensures p.to in mods
    ensures Accept(mods, p).value.0.Keys == mods.Keys
    ensures forall k :: k in mods && k != p.to ==> Accept(mods, p).value.0[k] == mods[k]
    ensures var m, m' := mods[p.to], Accept(mods, p).value.0[p.to];
      m'.name == m.name && m'.kind == m.kind && m'.targets == m.targets
    ensures var e := Accept(mods, p).value.1;
      e == [] || exists v :: e == Emitted(mods[p.to], v)
  {
    var m := mods[p.to];
    var e := Accept(mods, p).value.1;
    if e != [] {
      assert m.kind == FlipFlop || m.kind == Conjunction;
      if m.kind == FlipFlop {
        assert e == Emitted(m, !m.mem);
      } else {
        assert e == Emitted(m, !AllHigh(m.inputs[p.from := p.val]));
      }
    }
  }

  /** A flip-flop ignores a high pulse; a low pulse toggles its memory and it sends
      the new memory to every target. */
  lemma FlipFlopRule(mods: map<string, Module>, p: Pulse)
    requires p.to in mods && mods[p.to].kind == FlipFlop
    ensures Accept(mods, p).Some?
    ensures p.val ==> Accept(mods, p).value == (mods, [])
    ensures !p.val ==>
      var m := mods[p.to];
      var (mods', sent) := Accept(mods, p).value;
      mods'[p.to].mem == !m.mem && |sent| == |m.targets|
      && forall k :: 0 <= k < |sent| ==> sent[k] == Pulse(m.name, !m.mem, m.targets[k])
  {
  }

  /** A conjunction that knows the sender records the pulse and sends low exactly
      when every remembered input is high; from an unknown sender it stops. */
  lemma ConjunctionRule(mods: map<string, Module>, p: Pulse)
    requires p.to in mods && mods[p.to].kind == Conjunction
    ensures Accept(mods, p).Some? <==> p.from in mods[p.to].inputs
    ensures Accept(mods, p).Some? ==>
      var m := mods[p.to];
      var (mods', sent) := Accept(mods, p).value;
      var ins := mods'[p.to].inputs;
      ins.Keys == m.inputs.Keys && ins[p.from] == p.val
      && (forall k :: k in ins && k != p.from ==> ins[k] == m.inputs[k])
      && |sent| == |m.targets|
      && forall k :: 0 <= k < |sent| ==>
           sent[k].from == m.name && sent[k].to == m.targets[k]
           && (!sent[k].val <==> forall x :: x in ins ==> ins[x])
  {
  }

  /** An untyped module stores the pulse and sends nothing. */
  lemma UntypedRule(mods: map<string, Module>, p: Pulse)
    requires p.to in mods && mods[p.to].kind == Untyped
    ensures Accept(mods, p).Some?
    ensures Accept(mods, p).value.0[p.to].mem == p.val && Accept(mods, p).value.1 == []
  {
  }

  /** A pulse to the broadcaster, or to a module that is not there, stops. */
  lemma NoTargetRule(mods: map<string, Module>, p: Pulse)
    requires p.to !in mods || mods[p.to].kind == Broadcast
    ensures Accept(mods, p) == None
  {
  }

  /** The broadcaster's low pulses that start a button press. */
  function Initial(b: Module): seq<Pulse> {
    seq(|b.targets|, k requires 0 <= k < |b.targets| => Pulse(Broadcaster, false, b.targets[k]))
  }

  /** The queue discipline: starting from mods and queue, delivering the pulses of
      sent one after the other, each the front of the queue at its turn, with what
      it sends appended at the back, ends in mods' and queue'. */
  ghost predicate Trace(mods: map<string, Module>, queue: seq<Pulse>, sent: seq<Pulse>,
                        mods': map<string, Module>, queue': seq<Pulse>)
    decreases |sent|
  {
    if sent == [] then mods' == mods && queue' == queue
    else
      queue != [] && queue[0] == sent[0] && Accept(mods, sent[0]).Some?
      && Trace(Accept(mods, sent[0]).value.0, queue[1..] + Accept(mods, sent[0]).value.1,
               sent[1..], mods', queue')
  }

  /** Delivering the front of the queue extends a trace by that pulse. */
  lemma {:induction false} TraceExtend(mods: map<string, Module>, queue: seq<Pulse>, sent: seq<Pulse>,
                                       mods': map<string, Module>, queue': seq<Pulse>)
    requires Trace(mods, queue, sent, mods', queue')
    requires queue' != [] && Accept(mods', queue'[0]).Some?
    ensures Trace(mods, queue, sent + [queue'[0]], Accept(mods', queue'[0]).value.0,
                  queue'[1..] + Accept(mods', queue'[0]).value.1)
    decreases |sent|
  {
    var p := queue'[0];
    var (m2, q2) := (Accept(mods', p).value.0, queue'[1..] + Accept(mods', p).value.1);
    if sent == [] {
      assert [p][1..] == [];
      assert Trace(m2, q2, [], m2, q2);
    } else {
      var r := Accept(mods, sent[0]).value;
      TraceExtend(r.0, queue[1..] + r.1, sent[1..], mods', queue');
      assert (sent + [p])[1..] == sent[1..] + [p];
    }
  }

  /** The number of pulses of value v. */
  function Count(s: seq<Pulse>, v: bool): nat {
    if s == [] then 0
    else Count(s[..|s| - 1], v) + (if s[|s| - 1].val == v then 1 else 0)
  }

  /** Every pulse is high or low. */
  lemma {:induction false} CountBoth(s: seq<Pulse>)
    ensures Count(s, true) + Count(s, false) == |s|
  {
    if s != [] {
      CountBoth(s[..|s| - 1]);
    }
  }

  /** Some pulse in s is a low pulse from k. */
  ghost predicate LowFrom(s: seq<Pulse>, k: string) {
    exists i :: 0 <= i < |s| && s[i].from == k && !s[i].val
  }

  lemma LowFromSnoc(s: seq<Pulse>, p: Pulse, k: string)
    ensures LowFrom(s + [p], k) <==> LowFrom(s, k) || (p.from == k && !p.val)
  {
    if LowFrom(s + [p], k) {
      var i :| 0 <= i < |s + [p]| && (s + [p])[i].from == k && !(s + [p])[i].val;
      if i < |s| {
        assert s[i] == (s + [p])[i];
      }
    }
    if LowFrom(s, k) {
      var i :| 0 <= i < |s| && s[i].from == k && !s[i].val;
      assert (s + [p])[i] == s[i];
    }
    if p.from == k && !p.val {
      assert (s + [p])[|s|] == p;
    }
  }

  lemma CountSnoc(s: seq<Pulse>, p: Pulse)
    ensures forall v :: Count(s + [p], v) == Count(s, v) + (if p.val == v then 1 else 0)
  {
    assert (s + [p])[..|s|] == s;
  }

  /** The monitor after the pulses of sent: the same keys, and a flag is set when it
      was set before or some pulse in sent was a low pulse from that module. */
  ghost predicate MonitorAfter(before: map<string, bool>, after: map<string, bool>, sent: seq<Pulse>) {
    after.Keys == before.Keys
    && forall k :: k in after ==> (after[k] <==> before[k] || LowFrom(sent, k))
  }

  lemma MonitorSnoc(m0: map<string, bool>, m1: map<string, bool>, m2: map<string, bool>,
                    sent: seq<Pulse>, p: Pulse)
    requires MonitorAfter(m0, m1, sent)
    requires m2 == if p.from in m1 && !p.val then m1[p.from := true] else m1
    ensures MonitorAfter(m0, m2, sent + [p])
  {
    forall k | k in m2
      ensures m2[k] <==> m0[k] || LowFrom(sent + [p], k)
    {
      LowFromSnoc(sent, p, k);
    }
  }

  /** PressButton's first loop: a low pulse from the broadcaster to each of its
      targets, in order. */
  method InitialPulses(b: Module) returns (pulses: seq<Pulse>)
    ensures |pulses| == |b.targets|
    ensures forall k :: 0 <= k < |pulses| ==> pulses[k] == Pulse(Broadcaster, false, b.targets[k])
    ensures pulses == Initial(b)
  {
    pulses := [];
    for k := 0 to |b.targets|
      invariant pulses == Initial(b)[..k]
    {
      assert Initial(b)[..k + 1] == Initial(b)[..k] + [Pulse(Broadcaster, false, b.targets[k])];
      pulses := pulses + [Pulse(Broadcaster, false, b.targets[k])];
    }
    assert Initial(b)[..|b.targets|] == Initial(b);
  }

  /** TransmitPulses: one pulse per target, in target order, at the back of the
      queue. */
  method TransmitPulses(mod: Module, pulses: seq<Pulse>, pulse: bool) returns (pulses': seq<Pulse>)
    ensures |pulses'| == |pulses| + |mod.targets| && pulses'[..|pulses|] == pulses
    ensures forall k :: 0 <= k < |mod.targets| ==>
      pulses'[|pulses| + k] == Pulse(mod.name, pulse, mod.targets[k])
    ensures pulses' == pulses + Emitted(mod, pulse)
  {
    pulses' := pulses;
    for k := 0 to |mod.targets|
      invariant pulses' == pulses + Emitted(mod, pulse)[..k]
    {
      assert Emitted(mod, pulse)[..k + 1] == Emitted(mod, pulse)[..k] + [Pulse(mod.name, pulse, mod.targets[k])];
      pulses' := pulses' + [Pulse(mod.name, pulse, mod.targets[k])];
    }
    assert Emitted(mod, pulse)[..|mod.targets|] == Emitted(mod, pulse);
  }

  /** The module map and the monitor map that PressButton updates through its
      reference parameters. */
  class Network {
    var mods: map<string, Module>
    var monitor: map<string, bool>

    constructor (mods: map<string, Module>, monitor: map<string, bool>)
      ensures this.mods == mods && this.monitor == monitor
    {
      this.mods := mods;
      this.monitor := monitor;
    }

    /** AcceptPulse: the target reacts to the pulse as Accept says and its pulses
        join the back of the queue; where the source stops, nothing changes and ok
        is false. */
    method AcceptPulse(pulses: seq<Pulse>, pulse: bool, from: string, target: string)
      returns (ok: bool, pulses': seq<Pulse>)
      modifies this
      ensures ok <==> Accept(old(mods), Pulse(from, pulse, target)).Some?
      ensures ok ==> mods == Accept(old(mods), Pulse(from, pulse, target)).value.0
                     && pulses' == pulses + Accept(old(mods), Pulse(from, pulse, target)).value.1
      ensures !ok ==> mods == old(mods) && pulses' == pulses
      ensures monitor == old(monitor)
    {
      pulses' := pulses;
      if target !in mods {
        return false, pulses';
      }
      var mod := mods[target];
      match mod.kind {
        case FlipFlop =>
          if !pulse {
            mod := mod.(mem := !mod.mem);
            mods := mods[target := mod];
            pulses' := TransmitPulses(mod, pulses', mod.mem);
          }
          ok := true;
        case Conjunction =>
          if from !in mod.inputs {
            return false, pulses';
          }
          mod := mod.(inputs := mod.inputs[from := pulse]);
          mods := mods[target := mod];
          var allHigh := AllHigh(mod.inputs);
          pulses' := TransmitPulses(mod, pulses', !allHigh);
          ok := true;
        case Untyped =>
          mods := mods[target := mod.(mem := pulse)];
          ok := true;
        case Broadcast =>
          ok := false;
      }
    }

    /** PressButton's while loop: the queue drained from the front, at most fuel
        pulses. Every delivered pulse is counted, a low pulse from a monitored
        module sets its flag, and the target reacts to it. */
    method Drain(queue: seq<Pulse>, fuel: nat, lows0: nat, highs0: nat)
      returns (status: Outcome, lows: nat, highs: nat, ghost sent: seq<Pulse>, ghost rest: seq<Pulse>)
      modifies this
      ensures status != Failed ==> Trace(old(mods), queue, sent, mods, rest)
      ensures status == Drained <==> status != Failed && rest == []
      ensures status == OutOfFuel ==> |sent| == fuel && rest != []
      ensures status == Failed ==> exists m, q :: Trace(old(mods), queue, sent, m, q)
                                    && q != [] && Accept(m, q[0]) == None
      ensures status != Failed ==>
        lows == lows0 + Count(sent, false) && highs == highs0 + Count(sent, true)
      ensures status != Failed ==> MonitorAfter(old(monitor), monitor, sent)
    {
      ghost var mods0, monitor0 := mods, monitor;
      lows, highs := lows0, highs0;
      sent := [];
      var pulses := queue;
      var steps := 0;
      while pulses != [] && steps < fuel
        invariant mods0 == old(mods) && monitor0 == old(monitor)
        invariant Trace(mods0, queue, sent, mods, pulses)
        invariant steps == |sent| <= fuel
        invariant lows == lows0 + Count(sent, false) && highs == highs0 + Count(sent, true)
        invariant MonitorAfter(monitor0, monitor, sent)
        decreases fuel - steps
      {
        ghost var modsBefore, monitorBefore := mods, monitor;
        var pulse := pulses[0];
        var next := pulses[1..];
        if pulse.val {
          highs := highs + 1;
        } else {
          lows := lows + 1;
        }
        if pulse.from in monitor && !pulse.val {
          monitor := monitor[pulse.from := true];
        }
        MonitorSnoc(monitor0, monitorBefore, monitor, sent, pulse);
        CountSnoc(sent, pulse);
        var ok;
        ok, next := AcceptPulse(next, pulse.val, pulse.from, pulse.to);
        if !ok {
          return Failed, lows, highs, sent, pulses;
        }
        TraceExtend(mods0, queue, sent, modsBefore, pulses);
        sent := sent + [pulse];
        pulses := next;
        steps := steps + 1;
      }
      rest := pulses;
      status := if pulses == [] then Drained else OutOfFuel;
    }

    /** PressButton: the broadcaster's low pulses, then the queue drained (at most
        fuel pulses). The counts start at one low pulse, the button's own, so they
        add up to one more than the pulses delivered. */
    method PressButton(fuel: nat)
      returns (status: Outcome, lows: nat, highs: nat, ghost sent: seq<Pulse>, ghost rest: seq<Pulse>)
      modifies this
      ensures Broadcaster !in old(mods) ==> status == Failed && mods == old(mods) && monitor == old(monitor)
      ensures Broadcaster in old(mods) && status != Failed ==>
        Trace(old(mods), Initial(old(mods)[Broadcaster]), sent, mods, rest)
      ensures status == Drained <==> Broadcaster in old(mods) && status != Failed && rest == []
      ensures status == OutOfFuel ==> |sent| == fuel && rest != []
      ensures status == Failed && Broadcaster in old(mods) ==>
        exists m, q :: Trace(old(mods), Initial(old(mods)[Broadcaster]), sent, m, q)
                       && q != [] && Accept(m, q[0]) == None
      ensures status != Failed ==>
        lows == 1 + Count(sent, false) && highs == Count(sent, true) && lows + highs == 1 + |sent|
      ensures status != Failed ==> MonitorAfter(old(monitor), monitor, sent)
    {
      lows, highs := 1, 0;
      sent, rest := [], [];
      if Broadcaster !in mods {
        return Failed, lows, highs, sent, rest;
      }
      var pulses := InitialPulses(mods[Broadcaster]);
      status, lows, highs, sent, rest := Drain(pulses, fuel, lows, highs);
      CountBoth(sent);
    }
  }
}
