/**
 Runs of the spiking network.

 Main results:
 - `TransmitsExactlyAfterSpikes`, `SpikesSevenApart`, `SpikeRate`: with non-negative
   weights and settled neurons, a neuron transmits at exactly the seven ticks after each of
   its spikes, its spikes are at least seven ticks apart, and T ticks of n neurons add at
   most n * ceil(T / 7) spikes;
 - `SilentIffWeightsBounded`: a network stays below threshold from every sub-threshold
   state exactly when no neuron's incoming weights sum to more than VT - VR;
 - `EmptyBrainNeverFires`: a brain started empty stays coherent and at rest under every
   interleaving of ticks, growth and resets.
 */
module BrainRuns {
  import opened Brain

  ghost predicate NonNegative(synapses: seq<Synapse>) {
    forall k :: 0 <= k < |synapses| ==> synapses[k].weight >= 0.0
  }

  /** The population after `t` ticks. */
  function Orbit(ns: seq<Neuron>, synapses: seq<Synapse>, t: nat): (r: seq<Neuron>)
    ensures |r| == |ns|
  {
    if t == 0 then ns else Tick(Orbit(ns, synapses, t - 1), synapses)
  }

  /** Neuron `i` fires in tick `t`, counting ticks from 0. */
  predicate SpikesAt(ns: seq<Neuron>, synapses: seq<Synapse>, i: nat, t: nat)
    requires i < |ns|
  {
    Fires(Orbit(ns, synapses, t), synapses, i)
  }

  predicate TransmitsAt(ns: seq<Neuron>, synapses: seq<Synapse>, i: nat, t: nat)
    requires i < |ns|
  {
    Transmits(Orbit(ns, synapses, t)[i])
  }

  lemma {:induction false} InputNonNegative(ns: seq<Neuron>, synapses: seq<Synapse>, t: nat)
    requires NonNegative(synapses)
    ensures InputTo(ns, synapses, t) >= 0.0
  {
    if synapses == [] {
    } else {
      InputNonNegative(ns, synapses[..|synapses| - 1], t);
    }
  }

  // ------------------------------------------------------------------ the refractory window

  /** Out of the refractory window: not transmitting, and staying so under non-negative input. */
  ghost predicate Settled(n: Neuron) {
    n.refractory <= 0.0 && n.v >= VZ + 0.1
  }

  /** Ticks since the last spike while they number one to seven, otherwise zero. */
  function Age(ns: seq<Neuron>, synapses: seq<Synapse>, i: nat, t: nat): (a: nat)
    requires i < |ns|
    ensures a <= 7
  {
    if t == 0 then 0
    else if SpikesAt(ns, synapses, i, t - 1) then 1
    else
      var a := Age(ns, synapses, i, t - 1);
      if 1 <= a < 7 then a + 1 else 0
  }

  ghost predicate InPhase(n: Neuron, age: nat) {
    if age == 0 then Settled(n) else n.v == VZ && n.refractory == TREF - DT * (age - 1) as real
  }

  /** One tick of one neuron moves it along its seven-tick window. */
  lemma UpdatePhase(n: Neuron, age: nat, input: real)
    requires age <= 7 && InPhase(n, age) && input >= 0.0
    ensures Update(n, input).1 ==> age == 0 || age == 7
    ensures InPhase(Update(n, input).0, if Update(n, input).1 then 1 else if 1 <= age < 7 then age + 1 else 0)
  {
  }

  lemma {:induction false} OrbitPhase(ns: seq<Neuron>, synapses: seq<Synapse>, i: nat, t: nat)
    requires i < |ns| && NonNegative(synapses) && Settled(ns[i])
    ensures InPhase(Orbit(ns, synapses, t)[i], Age(ns, synapses, i, t))
    decreases t
  {
    if t == 0 {
    } else {
      OrbitPhase(ns, synapses, i, t - 1);
      var before := Orbit(ns, synapses, t - 1);
      InputNonNegative(before, synapses, i);
      UpdatePhase(before[i], Age(ns, synapses, i, t - 1), InputTo(before, synapses, i));
    }
  }

  lemma SpikeAge(ns: seq<Neuron>, synapses: seq<Synapse>, i: nat, t: nat)
    requires i < |ns| && NonNegative(synapses) && Settled(ns[i])
    requires SpikesAt(ns, synapses, i, t)
    ensures Age(ns, synapses, i, t) == 0 || Age(ns, synapses, i, t) == 7
  {
    OrbitPhase(ns, synapses, i, t);
    var now := Orbit(ns, synapses, t);
    InputNonNegative(now, synapses, i);
    UpdatePhase(now[i], Age(ns, synapses, i, t), InputTo(now, synapses, i));
  }

  /** Inside the window nothing else can happen: the age is the distance to the spike. */
  lemma {:induction false} AgeAfterSpike(ns: seq<Neuron>, synapses: seq<Synapse>, i: nat, s: nat, t: nat)
    requires i < |ns| && NonNegative(synapses) && Settled(ns[i])
    requires SpikesAt(ns, synapses, i, s) && s < t <= s + 7
    ensures Age(ns, synapses, i, t) == t - s
    decreases t
  {
    if t > s + 1 {
      AgeAfterSpike(ns, synapses, i, s, t - 1);
      if SpikesAt(ns, synapses, i, t - 1) {
        SpikeAge(ns, synapses, i, t - 1);
      }
    }
  }

  lemma {:induction false} AgeHasSpike(ns: seq<Neuron>, synapses: seq<Synapse>, i: nat, t: nat)
    requires i < |ns|
    ensures var a := Age(ns, synapses, i, t); a > 0 ==> a <= t && SpikesAt(ns, synapses, i, t - a)
    decreases t
  {
    if t == 0 {
    } else {
      AgeHasSpike(ns, synapses, i, t - 1);
    }
  }

  /** A neuron transmits in tick `t` exactly when it spiked in one of the seven ticks before. */
  lemma TransmitsExactlyAfterSpikes(ns: seq<Neuron>, synapses: seq<Synapse>, i: nat, t: nat)
    requires i < |ns| && NonNegative(synapses) && Settled(ns[i])
    ensures TransmitsAt(ns, synapses, i, t) <==>
            exists s: nat :: t - 7 <= s < t && SpikesAt(ns, synapses, i, s)
  {
    OrbitPhase(ns, synapses, i, t);
    AgeHasSpike(ns, synapses, i, t);
    if s: nat :| t - 7 <= s < t && SpikesAt(ns, synapses, i, s) {
      AgeAfterSpike(ns, synapses, i, s, t);
    }
  }

  lemma SpikesSevenApart(ns: seq<Neuron>, synapses: seq<Synapse>, i: nat, s: nat, t: nat)
    requires i < |ns| && NonNegative(synapses) && Settled(ns[i])
    requires s < t && SpikesAt(ns, synapses, i, s) && SpikesAt(ns, synapses, i, t)
    ensures t - s >= 7
  {
    if t < s + 7 {
      AgeAfterSpike(ns, synapses, i, s, t);
      SpikeAge(ns, synapses, i, t);
    }
  }

  // -------------------------------------------------------------------------- firing rate

  /** How often neuron `i` fires in the first `t` ticks. */
  function SpikesOf(ns: seq<Neuron>, synapses: seq<Synapse>, i: nat, t: nat): nat
    requires i < |ns|
  {
    if t == 0 then 0
    else SpikesOf(ns, synapses, i, t - 1) + (if SpikesAt(ns, synapses, i, t - 1) then 1 else 0)
  }

  lemma {:induction false} SpikesOfBound(ns: seq<Neuron>, synapses: seq<Synapse>, i: nat, t: nat)
    requires i < |ns| && NonNegative(synapses) && Settled(ns[i])
    ensures var a := Age(ns, synapses, i, t);
      7 * SpikesOf(ns, synapses, i, t) <= if a == 0 then t else t + 7 - a
    decreases t
  {
    if t == 0 {
    } else {
      SpikesOfBound(ns, synapses, i, t - 1);
      if SpikesAt(ns, synapses, i, t - 1) {
        SpikeAge(ns, synapses, i, t - 1);
      }
    }
  }

  /** Spikes of the first `k` neurons in the first `t` ticks. */
  function SpikesOfFirst(ns: seq<Neuron>, synapses: seq<Synapse>, k: nat, t: nat): nat
    requires k <= |ns|
  {
    if k == 0 then 0 else SpikesOfFirst(ns, synapses, k - 1, t) + SpikesOf(ns, synapses, k - 1, t)
  }

  lemma {:induction false} CountByTick(ns: seq<Neuron>, synapses: seq<Synapse>, k: nat, t: nat)
    requires k <= |ns|
    ensures SpikesOfFirst(ns, synapses, k, t + 1) ==
            SpikesOfFirst(ns, synapses, k, t) + FiringBelow(Orbit(ns, synapses, t), synapses, k)
    decreases k
  {
    if k == 0 {
    } else {
      CountByTick(ns, synapses, k - 1, t);
    }
  }

  lemma {:induction false} FirstBound(ns: seq<Neuron>, synapses: seq<Synapse>, k: nat, t: nat, most: nat)
    requires k <= |ns| && forall i: nat :: i < k ==> SpikesOf(ns, synapses, i, t) <= most
    ensures SpikesOfFirst(ns, synapses, k, t) <= k * most
    decreases k
  {
    if k == 0 {
    } else {
      FirstBound(ns, synapses, k - 1, t, most);
      assert k * most == (k - 1) * most + most;
    }
  }

  /** The network state after `t` ticks. */
  function Ticks(net: Net, t: nat): Net {
    if t == 0 then net else Stepped(Ticks(net, t - 1))
  }

  lemma {:induction false} NoSpikesYet(ns: seq<Neuron>, synapses: seq<Synapse>, k: nat)
    requires k <= |ns|
    ensures SpikesOfFirst(ns, synapses, k, 0) == 0
  {
    if k == 0 {
    } else {
      NoSpikesYet(ns, synapses, k - 1);
    }
  }

  /** The counter adds up, tick by tick, what the neurons fire one by one. */
  lemma {:induction false} TicksCount(net: Net, t: nat)
    ensures Ticks(net, t).neurons == Orbit(net.neurons, net.synapses, t) && Ticks(net, t).synapses == net.synapses
    ensures Ticks(net, t).totalSpikes ==
            net.totalSpikes + SpikesOfFirst(net.neurons, net.synapses, |net.neurons|, t)
  {
    if t == 0 {
      NoSpikesYet(net.neurons, net.synapses, |net.neurons|);
    } else {
      TicksCount(net, t - 1);
      CountByTick(net.neurons, net.synapses, |net.neurons|, t - 1);
    }
  }

  /** `t` ticks of `n` settled neurons add at most n * ceil(t / 7) to the spike counter. */
  lemma SpikeRate(net: Net, t: nat)
    requires NonNegative(net.synapses)
    requires forall i :: 0 <= i < |net.neurons| ==> Settled(net.neurons[i])
    ensures Ticks(net, t).totalSpikes <= net.totalSpikes + |net.neurons| * ((t + 6) / 7)
  {
    TicksCount(net, t);
    forall i: nat | i < |net.neurons|
      ensures SpikesOf(net.neurons, net.synapses, i, t) <= (t + 6) / 7
    {
      SpikesOfBound(net.neurons, net.synapses, i, t);
    }
    FirstBound(net.neurons, net.synapses, |net.neurons|, t, (t + 6) / 7);
  }

  // ---------------------------------------------------------------------- sub-threshold silence

  ghost predicate SubThreshold(ns: seq<Neuron>) {
    forall i :: 0 <= i < |ns| ==> ns[i].v < VT
  }

  /** All the weight a population of `n` can ever deliver to `target` in one tick. */
  function InWeight(n: nat, synapses: seq<Synapse>, target: nat): real {
    if synapses == [] then 0.0
    else
      var s := synapses[|synapses| - 1];
      InWeight(n, synapses[..|synapses| - 1], target) +
      (if s.source < n && s.target < n && s.target == target then s.weight else 0.0)
  }

  lemma {:induction false} InputAtMostInWeight(ns: seq<Neuron>, synapses: seq<Synapse>, t: nat)
    requires NonNegative(synapses)
    ensures InputTo(ns, synapses, t) <= InWeight(|ns|, synapses, t)
  {
    if synapses == [] {
    } else {
      InputAtMostInWeight(ns, synapses[..|synapses| - 1], t);
    }
  }

  ghost predicate WeightsBounded(n: nat, synapses: seq<Synapse>) {
    forall t: nat :: t < n ==> InWeight(n, synapses, t) <= VT - VR
  }

  lemma {:induction false} StaysSubThreshold(ns: seq<Neuron>, synapses: seq<Synapse>, t: nat)
    requires NonNegative(synapses) && WeightsBounded(|ns|, synapses) && SubThreshold(ns)
    ensures SubThreshold(Orbit(ns, synapses, t))
    ensures forall i: nat :: i < |ns| ==> !SpikesAt(ns, synapses, i, t)
  {
    if t > 0 {
      StaysSubThreshold(ns, synapses, t - 1);
    }
    var now := Orbit(ns, synapses, t);
    if t > 0 {
      var before := Orbit(ns, synapses, t - 1);
      forall i: nat | i < |ns|
        ensures now[i].v < VT
      {
        InputAtMostInWeight(before, synapses, i);
        assert !SpikesAt(ns, synapses, i, t - 1);
      }
    }
    forall i: nat | i < |ns|
      ensures !SpikesAt(ns, synapses, i, t)
    {
      InputAtMostInWeight(now, synapses, i);
    }
  }

  ghost predicate NoSelfLoops(synapses: seq<Synapse>) {
    forall k :: 0 <= k < |synapses| ==> synapses[k].source != synapses[k].target
  }

  /** Neuron `t` just below threshold, everyone else transmitting. */
  function Provocation(n: nat, t: nat, v: real): seq<Neuron> {
    seq(n, i requires 0 <= i < n => if i == t then Neuron(i, v, 0.0) else Neuron(i, VZ, 0.0))
  }

  lemma {:induction false} ProvocationDelivers(n: nat, synapses: seq<Synapse>, t: nat, v: real)
    requires NoSelfLoops(synapses) && t < n
    ensures InputTo(Provocation(n, t, v), synapses, t) == InWeight(n, synapses, t)
  {
    if synapses == [] {
    } else {
      ProvocationDelivers(n, synapses[..|synapses| - 1], t, v);
    }
  }

  /** More than VT - VR of incoming weight can push some sub-threshold state over the threshold at once. */
  lemma ExcessWeightFires(n: nat, synapses: seq<Synapse>, t: nat) returns (ns: seq<Neuron>)
    requires NoSelfLoops(synapses) && t < n && InWeight(n, synapses, t) > VT - VR
    ensures |ns| == n && SubThreshold(ns) && SpikesAt(ns, synapses, t, 0)
  {
    var w := InWeight(n, synapses, t);
    var v := VT - (w - (VT - VR)) / 78.0;
    ns := Provocation(n, t, v);
    ProvocationDelivers(n, synapses, t, v);
    assert ns[t] == Neuron(t, v, 0.0);
    assert Orbit(ns, synapses, 0) == ns;
  }

  /** Never firing, whatever sub-threshold state the network is started in. */
  ghost predicate Silent(n: nat, synapses: seq<Synapse>) {
    forall ns: seq<Neuron>, i: nat, t: nat :: |ns| == n && SubThreshold(ns) && i < n ==> !SpikesAt(ns, synapses, i, t)
  }

  lemma SilentIffWeightsBounded(n: nat, synapses: seq<Synapse>)
    requires NonNegative(synapses) && NoSelfLoops(synapses)
    ensures Silent(n, synapses) <==> WeightsBounded(n, synapses)
  {
    if WeightsBounded(n, synapses) {
      forall ns: seq<Neuron>, i: nat, t: nat | |ns| == n && SubThreshold(ns) && i < n
        ensures !SpikesAt(ns, synapses, i, t)
      {
        StaysSubThreshold(ns, synapses, t);
      }
    } else {
      var t: nat :| t < n && InWeight(n, synapses, t) > VT - VR;
      var ns := ExcessWeightFires(n, synapses, t);
    }
  }

  function FanIn(synapses: seq<Synapse>, target: nat): nat {
    if synapses == [] then 0
    else FanIn(synapses[..|synapses| - 1], target) + (if synapses[|synapses| - 1].target == target then 1 else 0)
  }

  /** Weights as growth draws them are below one half, so thirty incoming synapses stay within the bound. */
  lemma {:induction false} FanInBoundsWeight(n: nat, synapses: seq<Synapse>, t: nat)
    requires forall k :: 0 <= k < |synapses| ==> 0.0 <= synapses[k].weight <= 0.5
    ensures InWeight(n, synapses, t) <= 0.5 * FanIn(synapses, t) as real
    ensures FanIn(synapses, t) <= 30 ==> InWeight(n, synapses, t) <= VT - VR
  {
    if synapses == [] {
    } else {
      FanInBoundsWeight(n, synapses[..|synapses| - 1], t);
    }
  }

  // -------------------------------------------------------------------- a brain started empty

  datatype Event = TickOnce | Growth(count: nat, draws: seq<Draw>) | Reset

  ghost predicate ValidEvent(e: Event) {
    e.Growth? ==> |e.draws| >= 30 && forall k :: 0 <= k < |e.draws| ==> 0.0 <= e.draws[k].fraction < 1.0
  }

  function Apply(net: Net, e: Event): Net
    requires ValidEvent(e)
  {
    match e
    case TickOnce => Stepped(net)
    case Growth(count, draws) => Grown(net, count, draws)
    case Reset => EMPTY
  }

  function Run(events: seq<Event>): Net
    requires forall k :: 0 <= k < |events| ==> ValidEvent(events[k])
  {
    if events == [] then EMPTY else Apply(Run(events[..|events| - 1]), events[|events| - 1])
  }

  ghost predicate GoodSynapse(n: nat, s: Synapse) {
    s.source < n && s.target < n && s.source != s.target && 0.0 <= s.weight < 0.5
  }

  /** Identifiers are positions, synapses connect two different existing neurons with a weight in [0, 0.5). */
  ghost predicate Coherent(net: Net) {
    && net.totalNeurons == |net.neurons|
    && (forall i :: 0 <= i < |net.neurons| ==> net.neurons[i].id == i)
    && (forall k :: 0 <= k < |net.synapses| ==> GoodSynapse(|net.neurons|, net.synapses[k]))
  }

  ghost predicate AtRest(net: Net) {
    && net.totalSpikes == 0
    && (forall i :: 0 <= i < |net.neurons| ==> net.neurons[i].v == VR && net.neurons[i].refractory == 0.0)
  }

  lemma {:induction false} RestDeliversNothing(ns: seq<Neuron>, synapses: seq<Synapse>, t: nat)
    requires forall i :: 0 <= i < |ns| ==> ns[i].v == VR
    ensures InputTo(ns, synapses, t) == 0.0
  {
    if synapses == [] {
    } else {
      RestDeliversNothing(ns, synapses[..|synapses| - 1], t);
    }
  }

  lemma {:induction false} RestFiresNothing(ns: seq<Neuron>, synapses: seq<Synapse>, k: nat)
    requires k <= |ns| && forall i :: 0 <= i < |ns| ==> ns[i].v == VR && ns[i].refractory == 0.0
    ensures FiringBelow(ns, synapses, k) == 0
  {
    if k == 0 {
    } else {
      RestFiresNothing(ns, synapses, k - 1);
      RestDeliversNothing(ns, synapses, k - 1);
    }
  }

  lemma TickKeeps(net: Net)
    requires Coherent(net)
    ensures Coherent(Stepped(net))
    ensures AtRest(net) ==> AtRest(Stepped(net))
  {
    if AtRest(net) {
      RestFiresNothing(net.neurons, net.synapses, |net.neurons|);
      forall i | 0 <= i < |net.neurons|
        ensures InputTo(net.neurons, net.synapses, i) == 0.0
      {
        RestDeliversNothing(net.neurons, net.synapses, i);
      }
    }
  }

  lemma {:induction false} HebbianGood(first: nat, n: nat, draws: seq<Draw>, k: nat)
    requires k <= |draws| && n > 0 && first + (k + 2) / 3 <= n
    requires forall j :: 0 <= j < |draws| ==> 0.0 <= draws[j].fraction < 1.0
    ensures forall j :: 0 <= j < |Hebbian(first, n, draws, k)| ==> GoodSynapse(n, Hebbian(first, n, draws, k)[j])
  {
    if k == 0 {
    } else {
      HebbianGood(first, n, draws, k - 1);
      assert GoodSynapse(n, Synapse(first + (k - 1) / 3, draws[k - 1].pick % n, draws[k - 1].fraction * 0.5))
        || draws[k - 1].pick % n == first + (k - 1) / 3;
    }
  }

  lemma GrownSynapses(net: Net, count: nat, draws: seq<Draw>)
    requires Coherent(net) && ValidEvent(Growth(count, draws))
    ensures forall s :: s in Grown(net, count, draws).synapses ==> GoodSynapse(|Grown(net, count, draws).neurons|, s)
  {
    var m := if count < 10 then count else 10;
    var n := |net.neurons| + m;
    if n > 1 {
      HebbianGood(net.totalNeurons, n, draws, 3 * m);
    }
    forall s | s in net.synapses
      ensures GoodSynapse(n, s)
    {
      assert GoodSynapse(|net.neurons|, s);
    }
  }

  lemma {:induction false} GrowthKeeps(net: Net, count: nat, draws: seq<Draw>)
    requires Coherent(net) && ValidEvent(Growth(count, draws))
    ensures Coherent(Grown(net, count, draws))
    ensures AtRest(net) ==> AtRest(Grown(net, count, draws))
  {
    var grown := Grown(net, count, draws);
    GrownSynapses(net, count, draws);
    forall i: nat | i < |grown.neurons|
      ensures grown.neurons[i].id == i
      ensures AtRest(net) ==> grown.neurons[i].v == VR && grown.neurons[i].refractory == 0.0
    {
      GrownNeurons(net, count, draws, i);
    }
  }

  /** Under every interleaving of ticks, growth and resets, a brain started empty is coherent and has never fired. */
  lemma {:induction false} EmptyBrainNeverFires(events: seq<Event>)
    requires forall k :: 0 <= k < |events| ==> ValidEvent(events[k])
    ensures Coherent(Run(events)) && AtRest(Run(events))
  {
    if events == [] {
    } else {
      var net := Run(events[..|events| - 1]);
      EmptyBrainNeverFires(events[..|events| - 1]);
      match events[|events| - 1]
      case TickOnce => TickKeeps(net);
      case Growth(count, draws) => GrowthKeeps(net, count, draws);
      case Reset =>
    }
  }
}
