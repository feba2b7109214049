/**
 The leaky integrate-and-fire network: one synchronous tick, growth by stimulus, reset.
 Potentials, weights and refractory times are real numbers; random draws are arguments.
 Names, colours, positions and the never-read synaptic delay are not modelled.
 */
module Brain {

  const VR: real := -70.0
  const VT: real := -55.0
  const VZ: real := -75.0
  const TAU: real := 20.0
  const TREF: real := 3.0
  const DT: real := 0.5

  datatype Neuron = Neuron(id: nat, v: real, refractory: real)

  datatype Synapse = Synapse(source: nat, target: nat, weight: real)

  /** The raw randomness behind one synapse: an unreduced target and a number in [0, 1). */
  datatype Draw = Draw(pick: nat, fraction: real)

  /** The state the simulation and the HTTP handlers share. */
  datatype Net = Net(
    neurons: seq<Neuron>, synapses: seq<Synapse>, totalNeurons: nat, growthEvents: nat, totalSpikes: nat)

  function NewNeuron(id: nat): Neuron {
    Neuron(id, VR, 0.0)
  }

  /** One tick of one neuron: its new state and whether it fires. */
  function Update(n: Neuron, input: real): (Neuron, bool) {
    if n.refractory > 0.0 then (n.(refractory := n.refractory - DT), false)
    else
      var v := n.v + (VR - n.v + input) / TAU * DT;
      if v >= VT then (n.(v := VZ, refractory := TREF), true) else (n.(v := v), false)
  }

  /** The source looks as if it has just fired: its potential is within 0.1 of the reset value. */
  predicate Transmits(n: Neuron) {
    var d := n.v - VZ;
    (if d < 0.0 then -d else d) < 0.1
  }

  predicate Delivers(neurons: seq<Neuron>, s: Synapse, target: nat) {
    s.source < |neurons| && s.target < |neurons| && s.target == target && Transmits(neurons[s.source])
  }

  /** The weights arriving at `target` from transmitting sources. */
  function InputTo(neurons: seq<Neuron>, synapses: seq<Synapse>, target: nat): real {
    if synapses == [] then 0.0
    else
      var s := synapses[|synapses| - 1];
      InputTo(neurons, synapses[..|synapses| - 1], target) + (if Delivers(neurons, s, target) then s.weight else 0.0)
  }

  function Fires(neurons: seq<Neuron>, synapses: seq<Synapse>, i: nat): bool
    requires i < |neurons|
  {
    Update(neurons[i], InputTo(neurons, synapses, i)).1
  }

  /** All neurons updated at once from the inputs the old state delivers. */
  function Tick(neurons: seq<Neuron>, synapses: seq<Synapse>): (r: seq<Neuron>)
    ensures |r| == |neurons|
  {
    seq(|neurons|, i requires 0 <= i < |neurons| => Update(neurons[i], InputTo(neurons, synapses, i)).0)
  }

  /** How many of the first `k` neurons fire in this tick. */
  function FiringBelow(neurons: seq<Neuron>, synapses: seq<Synapse>, k: nat): nat
    requires k <= |neurons|
  {
    if k == 0 then 0
    else FiringBelow(neurons, synapses, k - 1) + (if Fires(neurons, synapses, k - 1) then 1 else 0)
  }

  function Stepped(net: Net): Net {
    net.(neurons := Tick(net.neurons, net.synapses),
         totalSpikes := net.totalSpikes + FiringBelow(net.neurons, net.synapses, |net.neurons|))
  }

  /** The synapses made from the first `k` draws, three per new neuron, for a population of `n`. */
  function Hebbian(first: nat, n: nat, draws: seq<Draw>, k: nat): seq<Synapse>
    requires k <= |draws| && n > 0
  {
    if k == 0 then []
    else
      var (source, target) := (first + (k - 1) / 3, draws[k - 1].pick % n);
      Hebbian(first, n, draws, k - 1) +
      (if target != source then [Synapse(source, target, draws[k - 1].fraction * 0.5)] else [])
  }

  lemma HebbianStep(first: nat, n: nat, draws: seq<Draw>, i: nat, j: nat)
    requires n > 0 && j < 3 && 3 * i + j < |draws|
    ensures var (source, draw) := (first + i, draws[3 * i + j]);
      Hebbian(first, n, draws, 3 * i + j + 1) ==
      Hebbian(first, n, draws, 3 * i + j) +
      if draw.pick % n != source then [Synapse(source, draw.pick % n, draw.fraction * 0.5)] else []
  {
    assert (3 * i + j) / 3 == i;
  }

  /** `count.min(10)` new neurons at rest, and their synapses when there is anyone to connect to. */
  function Grown(net: Net, count: nat, draws: seq<Draw>): Net
    requires |draws| >= 30
  {
    var m := if count < 10 then count else 10;
    var neurons := net.neurons + seq(m, i requires 0 <= i < m => NewNeuron(net.totalNeurons + i));
    Net(neurons,
        net.synapses + (if |neurons| > 1 then Hebbian(net.totalNeurons, |neurons|, draws, 3 * m) else []),
        net.totalNeurons + m,
        net.growthEvents + 1,
        net.totalSpikes)
  }

  lemma GrownNeurons(net: Net, count: nat, draws: seq<Draw>, i: nat)
    requires |draws| >= 30 && i < |Grown(net, count, draws).neurons|
    ensures Grown(net, count, draws).neurons[i] ==
            if i < |net.neurons| then net.neurons[i] else NewNeuron(net.totalNeurons + i - |net.neurons|)
  {
  }

  /** `(intensity * 10.0) as usize`: truncated, and zero for negative values. */
  function StimulusCount(intensity: real): nat {
    if intensity <= 0.0 then 0 else (intensity * 10.0).Floor
  }

  const EMPTY := Net([], [], 0, 0, 0)

  class BrainState {
    var neurons: seq<Neuron>
    var synapses: seq<Synapse>
    var totalNeurons: nat
    var growthEvents: nat
    var totalSpikes: nat

    function State(): Net
      reads this
    {
      Net(neurons, synapses, totalNeurons, growthEvents, totalSpikes)
    }

    constructor (net: Net)
      ensures State() == net
    {
      neurons, synapses := net.neurons, net.synapses;
      totalNeurons, growthEvents, totalSpikes := net.totalNeurons, net.growthEvents, net.totalSpikes;
    }

    method Step()
      modifies this
      ensures State() == Stepped(old(State()))
    {
      var n := |neurons|;
      if n == 0 {
        assert Tick(neurons, synapses) == neurons;
        return;
      }
      var inputs := CollectInputs();
      var spikes := UpdateAll(inputs);
      totalSpikes := totalSpikes + spikes;
    }

    /** The second loop of a tick: every neuron is updated in place from the buffer. */
    method UpdateAll(inputs: array<real>) returns (spikes: nat)
      requires inputs.Length == |neurons|
      requires forall t :: 0 <= t < |neurons| ==> inputs[t] == InputTo(neurons, synapses, t)
      modifies this`neurons
      ensures neurons == Tick(old(neurons), synapses)
      ensures spikes == FiringBelow(old(neurons), synapses, |old(neurons)|)
    {
      ghost var before := neurons;
      spikes := 0;
      for i := 0 to inputs.Length
        invariant |neurons| == |before|
        invariant forall j :: i <= j < |neurons| ==> neurons[j] == before[j]
        invariant forall j :: 0 <= j < i ==> neurons[j] == Tick(before, synapses)[j]
        invariant spikes == FiringBelow(before, synapses, i)
      {
        var (updated, fired) := Update(neurons[i], inputs[i]);
        neurons := neurons[i := updated];
        if fired {
          spikes := spikes + 1;
        }
      }
    }

    /** The first loop of a tick: weights accumulate in a buffer indexed by target. */
    method CollectInputs() returns (inputs: array<real>)
      ensures fresh(inputs) && inputs.Length == |neurons|
      ensures forall t :: 0 <= t < |neurons| ==> inputs[t] == InputTo(neurons, synapses, t)
    {
      var n := |neurons|;
      inputs := new real[n](_ => 0.0);
      for k := 0 to |synapses|
        invariant forall t :: 0 <= t < n ==> inputs[t] == InputTo(neurons, synapses[..k], t)
      {
        var s := synapses[k];
        assert synapses[..k + 1][..k] == synapses[..k];
        if s.source < n && s.target < n {
          if Transmits(neurons[s.source]) {
            inputs[s.target] := inputs[s.target] + s.weight;
          }
        }
      }
      assert synapses[..|synapses|] == synapses;
    }

    /** `post_stimulus`, and `grow` when `count` is given directly. */
    method Grow(count: nat, draws: seq<Draw>)
      requires |draws| >= 30
      modifies this
      ensures State() == Grown(old(State()), count, draws)
    {
      var m := if count < 10 then count else 10;
      var first := totalNeurons;
      var newIds: seq<nat> := [];
      for i := 0 to m
        invariant newIds == seq(i, j requires 0 <= j < i => first + j)
        invariant totalNeurons == first + i
        invariant neurons == old(neurons) + seq(i, j requires 0 <= j < i => NewNeuron(first + j))
        invariant synapses == old(synapses) && growthEvents == old(growthEvents) && totalSpikes == old(totalSpikes)
      {
        var id := totalNeurons;
        totalNeurons := totalNeurons + 1;
        neurons := neurons + [NewNeuron(id)];
        newIds := newIds + [id];
      }
      growthEvents := growthEvents + 1;
      var n := |neurons|;
      if n > 1 {
        Connect(first, newIds, n, draws);
      }
    }

    method Connect(first: nat, newIds: seq<nat>, n: nat, draws: seq<Draw>)
      requires n > 0 && 3 * |newIds| <= |draws|
      requires newIds == seq(|newIds|, j requires 0 <= j < |newIds| => first + j)
      modifies this`synapses
      ensures synapses == old(synapses) + Hebbian(first, n, draws, 3 * |newIds|)
    {
      for i := 0 to |newIds|
        invariant synapses == old(synapses) + Hebbian(first, n, draws, 3 * i)
      {
        var src := newIds[i];
        for j := 0 to 3
          invariant synapses == old(synapses) + Hebbian(first, n, draws, 3 * i + j)
        {
          var draw := draws[3 * i + j];
          var target := draw.pick % n;
          HebbianStep(first, n, draws, i, j);
          if target != src {
            synapses := synapses + [Synapse(src, target, draw.fraction * 0.5)];
          }
        }
      }
    }

    method Stimulate(intensity: real, draws: seq<Draw>)
      requires |draws| >= 30
      modifies this
      ensures State() == Grown(old(State()), StimulusCount(intensity), draws)
    {
      var count := if intensity <= 0.0 then 0 else (intensity * 10.0).Floor;
      Grow(count, draws);
    }

    method Reset()
      modifies this
      ensures State() == EMPTY
    {
      neurons := [];
      synapses := [];
      totalNeurons := 0;
      growthEvents := 0;
      totalSpikes := 0;
    }
  }
}
