/**
 Single neurons and single growth steps in closed form: the tick at which a neuron under constant
 input fires, and exactly which neurons and synapses a stimulus adds.
 */
module BrainLaws {
  import opened Brain
  import opened Sequences

  // ------------------------------------------------------------------------ constant input

  /** What is left of a deviation after `t` ticks: each tick leaves 1 - 0.5 / 20 of it. */
  function Left(t: nat): real {
    if t == 0 then 1.0 else 0.975 * Left(t - 1)
  }

  /** The potential after `t` ticks, on its way from `v` to the resting level plus the input. */
  function Level(v: real, input: real, t: nat): real {
    var goal := -70.0 + input;
    goal + (v - goal) * Left(t)
  }

  /** A neuron under the same input for `t` ticks. */
  function Driven(n: Neuron, input: real, t: nat): Neuron {
    if t == 0 then n else Update(Driven(n, input, t - 1), input).0
  }

  lemma LevelStep(v: real, input: real, t: nat)
    ensures Level(v, input, t + 1) == Level(v, input, t) + (VR - Level(v, input, t) + input) / TAU * DT
  {
    var goal := -70.0 + input;
    var x := (v - goal) * Left(t);
    assert (v - goal) * (0.975 * Left(t)) == 0.975 * x;
  }

  /**
   Under constant input the potential approaches its goal geometrically, and the neuron fires at
   the first tick at which the closed form reaches the threshold of -55, and not before.
   */
  lemma {:induction false} FiresWhenLevelReaches(n: Neuron, input: real, t: nat)
    requires n.refractory <= 0.0
    requires forall s: nat :: 1 <= s <= t ==> Level(n.v, input, s) < -55.0
    ensures Driven(n, input, t) == n.(v := Level(n.v, input, t))
    ensures Update(Driven(n, input, t), input).1 <==> Level(n.v, input, t + 1) >= -55.0
  {
    LevelStep(n.v, input, t);
    if t == 0 {
      assert Level(n.v, input, 0) == n.v;
    } else {
      FiresWhenLevelReaches(n, input, t - 1);
      LevelStep(n.v, input, t - 1);
    }
  }

  /** A spike resets the potential to -75 for six more ticks; a neuron transmits within 0.1 of that value. */
  lemma SpikeResets(n: Neuron, input: real, t: nat)
    requires Update(n, input).1 && t <= 6
    ensures Driven(Update(n, input).0, input, t) == Neuron(n.id, -75.0, 3.0 - 0.5 * t as real)
    ensures Transmits(n) <==> -75.1 < n.v < -74.9
  {
    if t > 0 {
      SpikeResets(n, input, t - 1);
    }
  }

  // --------------------------------------------------------------------------------- growth

  /** The synapse that draw `q` proposes: three draws for each new neuron, in order. */
  function Proposal(first: nat, n: nat, draws: seq<Draw>, q: nat): Synapse
    requires q < |draws| && n > 0
  {
    Synapse(first + q / 3, draws[q].pick % n, draws[q].fraction / 2.0)
  }

  function Proposals(first: nat, n: nat, draws: seq<Draw>, k: nat): seq<Synapse>
    requires k <= |draws| && n > 0
  {
    seq(k, q requires 0 <= q < k => Proposal(first, n, draws, q))
  }

  ghost function WithoutLoops(synapses: seq<Synapse>): set<nat> {
    set q: nat | q < |synapses| && synapses[q].source != synapses[q].target
  }

  /** Of the proposed synapses exactly those that are no self-loops are made, in order. */
  lemma {:induction false} ProposalsWithoutLoops(first: nat, n: nat, draws: seq<Draw>, k: nat)
    requires k <= |draws| && n > 0
    ensures var all := Proposals(first, n, draws, k); Selects(all, WithoutLoops(all), Hebbian(first, n, draws, k))
  {
    var all := Proposals(first, n, draws, k);
    if k == 0 {
      SelectsNothing(all);
      assert WithoutLoops(all) == {};
    } else {
      var (front, last) := (Proposals(first, n, draws, k - 1), Proposal(first, n, draws, k - 1));
      ProposalsWithoutLoops(first, n, draws, k - 1);
      assert all == front + [last];
      if last.source != last.target {
        assert WithoutLoops(all) == WithoutLoops(front) + {|front|};
        SelectsTaking(front, WithoutLoops(front), Hebbian(first, n, draws, k - 1), last,
                      WithoutLoops(all), Hebbian(first, n, draws, k));
      } else {
        assert WithoutLoops(all) == WithoutLoops(front);
        SelectsSkipping(front, WithoutLoops(front), Hebbian(first, n, draws, k - 1), last, WithoutLoops(all));
      }
    }
  }

  /** A stimulus asks for the whole units in ten times its intensity, and for none if it is negative. */
  lemma StimulusTruncates(intensity: real, m: nat)
    ensures StimulusCount(intensity) == m <==>
            m as real <= 10.0 * intensity < m as real + 1.0 || (intensity < 0.0 && m == 0)
  {
    var x := intensity * 10.0;
    assert x.Floor as real <= x < x.Floor as real + 1.0;
    if m as real <= x < m as real + 1.0 {
      assert x.Floor == m;
    }
  }

  /** Growth adds the neurons asked for, at most ten, at rest and under the next free ids. */
  lemma GrowthAdds(net: Net, count: nat, draws: seq<Draw>, added: nat)
    requires |draws| >= 30 && added <= 10 && added <= count && (added == count || added == 10)
    ensures |Grown(net, count, draws).neurons| == |net.neurons| + added
    ensures Grown(net, count, draws).neurons[..|net.neurons|] == net.neurons
    ensures forall i :: |net.neurons| <= i < |net.neurons| + added ==>
      Grown(net, count, draws).neurons[i] == Neuron(net.totalNeurons + i - |net.neurons|, -70.0, 0.0)
    ensures Grown(net, count, draws).totalNeurons == net.totalNeurons + added
    ensures Grown(net, count, draws).growthEvents == net.growthEvents + 1
    ensures Grown(net, count, draws).totalSpikes == net.totalSpikes
  {
    forall i: nat | |net.neurons| <= i < |net.neurons| + added
      ensures Grown(net, count, draws).neurons[i] == Neuron(net.totalNeurons + i - |net.neurons|, -70.0, 0.0)
    {
      GrownNeurons(net, count, draws, i);
    }
  }

  /** And for each of them the proposed synapses that are no self-loops, unless it is the only neuron. */
  lemma {:induction false} GrowthConnects(net: Net, count: nat, draws: seq<Draw>, added: nat)
    returns (made: seq<Synapse>)
    requires |draws| >= 30 && added <= 10 && added <= count && (added == count || added == 10)
    ensures Grown(net, count, draws).synapses == net.synapses + made
    ensures |net.neurons| + added <= 1 ==> made == []
    ensures |net.neurons| + added > 1 ==>
      var all := Proposals(net.totalNeurons, |net.neurons| + added, draws, 3 * added);
      Selects(all, WithoutLoops(all), made)
  {
    var n := |net.neurons| + added;
    made := if n > 1 then Hebbian(net.totalNeurons, n, draws, 3 * added) else [];
    if n > 1 {
      ProposalsWithoutLoops(net.totalNeurons, n, draws, 3 * added);
    }
  }
}
