/**
 Elitist evolution of a module's parameters. The random draws are arguments, so every statement
 holds for every sequence of draws and a run is determined by them; the score of a module is a
 function of its installed parameters.
 */
module MetaLearning {
  import opened Wrappers

  const POP_SIZE: nat := 20

  type Params = seq<real>

  type Population = seq<Params>

  datatype EvolutionResult = EvolutionResult(bestParams: Params, bestScore: Option<real>, generations: nat)

  class Optimizable {
    var params: Params
    const score: Params -> real

    constructor (params: Params, score: Params -> real)
      ensures this.params == params && this.score == score
    {
      this.params := params;
      this.score := score;
    }

    method SetParams(p: Params)
      modifies this
      ensures params == p
    {
      params := p;
    }

    method Evaluate() returns (s: real)
      ensures s == score(params)
    {
      s := score(params);
    }
  }

  // ------------------------------------------------------------------------------------- draws

  /** A gene, before it is reduced to the number of genes, and by how much it moves. */
  datatype Mutation = Mutation(pick: nat, shift: real)

  /** The draws behind one child: two tournaments, the parent of every gene, a mutation if there is one. */
  datatype Birth = Birth(t1: nat, t2: nat, t3: nat, t4: nat, first: nat -> bool, mutation: Option<Mutation>)

  /** All draws of a run: the offset of gene `j` of individual `i`, and child `i` of generation `g`. */
  datatype Draws = Draws(offset: (nat, nat) -> real, birth: (nat, nat) -> Birth)

  ghost predicate ValidBirth(b: Birth) {
    b.mutation.Some? ==> -0.2 <= b.mutation.value.shift < 0.2
  }

  ghost predicate ValidDraws(d: Draws) {
    && (forall i: nat, j: nat :: -0.5 <= d.offset(i, j) < 0.5)
    && (forall g: nat, i: nat :: ValidBirth(d.birth(g, i)))
  }

  // ------------------------------------------------------------------------------ one generation

  /** Individual `i` is the starting point moved by its offsets, gene by gene. */
  ghost predicate Scattered(initial: Params, offset: (nat, nat) -> real, i: nat, individual: Params) {
    |individual| == |initial| && forall j: nat :: j < |initial| ==> individual[j] == initial[j] + offset(i, j)
  }

  /** Twenty individuals around the starting point. */
  ghost predicate StartsFrom(initial: Params, offset: (nat, nat) -> real, population: Population) {
    |population| == 20 && forall i: nat :: i < 20 ==> Scattered(initial, offset, i, population[i])
  }

  /** The winner of a two-way tournament, the second on a tie. */
  function Winner(score: Params -> real, population: Population, a: nat, b: nat): Params
    requires population != []
  {
    var (p, q) := (population[a % |population|], population[b % |population|]);
    if score(p) > score(q) then p else q
  }

  /** Gene by gene from one of two parents, as far as both go. */
  function Crossover(mother: Params, father: Params, first: nat -> bool): Params {
    seq(if |mother| < |father| then |mother| else |father|,
        j requires 0 <= j < |mother| && j < |father| => if first(j) then mother[j] else father[j])
  }

  /** `None` is the panic of drawing a gene to mutate from a child that has none. */
  function Mutated(child: Params, mutation: Option<Mutation>): Option<Params> {
    if mutation.None? then Some(child)
    else if child == [] then None
    else
      var k := mutation.value.pick % |child|;
      Some(child[k := child[k] + mutation.value.shift])
  }

  function Offspring(score: Params -> real, population: Population, b: Birth): Option<Params>
    requires population != []
  {
    Mutated(Crossover(Winner(score, population, b.t1, b.t2), Winner(score, population, b.t3, b.t4), b.first),
            b.mutation)
  }

  ghost predicate Fittest(score: Params -> real, p: Params, population: Population) {
    p in population && forall q :: q in population ==> score(q) <= score(p)
  }

  /** The last of the fittest. */
  ghost predicate LastFittest(score: Params -> real, population: Population, k: nat) {
    && k < |population|
    && (forall i :: 0 <= i < |population| ==> score(population[i]) <= score(population[k]))
    && (forall i :: k < i < |population| ==> score(population[i]) < score(population[k]))
  }

  ghost predicate Uniform(population: Population, genes: nat) {
    |population| == 20 && forall i :: 0 <= i < |population| ==> |population[i]| == genes
  }

  /** The fittest survives unchanged, everyone else is bred as drawn from the old population. */
  ghost predicate Succeeds(score: Params -> real, old': Population, new': Population, g: nat, draws: Draws) {
    && old' != [] && |new'| == |old'|
    && (exists k: nat :: LastFittest(score, old', k) && new'[0] == old'[k])
    && forall i: nat :: 0 < i < |new'| ==> Offspring(score, old', draws.birth(g, i)) == Some(new'[i])
  }

  /** The evaluated populations of a run that started from `initial`. */
  ghost predicate Lineage(score: Params -> real, initial: Params, draws: Draws, history: seq<Population>) {
    && (history != [] ==> StartsFrom(initial, draws.offset, history[0]))
    && (forall g: nat :: g < |history| ==> Uniform(history[g], |initial|))
    && (forall g: nat :: g + 1 < |history| ==> Succeeds(score, history[g], history[g + 1], g, draws))
  }

  /** Individual `i` is the first of `population` to score `best`. */
  ghost predicate FirstToScore(score: Params -> real, population: Population, best: real, i: nat) {
    && i < |population| && score(population[i]) == best
    && forall j :: 0 <= j < i ==> score(population[j]) < best
  }

  ghost predicate AllBelow(score: Params -> real, population: Population, best: real) {
    forall i :: 0 <= i < |population| ==> score(population[i]) < best
  }

  /** `best` is exceeded by nothing evaluated, and `p` is the first that was evaluated to it. */
  ghost predicate BestOf(score: Params -> real, p: Params, best: real, history: seq<Population>) {
    && (forall g, i :: 0 <= g < |history| && 0 <= i < |history[g]| ==> score(history[g][i]) <= best)
    && exists g: nat, i: nat :: FirstEvaluated(score, best, history, g, i) && history[g][i] == p
  }

  ghost predicate FirstEvaluated(score: Params -> real, best: real, history: seq<Population>, g: nat, i: nat) {
    && g < |history| && FirstToScore(score, history[g], best, i)
    && forall h: nat :: h < g ==> AllBelow(score, history[h], best)
  }

  // ------------------------------------------------------------------------------- the algorithm

  method InitialPopulation(initial: Params, offset: (nat, nat) -> real) returns (population: Population)
    ensures StartsFrom(initial, offset, population) && Uniform(population, |initial|)
  {
    population := [];
    for i := 0 to POP_SIZE
      invariant |population| == i
      invariant forall k: nat :: k < i ==> Scattered(initial, offset, k, population[k])
    {
      var individual: Params := [];
      for j := 0 to |initial|
        invariant |individual| == j && forall k: nat :: k < j ==> individual[k] == initial[k] + offset(i, k)
      {
        individual := individual + [initial[j] + offset(i, j)];
      }
      population := population + [individual];
    }
  }

  /** Installs and scores every individual in turn; the last one is left installed. */
  method Score(m: Optimizable, population: Population) returns (scores: seq<real>)
    modifies m
    ensures |scores| == |population|
    ensures forall i :: 0 <= i < |population| ==> scores[i] == m.score(population[i])
  {
    scores := [];
    for i := 0 to |population|
      invariant |scores| == i
      invariant forall k :: 0 <= k < i ==> scores[k] == m.score(population[k])
    {
      m.SetParams(population[i]);
      var s := m.Evaluate();
      scores := scores + [s];
    }
  }

  /** `max_by`: the last of the maximal positions. */
  method MaxIndex(scores: seq<real>) returns (best: nat)
    requires scores != []
    ensures best < |scores|
    ensures forall i :: 0 <= i < |scores| ==> scores[i] <= scores[best]
    ensures forall i :: best < i < |scores| ==> scores[i] < scores[best]
  {
    best := 0;
    for i := 1 to |scores|
      invariant best < i
      invariant forall k :: 0 <= k < i ==> scores[k] <= scores[best]
      invariant forall k :: best < k < i ==> scores[k] < scores[best]
    {
      if scores[i] >= scores[best] {
        best := i;
      }
    }
  }

  method Cross(mother: Params, father: Params, first: nat -> bool, mutation: Option<Mutation>)
    returns (result: Option<Params>)
    ensures result == Mutated(Crossover(mother, father, first), mutation)
  {
    var child: Params := [];
    var n := if |mother| < |father| then |mother| else |father|;
    for j := 0 to n
      invariant child == Crossover(mother, father, first)[..j]
    {
      child := child + [if first(j) then mother[j] else father[j]];
    }
    assert child == Crossover(mother, father, first);
    if mutation.Some? {
      if child == [] {
        return None;
      }
      var idx := mutation.value.pick % |child|;
      child := child[idx := child[idx] + mutation.value.shift];
    }
    return Some(child);
  }

  ghost predicate ScoredBy(score: Params -> real, population: Population, scores: seq<real>) {
    |scores| == |population| && forall i :: 0 <= i < |population| ==> scores[i] == score(population[i])
  }

  method Breed(ghost score: Params -> real, population: Population, scores: seq<real>, b: Birth)
    returns (child: Option<Params>)
    requires population != [] && ScoredBy(score, population, scores)
    ensures child == Offspring(score, population, b)
  {
    var n := |population|;
    var (t1, t2, t3, t4) := (b.t1 % n, b.t2 % n, b.t3 % n, b.t4 % n);
    var mother := if scores[t1] > scores[t2] then population[t1] else population[t2];
    var father := if scores[t3] > scores[t4] then population[t3] else population[t4];
    child := Cross(mother, father, b.first, b.mutation);
  }

  /** A child of a uniform population has as many genes, and is lost only if it has none to mutate. */
  lemma OffspringUniform(score: Params -> real, population: Population, genes: nat, b: Birth)
    requires Uniform(population, genes)
    ensures Offspring(score, population, b).Some? ==> |Offspring(score, population, b).value| == genes
    ensures Offspring(score, population, b).None? <==> genes == 0 && b.mutation.Some?
  {
    var (mother, father) := (Winner(score, population, b.t1, b.t2), Winner(score, population, b.t3, b.t4));
    assert |mother| == genes && |father| == genes;
    assert |Crossover(mother, father, b.first)| == genes;
  }

  ghost predicate MutationDrawn(draws: Draws, g: nat) {
    exists i: nat :: 0 < i < 20 && draws.birth(g, i).mutation.Some?
  }

  /** The first members of the next generation. */
  ghost predicate BredSoFar(score: Params -> real, population: Population, genes: nat, g: nat, draws: Draws,
                            next: Population)
  {
    && next != [] && population != [] && |next[0]| == genes
    && (exists k: nat :: LastFittest(score, population, k) && next[0] == population[k])
    && forall i: nat :: 0 < i < |next| ==> BornAs(score, population, genes, draws.birth(g, i), next[i])
  }

  /** `child` is what the draws make of the population; with no genes, no mutation was drawn. */
  ghost predicate BornAs(score: Params -> real, population: Population, genes: nat, b: Birth, child: Params)
    requires population != []
  {
    Offspring(score, population, b) == Some(child) && |child| == genes && (genes == 0 ==> b.mutation.None?)
  }

  lemma {:induction false} BredOneMore(score: Params -> real, population: Population, genes: nat, g: nat, draws: Draws,
                                       next: Population, child: Params)
    requires BredSoFar(score, population, genes, g, draws, next)
    requires BornAs(score, population, genes, draws.birth(g, |next|), child)
    ensures BredSoFar(score, population, genes, g, draws, next + [child])
  {
    var next' := next + [child];
    var k: nat :| LastFittest(score, population, k) && next[0] == population[k];
    assert next'[0] == population[k];
    forall i: nat | 0 < i < |next'|
      ensures BornAs(score, population, genes, draws.birth(g, i), next'[i])
    {
      assert i < |next| ==> next'[i] == next[i];
    }
  }

  lemma AllBred(score: Params -> real, population: Population, genes: nat, g: nat, draws: Draws, next: Population)
    requires Uniform(population, genes) && BredSoFar(score, population, genes, g, draws, next) && |next| == 20
    ensures Uniform(next, genes) && Succeeds(score, population, next, g, draws)
    ensures !(genes == 0 && MutationDrawn(draws, g))
  {
    assert forall i: nat :: 0 < i < 20 ==> BornAs(score, population, genes, draws.birth(g, i), next[i]);
  }

  method NextGeneration(ghost score: Params -> real, population: Population, scores: seq<real>, ghost genes: nat,
                        g: nat, draws: Draws)
    returns (result: Option<Population>)
    requires Uniform(population, genes) && ScoredBy(score, population, scores)
    ensures result.None? <==> genes == 0 && MutationDrawn(draws, g)
    ensures result.Some? ==> Uniform(result.value, genes) && Succeeds(score, population, result.value, g, draws)
  {
    var best := MaxIndex(scores);
    var next := [population[best]];
    assert LastFittest(score, population, best);
    while |next| < POP_SIZE
      invariant 0 < |next| <= POP_SIZE && BredSoFar(score, population, genes, g, draws, next)
    {
      var b := draws.birth(g, |next|);
      OffspringUniform(score, population, genes, b);
      var child := Breed(score, population, scores, b);
      if child.None? {
        return None;
      }
      BredOneMore(score, population, genes, g, draws, next, child.value);
      next := next + [child.value];
    }
    AllBred(score, population, genes, g, draws, next);
    return Some(next);
  }

  /** Either nothing changes, or the first of the population with a better score takes over. */
  ghost predicate Replaces(score: Params -> real, population: Population, params: Params, best: Option<real>,
                           params': Params, best': Option<real>)
  {
    || (params' == params && best' == best)
    || (&& best'.Some? && (best.Some? ==> best.value < best'.value)
        && exists i: nat :: FirstToScore(score, population, best'.value, i) && population[i] == params')
  }

  /** The running best over one scored population: only a strictly better score replaces it. */
  method KeepBest(ghost score: Params -> real, population: Population, scores: seq<real>,
                  params: Params, best: Option<real>)
    returns (params': Params, best': Option<real>)
    requires ScoredBy(score, population, scores) && population != []
    ensures best'.Some?
    ensures forall i :: 0 <= i < |population| ==> score(population[i]) <= best'.value
    ensures Replaces(score, population, params, best, params', best')
  {
    params', best' := params, best;
    for i := 0 to |population|
      invariant i > 0 ==> best'.Some?
      invariant forall k :: 0 <= k < i ==> score(population[k]) <= best'.value
      invariant Replaces(score, population, params, best, params', best')
    {
      if best'.None? || scores[i] > best'.value {
        assert FirstToScore(score, population, scores[i], i);
        best' := Some(scores[i]);
        params' := population[i];
      }
    }
  }

  /** What a completed run reports of its generations. */
  ghost predicate Evolved(score: Params -> real, initial: Params, generations: nat, r: EvolutionResult,
                          history: seq<Population>)
  {
    && |history| == r.generations == generations
    && (generations == 0 ==> r.bestScore.None? && r.bestParams == initial)
    && (generations > 0 ==> r.bestScore.Some? && BestOf(score, r.bestParams, r.bestScore.value, history))
  }

  ghost predicate BestSoFar(score: Params -> real, initial: Params, history: seq<Population>, params: Params,
                            best: Option<real>)
  {
    if history == [] then best.None? && params == initial
    else best.Some? && BestOf(score, params, best.value, history)
  }

  /** After the generations of `history`, with `population` to be evaluated next. */
  ghost predicate Evolving(score: Params -> real, initial: Params, draws: Draws, history: seq<Population>,
                           population: Population, params: Params, best: Option<real>)
  {
    && Lineage(score, initial, draws, history) && BestSoFar(score, initial, history, params, best)
    && if history == [] then StartsFrom(initial, draws.offset, population)
       else Succeeds(score, history[|history| - 1], population, |history| - 1, draws)
  }

  /** One round of the loop: score, keep the best, breed. */
  method EvolveOnce(m: Optimizable, ghost initial: Params, g: nat, draws: Draws, ghost history: seq<Population>,
                    population: Population, params: Params, best: Option<real>)
    returns (next: Option<Population>, params': Params, best': Option<real>)
    requires Uniform(population, |initial|) && |history| == g
    requires Evolving(m.score, initial, draws, history, population, params, best)
    modifies m
    ensures Lineage(m.score, initial, draws, history + [population])
    ensures next.None? <==> initial == [] && MutationDrawn(draws, g)
    ensures next.Some? ==>
      && Uniform(next.value, |initial|)
      && Evolving(m.score, initial, draws, history + [population], next.value, params', best')
  {
    var scores := Score(m, population);
    params', best' := KeepBest(m.score, population, scores, params, best);
    Extends(m.score, initial, draws, history, population, params, best, params', best');
    next := NextGeneration(m.score, population, scores, |initial|, g, draws);
    if next.Some? {
      EvolvesOn(m.score, initial, draws, history, population, params', best', next.value);
    }
  }

  /**
   For every sequence of draws: the evaluated populations are the ones the draws make, of constant
   size and vector length, and after at least one generation the reported score is the maximum over
   every individual ever evaluated, attained by the reported parameters, which are left installed.
   A run panics exactly when the parameter vector is empty and a mutation is drawn.
   */
  method RunMetaEvolution(m: Optimizable, generations: nat, draws: Draws)
    returns (outcome: Option<EvolutionResult>, ghost history: seq<Population>)
    modifies m
    ensures outcome.None? <==> old(m.params) == [] && exists g: nat :: g < generations && MutationDrawn(draws, g)
    ensures Lineage(m.score, old(m.params), draws, history)
    ensures outcome.Some? ==> Evolved(m.score, old(m.params), generations, outcome.value, history)
    ensures outcome.Some? ==> m.params == outcome.value.bestParams
  {
    var initial := m.params;
    var population := InitialPopulation(initial, draws.offset);
    var bestScore: Option<real> := None;
    var bestParams := initial;
    history := [];
    for g := 0 to generations
      invariant |history| == g && Evolving(m.score, initial, draws, history, population, bestParams, bestScore)
      invariant Uniform(population, |initial|)
      invariant forall h: nat :: h < g && initial == [] ==> !MutationDrawn(draws, h)
    {
      var next;
      next, bestParams, bestScore := EvolveOnce(m, initial, g, draws, history, population, bestParams, bestScore);
      history := history + [population];
      if next.None? {
        return None, history;
      }
      population := next.value;
    }
    m.SetParams(bestParams);
    outcome := Some(EvolutionResult(bestParams, bestScore, generations));
  }

  lemma {:induction false} LineageExtends(score: Params -> real, initial: Params, draws: Draws,
                                          history: seq<Population>, population: Population)
    requires Lineage(score, initial, draws, history) && Uniform(population, |initial|)
    requires history == [] ==> StartsFrom(initial, draws.offset, population)
    requires history != [] ==> Succeeds(score, history[|history| - 1], population, |history| - 1, draws)
    ensures Lineage(score, initial, draws, history + [population])
  {
    var h := history + [population];
    forall g: nat | g + 1 < |h|
      ensures Succeeds(score, h[g], h[g + 1], g, draws)
    {
      if g + 1 < |history| {
        assert Succeeds(score, history[g], history[g + 1], g, draws);
      }
    }
  }

  lemma BestExtends(score: Params -> real, history: seq<Population>, population: Population,
                    params: Params, best: Option<real>, params': Params, best': real)
    requires history != [] ==> best.Some? && BestOf(score, params, best.value, history)
    requires history == [] ==> best.None?
    requires forall i :: 0 <= i < |population| ==> score(population[i]) <= best'
    requires Replaces(score, population, params, best, params', Some(best'))
    ensures BestOf(score, params', best', history + [population])
  {
    var h := history + [population];
    if i: nat :| FirstToScore(score, population, best', i) && population[i] == params'
                 && (best.Some? ==> best.value < best') {
      assert FirstEvaluated(score, best', h, |history|, i);
    } else {
      var g: nat, i: nat :| FirstEvaluated(score, best', history, g, i) && history[g][i] == params;
      assert FirstEvaluated(score, best', h, g, i);
    }
  }

  lemma {:induction false} Extends(score: Params -> real, initial: Params, draws: Draws, history: seq<Population>,
                                   population: Population, params: Params, best: Option<real>, params': Params,
                                   best': Option<real>)
    requires Evolving(score, initial, draws, history, population, params, best) && Uniform(population, |initial|)
    requires best'.Some? && Replaces(score, population, params, best, params', best')
    requires forall i :: 0 <= i < |population| ==> score(population[i]) <= best'.value
    ensures Lineage(score, initial, draws, history + [population])
    ensures BestSoFar(score, initial, history + [population], params', best')
  {
    LineageExtends(score, initial, draws, history, population);
    BestExtends(score, history, population, params, best, params', best'.value);
  }

  lemma EvolvesOn(score: Params -> real, initial: Params, draws: Draws, history: seq<Population>,
                  population: Population, params: Params, best: Option<real>, next: Population)
    requires Lineage(score, initial, draws, history + [population])
    requires BestSoFar(score, initial, history + [population], params, best)
    requires Succeeds(score, population, next, |history|, draws)
    ensures Evolving(score, initial, draws, history + [population], next, params, best)
  {
  }

  // ------------------------------------------------------------------------------ what a child is

  /** The tournament is won by a candidate that no candidate beats, by the second on a tie. */
  lemma {:induction false} WinnerIsFitter(score: Params -> real, population: Population, a: nat, b: nat)
    requires a < |population| && b < |population|
    ensures Fittest(score, Winner(score, population, a, b), [population[a], population[b]])
    ensures score(population[a]) == score(population[b]) ==> Winner(score, population, a, b) == population[b]
  {
    assert [population[a], population[b]][0] == population[a];
    assert [population[a], population[b]][1] == population[b];
    assert a % |population| == a && b % |population| == b;
  }

  /** Every gene of a child is the chosen winner's, and the mutated one, if any, is moved as drawn. */
  lemma ChildGenes(score: Params -> real, population: Population, genes: nat, b: Birth, j: nat)
    requires Uniform(population, genes) && Offspring(score, population, b).Some? && j < genes
    ensures |Offspring(score, population, b).value| == genes
    ensures var (mother, father) := (Winner(score, population, b.t1, b.t2), Winner(score, population, b.t3, b.t4));
      && |mother| == |father| == genes
      && Offspring(score, population, b).value[j] ==
         (if b.first(j) then mother[j] else father[j])
         + (if b.mutation.Some? && j == b.mutation.value.pick % genes then b.mutation.value.shift else 0.0)
  {
    OffspringUniform(score, population, genes, b);
  }

  // ------------------------------------------------------------------------ properties of lineages

  /** The draws determine every generation. */
  lemma {:induction false} DrawsDecide(score: Params -> real, initial: Params, draws: Draws,
                                       h: seq<Population>, k: seq<Population>, g: nat)
    requires Lineage(score, initial, draws, h) && Lineage(score, initial, draws, k) && g < |h| && g < |k|
    ensures h[g] == k[g]
    decreases g
  {
    if g == 0 {
      forall i: nat | i < 20
        ensures h[0][i] == k[0][i]
      {
        assert Scattered(initial, draws.offset, i, h[0][i]) && Scattered(initial, draws.offset, i, k[0][i]);
      }
    } else {
      DrawsDecide(score, initial, draws, h, k, g - 1);
      assert Succeeds(score, h[g - 1], h[g - 1 + 1], g - 1, draws);
      assert Succeeds(score, k[g - 1], k[g - 1 + 1], g - 1, draws);
      SuccessorDecided(score, h[g - 1], h[g], k[g], g - 1, draws);
    }
  }

  lemma SuccessorDecided(score: Params -> real, old': Population, p: Population, q: Population, g: nat, draws: Draws)
    requires Succeeds(score, old', p, g, draws) && Succeeds(score, old', q, g, draws)
    ensures p == q
  {
    var i: nat :| LastFittest(score, old', i) && p[0] == old'[i];
    var j: nat :| LastFittest(score, old', j) && q[0] == old'[j];
    assert i == j;
    forall n: nat | n < |p|
      ensures p[n] == q[n]
    {
      if n > 0 {
        assert Some(p[n]) == Some(q[n]);
      }
    }
  }

  /** The best score of a generation is never below that of an earlier one. */
  lemma {:induction false} MaximaNeverDecrease(score: Params -> real, initial: Params, draws: Draws,
                                               history: seq<Population>, g: nat, h: nat, p: Params)
    requires Lineage(score, initial, draws, history) && g <= h < |history| && p in history[g]
    ensures exists q :: q in history[h] && score(p) <= score(q)
    decreases h - g
  {
    if g < h {
      assert Succeeds(score, history[g], history[g + 1], g, draws);
      MaximaNeverDecrease(score, initial, draws, history, g + 1, h, history[g + 1][0]);
    } else {
      assert p in history[h] && score(p) <= score(p);
    }
  }

  ghost predicate Within(x: real, y: real, radius: real) {
    -radius <= x - y <= radius
  }

  ghost predicate Near(p: Params, q: Params, radius: real) {
    |p| == |q| && forall j :: 0 <= j < |p| ==> Within(p[j], q[j], radius)
  }

  lemma BredNear(score: Params -> real, population: Population, b: Birth, initial: Params, radius: real)
    requires Uniform(population, |initial|) && ValidBirth(b) && Offspring(score, population, b).Some?
    requires forall i :: 0 <= i < |population| ==> Near(population[i], initial, radius)
    ensures Near(Offspring(score, population, b).value, initial, radius + 0.2)
  {
    OffspringUniform(score, population, |initial|, b);
    var (mother, father) := (Winner(score, population, b.t1, b.t2), Winner(score, population, b.t3, b.t4));
    assert Near(mother, initial, radius) && Near(father, initial, radius);
    var child := Offspring(score, population, b).value;
    forall j: nat | j < |child|
      ensures Within(child[j], initial[j], radius + 0.2)
    {
      ChildGenes(score, population, |initial|, b, j);
      assert Within(mother[j], initial[j], radius) && Within(father[j], initial[j], radius);
    }
  }

  /** However the draws fall, generation `g` lies within 0.5 + 0.2 * g of the starting parameters, gene by gene. */
  lemma {:induction false} DriftBound(score: Params -> real, initial: Params, draws: Draws, history: seq<Population>,
                                      g: nat, i: nat)
    requires Lineage(score, initial, draws, history) && ValidDraws(draws) && g < |history| && i < |history[g]|
    ensures Near(history[g][i], initial, 0.5 + 0.2 * g as real)
    decreases g
  {
    if g == 0 {
      forall j: nat | j < |initial|
        ensures Within(history[0][i][j], initial[j], 0.5)
      {
        assert Scattered(initial, draws.offset, i, history[0][i]);
        assert -0.5 <= draws.offset(i, j) < 0.5;
      }
    } else {
      var before := history[g - 1];
      var radius := 0.5 + 0.2 * (g - 1) as real;
      forall k: nat | k < |before|
        ensures Near(before[k], initial, radius)
      {
        DriftBound(score, initial, draws, history, g - 1, k);
      }
      assert Succeeds(score, before, history[g - 1 + 1], g - 1, draws);
      if i == 0 {
        var k: nat :| LastFittest(score, before, k) && history[g][0] == before[k];
      } else {
        BredNear(score, before, draws.birth(g - 1, i), initial, radius);
      }
    }
  }
}
