/** Model of the best-first search engine `DynamicProgramming.solve` of
    simpler/algorithms.py.

    A concrete problem in the source is a subclass that overrides three
    callbacks; here the instance is a value carrying its initial state and the
    three callbacks as total functions.  The engine's loop may run forever on
    an infinite state space, so `Solve` takes a `fuel` bound on the number of
    states it pops; `OutOfFuel` is the outcome of a run the bound cut short. */
module Algorithms {

  import opened Wrappers

  const ONE_SOLUTION := 0
  const ONE_OPTIMAL_SOLUTION := 1
  const ALL_SOLUTIONS := 2
  const ALL_OPTIMAL_SOLUTIONS := 3

  /** An instance of a search problem: `initial_state` and the overridden
      `alternatives`, `is_final` and `penalty`. */
  datatype DynamicProgramming<!S> = DynamicProgramming(
    initialState: S,
    alternatives: S -> seq<S>,
    isFinal: S -> bool,
    penalty: S -> real)

  /** A frontier or final-state entry: `(penalty, state)`. */
  type Entry<S> = (real, S)

  /** What `solve` returns: `None`, one state, or a list of states. */
  datatype Answer<S> = NoSolution | One(state: S) | Many(states: seq<S>)

  datatype Outcome<S> = InvalidSearchType | OutOfFuel | Solved(answer: Answer<S>)

  /** The three local collections of `solve`. */
  datatype Search<S> = Search(remaining: seq<Entry<S>>, explored: set<S>, finals: seq<Entry<S>>)

  /** The result of expanding one popped state. */
  datatype Expansion<S> = Continue(search: Search<S>) | Early(state: S)

  /** The result of the main loop. */
  datatype Exploration<S> = Exhausted(finals: seq<Entry<S>>) | Returned(state: S) | Unfinished

  ghost predicate Sorted<S>(r: seq<Entry<S>>)
  {
    forall i, j :: 0 <= i < j < |r| ==> r[i].0 <= r[j].0
  }

  /** `sum(1 for p, _ in remaining if p < penalty)` */
  function CountBelow<S>(remaining: seq<Entry<S>>, p: real): (n: nat)
    ensures n <= |remaining|
  {
    if remaining == [] then 0
    else (if remaining[0].0 < p then 1 else 0) + CountBelow(remaining[1..], p)
  }

  /** `remaining.insert(index, entry)` at the index computed by `CountBelow`. */
  function Insert<S>(remaining: seq<Entry<S>>, e: Entry<S>): seq<Entry<S>>
  {
    var i := CountBelow(remaining, e.0);
    remaining[..i] + [e] + remaining[i..]
  }

  function Initial<S>(dp: DynamicProgramming<S>): Search<S>
  {
    Search([(dp.penalty(dp.initialState), dp.initialState)], {}, [])
  }

  /** The `for alternative in self.alternatives(state)` loop, over the
      alternatives not yet processed. */
  function Expand<S(==)>(dp: DynamicProgramming<S>, searchType: int, alts: seq<S>, s: Search<S>): Expansion<S>
    decreases |alts|
  {
    if alts == [] then Continue(s)
    else
      var alt := alts[0];
      if alt in s.explored then Expand(dp, searchType, alts[1..], s)
      else
        var p := dp.penalty(alt);
        if dp.isFinal(alt) then
          if searchType == ONE_SOLUTION || (p == 0.0 && searchType == ONE_OPTIMAL_SOLUTION) then Early(alt)
          else Expand(dp, searchType, alts[1..], s.(finals := s.finals + [(p, alt)]))
        else Expand(dp, searchType, alts[1..], s.(remaining := Insert(s.remaining, (p, alt))))
  }

  /** The `while len(remaining)` loop, allowed at most `fuel` more pops. */
  function Explore<S(==)>(dp: DynamicProgramming<S>, searchType: int, s: Search<S>, fuel: nat): Exploration<S>
    decreases fuel
  {
    if s.remaining == [] then Exhausted(s.finals)
    else if fuel == 0 then Unfinished
    else
      var state := s.remaining[0].1;
      match Expand(dp, searchType, dp.alternatives(state), Search(s.remaining[1..], s.explored + {state}, s.finals))
      case Early(alt) => Returned(alt)
      case Continue(next) => Explore(dp, searchType, next, fuel - 1)
  }

  function States<S>(finals: seq<Entry<S>>): seq<S>
  {
    seq(|finals|, i requires 0 <= i < |finals| => finals[i].1)
  }

  /** `min([penalty for penalty, _ in final_states])` */
  function MinPenalty<S>(finals: seq<Entry<S>>): (m: real)
    requires finals != []
    ensures exists i :: 0 <= i < |finals| && finals[i].0 == m
    ensures forall i :: 0 <= i < |finals| ==> m <= finals[i].0
  {
    if |finals| == 1 then finals[0].0
    else
      var rest := MinPenalty(finals[1..]);
      if finals[0].0 <= rest then finals[0].0 else rest
  }

  /** `[state for penalty, state in final_states if penalty == min_penalty]` */
  function Optimals<S>(finals: seq<Entry<S>>, m: real): (r: seq<S>)
    ensures (exists i :: 0 <= i < |finals| && finals[i].0 == m) ==> r != []
  {
    if finals == [] then []
    else (if finals[0].0 == m then [finals[0].1] else []) + Optimals(finals[1..], m)
  }

  /** The post-processing after the main loop. */
  function Conclude<S>(searchType: int, finals: seq<Entry<S>>): Answer<S>
  {
    if finals == [] then NoSolution
    else if searchType == ALL_SOLUTIONS then Many(States(finals))
    else
      var optimals := Optimals(finals, MinPenalty(finals));
      if searchType == ALL_OPTIMAL_SOLUTIONS then Many(optimals) else One(optimals[0])
  }

  /** What `solve(search_type)` computes within `fuel` pops. */
  function SolveSpec<S(==)>(dp: DynamicProgramming<S>, searchType: int, fuel: nat): Outcome<S>
  {
    if !(0 <= searchType < 4) then InvalidSearchType
    else
      match Explore(dp, searchType, Initial(dp), fuel)
      case Unfinished => OutOfFuel
      case Returned(alt) => Solved(One(alt))
      case Exhausted(finals) => Solved(Conclude(searchType, finals))
  }

  /** `DynamicProgramming.solve`: the loop of the source, popping the head of
      the frontier, skipping explored alternatives, returning early, recording
      final states or inserting into the frontier. */
  method Solve<S(==)>(dp: DynamicProgramming<S>, searchType: int, fuel: nat) returns (r: Outcome<S>)
    ensures !(0 <= searchType < 4) ==> r == InvalidSearchType
    ensures r == SolveSpec(dp, searchType, fuel)
  {
    if !(0 <= searchType < 4) {
      return InvalidSearchType;
    }
    var finalStates: seq<Entry<S>> := [];
    var explored: set<S> := {};
    var remaining: seq<Entry<S>> := [(dp.penalty(dp.initialState), dp.initialState)];
    var fuelLeft := fuel;
    while |remaining| > 0
      invariant Explore(dp, searchType, Search(remaining, explored, finalStates), fuelLeft)
             == Explore(dp, searchType, Initial(dp), fuel)
      decreases fuelLeft
    {
      if fuelLeft == 0 {
        return OutOfFuel;
      }
      var state := remaining[0].1;
      remaining := remaining[1..];
      explored := explored + {state};
      var e := ExpandAlternatives(dp, searchType, dp.alternatives(state), Search(remaining, explored, finalStates));
      match e {
        case Early(alternative) =>
          return Solved(One(alternative));
        case Continue(next) =>
          remaining, finalStates := next.remaining, next.finals;
      }
      fuelLeft := fuelLeft - 1;
    }
    if finalStates == [] {
      return Solved(NoSolution);
    }
    if searchType == ALL_SOLUTIONS {
      return Solved(Many(States(finalStates)));
    }
    var minPenalty := MinPenalty(finalStates);
    var optimals := Optimals(finalStates, minPenalty);
    if searchType == ALL_OPTIMAL_SOLUTIONS {
      return Solved(Many(optimals));
    }
    return Solved(One(optimals[0]));
  }

  /** The `for alternative in self.alternatives(state)` loop of `solve`:
      skip explored alternatives, return early on a final one in ONE_SOLUTION
      mode (or at penalty 0 in ONE_OPTIMAL_SOLUTION mode), record the other
      final ones and insert the rest into the frontier. */
  method ExpandAlternatives<S(==)>(dp: DynamicProgramming<S>, searchType: int, alts: seq<S>, s0: Search<S>)
    returns (e: Expansion<S>)
    ensures e == Expand(dp, searchType, alts, s0)
    ensures e.Continue? ==> e.search.explored == s0.explored
  {
    var remaining, finalStates := s0.remaining, s0.finals;
    for i := 0 to |alts|
      invariant Expand(dp, searchType, alts[i..], Search(remaining, s0.explored, finalStates))
             == Expand(dp, searchType, alts, s0)
    {
      var alternative := alts[i];
      assert alts[i..][1..] == alts[i + 1..];
      if alternative in s0.explored {
        continue;
      }
      var penalty := dp.penalty(alternative);
      if dp.isFinal(alternative) {
        if searchType == ONE_SOLUTION || (penalty == 0.0 && searchType == ONE_OPTIMAL_SOLUTION) {
          return Early(alternative);
        }
        finalStates := finalStates + [(penalty, alternative)];
      } else {
        var index := CountBelow(remaining, penalty);
        remaining := remaining[..index] + [(penalty, alternative)] + remaining[index..];
      }
    }
    assert alts[|alts|..] == [];
    return Continue(Search(remaining, s0.explored, finalStates));
  }

  // ---------------------------------------------------------------------
  // The ordered frontier

  /** In a sorted frontier the insertion index splits it into the entries
      strictly cheaper than `p` and the rest. */
  lemma {:induction false} SortedCountBelow<S>(r: seq<Entry<S>>, p: real)
    requires Sorted(r)
    ensures forall i :: 0 <= i < CountBelow(r, p) ==> r[i].0 < p
    ensures forall i :: CountBelow(r, p) <= i < |r| ==> p <= r[i].0
  {
    if r != [] {
      assert Sorted(r[1..]) by {
        forall i, j | 0 <= i < j < |r[1..]| ensures r[1..][i].0 <= r[1..][j].0 {
          assert r[1..][i] == r[i + 1] && r[1..][j] == r[j + 1];
        }
      }
      SortedCountBelow(r[1..], p);
      if r[0].0 < p {
        forall i | 0 <= i < CountBelow(r, p) ensures r[i].0 < p {
          if i > 0 { assert r[i] == r[1..][i - 1]; }
        }
        forall i | CountBelow(r, p) <= i < |r| ensures p <= r[i].0 {
          assert r[i] == r[1..][i - 1];
        }
      } else {
        if |r| > 1 {
          assert r[1..][0] == r[1];
        }
      }
    }
  }

  /** Inserting at "number of entries with strictly smaller penalty" keeps the
      frontier sorted, puts the new entry in front of every entry with the same
      penalty, and leaves the other entries in their relative order. */
  lemma InsertPlacement<S>(r: seq<Entry<S>>, e: Entry<S>)
    requires Sorted(r)
    ensures
      var k := CountBelow(r, e.0);
      var r' := Insert(r, e);
      && |r'| == |r| + 1
      && r'[k] == e
      && r'[..k] + r'[k + 1..] == r
      && Sorted(r')
      && (forall j :: 0 <= j < |r'| && j != k && r'[j].0 == e.0 ==> k < j)
  {
    var k := CountBelow(r, e.0);
    var r' := Insert(r, e);
    InsertIndices(r, e);
    InsertSplice(r, e);
    InsertSorted(r, e, k, r');
  }

  /** Taking the new entry out of `Insert(r, e)` gives back `r`. */
  lemma InsertSplice<S>(r: seq<Entry<S>>, e: Entry<S>)
    ensures
      var k := CountBelow(r, e.0);
      var r' := Insert(r, e);
      r'[..k] + r'[k + 1..] == r
  {
    var k := CountBelow(r, e.0);
    var r' := Insert(r, e);
    assert r'[..k] == r[..k] && r'[k + 1..] == r[k..];
    assert r == r[..k] + r[k..];
  }

  /** Where each entry of `Insert(r, e)` comes from. */
  lemma InsertIndices<S>(r: seq<Entry<S>>, e: Entry<S>)
    ensures
      var k := CountBelow(r, e.0);
      var r' := Insert(r, e);
      && |r'| == |r| + 1 && r'[k] == e
      && (forall j :: 0 <= j < k ==> r'[j] == r[j])
      && (forall j :: k < j < |r'| ==> r'[j] == r[j - 1])
  {
  }

  lemma InsertSorted<S>(r: seq<Entry<S>>, e: Entry<S>, k: nat, r': seq<Entry<S>>)
    requires Sorted(r) && k == CountBelow(r, e.0) && |r'| == |r| + 1 && r'[k] == e
    requires forall j :: 0 <= j < k ==> r'[j] == r[j]
    requires forall j :: k < j < |r'| ==> r'[j] == r[j - 1]
    ensures Sorted(r')
    ensures forall j :: 0 <= j < |r'| && j != k && r'[j].0 == e.0 ==> k < j
  {
    SortedCountBelow(r, e.0);
    forall i, j | 0 <= i < j < |r'| ensures r'[i].0 <= r'[j].0 {
      if j < k {
        assert r'[i] == r[i] && r'[j] == r[j];
      } else if i > k {
        assert r'[i] == r[i - 1] && r'[j] == r[j - 1];
      }
    }
  }

  lemma InsertMembers<S>(r: seq<Entry<S>>, e: Entry<S>)
    ensures forall x :: x in Insert(r, e) <==> x == e || x in r
  {
    var k := CountBelow(r, e.0);
    assert r == r[..k] + r[k..];
  }

  // ---------------------------------------------------------------------
  // The loop invariant

  /** What holds of the three collections at the head of every iteration:
      the frontier is sorted, every stored penalty is the state's penalty,
      recorded finals are final and are never the initial state, and after
      the first pop the initial state is explored. */
  ghost predicate Consistent<S>(dp: DynamicProgramming<S>, s: Search<S>)
  {
    && Sorted(s.remaining)
    && (forall i :: 0 <= i < |s.remaining| ==> s.remaining[i].0 == dp.penalty(s.remaining[i].1))
    && (forall i :: 0 <= i < |s.finals| ==>
          && s.finals[i].0 == dp.penalty(s.finals[i].1)
          && dp.isFinal(s.finals[i].1)
          && s.finals[i].1 != dp.initialState)
    && (dp.initialState in s.explored || s == Initial(dp))
  }

  /** What expanding `alts` from `s` may end in: either the search goes on
      with the invariant kept, the explored set unchanged, the finals only
      extended (and not at all in ONE_SOLUTION mode) by unexplored
      alternatives, and the frontier only extended by unexplored non-final
      alternatives; or it stops early at an unexplored final alternative
      that is not the initial state, in ONE_SOLUTION mode or at penalty 0 in
      ONE_OPTIMAL_SOLUTION mode. */
  ghost predicate ExpandSound<S>(dp: DynamicProgramming<S>, t: int, alts: seq<S>, s: Search<S>, o: Expansion<S>)
  {
    match o
    case Continue(s') =>
      && Consistent(dp, s')
      && s'.explored == s.explored
      && s.finals <= s'.finals
      && (t == ONE_SOLUTION ==> s'.finals == s.finals)
      && (forall i :: |s.finals| <= i < |s'.finals| ==> s'.finals[i].1 in alts && s'.finals[i].1 !in s.explored)
      && (forall x :: x in s.remaining ==> x in s'.remaining)
      && (forall x :: x in s'.remaining && x !in s.remaining ==>
            x.1 in alts && x.1 !in s.explored && !dp.isFinal(x.1))
    case Early(alt) =>
      && alt in alts && alt !in s.explored && dp.isFinal(alt) && alt != dp.initialState
      && (t == ONE_SOLUTION || (t == ONE_OPTIMAL_SOLUTION && dp.penalty(alt) == 0.0))
  }

  /** Expanding one state: explored alternatives are skipped, final ones are
      returned or recorded (never queued, and never recorded in ONE_SOLUTION
      mode), the other ones are queued; the explored set does not change. */
  lemma {:induction false} ExpandEffect<S>(dp: DynamicProgramming<S>, t: int, alts: seq<S>, s: Search<S>)
    requires Consistent(dp, s) && dp.initialState in s.explored
    ensures ExpandSound(dp, t, alts, s, Expand(dp, t, alts, s))
    decreases |alts|
  {
    if alts != [] {
      var alt, rest := alts[0], alts[1..];
      if alt in s.explored {
        ExpandEffect(dp, t, rest, s);
        SkipLift(dp, t, alts, s, Expand(dp, t, rest, s));
      } else {
        var p := dp.penalty(alt);
        if dp.isFinal(alt) {
          if !(t == ONE_SOLUTION || (p == 0.0 && t == ONE_OPTIMAL_SOLUTION)) {
            var s1 := s.(finals := s.finals + [(p, alt)]);
            assert Consistent(dp, s1);
            ExpandEffect(dp, t, rest, s1);
            RecordLift(dp, t, alts, s, Expand(dp, t, rest, s1));
          }
        } else {
          var s1 := s.(remaining := Insert(s.remaining, (p, alt)));
          QueueConsistent(dp, s, alt);
          ExpandEffect(dp, t, rest, s1);
          QueueLift(dp, t, alts, s, Expand(dp, t, rest, s1));
        }
      }
    }
  }

  /** An explored alternative changes nothing. */
  lemma SkipLift<S>(dp: DynamicProgramming<S>, t: int, alts: seq<S>, s: Search<S>, o: Expansion<S>)
    requires alts != [] && ExpandSound(dp, t, alts[1..], s, o)
    ensures ExpandSound(dp, t, alts, s, o)
  {
    assert forall x :: x in alts[1..] ==> x in alts;
  }

  /** A final alternative that is recorded is the one new entry of the
      finals. */
  lemma RecordLift<S>(dp: DynamicProgramming<S>, t: int, alts: seq<S>, s: Search<S>, o: Expansion<S>)
    requires alts != [] && alts[0] !in s.explored && t != ONE_SOLUTION
    requires ExpandSound(dp, t, alts[1..], s.(finals := s.finals + [(dp.penalty(alts[0]), alts[0])]), o)
    ensures ExpandSound(dp, t, alts, s, o)
  {
    assert forall x :: x in alts[1..] ==> x in alts;
    var s1 := s.(finals := s.finals + [(dp.penalty(alts[0]), alts[0])]);
    if o.Continue? {
      var s' := o.search;
      assert s'.finals[|s.finals|] == s1.finals[|s.finals|];
    }
  }

  /** A non-final alternative that is queued is the one new entry of the
      frontier. */
  lemma QueueLift<S>(dp: DynamicProgramming<S>, t: int, alts: seq<S>, s: Search<S>, o: Expansion<S>)
    requires alts != [] && alts[0] !in s.explored && !dp.isFinal(alts[0])
    requires ExpandSound(dp, t, alts[1..], s.(remaining := Insert(s.remaining, (dp.penalty(alts[0]), alts[0]))), o)
    ensures ExpandSound(dp, t, alts, s, o)
  {
    assert forall x :: x in alts[1..] ==> x in alts;
    InsertMembers(s.remaining, (dp.penalty(alts[0]), alts[0]));
  }

  /** Queuing a non-final alternative at its insertion index keeps the
      invariant. */
  lemma QueueConsistent<S>(dp: DynamicProgramming<S>, s: Search<S>, alt: S)
    requires Consistent(dp, s) && dp.initialState in s.explored
    ensures Consistent(dp, s.(remaining := Insert(s.remaining, (dp.penalty(alt), alt))))
  {
    var p := dp.penalty(alt);
    var s1 := s.(remaining := Insert(s.remaining, (p, alt)));
    InsertPlacement(s.remaining, (p, alt));
    InsertIndices(s.remaining, (p, alt));
    var k := CountBelow(s.remaining, p);
    forall i | 0 <= i < |s1.remaining| && i != k
      ensures s1.remaining[i].0 == dp.penalty(s1.remaining[i].1)
    {
      if i < k {
        assert s1.remaining[i] == s.remaining[i];
      } else {
        assert s1.remaining[i] == s.remaining[i - 1];
      }
    }
  }

  /** One iteration of the main loop: the popped state has the least penalty
      in the frontier, it joins the explored set, and the frontier stays
      sorted. */
  lemma PopStep<S>(dp: DynamicProgramming<S>, t: int, s: Search<S>)
    requires Consistent(dp, s) && s.remaining != []
    ensures forall i :: 0 <= i < |s.remaining| ==> s.remaining[0].0 <= s.remaining[i].0
    ensures
      var state := s.remaining[0].1;
      var next := Search(s.remaining[1..], s.explored + {state}, s.finals);
      && Consistent(dp, next)
      && dp.initialState in next.explored
      && (Expand(dp, t, dp.alternatives(state), next).Continue? ==>
            && Consistent(dp, Expand(dp, t, dp.alternatives(state), next).search)
            && Expand(dp, t, dp.alternatives(state), next).search.explored == s.explored + {state})
  {
    var state := s.remaining[0].1;
    var next := Search(s.remaining[1..], s.explored + {state}, s.finals);
    assert forall i :: 0 <= i < |next.remaining| ==> next.remaining[i] == s.remaining[i + 1];
    assert Consistent(dp, next);
    ExpandEffect(dp, t, dp.alternatives(state), next);
  }

  /** What the main loop may end in, from `s`: exhausted with the finals of
      `s` extended (not at all in ONE_SOLUTION mode) and every final carrying
      its own penalty, final and not the initial state; or returned early
      with a final state that is not the initial one, in ONE_SOLUTION mode or
      at penalty 0 in ONE_OPTIMAL_SOLUTION mode. */
  ghost predicate ExploreSound<S>(dp: DynamicProgramming<S>, t: int, s: Search<S>, r: Exploration<S>)
  {
    match r
    case Exhausted(finals) =>
      && s.finals <= finals
      && (t == ONE_SOLUTION ==> finals == s.finals)
      && (forall i :: 0 <= i < |finals| ==>
            finals[i].0 == dp.penalty(finals[i].1) && dp.isFinal(finals[i].1) && finals[i].1 != dp.initialState)
    case Returned(alt) =>
      && dp.isFinal(alt) && alt != dp.initialState
      && (t == ONE_SOLUTION || (t == ONE_OPTIMAL_SOLUTION && dp.penalty(alt) == 0.0))
    case Unfinished => true
  }

  /** The main loop from a consistent state: what it returns early or records
      is final and is never the initial state; in ONE_SOLUTION mode nothing is
      ever recorded. */
  lemma {:induction false} ExploreEffect<S>(dp: DynamicProgramming<S>, t: int, s: Search<S>, fuel: nat)
    requires Consistent(dp, s)
    ensures ExploreSound(dp, t, s, Explore(dp, t, s, fuel))
    decreases fuel
  {
    if s.remaining != [] && fuel > 0 {
      var state := s.remaining[0].1;
      var next := Search(s.remaining[1..], s.explored + {state}, s.finals);
      PopExpand(dp, t, s);
      var e := Expand(dp, t, dp.alternatives(state), next);
      if e.Continue? {
        ExploreEffect(dp, t, e.search, fuel - 1);
        ExploreLift(dp, t, s, e.search, Explore(dp, t, e.search, fuel - 1));
      }
    }
  }

  /** An expansion as the main loop from `s` sees it: either a next
      consistent state whose finals extend those of `s`, or an early return
      the loop may make. */
  ghost predicate ExpandStep<S>(dp: DynamicProgramming<S>, t: int, s: Search<S>, e: Expansion<S>)
  {
    match e
    case Continue(s') =>
      Consistent(dp, s') && s.finals <= s'.finals && (t == ONE_SOLUTION ==> s'.finals == s.finals)
    case Early(alt) => ExploreSound(dp, t, s, Returned(alt))
  }

  /** One pop of the main loop and the expansion of the popped state. */
  lemma PopExpand<S>(dp: DynamicProgramming<S>, t: int, s: Search<S>)
    requires Consistent(dp, s) && s.remaining != []
    ensures ExpandStep(dp, t, s, Expand(dp, t, dp.alternatives(s.remaining[0].1),
                                          Search(s.remaining[1..], s.explored + {s.remaining[0].1}, s.finals)))
  {
    var state := s.remaining[0].1;
    var next := Search(s.remaining[1..], s.explored + {state}, s.finals);
    PopStep(dp, t, s);
    ExpandEffect(dp, t, dp.alternatives(state), next);
  }

  /** What the rest of the loop does from a later state, whose finals extend
      those of `s` (and equal them in ONE_SOLUTION mode), it does from `s`. */
  lemma ExploreLift<S>(dp: DynamicProgramming<S>, t: int, s: Search<S>, s': Search<S>, r: Exploration<S>)
    requires s.finals <= s'.finals && (t == ONE_SOLUTION ==> s'.finals == s.finals)
    requires ExploreSound(dp, t, s', r)
    ensures ExploreSound(dp, t, s, r)
  {
  }

  lemma InitialConsistent<S>(dp: DynamicProgramming<S>)
    ensures Consistent(dp, Initial(dp))
  {
  }

  // ---------------------------------------------------------------------
  // The four search modes

  /** ALL_SOLUTIONS and ALL_OPTIMAL_SOLUTIONS explore identically and never
      return early; ONE_OPTIMAL_SOLUTION explores like them unless it returns
      early. */
  lemma {:induction false} ExpandModes<S>(dp: DynamicProgramming<S>, alts: seq<S>, s: Search<S>)
    ensures Expand(dp, ALL_SOLUTIONS, alts, s) == Expand(dp, ALL_OPTIMAL_SOLUTIONS, alts, s)
    ensures Expand(dp, ALL_SOLUTIONS, alts, s).Continue?
    ensures Expand(dp, ONE_OPTIMAL_SOLUTION, alts, s).Early?
         || Expand(dp, ONE_OPTIMAL_SOLUTION, alts, s) == Expand(dp, ALL_SOLUTIONS, alts, s)
    decreases |alts|
  {
    if alts != [] {
      var alt := alts[0];
      var p := dp.penalty(alt);
      if alt in s.explored {
        ExpandModes(dp, alts[1..], s);
      } else if dp.isFinal(alt) {
        ExpandModes(dp, alts[1..], s.(finals := s.finals + [(p, alt)]));
      } else {
        ExpandModes(dp, alts[1..], s.(remaining := Insert(s.remaining, (p, alt))));
      }
    }
  }

  lemma {:induction false} ExploreModes<S>(dp: DynamicProgramming<S>, s: Search<S>, fuel: nat)
    ensures Explore(dp, ALL_SOLUTIONS, s, fuel) == Explore(dp, ALL_OPTIMAL_SOLUTIONS, s, fuel)
    ensures !Explore(dp, ALL_SOLUTIONS, s, fuel).Returned?
    ensures Explore(dp, ONE_OPTIMAL_SOLUTION, s, fuel).Returned?
         || Explore(dp, ONE_OPTIMAL_SOLUTION, s, fuel) == Explore(dp, ALL_SOLUTIONS, s, fuel)
    decreases fuel
  {
    if s.remaining != [] && fuel > 0 {
      var state := s.remaining[0].1;
      var next := Search(s.remaining[1..], s.explored + {state}, s.finals);
      ExpandModes(dp, dp.alternatives(state), next);
      var e := Expand(dp, ALL_SOLUTIONS, dp.alternatives(state), next);
      ExploreModes(dp, e.search, fuel - 1);
    }
  }

  // ---------------------------------------------------------------------
  // The order in which alternatives are generated

  /** The alternatives the `for` loop does not skip, in order (repeats
      included: `explored` only grows when a state is popped). */
  function Unexplored<S>(alts: seq<S>, explored: set<S>): seq<S>
  {
    if alts == [] then []
    else (if alts[0] in explored then [] else [alts[0]]) + Unexplored(alts[1..], explored)
  }

  /** `(penalty, state)` for the final states of `xs`, in order. */
  function FinalEntries<S>(dp: DynamicProgramming<S>, xs: seq<S>): seq<Entry<S>>
  {
    if xs == [] then []
    else (if dp.isFinal(xs[0]) then [(dp.penalty(xs[0]), xs[0])] else []) + FinalEntries(dp, xs[1..])
  }

  /** `(penalty, state)` for the non-final states of `xs`, in order. */
  function OpenEntries<S>(dp: DynamicProgramming<S>, xs: seq<S>): seq<Entry<S>>
  {
    if xs == [] then []
    else (if dp.isFinal(xs[0]) then [] else [(dp.penalty(xs[0]), xs[0])]) + OpenEntries(dp, xs[1..])
  }

  /** The condition of the early `return alternative` in mode `t`. */
  predicate Stops<S>(dp: DynamicProgramming<S>, t: int, x: S)
  {
    dp.isFinal(x) && (t == ONE_SOLUTION || (dp.penalty(x) == 0.0 && t == ONE_OPTIMAL_SOLUTION))
  }

  /** The first state of `xs` that stops the search in mode `t`. */
  function FirstStop<S>(dp: DynamicProgramming<S>, t: int, xs: seq<S>): Option<S>
  {
    if xs == [] then None
    else if Stops(dp, t, xs[0]) then Some(xs[0])
    else FirstStop(dp, t, xs[1..])
  }

  /** Every alternative the exhaustive search generates and does not skip,
      in the order the loops meet it, within `fuel` pops. */
  function Trace<S(==)>(dp: DynamicProgramming<S>, s: Search<S>, fuel: nat): seq<S>
    decreases fuel
  {
    if s.remaining == [] || fuel == 0 then []
    else
      var state := s.remaining[0].1;
      var next := Search(s.remaining[1..], s.explored + {state}, s.finals);
      var news := Unexplored(dp.alternatives(state), next.explored);
      match Expand(dp, ALL_SOLUTIONS, dp.alternatives(state), next)
      case Continue(s') => news + Trace(dp, s', fuel - 1)
      case Early(_) => news
  }

  /** `FirstStop` is the stopping state of least index, and `None` exactly
      when no state of `xs` stops the search. */
  lemma {:induction false} FirstStopIndex<S>(dp: DynamicProgramming<S>, t: int, xs: seq<S>)
    ensures FirstStop(dp, t, xs).None? <==> forall j :: 0 <= j < |xs| ==> !Stops(dp, t, xs[j])
    ensures FirstStop(dp, t, xs).Some? ==>
      exists j :: 0 <= j < |xs| && xs[j] == FirstStop(dp, t, xs).value && Stops(dp, t, xs[j])
        && forall i :: 0 <= i < j ==> !Stops(dp, t, xs[i])
  {
    if xs != [] {
      FirstStopIndex(dp, t, xs[1..]);
      if !Stops(dp, t, xs[0]) {
        if FirstStop(dp, t, xs[1..]).Some? {
          var j :| 0 <= j < |xs[1..]| && xs[1..][j] == FirstStop(dp, t, xs[1..]).value && Stops(dp, t, xs[1..][j])
            && forall i :: 0 <= i < j ==> !Stops(dp, t, xs[1..][i]);
          assert xs[j + 1] == xs[1..][j];
          forall i | 0 <= i < j + 1 ensures !Stops(dp, t, xs[i]) {
            if i > 0 { assert xs[i] == xs[1..][i - 1]; }
          }
        } else {
          forall j | 0 <= j < |xs| ensures !Stops(dp, t, xs[j]) {
            if j > 0 { assert xs[j] == xs[1..][j - 1]; }
          }
        }
      }
    }
  }

  lemma {:induction false} FirstStopAppend<S>(dp: DynamicProgramming<S>, t: int, xs: seq<S>, ys: seq<S>)
    ensures FirstStop(dp, t, xs + ys) == if FirstStop(dp, t, xs).Some? then FirstStop(dp, t, xs) else FirstStop(dp, t, ys)
  {
    if xs != [] {
      assert (xs + ys)[0] == xs[0] && (xs + ys)[1..] == xs[1..] + ys;
      FirstStopAppend(dp, t, xs[1..], ys);
    } else {
      assert xs + ys == ys;
    }
  }

  lemma {:induction false} FinalEntriesAppend<S>(dp: DynamicProgramming<S>, xs: seq<S>, ys: seq<S>)
    ensures FinalEntries(dp, xs + ys) == FinalEntries(dp, xs) + FinalEntries(dp, ys)
  {
    if xs != [] {
      assert (xs + ys)[0] == xs[0] && (xs + ys)[1..] == xs[1..] + ys;
      FinalEntriesAppend(dp, xs[1..], ys);
    } else {
      assert xs + ys == ys;
    }
  }

  /** In ONE_SOLUTION mode every final state stops the search, so when none
      does there is nothing to record. */
  lemma {:induction false} NoStopNoFinal<S>(dp: DynamicProgramming<S>, xs: seq<S>)
    requires FirstStop(dp, ONE_SOLUTION, xs).None?
    ensures FinalEntries(dp, xs) == []
  {
    if xs != [] {
      NoStopNoFinal(dp, xs[1..]);
    }
  }

  /** `remaining.insert` adds exactly one entry. */
  lemma InsertMultiset<S>(r: seq<Entry<S>>, e: Entry<S>)
    ensures multiset(Insert(r, e)) == multiset(r) + multiset{e}
  {
    var k := CountBelow(r, e.0);
    assert r == r[..k] + r[k..];
  }

  /** Expanding without an early return (always so in ALL_SOLUTIONS mode)
      records every unexplored final alternative, in the order generated and
      with repeats, after the finals already recorded, and leaves the
      explored set unchanged. */
  lemma {:induction false} ExpandRecords<S>(dp: DynamicProgramming<S>, alts: seq<S>, s: Search<S>)
    ensures Expand(dp, ALL_SOLUTIONS, alts, s).Continue?
    ensures Expand(dp, ALL_SOLUTIONS, alts, s).search.explored == s.explored
    ensures Expand(dp, ALL_SOLUTIONS, alts, s).search.finals == s.finals + FinalEntries(dp, Unexplored(alts, s.explored))
    decreases |alts|
  {
    if alts != [] {
      var alt, rest := alts[0], alts[1..];
      var p := dp.penalty(alt);
      if alt in s.explored {
        assert Unexplored(alts, s.explored) == Unexplored(rest, s.explored);
        ExpandRecords(dp, rest, s);
      } else {
        var news := Unexplored(rest, s.explored);
        assert Unexplored(alts, s.explored) == [alt] + news;
        assert ([alt] + news)[1..] == news;
        if dp.isFinal(alt) {
          var s1 := s.(finals := s.finals + [(p, alt)]);
          ExpandRecords(dp, rest, s1);
          assert s1.finals + FinalEntries(dp, news) == s.finals + ([(p, alt)] + FinalEntries(dp, news));
        } else {
          ExpandRecords(dp, rest, s.(remaining := Insert(s.remaining, (p, alt))));
        }
      }
    }
  }

  /** Expanding without an early return queues every unexplored non-final
      alternative and nothing else. */
  lemma {:induction false} ExpandQueues<S>(dp: DynamicProgramming<S>, alts: seq<S>, s: Search<S>)
    ensures Expand(dp, ALL_SOLUTIONS, alts, s).Continue?
    ensures multiset(Expand(dp, ALL_SOLUTIONS, alts, s).search.remaining)
         == multiset(s.remaining) + multiset(OpenEntries(dp, Unexplored(alts, s.explored)))
    decreases |alts|
  {
    if alts != [] {
      var alt, rest := alts[0], alts[1..];
      var p := dp.penalty(alt);
      if alt in s.explored {
        assert Unexplored(alts, s.explored) == Unexplored(rest, s.explored);
        ExpandQueues(dp, rest, s);
      } else {
        var news := Unexplored(rest, s.explored);
        assert Unexplored(alts, s.explored) == [alt] + news;
        assert ([alt] + news)[1..] == news;
        if dp.isFinal(alt) {
          ExpandQueues(dp, rest, s.(finals := s.finals + [(p, alt)]));
        } else {
          var s1 := s.(remaining := Insert(s.remaining, (p, alt)));
          ExpandQueues(dp, rest, s1);
          InsertMultiset(s.remaining, (p, alt));
        }
      }
    }
  }

  /** Expanding in mode `t` returns early with the first unexplored
      alternative that satisfies the early-return condition, and otherwise
      does exactly what the exhaustive modes do. */
  lemma {:induction false} ExpandStops<S>(dp: DynamicProgramming<S>, t: int, alts: seq<S>, s: Search<S>)
    ensures match FirstStop(dp, t, Unexplored(alts, s.explored))
      case Some(a) => Expand(dp, t, alts, s) == Early(a)
      case None => Expand(dp, t, alts, s) == Expand(dp, ALL_SOLUTIONS, alts, s)
    decreases |alts|
  {
    if alts != [] {
      var alt, rest := alts[0], alts[1..];
      var p := dp.penalty(alt);
      if alt in s.explored {
        assert Unexplored(alts, s.explored) == [] + Unexplored(rest, s.explored) == Unexplored(rest, s.explored);
        ExpandStops(dp, t, rest, s);
      } else {
        assert Unexplored(alts, s.explored) == [alt] + Unexplored(rest, s.explored);
        if !Stops(dp, t, alt) {
          if dp.isFinal(alt) {
            ExpandStops(dp, t, rest, s.(finals := s.finals + [(p, alt)]));
          } else {
            ExpandStops(dp, t, rest, s.(remaining := Insert(s.remaining, (p, alt))));
          }
        }
      }
    }
  }

  /** The main loop in mode `t` returns the first generated alternative that
      satisfies the early-return condition, and otherwise runs exactly as the
      exhaustive search does. */
  lemma {:induction false} ExploreStops<S>(dp: DynamicProgramming<S>, t: int, s: Search<S>, fuel: nat)
    ensures match FirstStop(dp, t, Trace(dp, s, fuel))
      case Some(a) => Explore(dp, t, s, fuel) == Returned(a)
      case None => Explore(dp, t, s, fuel) == Explore(dp, ALL_SOLUTIONS, s, fuel)
    decreases fuel
  {
    if s.remaining != [] && fuel > 0 {
      var state := s.remaining[0].1;
      var alts := dp.alternatives(state);
      var next := Search(s.remaining[1..], s.explored + {state}, s.finals);
      var news := Unexplored(alts, next.explored);
      ExpandStops(dp, t, alts, next);
      ExpandRecords(dp, alts, next);
      var s' := Expand(dp, ALL_SOLUTIONS, alts, next).search;
      FirstStopAppend(dp, t, news, Trace(dp, s', fuel - 1));
      if FirstStop(dp, t, news).None? {
        ExploreStops(dp, t, s', fuel - 1);
      }
    }
  }

  /** One pop of the exhaustive search, as `Trace` and `Explore` see it. */
  lemma ExhaustiveStep<S>(dp: DynamicProgramming<S>, s: Search<S>, fuel: nat, alts: seq<S>, next: Search<S>)
    requires s.remaining != [] && fuel > 0
    requires alts == dp.alternatives(s.remaining[0].1)
    requires next == Search(s.remaining[1..], s.explored + {s.remaining[0].1}, s.finals)
    ensures Expand(dp, ALL_SOLUTIONS, alts, next).Continue?
    ensures Expand(dp, ALL_SOLUTIONS, alts, next).search.finals == s.finals + FinalEntries(dp, Unexplored(alts, next.explored))
    ensures Trace(dp, s, fuel) == Unexplored(alts, next.explored) + Trace(dp, Expand(dp, ALL_SOLUTIONS, alts, next).search, fuel - 1)
    ensures Explore(dp, ALL_SOLUTIONS, s, fuel) == Explore(dp, ALL_SOLUTIONS, Expand(dp, ALL_SOLUTIONS, alts, next).search, fuel - 1)
  {
    ExpandRecords(dp, alts, next);
  }

  /** An exhaustive run appends to the recorded finals every final
      alternative generated, in order, repeats included. */
  lemma {:induction false} ExploreRecords<S>(dp: DynamicProgramming<S>, s: Search<S>, fuel: nat)
    ensures Explore(dp, ALL_SOLUTIONS, s, fuel).Exhausted? ==>
      Explore(dp, ALL_SOLUTIONS, s, fuel).finals == s.finals + FinalEntries(dp, Trace(dp, s, fuel))
    decreases fuel
  {
    if s.remaining != [] && fuel > 0 {
      var alts := dp.alternatives(s.remaining[0].1);
      var next := Search(s.remaining[1..], s.explored + {s.remaining[0].1}, s.finals);
      ExhaustiveStep(dp, s, fuel, alts, next);
      var s' := Expand(dp, ALL_SOLUTIONS, alts, next).search;
      var head, tail := FinalEntries(dp, Unexplored(alts, next.explored)), FinalEntries(dp, Trace(dp, s', fuel - 1));
      ExploreRecords(dp, s', fuel - 1);
      FinalEntriesAppend(dp, Unexplored(alts, next.explored), Trace(dp, s', fuel - 1));
      assert (s.finals + head) + tail == s.finals + (head + tail);
    } else {
      assert FinalEntries(dp, Trace(dp, s, fuel)) == [];
    }
  }

  /** ONE_SOLUTION answers with a final state that is not the initial one,
      or with `None` after an exhaustive search. */
  lemma OneSolutionAnswer<S>(dp: DynamicProgramming<S>, fuel: nat)
    ensures SolveSpec(dp, ONE_SOLUTION, fuel) == OutOfFuel
         || SolveSpec(dp, ONE_SOLUTION, fuel) == Solved(NoSolution)
         || (SolveSpec(dp, ONE_SOLUTION, fuel).Solved? && SolveSpec(dp, ONE_SOLUTION, fuel).answer.One?
             && dp.isFinal(SolveSpec(dp, ONE_SOLUTION, fuel).answer.state)
             && SolveSpec(dp, ONE_SOLUTION, fuel).answer.state != dp.initialState)
    ensures match FirstStop(dp, ONE_SOLUTION, Trace(dp, Initial(dp), fuel))
      case Some(a) => SolveSpec(dp, ONE_SOLUTION, fuel) == Solved(One(a))
      case None => SolveSpec(dp, ONE_SOLUTION, fuel) == OutOfFuel || SolveSpec(dp, ONE_SOLUTION, fuel) == Solved(NoSolution)
  {
    ExploreEffect(dp, ONE_SOLUTION, Initial(dp), fuel);
    var trace := Trace(dp, Initial(dp), fuel);
    ExploreStops(dp, ONE_SOLUTION, Initial(dp), fuel);
    if FirstStop(dp, ONE_SOLUTION, trace).None? {
      ExploreModes(dp, Initial(dp), fuel);
      ExploreRecords(dp, Initial(dp), fuel);
      NoStopNoFinal(dp, trace);
    }
  }

  /** ALL_SOLUTIONS answers with a non-empty list of final states, none of
      them the initial state, or with `None` when nothing was recorded. */
  lemma AllSolutionsAnswer<S>(dp: DynamicProgramming<S>, fuel: nat)
    ensures match SolveSpec(dp, ALL_SOLUTIONS, fuel)
      case Solved(Many(xs)) =>
        xs != [] && forall i :: 0 <= i < |xs| ==> dp.isFinal(xs[i]) && xs[i] != dp.initialState
      case Solved(a) => a == NoSolution
      case OutOfFuel => true
      case InvalidSearchType => false
    ensures SolveSpec(dp, ALL_SOLUTIONS, fuel) != OutOfFuel ==>
      var xs := States(FinalEntries(dp, Trace(dp, Initial(dp), fuel)));
      SolveSpec(dp, ALL_SOLUTIONS, fuel) == Solved(if xs == [] then NoSolution else Many(xs))
  {
    ExploreEffect(dp, ALL_SOLUTIONS, Initial(dp), fuel);
    ExploreModes(dp, Initial(dp), fuel);
    ExploreRecords(dp, Initial(dp), fuel);
    match Explore(dp, ALL_SOLUTIONS, Initial(dp), fuel)
    case Exhausted(finals) =>
      assert finals == FinalEntries(dp, Trace(dp, Initial(dp), fuel));
      assert SolveSpec(dp, ALL_SOLUTIONS, fuel) == Solved(Conclude(ALL_SOLUTIONS, finals));
    case Unfinished =>
    case Returned(_) =>
  }

  /** The states of `xs` whose penalty is `m`, in order. */
  function WithPenalty<S>(dp: DynamicProgramming<S>, xs: seq<S>, m: real): seq<S>
  {
    if xs == [] then []
    else (if dp.penalty(xs[0]) == m then [xs[0]] else []) + WithPenalty(dp, xs[1..], m)
  }

  lemma {:induction false} OptimalsOfConsistent<S>(dp: DynamicProgramming<S>, finals: seq<Entry<S>>, m: real)
    requires forall i :: 0 <= i < |finals| ==> finals[i].0 == dp.penalty(finals[i].1)
    ensures Optimals(finals, m) == WithPenalty(dp, States(finals), m)
  {
    if finals != [] {
      OptimalsOfConsistent(dp, finals[1..], m);
      assert States(finals)[1..] == States(finals[1..]);
    }
  }

  /** ALL_OPTIMAL_SOLUTIONS answers with exactly those states of the
      ALL_SOLUTIONS answer whose penalty is the least among them, in the same
      order, and that list is never empty; both answer `None` (or run out of
      fuel) together. */
  lemma AllOptimalIsCheapestOfAll<S>(dp: DynamicProgramming<S>, fuel: nat)
    ensures match SolveSpec(dp, ALL_SOLUTIONS, fuel)
      case Solved(Many(xs)) =>
        && xs != []
        && (exists i :: 0 <= i < |xs| && (forall j :: 0 <= j < |xs| ==> dp.penalty(xs[i]) <= dp.penalty(xs[j]))
              && SolveSpec(dp, ALL_OPTIMAL_SOLUTIONS, fuel) == Solved(Many(WithPenalty(dp, xs, dp.penalty(xs[i])))))
        && SolveSpec(dp, ALL_OPTIMAL_SOLUTIONS, fuel).answer.states != []
      case other => SolveSpec(dp, ALL_OPTIMAL_SOLUTIONS, fuel) == other
  {
    ExploreModes(dp, Initial(dp), fuel);
    ExploreEffect(dp, ALL_SOLUTIONS, Initial(dp), fuel);
    match Explore(dp, ALL_SOLUTIONS, Initial(dp), fuel)
    case Exhausted(finals) =>
      if finals != [] {
        CheapestOfAll(dp, finals);
        assert SolveSpec(dp, ALL_SOLUTIONS, fuel) == Solved(Many(States(finals)));
        assert SolveSpec(dp, ALL_OPTIMAL_SOLUTIONS, fuel) == Solved(Many(Optimals(finals, MinPenalty(finals))));
      } else {
        assert SolveSpec(dp, ALL_SOLUTIONS, fuel) == Solved(NoSolution) == SolveSpec(dp, ALL_OPTIMAL_SOLUTIONS, fuel);
      }
    case Unfinished =>
      assert SolveSpec(dp, ALL_SOLUTIONS, fuel) == OutOfFuel == SolveSpec(dp, ALL_OPTIMAL_SOLUTIONS, fuel);
    case Returned(_) =>
  }

  /** Over recorded finals whose stored penalties are the states' own, the
      optimal states are those of least penalty among all the states, in
      order, and there is at least one. */
  lemma CheapestOfAll<S>(dp: DynamicProgramming<S>, finals: seq<Entry<S>>)
    requires finals != [] && forall i :: 0 <= i < |finals| ==> finals[i].0 == dp.penalty(finals[i].1)
    ensures
      var xs := States(finals);
      exists i :: 0 <= i < |xs| && (forall j :: 0 <= j < |xs| ==> dp.penalty(xs[i]) <= dp.penalty(xs[j]))
        && Optimals(finals, MinPenalty(finals)) == WithPenalty(dp, xs, dp.penalty(xs[i]))
    ensures Optimals(finals, MinPenalty(finals)) != []
  {
    var m := MinPenalty(finals);
    var xs := States(finals);
    var i :| 0 <= i < |finals| && finals[i].0 == m;
    assert dp.penalty(xs[i]) == m;
    OptimalsOfConsistent(dp, finals, m);
  }

  /** ONE_OPTIMAL_SOLUTION either returns early with a final state of penalty
      zero, or gives the first element of the ALL_OPTIMAL_SOLUTIONS answer
      (and `None` or out of fuel when that does). */
  lemma OneOptimalAnswer<S>(dp: DynamicProgramming<S>, fuel: nat)
    ensures
      || (SolveSpec(dp, ONE_OPTIMAL_SOLUTION, fuel).Solved? && SolveSpec(dp, ONE_OPTIMAL_SOLUTION, fuel).answer.One?
          && dp.isFinal(SolveSpec(dp, ONE_OPTIMAL_SOLUTION, fuel).answer.state)
          && dp.penalty(SolveSpec(dp, ONE_OPTIMAL_SOLUTION, fuel).answer.state) == 0.0)
      || (match SolveSpec(dp, ALL_OPTIMAL_SOLUTIONS, fuel)
          case Solved(Many(ys)) => ys != [] && SolveSpec(dp, ONE_OPTIMAL_SOLUTION, fuel) == Solved(One(ys[0]))
          case other => SolveSpec(dp, ONE_OPTIMAL_SOLUTION, fuel) == other)
    ensures match FirstStop(dp, ONE_OPTIMAL_SOLUTION, Trace(dp, Initial(dp), fuel))
      case Some(a) => SolveSpec(dp, ONE_OPTIMAL_SOLUTION, fuel) == Solved(One(a))
      case None =>
        match SolveSpec(dp, ALL_OPTIMAL_SOLUTIONS, fuel)
        case Solved(Many(ys)) => ys != [] && SolveSpec(dp, ONE_OPTIMAL_SOLUTION, fuel) == Solved(One(ys[0]))
        case other => SolveSpec(dp, ONE_OPTIMAL_SOLUTION, fuel) == other
  {
    ExploreModes(dp, Initial(dp), fuel);
    ExploreEffect(dp, ONE_OPTIMAL_SOLUTION, Initial(dp), fuel);
    ExploreStops(dp, ONE_OPTIMAL_SOLUTION, Initial(dp), fuel);
  }

  // ---------------------------------------------------------------------
  // The weighted shortest path used as a worked scenario: edges A->B (1),
  // A->C (4), B->D (1), C->D (1); a state is (node, accumulated cost).

  function PathAlternatives(s: (string, int)): seq<(string, int)>
  {
    if s == ("A", 0) then [("B", 1), ("C", 4)]
    else if s == ("B", 1) then [("D", 2)]
    else if s == ("C", 4) then [("D", 5)]
    else []
  }

  function PathProblem(): DynamicProgramming<(string, int)>
  {
    DynamicProgramming(("A", 0), PathAlternatives, (s: (string, int)) => s.0 == "D", (s: (string, int)) => s.1 as real)
  }

  /** The first pop, of ("A", 0), queues ("B", 1) before ("C", 4) in every mode. */
  lemma PathFirstPop(t: int)
    ensures Explore(PathProblem(), t, Initial(PathProblem()), 3)
         == Explore(PathProblem(), t, Search([(1.0, ("B", 1)), (4.0, ("C", 4))], {("A", 0)}, []), 2)
  {
    var dp := PathProblem();
    var a, b, c := ("A", 0), ("B", 1), ("C", 4);
    assert dp.alternatives(a) == [b, c] && [b, c][1..] == [c];
    assert a != b && a != c && !dp.isFinal(b) && !dp.isFinal(c);
    assert dp.penalty(b) == 1.0 && dp.penalty(c) == 4.0;
    assert Initial(dp).remaining[1..] == [] && Initial(dp).remaining[0].1 == a && {} + {a} == {a};
    assert Insert([], (1.0, b)) == [(1.0, b)];
    assert CountBelow([(1.0, b)], 4.0) == 1;
    assert Insert([(1.0, b)], (4.0, c)) == [(1.0, b), (4.0, c)];
    var s0 := Search([], {a}, []);
    assert Expand(dp, t, [c], s0.(remaining := [(1.0, b)]))
        == Expand(dp, t, [], Search([(1.0, b), (4.0, c)], {a}, []));
    assert Expand(dp, t, [b, c], s0) == Expand(dp, t, [c], s0.(remaining := [(1.0, b)]));
  }

  /** Without an early return, both final alternatives are recorded in the
      order they are generated. */
  lemma PathExhaustive(t: int)
    requires ONE_OPTIMAL_SOLUTION <= t <= ALL_OPTIMAL_SOLUTIONS
    ensures Explore(PathProblem(), t, Initial(PathProblem()), 3) == Exhausted([(2.0, ("D", 2)), (5.0, ("D", 5))])
  {
    PathFirstPop(t);
    PathSecondPop(t);
    PathThirdPop(t);
  }

  /** The second pop, of ("B", 1), records ("D", 2) as the first final. */
  lemma PathSecondPop(t: int)
    requires ONE_OPTIMAL_SOLUTION <= t <= ALL_OPTIMAL_SOLUTIONS
    ensures Explore(PathProblem(), t, Search([(1.0, ("B", 1)), (4.0, ("C", 4))], {("A", 0)}, []), 2)
         == Explore(PathProblem(), t, Search([(4.0, ("C", 4))], {("A", 0), ("B", 1)}, [(2.0, ("D", 2))]), 1)
  {
    var dp := PathProblem();
    var a, b, c, d2 := ("A", 0), ("B", 1), ("C", 4), ("D", 2);
    assert dp.alternatives(b) == [d2];
    assert d2 != a && d2 != b && dp.isFinal(d2) && dp.penalty(d2) == 2.0;
    assert [(1.0, b), (4.0, c)][1..] == [(4.0, c)] && {a} + {b} == {a, b};
    assert Expand(dp, t, [d2], Search([(4.0, c)], {a, b}, []))
        == Continue(Search([(4.0, c)], {a, b}, [(2.0, d2)]));
  }

  /** The third pop, of ("C", 4), records ("D", 5) and empties the frontier. */
  lemma PathThirdPop(t: int)
    requires ONE_OPTIMAL_SOLUTION <= t <= ALL_OPTIMAL_SOLUTIONS
    ensures Explore(PathProblem(), t, Search([(4.0, ("C", 4))], {("A", 0), ("B", 1)}, [(2.0, ("D", 2))]), 1)
         == Exhausted([(2.0, ("D", 2)), (5.0, ("D", 5))])
  {
    var dp := PathProblem();
    var a, b, c, d2, d5 := ("A", 0), ("B", 1), ("C", 4), ("D", 2), ("D", 5);
    assert dp.alternatives(c) == [d5];
    assert d5 != a && d5 != b && d5 != c && dp.isFinal(d5) && dp.penalty(d5) == 5.0;
    assert [(4.0, c)][1..] == [] && {a, b} + {c} == {a, b, c};
    var after3 := Search([], {a, b, c}, [(2.0, d2), (5.0, d5)]);
    assert Expand(dp, t, [d5], Search([], {a, b, c}, [(2.0, d2)])) == Continue(after3);
  }

  /** The scenario's expected answers in the four modes. */
  lemma ShortestPathScenario()
    ensures SolveSpec(PathProblem(), ONE_SOLUTION, 3) == Solved(One(("D", 2)))
    ensures SolveSpec(PathProblem(), ALL_SOLUTIONS, 3) == Solved(Many([("D", 2), ("D", 5)]))
    ensures SolveSpec(PathProblem(), ONE_OPTIMAL_SOLUTION, 3) == Solved(One(("D", 2)))
    ensures SolveSpec(PathProblem(), ALL_OPTIMAL_SOLUTIONS, 3) == Solved(Many([("D", 2)]))
  {
    PathOneSolution();
    PathExhaustive(ONE_OPTIMAL_SOLUTION);
    PathExhaustive(ALL_SOLUTIONS);
    PathExhaustive(ALL_OPTIMAL_SOLUTIONS);
    PathConclusions();
  }

  /** ONE_SOLUTION returns ("D", 2) at the second pop. */
  lemma PathOneSolution()
    ensures Explore(PathProblem(), ONE_SOLUTION, Initial(PathProblem()), 3) == Returned(("D", 2))
  {
    var dp := PathProblem();
    var a, b, c, d2 := ("A", 0), ("B", 1), ("C", 4), ("D", 2);
    PathFirstPop(ONE_SOLUTION);
    assert dp.alternatives(b) == [d2] && d2 != a && d2 != b && dp.isFinal(d2);
    assert [(1.0, b), (4.0, c)][1..] == [(4.0, c)] && {a} + {b} == {a, b};
    assert Expand(dp, ONE_SOLUTION, [d2], Search([(4.0, c)], {a, b}, [])) == Early(d2);
  }

  /** The post-processing of the two recorded finals. */
  lemma PathConclusions()
    ensures var finals := [(2.0, ("D", 2)), (5.0, ("D", 5))];
      && MinPenalty(finals) == 2.0
      && Optimals(finals, 2.0) == [("D", 2)]
      && States(finals) == [("D", 2), ("D", 5)]
  {
    var d2, d5 := ("D", 2), ("D", 5);
    var finals := [(2.0, d2), (5.0, d5)];
    assert finals[1..] == [(5.0, d5)];
    assert Optimals([(5.0, d5)], 2.0) == [] + Optimals([], 2.0);
  }

  // ---------------------------------------------------------------------
  // deep_merge

  /** A value stored in a nested dictionary: either a dictionary itself or any
      other (leaf) value. */
  datatype Value<K, A> = Leaf(item: A) | Dict(entries: map<K, Value<K, A>>)

  type Dictionary<K, A> = map<K, Value<K, A>>

  /** The dictionary `deep_merge(dict1, dict2)` returns, as a reference
      definition: it has the keys of both arguments, with the values
      `MergedAt` gives. */
  function Merged<K, A>(d1: Dictionary<K, A>, d2: Dictionary<K, A>): Dictionary<K, A>
    decreases Dict(d2), 1
  {
    map k | k in d1.Keys + d2.Keys :: MergedAt(d1, d2, k)
  }

  /** A key only in `d1` keeps its value; a key of `d2` takes `d2`'s value,
      unless both values are dictionaries, which are merged in turn. */
  function MergedAt<K, A>(d1: Dictionary<K, A>, d2: Dictionary<K, A>, k: K): Value<K, A>
    requires k in d1 || k in d2
    decreases Dict(d2), 0
  {
    if k !in d2 then d1[k]
    else if k in d1 && d1[k].Dict? && d2[k].Dict? then Dict(Merged(d1[k].entries, d2[k].entries))
    else d2[k]
  }

  /** `deep_merge`: a copy of `dict1` into which every entry of `dict2` is
      written, merging recursively where both sides hold a dictionary. */
  method DeepMerge<K, A>(dict1: Dictionary<K, A>, dict2: Dictionary<K, A>) returns (res: Dictionary<K, A>)
    ensures res == Merged(dict1, dict2)
    decreases Dict(dict2)
  {
    res := dict1;
    var pending := dict2.Keys;
    while pending != {}
      invariant MergeProgress(dict1, dict2, res, pending)
      decreases pending
    {
      var key :| key in pending;
      var value := dict2[key];
      if key in res && res[key].Dict? && value.Dict? {
        var sub := DeepMerge(res[key].entries, value.entries);
        MergeStep(dict1, dict2, res, pending, key, Dict(sub));
        res := res[key := Dict(sub)];
      } else {
        MergeStep(dict1, dict2, res, pending, key, value);
        res := res[key := value];
      }
      pending := pending - {key};
    }
    MergeDone(dict1, dict2, res);
  }

  /** The state of `deep_merge`'s loop: the keys of `dict2` not yet written
      are `pending`; every other key of `dict2` holds its merged value and
      every key only of `dict1` its old one. */
  ghost predicate MergeProgress<K, A>(dict1: Dictionary<K, A>, dict2: Dictionary<K, A>, res: Dictionary<K, A>, pending: set<K>)
  {
    && pending <= dict2.Keys
    && res.Keys == dict1.Keys + (dict2.Keys - pending)
    && forall k :: k in res ==> res[k] == if k in dict2 && k !in pending then MergedAt(dict1, dict2, k) else dict1[k]
  }

  /** Writing the merged value of one pending key. */
  lemma MergeStep<K, A>(dict1: Dictionary<K, A>, dict2: Dictionary<K, A>, res: Dictionary<K, A>, pending: set<K>, key: K, v: Value<K, A>)
    requires MergeProgress(dict1, dict2, res, pending) && key in pending
    requires v == if key in res && res[key].Dict? && dict2[key].Dict?
      then Dict(Merged(res[key].entries, dict2[key].entries)) else dict2[key]
    ensures MergeProgress(dict1, dict2, res[key := v], pending - {key})
  {
    assert key in res ==> key in dict1 && res[key] == dict1[key];
    assert v == MergedAt(dict1, dict2, key);
  }

  /** With nothing pending, the loop's map is the merge. */
  lemma MergeDone<K, A>(dict1: Dictionary<K, A>, dict2: Dictionary<K, A>, res: Dictionary<K, A>)
    requires MergeProgress(dict1, dict2, res, {})
    ensures res == Merged(dict1, dict2)
  {
  }

  /** The value reached from `d` by following the keys of `path`, if any. */
  function Find<K, A>(d: Dictionary<K, A>, path: seq<K>): Option<Value<K, A>>
    requires path != []
    decreases |path|
  {
    if path[0] !in d then None
    else if |path| == 1 then Some(d[path[0]])
    else match d[path[0]]
      case Leaf(_) => None
      case Dict(e) => Find(e, path[1..])
  }

  /** Every leaf of `dict2` is in the merge, at the same path. */
  lemma {:induction false} MergeKeepsSecond<K, A>(d1: Dictionary<K, A>, d2: Dictionary<K, A>, path: seq<K>, x: A)
    requires path != [] && Find(d2, path) == Some(Leaf(x))
    ensures Find(Merged(d1, d2), path) == Some(Leaf(x))
    decreases |path|
  {
    var k := path[0];
    var m := Merged(d1, d2);
    assert k in m && m[k] == MergedAt(d1, d2, k);
    if |path| > 1 && k in d1 && d1[k].Dict? && d2[k].Dict? {
      MergeKeepsSecond(d1[k].entries, d2[k].entries, path[1..], x);
    }
  }

  /** Whatever `dict1` holds at a path that `dict2` neither holds nor cuts
      short with a leaf on the way is in the merge unchanged. */
  lemma {:induction false} MergeKeepsFirst<K, A>(d1: Dictionary<K, A>, d2: Dictionary<K, A>, path: seq<K>)
    requires path != [] && Find(d1, path).Some? && Find(d2, path).None?
    requires forall i :: 1 <= i < |path| ==> Find(d2, path[..i]).None? || Find(d2, path[..i]).value.Dict?
    ensures Find(Merged(d1, d2), path) == Find(d1, path)
    decreases |path|
  {
    var k := path[0];
    var m := Merged(d1, d2);
    assert k in m && m[k] == MergedAt(d1, d2, k);
    if k in d2 {
      assert Find(d2, path[..1]) == Some(d2[k]);
      var e1, e2 := d1[k].entries, d2[k].entries;
      var rest := path[1..];
      forall i | 1 <= i < |rest|
        ensures Find(e2, rest[..i]).None? || Find(e2, rest[..i]).value.Dict?
      {
        assert path[..i + 1][1..] == rest[..i];
        assert Find(d2, path[..i + 1]) == Find(e2, rest[..i]);
      }
      MergeKeepsFirst(e1, e2, rest);
    }
  }

  /** Merging a dictionary with itself gives it back. */
  lemma {:induction false} MergeIdempotent<K, A>(d: Dictionary<K, A>)
    ensures Merged(d, d) == d
    decreases Dict(d)
  {
    forall k | k in d
      ensures MergedAt(d, d, k) == d[k]
    {
      if d[k].Dict? {
        MergeIdempotent(d[k].entries);
      }
    }
  }

  /** Where no key holds a dictionary on both sides, the merge is the shallow
      update `{**dict1, **dict2}`. */
  lemma ShallowMerge<K, A>(d1: Dictionary<K, A>, d2: Dictionary<K, A>)
    requires forall k :: k in d1 && k in d2 ==> d1[k].Leaf? || d2[k].Leaf?
    ensures Merged(d1, d2) == d1 + d2
  {
  }
}
