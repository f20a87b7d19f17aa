/**
 * `NfaToDfaConverter`: the subset construction.  A DFA state stands for the
 * epsilon-closed set of NFA states the automaton can be in; its successor on
 * a printable character (32..126) is the epsilon closure of the character
 * successors of that set, and it accepts when the set holds the NFA's final
 * state.  The proof shows that the DFA accepts exactly the NFA's words over
 * that alphabet, and nothing else.
 */
module NfaToDfa {
  import opened Wrappers
  import opened NfaGraph
  import opened DfaGraph

  // ---------------------------------------------------------------------
  // Reference definitions

  /** The numbers below `n`. */
  ghost function Below(n: nat): (r: set<nat>)
    ensures forall p: nat :: p in r <==> p < n
  {
    if n == 0 then {} else Below(n - 1) + {n - 1}
  }

  /** The states of the arena. */
  ghost function AllStates(g: Graph): set<nat>
  {
    Below(|g|)
  }

  /** The states reachable from some state of `S` along epsilon edges only. */
  ghost function EpsClosure(g: Graph, S: set<nat>): set<nat>
  {
    set q | q in AllStates(g) && exists p :: p in S && Reach(g, p, [], q)
  }

  /** The targets of the `c`-edges leaving the states of `S`. */
  ghost function Move(g: Graph, S: set<nat>, c: char): set<nat>
  {
    set p, q | p in S && q in Succ(g, p, Sym(c)) :: q
  }

  /** The subset the DFA moves to from `S` on `c`. */
  ghost function Target(g: Graph, S: set<nat>, c: char): set<nat>
  {
    EpsClosure(g, Move(g, S, c))
  }

  /** The subset reached from `S` by reading `w`, one character at a time. */
  ghost function DeltaHat(g: Graph, S: set<nat>, w: string): set<nat>
    decreases |w|
  {
    if w == [] then S else DeltaHat(g, Target(g, S, w[0]), w[1..])
  }

  /** The states at the end of some path from `S` that reads `w`. */
  ghost function ReachSet(g: Graph, S: set<nat>, w: string): set<nat>
  {
    set q | q in AllStates(g) && exists p :: p in S && Reach(g, p, w, q)
  }

  /** The symbols the construction explores: the printable ASCII characters. */
  predicate InAlphabet(c: char)
  {
    32 <= c as int <= 126
  }

  predicate OverAlphabet(w: string)
  {
    forall i :: 0 <= i < |w| ==> InAlphabet(w[i])
  }

  // ---------------------------------------------------------------------
  // Epsilon closure

  /** Every state of `C` outside `P` has all its epsilon successors in `C`. */
  ghost predicate ClosedExcept(g: Graph, C: set<nat>, P: set<nat>)
  {
    forall p :: p in C && p !in P ==> Succ(g, p, Eps) <= C
  }

  lemma EpsRoots(g: Graph, R: set<nat>)
    requires R <= AllStates(g)
    ensures R <= EpsClosure(g, R)
  {
    forall p | p in R
      ensures p in EpsClosure(g, R)
    {
      assert Steps(g, p, [], p, 0);
    }
  }

  /** An epsilon successor of a state in the closure of `R` is in it too. */
  lemma EpsStep(g: Graph, R: set<nat>, s: nat, t: nat)
    requires ValidGraph(g) && s in EpsClosure(g, R) && t in Succ(g, s, Eps)
    ensures t in EpsClosure(g, R)
  {
    var p :| p in R && Reach(g, p, [], s);
    var n :| Steps(g, p, [], s, n);
    EdgeStep(g, s, Eps, t);
    StepsAppend(g, p, [], s, n, [], t, 1);
    assert Reach(g, p, [] + [], t);
  }

  lemma {:induction false} EpsCaught(g: Graph, C: set<nat>, p: nat, q: nat, n: nat)
    requires ClosedExcept(g, C, {}) && p in C && Steps(g, p, [], q, n)
    ensures q in C
    decreases n
  {
    if n > 0 {
      var r :| r in Succ(g, p, Eps) && Steps(g, r, [], q, n - 1);
      EpsCaught(g, C, r, q, n - 1);
    }
  }

  /** The closure is the least epsilon-closed set containing `S`. */
  lemma EpsClosureLeast(g: Graph, S: set<nat>, C: set<nat>)
    requires S <= C && ClosedExcept(g, C, {})
    ensures EpsClosure(g, S) <= C
  {
    forall q | q in EpsClosure(g, S)
      ensures q in C
    {
      var p :| p in S && Reach(g, p, [], q);
      var n :| Steps(g, p, [], q, n);
      EpsCaught(g, C, p, q, n);
    }
  }

  /**
   * epsilonClosureRecursive(state, closure): add the epsilon successors of
   * `state` that are not yet in `closure`, visiting each as it is added.
   * The states still being visited by the callers are `pending`; every other
   * state of the closure has had all its epsilon successors added.
   */
  method ClosureVisit(g: Graph, ghost roots: set<nat>, state: nat, closure0: set<nat>, ghost pending: set<nat>)
    returns (closure: set<nat>)
    requires ValidGraph(g) && state in closure0
    requires closure0 <= AllStates(g) && closure0 <= EpsClosure(g, roots)
    requires ClosedExcept(g, closure0, pending + {state})
    ensures closure0 <= closure <= AllStates(g) && closure <= EpsClosure(g, roots)
    ensures ClosedExcept(g, closure, pending)
    decreases AllStates(g) - closure0
  {
    closure := closure0;
    var todo := Succ(g, state, Eps);
    while todo != {}
      invariant todo <= Succ(g, state, Eps)
      invariant closure0 <= closure <= AllStates(g) && closure <= EpsClosure(g, roots)
      invariant ClosedExcept(g, closure, pending + {state})
      invariant Succ(g, state, Eps) - todo <= closure
      decreases todo
    {
      var next :| next in todo;
      todo := todo - {next};
      if next !in closure {
        EpsStep(g, roots, state, next);
        assert next in AllStates(g);
        closure := closure + {next};
        closure := ClosureVisit(g, roots, next, closure, pending + {state});
      }
    }
  }

  /** epsilonClosure(states): the set of states reachable from `states` by epsilon edges. */
  method EpsilonClosure(g: Graph, states: set<nat>) returns (closure: set<nat>)
    requires ValidGraph(g) && states <= AllStates(g)
    ensures closure == EpsClosure(g, states)
  {
    EpsRoots(g, states);
    closure := states;
    var remaining := states;
    while remaining != {}
      invariant remaining <= states <= closure <= AllStates(g) && closure <= EpsClosure(g, states)
      invariant ClosedExcept(g, closure, remaining)
      decreases remaining
    {
      var state :| state in remaining;
      remaining := remaining - {state};
      closure := ClosureVisit(g, states, state, closure, remaining);
    }
    EpsClosureLeast(g, states, closure);
  }

  lemma MoveInside(g: Graph, S: set<nat>, c: char)
    requires ValidGraph(g)
    ensures Move(g, S, c) <= AllStates(g)
  {
  }

  /** transition(states, symbol): the union of the `symbol`-successors of `states`. */
  method Transition(g: Graph, states: set<nat>, symbol: char) returns (result: set<nat>)
    ensures result == Move(g, states, symbol)
  {
    result := {};
    var remaining := states;
    while remaining != {}
      invariant remaining <= states
      invariant result == Move(g, states - remaining, symbol)
      decreases remaining
    {
      var state :| state in remaining;
      remaining := remaining - {state};
      result := result + Succ(g, state, Sym(symbol));
    }
    assert states - remaining == states;
  }

  // ---------------------------------------------------------------------
  // The subset construction

  /** The DFA state ids recorded against their subsets, and the subsets by id (the inverse). */
  ghost predicate StateMapOk(subsets: seq<set<nat>>, stateMap: map<set<nat>, nat>)
  {
    && (forall i :: 0 <= i < |subsets| ==> subsets[i] in stateMap && stateMap[subsets[i]] == i)
    && (forall s :: s in stateMap ==> stateMap[s] < |subsets| && subsets[stateMap[s]] == s)
  }

  /**
   * The transition map `t` of the DFA state for subset `S` holds, for the
   * symbols below `upto`, exactly the symbols whose target is non-empty,
   * each sent to the DFA state of that target.
   */
  ghost predicate TransitionsOk(g: Graph, subsets: seq<set<nat>>, t: map<char, nat>, S: set<nat>, upto: int)
  {
    && (forall c :: c in t ==> InAlphabet(c) && c as int < upto && t[c] < |subsets| && subsets[t[c]] == Target(g, S, c))
    && (forall c: char :: InAlphabet(c) && c as int < upto && Target(g, S, c) != {} ==> c in t)
  }

  /** The DFA states created so far, one per recorded subset. */
  ghost predicate Built(g: Graph, nfa: Nfa, states: seq<DfaState>, stateMap: map<set<nat>, nat>, subsets: seq<set<nat>>)
  {
    && |states| == |subsets| > 0
    && subsets[0] == EpsClosure(g, {nfa.initial})
    && StateMapOk(subsets, stateMap)
    && stateMap.Keys <= SubsetsOf(AllStates(g))
    && forall i :: 0 <= i < |subsets| ==>
         subsets[i] <= AllStates(g) && subsets[i] != {} && states[i].accepting == (nfa.final in subsets[i])
  }

  /** The queue holds the subsets not yet explored, in the order they were found. */
  ghost predicate Explored(g: Graph, nfa: Nfa, states: seq<DfaState>, stateMap: map<set<nat>, nat>,
                           subsets: seq<set<nat>>, queue: seq<set<nat>>, done: nat)
  {
    && Built(g, nfa, states, stateMap, subsets)
    && done <= |subsets| && queue == subsets[done..]
    && (forall i :: 0 <= i < done ==> TransitionsOk(g, subsets, states[i].transitions, subsets[i], 127))
    && (forall i :: done <= i < |subsets| ==> states[i].transitions == map[])
  }

  /** As `Explored`, while the state `done` is being explored up to symbol `upto`. */
  ghost predicate Exploring(g: Graph, nfa: Nfa, states: seq<DfaState>, stateMap: map<set<nat>, nat>,
                            subsets: seq<set<nat>>, queue: seq<set<nat>>, done: nat, upto: int)
  {
    && Built(g, nfa, states, stateMap, subsets)
    && done < |subsets| && queue == subsets[done + 1..]
    && (forall i :: 0 <= i < done ==> TransitionsOk(g, subsets, states[i].transitions, subsets[i], 127))
    && TransitionsOk(g, subsets, states[done].transitions, subsets[done], upto)
    && (forall i :: done < i < |subsets| ==> states[i].transitions == map[])
  }

  /** What `convertNfaToDfa` promises: the DFA is the subset automaton of `nfa` over the printable characters. */
  ghost predicate IsSubsetDfa(g: Graph, nfa: Nfa, d: Dfa, subsets: seq<set<nat>>)
  {
    && |d.states| == |subsets| > 0 && d.startState == 0
    && subsets[0] == EpsClosure(g, {nfa.initial})
    && (forall i, j :: 0 <= i < j < |subsets| ==> subsets[i] != subsets[j])
    && (forall i :: 0 <= i < |subsets| ==>
          && subsets[i] != {} && subsets[i] <= AllStates(g)
          && d.states[i].accepting == (nfa.final in subsets[i])
          && TransitionsOk(g, subsets, d.states[i].transitions, subsets[i], 127))
    && d.acceptingStates == set i | 0 <= i < |subsets| && d.states[i].accepting
  }

  /** An element of a non-empty set, the same one every time. */
  ghost function Pick(A: set<nat>): nat
    requires A != {}
  {
    var x :| x in A; x
  }

  /** All subsets of `A`: a finite bound on the subsets the construction can meet. */
  ghost function SubsetsOf(A: set<nat>): set<set<nat>>
    decreases A
  {
    if A == {} then {{}}
    else
      var rest := SubsetsOf(A - {Pick(A)});
      rest + set s | s in rest :: s + {Pick(A)}
  }

  lemma {:induction false} SubsetsOfComplete(A: set<nat>, s: set<nat>)
    requires s <= A
    ensures s in SubsetsOf(A)
    decreases A
  {
    if A == {} {
      assert s == {};
    } else {
      var x := Pick(A);
      var rest := SubsetsOf(A - {x});
      if x in s {
        SubsetsOfComplete(A - {x}, s - {x});
        assert (s - {x}) + {x} == s;
        assert s in set t | t in rest :: t + {x};
      } else {
        SubsetsOfComplete(A - {x}, s);
      }
    }
  }

  /** Recording more subsets keeps every transition map correct. */
  lemma TransitionsGrow(g: Graph, subsets: seq<set<nat>>, subsets': seq<set<nat>>, t: map<char, nat>, S: set<nat>, upto: int)
    requires TransitionsOk(g, subsets, t, S, upto)
    requires |subsets| <= |subsets'| && subsets'[..|subsets|] == subsets
    ensures TransitionsOk(g, subsets', t, S, upto)
  {
    forall c | c in t
      ensures subsets'[t[c]] == subsets[t[c]]
    {
      assert subsets'[..|subsets|][t[c]] == subsets'[t[c]];
    }
  }

  /** Handling symbol `c` extends a correct transition map by one symbol. */
  lemma TransitionsAdd(g: Graph, subsets: seq<set<nat>>, t: map<char, nat>, S: set<nat>, c: char, j: nat)
    requires TransitionsOk(g, subsets, t, S, c as int) && InAlphabet(c)
    requires Target(g, S, c) != {} ==> j < |subsets| && subsets[j] == Target(g, S, c)
    ensures TransitionsOk(g, subsets, if Target(g, S, c) != {} then t[c := j] else t, S, c as int + 1)
  {
  }

  /** A new, non-empty subset with its fresh DFA state. */
  lemma BuiltAdd(g: Graph, nfa: Nfa, states: seq<DfaState>, stateMap: map<set<nat>, nat>, subsets: seq<set<nat>>, N: set<nat>)
    requires Built(g, nfa, states, stateMap, subsets)
    requires N !in stateMap && N != {} && N <= AllStates(g)
    ensures Built(g, nfa, states + [DfaState(nfa.final in N, map[])], stateMap[N := |subsets|], subsets + [N])
  {
    SubsetsOfComplete(AllStates(g), N);
    var subsets' := subsets + [N];
    var stateMap' := stateMap[N := |subsets|];
    forall i | 0 <= i < |subsets'|
      ensures subsets'[i] in stateMap' && stateMap'[subsets'[i]] == i
    {
      if i < |subsets| {
        assert subsets'[i] == subsets[i];
        assert subsets[i] != N;
      }
    }
  }

  /** Changing one transition map leaves the recorded states as they were. */
  lemma BuiltRetarget(g: Graph, nfa: Nfa, states: seq<DfaState>, stateMap: map<set<nat>, nat>, subsets: seq<set<nat>>,
                      k: nat, t: map<char, nat>)
    requires Built(g, nfa, states, stateMap, subsets) && k < |states|
    ensures Built(g, nfa, states[k := states[k].(transitions := t)], stateMap, subsets)
  {
  }

  /** Recording more subsets keeps the maps of the explored states correct. */
  lemma ExploredGrow(g: Graph, states: seq<DfaState>, states': seq<DfaState>,
                     subsets: seq<set<nat>>, subsets': seq<set<nat>>, done: nat)
    requires done <= |states| <= |states'| && done <= |subsets| <= |subsets'| && subsets'[..|subsets|] == subsets
    requires forall i :: 0 <= i < done ==> states'[i] == states[i]
    requires forall i :: 0 <= i < done ==> TransitionsOk(g, subsets, states[i].transitions, subsets[i], 127)
    ensures forall i :: 0 <= i < done ==> TransitionsOk(g, subsets', states'[i].transitions, subsets'[i], 127)
  {
    forall i | 0 <= i < done
      ensures TransitionsOk(g, subsets', states'[i].transitions, subsets'[i], 127)
    {
      assert subsets'[i] == subsets'[..|subsets|][i];
      TransitionsGrow(g, subsets, subsets', states[i].transitions, subsets[i], 127);
    }
  }

  /** A symbol whose target is empty gets no transition. */
  lemma ExploringSkip(g: Graph, nfa: Nfa, states: seq<DfaState>, stateMap: map<set<nat>, nat>,
                      subsets: seq<set<nat>>, queue: seq<set<nat>>, done: nat, c: char)
    requires Exploring(g, nfa, states, stateMap, subsets, queue, done, c as int) && InAlphabet(c)
    requires Target(g, subsets[done], c) == {}
    ensures Exploring(g, nfa, states, stateMap, subsets, queue, done, c as int + 1)
  {
    TransitionsAdd(g, subsets, states[done].transitions, subsets[done], c, 0);
  }

  /** A symbol whose non-empty target has the DFA state `j` gets the transition to `j`. */
  lemma ExploringLink(g: Graph, nfa: Nfa, states: seq<DfaState>, stateMap: map<set<nat>, nat>,
                      subsets: seq<set<nat>>, queue: seq<set<nat>>, done: nat, c: char, j: nat)
    requires Exploring(g, nfa, states, stateMap, subsets, queue, done, c as int) && InAlphabet(c)
    requires Target(g, subsets[done], c) != {} && j < |subsets| && subsets[j] == Target(g, subsets[done], c)
    ensures Exploring(g, nfa, states[done := states[done].(transitions := states[done].transitions[c := j])],
                      stateMap, subsets, queue, done, c as int + 1)
  {
    var t := states[done].transitions;
    var states' := states[done := states[done].(transitions := t[c := j])];
    TransitionsAdd(g, subsets, t, subsets[done], c, j);
    BuiltRetarget(g, nfa, states, stateMap, subsets, done, t[c := j]);
    assert subsets[..|subsets|] == subsets;
    ExploredGrow(g, states, states', subsets, subsets, done);
  }

  /** Recording a new, non-empty subset with its fresh DFA state keeps the exploration going. */
  lemma ExploringAdd(g: Graph, nfa: Nfa, states: seq<DfaState>, stateMap: map<set<nat>, nat>,
                     subsets: seq<set<nat>>, queue: seq<set<nat>>, done: nat, upto: int, N: set<nat>)
    requires Exploring(g, nfa, states, stateMap, subsets, queue, done, upto)
    requires N != {} && N !in stateMap && N <= AllStates(g)
    ensures Exploring(g, nfa, states + [DfaState(nfa.final in N, map[])], stateMap[N := |subsets|],
                      subsets + [N], queue + [N], done, upto)
  {
    var subsets' := subsets + [N];
    var states' := states + [DfaState(nfa.final in N, map[])];
    BuiltAdd(g, nfa, states, stateMap, subsets, N);
    assert subsets'[..|subsets|] == subsets;
    ExploredGrow(g, states, states', subsets, subsets', done);
    TransitionsGrow(g, subsets, subsets', states[done].transitions, subsets[done], upto);
    assert subsets'[done + 1..] == queue + [N];
  }

  /**
   * One turn of the symbol loop of convertNfaToDfa: the target of the
   * current subset on `symbol`; a fresh DFA state (queued) when the target is
   * non-empty and new; the transition when it is non-empty.
   */
  method AddSymbol(g: Graph, nfa: Nfa, states: seq<DfaState>, stateMap: map<set<nat>, nat>, queue: seq<set<nat>>,
                   ghost subsets: seq<set<nat>>, ghost done: nat, currentSet: set<nat>, currentDfa: nat, symbol: char)
    returns (states': seq<DfaState>, stateMap': map<set<nat>, nat>, queue': seq<set<nat>>, ghost subsets': seq<set<nat>>)
    requires ValidGraph(g) && InAlphabet(symbol)
    requires Exploring(g, nfa, states, stateMap, subsets, queue, done, symbol as int)
    requires currentSet == subsets[done] && currentDfa == done
    ensures Exploring(g, nfa, states', stateMap', subsets', queue', done, symbol as int + 1)
    ensures stateMap.Keys <= stateMap'.Keys && (stateMap'.Keys == stateMap.Keys ==> queue' == queue)
    ensures |subsets| <= |subsets'| && subsets'[..|subsets|] == subsets
  {
    var moved := Transition(g, currentSet, symbol);
    MoveInside(g, currentSet, symbol);
    var nextSet := EpsilonClosure(g, moved);
    states', stateMap', queue', subsets' := states, stateMap, queue, subsets;
    if nextSet != {} {
      var nextDfa;
      if nextSet in stateMap {
        nextDfa := stateMap[nextSet];
        ExploringLink(g, nfa, states, stateMap, subsets, queue, done, symbol, nextDfa);
      } else {
        nextDfa := |states|;
        states' := states + [DfaState(nfa.final in nextSet, map[])];
        stateMap' := stateMap[nextSet := nextDfa];
        queue' := queue + [nextSet];
        subsets' := subsets + [nextSet];
      }
      if nextSet !in stateMap {
        ExploringAdd(g, nfa, states, stateMap, subsets, queue, done, symbol as int, nextSet);
        ExploringLink(g, nfa, states', stateMap', subsets', queue', done, symbol, nextDfa);
      }
      var cur := states'[currentDfa];
      states' := states'[currentDfa := cur.(transitions := cur.transitions[symbol := nextDfa])];
    } else {
      ExploringSkip(g, nfa, states, stateMap, subsets, queue, done, symbol);
    }
  }

  /** The accepting flags gathered into the set of accepting ids. */
  method CollectAccepting(states: seq<DfaState>) returns (acceptingStates: set<nat>)
    ensures acceptingStates == set i | 0 <= i < |states| && states[i].accepting
  {
    acceptingStates := {};
    var k := 0;
    while k < |states|
      invariant 0 <= k <= |states|
      invariant acceptingStates == set i | 0 <= i < k && states[i].accepting
    {
      if states[k].accepting {
        acceptingStates := acceptingStates + {k};
      }
      k := k + 1;
    }
  }

  /** Taking the next subset off the queue starts its exploration. */
  lemma ExploringStart(g: Graph, nfa: Nfa, states: seq<DfaState>, stateMap: map<set<nat>, nat>,
                       subsets: seq<set<nat>>, queue: seq<set<nat>>, done: nat)
    requires Explored(g, nfa, states, stateMap, subsets, queue, done) && queue != []
    ensures Exploring(g, nfa, states, stateMap, subsets, queue[1..], done, 32)
    ensures queue[0] == subsets[done] && stateMap[queue[0]] == done
  {
    assert subsets[done + 1..] == subsets[done..][1..];
  }

  /** Once every symbol has been handled, the subset is explored. */
  lemma ExploringEnd(g: Graph, nfa: Nfa, states: seq<DfaState>, stateMap: map<set<nat>, nat>,
                     subsets: seq<set<nat>>, queue: seq<set<nat>>, done: nat)
    requires Exploring(g, nfa, states, stateMap, subsets, queue, done, 127)
    ensures Explored(g, nfa, states, stateMap, subsets, queue, done + 1)
  {
  }

  /**
   * One turn of the worklist loop of convertNfaToDfa: poll the next subset
   * and handle every symbol from 32 to 126 for it.
   */
  method ExploreNext(g: Graph, nfa: Nfa, states: seq<DfaState>, stateMap: map<set<nat>, nat>, queue: seq<set<nat>>,
                     ghost subsets: seq<set<nat>>, ghost done: nat)
    returns (states': seq<DfaState>, stateMap': map<set<nat>, nat>, queue': seq<set<nat>>, ghost subsets': seq<set<nat>>)
    requires ValidGraph(g) && Explored(g, nfa, states, stateMap, subsets, queue, done) && queue != []
    ensures Explored(g, nfa, states', stateMap', subsets', queue', done + 1)
    ensures stateMap.Keys <= stateMap'.Keys && (stateMap'.Keys == stateMap.Keys ==> |queue'| < |queue|)
  {
    ExploringStart(g, nfa, states, stateMap, subsets, queue, done);
    var currentSet := queue[0];
    states', stateMap', queue', subsets' := states, stateMap, queue[1..], subsets;
    var currentDfa := stateMap'[currentSet];
    var symbol := 32;
    while symbol <= 126
      invariant 32 <= symbol <= 127
      invariant Exploring(g, nfa, states', stateMap', subsets', queue', done, symbol)
      invariant currentSet == subsets'[done] && currentDfa == done
      invariant stateMap.Keys <= stateMap'.Keys && (stateMap'.Keys == stateMap.Keys ==> queue' == queue[1..])
    {
      states', stateMap', queue', subsets' := AddSymbol(g, nfa, states', stateMap', queue', subsets', done, currentSet, currentDfa, symbol as char);
      symbol := symbol + 1;
    }
    ExploringEnd(g, nfa, states', stateMap', subsets', queue', done);
  }

  /** The construction, once the queue is empty, is the subset automaton. */
  lemma Finished(g: Graph, nfa: Nfa, states: seq<DfaState>, stateMap: map<set<nat>, nat>,
                 subsets: seq<set<nat>>, done: nat, acceptingStates: set<nat>)
    requires Explored(g, nfa, states, stateMap, subsets, [], done)
    requires acceptingStates == set i | 0 <= i < |states| && states[i].accepting
    ensures IsSubsetDfa(g, nfa, Dfa(states, 0, acceptingStates), subsets)
  {
    forall i, j | 0 <= i < j < |subsets|
      ensures subsets[i] != subsets[j]
    {
      assert stateMap[subsets[i]] == i && stateMap[subsets[j]] == j;
    }
  }

  /** Recording a new subset leaves fewer subsets unseen. */
  lemma FewerUnseen(A: set<set<nat>>, K0: set<set<nat>>, K1: set<set<nat>>)
    requires K0 <= K1 <= A && K0 != K1
    ensures A - K1 < A - K0
  {
    var k :| k in K1 && k !in K0;
    assert k in A - K0 && k !in A - K1;
  }

  /** convertNfaToDfa: the subset construction, exploring subsets in the order they are found. */
  method ConvertNfaToDfa(g: Graph, nfa: Nfa) returns (d: Dfa, ghost subsets: seq<set<nat>>)
    requires ValidGraph(g) && nfa.initial < |g|
    ensures IsSubsetDfa(g, nfa, d, subsets) && ValidDfa(d) && FlagsAgree(d)
    ensures nfa.final < |g| ==> forall w :: Accepts(d, w) <==> OverAlphabet(w) && w in Lang(g, nfa)
  {
    var startSet := EpsilonClosure(g, {nfa.initial});
    EpsRoots(g, {nfa.initial});
    SubsetsOfComplete(AllStates(g), startSet);
    var states := [DfaState(nfa.final in startSet, map[])];
    var stateMap := map[startSet := 0];
    var queue := [startSet];
    subsets := [startSet];
    ghost var done := 0;
    while queue != []
      invariant Explored(g, nfa, states, stateMap, subsets, queue, done)
      decreases SubsetsOf(AllStates(g)) - stateMap.Keys, |queue|
    {
      ghost var keys0 := stateMap.Keys;
      states, stateMap, queue, subsets := ExploreNext(g, nfa, states, stateMap, queue, subsets, done);
      done := done + 1;
      if stateMap.Keys != keys0 {
        FewerUnseen(SubsetsOf(AllStates(g)), keys0, stateMap.Keys);
      }
    }
    var acceptingStates := CollectAccepting(states);
    d := Dfa(states, 0, acceptingStates);
    Finished(g, nfa, states, stateMap, subsets, done, acceptingStates);
    SubsetDfaValid(g, nfa, d, subsets);
    SubsetFlags(g, nfa, d, subsets);
    if nfa.final < |g| {
      forall w
        ensures Accepts(d, w) <==> OverAlphabet(w) && w in Lang(g, nfa)
      {
        SubsetDfaLanguage(g, nfa, d, subsets, w);
      }
    }
  }

  // ---------------------------------------------------------------------
  // The DFA accepts the NFA's language over the printable characters

  lemma {:induction false} DeltaHatEmpty(g: Graph, w: string)
    ensures DeltaHat(g, {}, w) == {}
    decreases |w|
  {
    if w != [] {
      assert Move(g, {}, w[0]) == {};
      assert EpsClosure(g, {}) == {};
      DeltaHatEmpty(g, w[1..]);
    }
  }

  /** A path reading `c` first: epsilon edges, one `c`-edge, then the rest of the path. */
  lemma {:induction false} SplitFirst(g: Graph, p: nat, c: char, u: string, q: nat, n: nat) returns (x: nat, y: nat)
    requires Steps(g, p, [c] + u, q, n)
    ensures Reach(g, p, [], x) && y in Succ(g, x, Sym(c)) && Reach(g, y, u, q)
    decreases n
  {
    var w := [c] + u;
    assert w[0] == c && w[1..] == u;
    if r :| r in Succ(g, p, Eps) && Steps(g, r, w, q, n - 1) {
      x, y := SplitFirst(g, r, c, u, q, n - 1);
      var k: nat :| Steps(g, r, [], x, k);
      EpsCons(g, p, r, [], x, k, k + 1);
    } else {
      var r :| r in Succ(g, p, Sym(w[0])) && Steps(g, r, w[1..], q, n - 1);
      assert Steps(g, p, [], p, 0);
      x, y := p, r;
    }
  }

  /** One subset step on `c` accounts for exactly the paths whose word starts with `c`. */
  lemma MoveSplit(g: Graph, S: set<nat>, c: char, u: string)
    ensures ReachSet(g, Move(g, EpsClosure(g, S), c), u) == ReachSet(g, S, [c] + u)
  {
    var M := Move(g, EpsClosure(g, S), c);
    forall q | q in ReachSet(g, S, [c] + u)
      ensures q in ReachSet(g, M, u)
    {
      var p :| p in S && Reach(g, p, [c] + u, q);
      var n :| Steps(g, p, [c] + u, q, n);
      var x, y := SplitFirst(g, p, c, u, q, n);
      assert x in AllStates(g);
      assert x in EpsClosure(g, S);
      assert y in M;
    }
    forall q | q in ReachSet(g, M, u)
      ensures q in ReachSet(g, S, [c] + u)
    {
      var y :| y in M && Reach(g, y, u, q);
      var x :| x in EpsClosure(g, S) && y in Succ(g, x, Sym(c));
      var p :| p in S && Reach(g, p, [], x);
      var k: nat :| Steps(g, y, u, q, k);
      SymCons(g, x, c, y, u, q, k, k + 1);
      ReachAppend(g, p, [], x, [c] + u, q);
      assert [] + ([c] + u) == [c] + u;
    }
  }

  /** The subset reached from the closure of `S` on `w` is the set of NFA states `w` leads to. */
  lemma {:induction false} NfaSubsets(g: Graph, S: set<nat>, w: string)
    ensures DeltaHat(g, EpsClosure(g, S), w) == ReachSet(g, S, w)
    decreases |w|
  {
    if w != [] {
      var c, u := w[0], w[1..];
      assert w == [c] + u;
      var M := Move(g, EpsClosure(g, S), c);
      NfaSubsets(g, M, u);
      MoveSplit(g, S, c, u);
    }
  }

  lemma OverAlphabetTail(w: string)
    requires w != [] && OverAlphabet(w)
    ensures InAlphabet(w[0]) && OverAlphabet(w[1..])
  {
    forall k | 0 <= k < |w[1..]|
      ensures InAlphabet(w[1..][k])
    {
      assert w[1..][k] == w[k + 1];
    }
  }

  /** The DFA run from state `i` follows the subset steps from its subset. */
  lemma {:induction false} SubsetRun(g: Graph, nfa: Nfa, d: Dfa, subsets: seq<set<nat>>, i: nat, w: string)
    requires IsSubsetDfa(g, nfa, d, subsets) && i < |subsets| && OverAlphabet(w)
    ensures Run(d, i, w).Some? <==> DeltaHat(g, subsets[i], w) != {}
    ensures Run(d, i, w).Some? ==> Run(d, i, w).value < |subsets| && subsets[Run(d, i, w).value] == DeltaHat(g, subsets[i], w)
    decreases |w|
  {
    if w != [] {
      var c := w[0];
      OverAlphabetTail(w);
      var t := d.states[i].transitions;
      if c in t {
        SubsetRun(g, nfa, d, subsets, t[c], w[1..]);
      } else {
        assert Target(g, subsets[i], c) == {};
        DeltaHatEmpty(g, w[1..]);
      }
    }
  }

  lemma OverAlphabetCons(w: string)
    requires w != [] && InAlphabet(w[0]) && OverAlphabet(w[1..])
    ensures OverAlphabet(w)
  {
    forall k | 0 <= k < |w|
      ensures InAlphabet(w[k])
    {
      if k > 0 {
        assert w[k] == w[1..][k - 1];
      }
    }
  }

  /** The transitions of a subset-automaton state: printable symbols, to states of the DFA. */
  lemma SubsetTransition(g: Graph, nfa: Nfa, d: Dfa, subsets: seq<set<nat>>, i: nat, c: char)
    requires IsSubsetDfa(g, nfa, d, subsets) && i < |subsets|
    ensures c in d.states[i].transitions ==> InAlphabet(c) && d.states[i].transitions[c] < |subsets|
  {
  }

  /** A character outside 32..126 has no transition, so a word holding one is never read to the end. */
  lemma {:induction false} OffAlphabetStuck(g: Graph, nfa: Nfa, d: Dfa, subsets: seq<set<nat>>, i: nat, w: string)
    requires IsSubsetDfa(g, nfa, d, subsets) && i < |subsets| && !OverAlphabet(w)
    ensures Run(d, i, w) == None
    decreases |w|
  {
    var c := w[0];
    SubsetTransition(g, nfa, d, subsets, i, c);
    if Next(d, i, c).Some? {
      if OverAlphabet(w[1..]) {
        OverAlphabetCons(w);
      }
      OffAlphabetStuck(g, nfa, d, subsets, Next(d, i, c).value, w[1..]);
    }
  }

  /** The subset automaton accepts exactly the NFA's words over the printable characters. */
  lemma SubsetDfaLanguage(g: Graph, nfa: Nfa, d: Dfa, subsets: seq<set<nat>>, w: string)
    requires nfa.final < |g| && IsSubsetDfa(g, nfa, d, subsets)
    ensures Accepts(d, w) <==> OverAlphabet(w) && w in Lang(g, nfa)
  {
    if OverAlphabet(w) {
      SubsetRun(g, nfa, d, subsets, 0, w);
      NfaSubsets(g, {nfa.initial}, w);
      var R := ReachSet(g, {nfa.initial}, w);
      assert DeltaHat(g, subsets[0], w) == R;
      assert nfa.final in R <==> w in Lang(g, nfa) by {
        assert nfa.final in AllStates(g);
      }
      if Run(d, 0, w).Some? {
        var q := Run(d, 0, w).value;
        assert subsets[q] == R;
        assert q in d.acceptingStates <==> nfa.final in subsets[q];
      } else {
        assert R == {};
      }
    } else {
      OffAlphabetStuck(g, nfa, d, subsets, 0, w);
    }
  }

  /** The subset automaton is a well-formed DFA. */
  lemma SubsetDfaValid(g: Graph, nfa: Nfa, d: Dfa, subsets: seq<set<nat>>)
    requires IsSubsetDfa(g, nfa, d, subsets)
    ensures ValidDfa(d)
  {
  }

  /** The accepting set of the subset automaton is exactly its flagged states. */
  lemma SubsetFlags(g: Graph, nfa: Nfa, d: Dfa, subsets: seq<set<nat>>)
    requires IsSubsetDfa(g, nfa, d, subsets)
    ensures FlagsAgree(d)
  {
    forall q: nat
      ensures q in d.acceptingStates <==> IsAccepting(d, q)
    {
      if q < |subsets| {
        assert q in d.acceptingStates <==> d.states[q].accepting;
      } else {
        assert q !in d.acceptingStates;
      }
    }
  }
}
