/**
 * The deterministic automaton built by the subset construction.  Every
 * `DfaState` object is an index into `states`: the Java state ids are handed
 * out by `dfaId++` in creation order, so a state's id is its index.  A
 * transition map sends a character to the index of the target state.
 */
module DfaGraph {
  import opened Wrappers

  /** One DFA state: its accepting flag and its transition map. */
  datatype DfaState = DfaState(accepting: bool, transitions: map<char, nat>)

  /** A DFA: its states by id, the start state and the set of accepting ids. */
  datatype Dfa = Dfa(states: seq<DfaState>, startState: nat, acceptingStates: set<nat>)

  /** Every transition, and the start state, names a state of the DFA. */
  ghost predicate ValidDfa(d: Dfa)
  {
    && d.startState < |d.states|
    && forall q, c :: 0 <= q < |d.states| && c in d.states[q].transitions ==> d.states[q].transitions[c] < |d.states|
  }

  /** The state reached from `q` on `c`, or `None` when `q` has no `c`-transition. */
  function Next(d: Dfa, q: nat, c: char): Option<nat>
  {
    if q < |d.states| && c in d.states[q].transitions then Some(d.states[q].transitions[c]) else None
  }

  /** The state reached from `q` by reading `w`, or `None` when the run gets stuck. */
  function Run(d: Dfa, q: nat, w: string): Option<nat>
    decreases |w|
  {
    if w == [] then Some(q)
    else
      match Next(d, q, w[0])
      case None => None
      case Some(p) => Run(d, p, w[1..])
  }

  /** The DFA accepts `w`: the run from the start state ends in an accepting state. */
  ghost predicate Accepts(d: Dfa, w: string)
  {
    Run(d, d.startState, w).Some? && Run(d, d.startState, w).value in d.acceptingStates
  }

  /** Reading one more character extends the run by one transition. */
  lemma {:induction false} RunSnoc(d: Dfa, q: nat, w: string, c: char)
    ensures Run(d, q, w + [c]) == (if Run(d, q, w).Some? then Next(d, Run(d, q, w).value, c) else None)
    decreases |w|
  {
    if w == [] {
      assert [] + [c] == [c];
      assert [c][1..] == [];
    } else {
      assert (w + [c])[0] == w[0];
      assert (w + [c])[1..] == w[1..] + [c];
      match Next(d, q, w[0])
      case None =>
      case Some(p) => RunSnoc(d, p, w[1..], c);
    }
  }

  /** A run of a valid DFA stays inside the DFA. */
  lemma {:induction false} RunInside(d: Dfa, q: nat, w: string)
    requires ValidDfa(d) && q < |d.states|
    ensures Run(d, q, w).Some? ==> Run(d, q, w).value < |d.states|
    decreases |w|
  {
    if w != [] {
      match Next(d, q, w[0])
      case None =>
      case Some(p) => RunInside(d, p, w[1..]);
    }
  }

  /** A run that gets stuck stays stuck, whatever is read after. */
  lemma {:induction false} RunStuck(d: Dfa, q: nat, w: string, v: string)
    requires Run(d, q, w) == None
    ensures Run(d, q, w + v) == None
    decreases |w|
  {
    assert w != [];
    assert (w + v)[0] == w[0] && (w + v)[1..] == w[1..] + v;
    match Next(d, q, w[0])
    case None =>
    case Some(p) => RunStuck(d, p, w[1..], v);
  }

  /** `q` is a state of the DFA whose accepting flag is set. */
  predicate IsAccepting(d: Dfa, q: nat)
  {
    q < |d.states| && d.states[q].accepting
  }

  /** The run on `w` ends in a state whose accepting flag is set (what the scanner tests). */
  ghost predicate AcceptsByFlag(d: Dfa, w: string)
  {
    Run(d, d.startState, w).Some? && IsAccepting(d, Run(d, d.startState, w).value)
  }

  /** The accepting set holds exactly the states whose accepting flag is set. */
  ghost predicate FlagsAgree(d: Dfa)
  {
    forall q: nat :: q in d.acceptingStates <==> IsAccepting(d, q)
  }

  lemma FlagAccepts(d: Dfa, w: string)
    requires FlagsAgree(d)
    ensures AcceptsByFlag(d, w) <==> Accepts(d, w)
  {
  }
}
