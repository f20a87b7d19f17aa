/**
 * `matchDfa`: run one category's DFA from a position of the input and
 * report the length of the longest prefix that ends in an accepting state
 * (0 when there is none).  The run stops at the end of the input or at the
 * first character without a transition.
 */
module DfaMatch {
  import opened Wrappers
  import opened DfaGraph

  /** The `k` characters from `start` are non-empty and end the run in an accepting state. */
  ghost predicate AcceptedPrefix(d: Dfa, input: string, start: nat, k: nat)
  {
    0 < k && start + k <= |input| && AcceptsByFlag(d, input[start..start + k])
  }

  /** `r` is the length of the longest accepted prefix of the input from `start`, or 0 when none is. */
  ghost predicate IsLongestMatch(d: Dfa, input: string, start: nat, r: nat)
  {
    && start + r <= |input|
    && (r == 0 || AcceptedPrefix(d, input, start, r))
    && forall k: nat :: r < k && start + k <= |input| ==> !AcceptedPrefix(d, input, start, k)
  }

  /**
   * matchDfaRecursive: `current` is the state after `length` characters,
   * `pos` the next position, `lastAcceptLength` the last length at which an
   * accepting state was entered.
   */
  function MatchDfaRecursive(d: Dfa, current: nat, input: string, pos: nat, length: nat, lastAcceptLength: nat): (r: nat)
    ensures r == lastAcceptLength || length < r <= length + (|input| - pos)
    decreases |input| - pos
  {
    if pos >= |input| then lastAcceptLength
    else
      var ch := input[pos];
      if current < |d.states| && ch in d.states[current].transitions then
        var next := d.states[current].transitions[ch];
        var newLength := length + 1;
        var last := if IsAccepting(d, next) then newLength else lastAcceptLength;
        MatchDfaRecursive(d, next, input, pos + 1, newLength, last)
      else lastAcceptLength
  }

  /**
   * The recursion keeps its promise: when `current` is where the prefix of
   * `length` characters leads and `lastAcceptLength` is the longest accepted
   * prefix so far, the result is the longest accepted prefix of all.
   */
  lemma {:induction false} MatchLongest(d: Dfa, current: nat, input: string, start: nat, pos: nat, length: nat, last: nat)
    requires start <= pos <= |input| && length == pos - start
    requires Run(d, d.startState, input[start..pos]) == Some(current)
    requires last <= length && (last == 0 || AcceptedPrefix(d, input, start, last))
    requires forall k: nat :: last < k <= length ==> !AcceptedPrefix(d, input, start, k)
    ensures IsLongestMatch(d, input, start, MatchDfaRecursive(d, current, input, pos, length, last))
    decreases |input| - pos
  {
    if pos < |input| {
      var ch := input[pos];
      assert input[start..pos + 1] == input[start..pos] + [ch];
      RunSnoc(d, d.startState, input[start..pos], ch);
      if current < |d.states| && ch in d.states[current].transitions {
        var next := d.states[current].transitions[ch];
        var last' := if IsAccepting(d, next) then length + 1 else last;
        MatchLongest(d, next, input, start, pos + 1, length + 1, last');
      } else {
        StuckBeyond(d, input, start, pos);
      }
    }
  }

  /** Once the run gets stuck at `pos`, no longer prefix is accepted. */
  lemma StuckBeyond(d: Dfa, input: string, start: nat, pos: nat)
    requires start <= pos < |input| && Run(d, d.startState, input[start..pos + 1]) == None
    ensures forall k: nat :: pos - start < k && start + k <= |input| ==> !AcceptedPrefix(d, input, start, k)
  {
    forall k: nat | pos - start < k && start + k <= |input|
      ensures !AcceptedPrefix(d, input, start, k)
    {
      assert input[start..start + k] == input[start..pos + 1] + input[pos + 1..start + k];
      RunStuck(d, d.startState, input[start..pos + 1], input[pos + 1..start + k]);
    }
  }

  /** matchDfa: the length of a prefix of the input from `startPos` (see `LongestMatch`). */
  function MatchDfa(d: Dfa, input: string, startPos: nat): (r: nat)
    requires startPos <= |input|
    ensures startPos + r <= |input|
  {
    LongestMatch(d, input, startPos, MatchDfaRecursive(d, d.startState, input, startPos, 0, 0));
    MatchDfaRecursive(d, d.startState, input, startPos, 0, 0)
  }

  /** What matchDfa returns: the length of the longest prefix from `startPos` the DFA accepts, 0 if none. */
  lemma MatchDfaLongest(d: Dfa, input: string, startPos: nat)
    requires startPos <= |input|
    ensures IsLongestMatch(d, input, startPos, MatchDfa(d, input, startPos))
  {
    LongestMatch(d, input, startPos, MatchDfaRecursive(d, d.startState, input, startPos, 0, 0));
  }

  /** The recursion started at the start state with nothing read yields the longest match. */
  lemma LongestMatch(d: Dfa, input: string, startPos: nat, r: nat)
    requires startPos <= |input| && r == MatchDfaRecursive(d, d.startState, input, startPos, 0, 0)
    ensures IsLongestMatch(d, input, startPos, r)
  {
    assert input[startPos..startPos] == [];
    MatchLongest(d, d.startState, input, startPos, startPos, 0, 0);
  }
}
