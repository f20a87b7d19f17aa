/**
 * The nondeterministic automaton graph: every `NfaState` object of the Java
 * heap is an index into one arena, and its transition map sends a label (the
 * epsilon marker or one character) to a set of target indices.  An `Nfa` is
 * the pair of its designated initial and final states.
 */
module NfaGraph {
  import opened Languages

  /** An edge label: the empty-input marker, or one character. */
  datatype Label = Eps | Sym(c: char)

  /** The transition map of every state of the arena, by state index. */
  type Graph = seq<map<Label, set<nat>>>

  /** An automaton: one initial and one final state of some arena. */
  datatype Nfa = Nfa(initial: nat, final: nat)

  /** The targets of the `l`-edges leaving `p` (a missing key is no edge). */
  function Succ(g: Graph, p: nat, l: Label): set<nat>
  {
    if p < |g| && l in g[p] then g[p][l] else {}
  }

  /** Every edge of the arena points at a state of the arena. */
  ghost predicate ValidGraph(g: Graph)
  {
    forall p: nat, l, q :: q in Succ(g, p, l) ==> q < |g|
  }

  /** `g` with the edge `p -l-> q` added (NfaState.addTransition). */
  function AddEdge(g: Graph, p: nat, l: Label, q: nat): (g': Graph)
    requires p < |g|
    ensures |g'| == |g|
  {
    g[p := g[p][l := Succ(g, p, l) + {q}]]
  }

  // ---------------------------------------------------------------------
  // Path semantics

  /**
   * There is a path of exactly `n` edges from `p` to `q` whose character
   * labels spell `w` (epsilon edges read nothing).
   */
  ghost predicate Steps(g: Graph, p: nat, w: string, q: nat, n: nat)
    decreases n
  {
    if n == 0 then p == q && w == []
    else
      (exists r :: r in Succ(g, p, Eps) && Steps(g, r, w, q, n - 1))
      || (w != [] && exists r :: r in Succ(g, p, Sym(w[0])) && Steps(g, r, w[1..], q, n - 1))
  }

  ghost predicate Reach(g: Graph, p: nat, w: string, q: nat)
  {
    exists n :: Steps(g, p, w, q, n)
  }

  /** The language of an automaton: the words read from initial to final. */
  ghost function Lang(g: Graph, a: Nfa): Language
  {
    iset w: string | Reach(g, a.initial, w, a.final)
  }

  /** Every edge of `g` is an edge of `g'`. */
  ghost predicate SubGraph(g: Graph, g': Graph)
  {
    forall p: nat, l :: Succ(g, p, l) <= Succ(g', p, l)
  }

  /** No edge leaves the states of `r`. */
  ghost predicate Closed(g: Graph, r: set<nat>)
  {
    forall p: nat, l, q :: p in r && q in Succ(g, p, l) ==> q in r
  }

  /** `g` and `g'` have the same edges out of every state of `r`. */
  ghost predicate AgreeOn(g: Graph, g': Graph, r: set<nat>)
  {
    forall p: nat, l :: p in r ==> Succ(g', p, l) == Succ(g, p, l)
  }

  /** No edge leaves `x`. */
  ghost predicate Sink(g: Graph, x: nat)
  {
    forall l :: Succ(g, x, l) == {}
  }

  /**
   * The Thompson invariant of one automaton built by the combinators: its
   * states `r` are states of the arena, no edge leaves `r`, both designated
   * states are in `r` and no edge leaves the final state.
   */
  ghost predicate Fragment(g: Graph, a: Nfa, r: set<nat>)
  {
    && a.initial in r && a.final in r
    && (forall p :: p in r ==> p < |g|)
    && Closed(g, r)
    && Sink(g, a.final)
  }

  /** `g'` only appends states to `g`. */
  ghost predicate Extends(g: Graph, g': Graph)
  {
    |g| <= |g'| && g'[..|g|] == g
  }

  // ---------------------------------------------------------------------
  // Path lemmas

  /** The empty word leads from every state to itself. */
  lemma ReachEmpty(g: Graph, p: nat)
    ensures Reach(g, p, [], p)
  {
    assert Steps(g, p, [], p, 0);
  }

  lemma EdgeStep(g: Graph, p: nat, l: Label, r: nat)
    requires r in Succ(g, p, l)
    ensures l == Eps ==> Steps(g, p, [], r, 1)
    ensures l.Sym? ==> Steps(g, p, [l.c], r, 1)
  {
    assert Steps(g, r, [], r, 0);
    if l.Sym? {
      var w := [l.c];
      assert w[0] == l.c && w[1..] == [];
      assert Steps(g, r, w[1..], r, 0);
    }
  }

  /** Paths compose: reading `u` then `v`. */
  /** An epsilon edge in front of a path. */
  lemma EpsCons(g: Graph, p: nat, s: nat, u: string, x: nat, k: nat, k1: nat)
    requires s in Succ(g, p, Eps) && Steps(g, s, u, x, k) && k1 == k + 1
    ensures Steps(g, p, u, x, k1)
  {
  }

  /** A character edge in front of a path. */
  lemma SymCons(g: Graph, p: nat, c: char, s: nat, u: string, x: nat, k: nat, k1: nat)
    requires s in Succ(g, p, Sym(c)) && Steps(g, s, u, x, k) && k1 == k + 1
    ensures Steps(g, p, [c] + u, x, k1)
  {
    var w := [c] + u;
    assert w[0] == c && w[1..] == u;
  }

  lemma {:induction false} StepsAppend(g: Graph, p: nat, u: string, r: nat, n: nat, v: string, q: nat, m: nat)
    requires Steps(g, p, u, r, n) && Steps(g, r, v, q, m)
    ensures Steps(g, p, u + v, q, n + m)
    decreases n
  {
    if n == 0 {
      assert u + v == v;
    } else if s :| s in Succ(g, p, Eps) && Steps(g, s, u, r, n - 1) {
      StepsAppend(g, s, u, r, n - 1, v, q, m);
    } else {
      var s :| s in Succ(g, p, Sym(u[0])) && Steps(g, s, u[1..], r, n - 1);
      StepsAppend(g, s, u[1..], r, n - 1, v, q, m);
      assert (u + v)[0] == u[0] && (u + v)[1..] == u[1..] + v;
    }
  }

  lemma ReachAppend(g: Graph, p: nat, u: string, r: nat, v: string, q: nat)
    requires Reach(g, p, u, r) && Reach(g, r, v, q)
    ensures Reach(g, p, u + v, q)
  {
    var n :| Steps(g, p, u, r, n);
    var m :| Steps(g, r, v, q, m);
    StepsAppend(g, p, u, r, n, v, q, m);
  }

  /** Adding edges keeps every path. */
  lemma {:induction false} StepsMono(g: Graph, g': Graph, p: nat, w: string, q: nat, n: nat)
    requires SubGraph(g, g') && Steps(g, p, w, q, n)
    ensures Steps(g', p, w, q, n)
    decreases n
  {
    if n > 0 {
      if r :| r in Succ(g, p, Eps) && Steps(g, r, w, q, n - 1) {
        StepsMono(g, g', r, w, q, n - 1);
        assert r in Succ(g', p, Eps);
      } else {
        var r :| r in Succ(g, p, Sym(w[0])) && Steps(g, r, w[1..], q, n - 1);
        StepsMono(g, g', r, w[1..], q, n - 1);
        assert r in Succ(g', p, Sym(w[0]));
      }
    }
  }

  lemma ReachMono(g: Graph, g': Graph, p: nat, w: string, q: nat)
    requires SubGraph(g, g') && Reach(g, p, w, q)
    ensures Reach(g', p, w, q)
  {
    var n :| Steps(g, p, w, q, n);
    StepsMono(g, g', p, w, q, n);
  }

  /**
   * A path that starts in a closed region of `g` on whose states `g'` agrees
   * with `g` is a path of `g` and ends in the region.
   */
  lemma {:induction false} StepsInRegion(g: Graph, g': Graph, r: set<nat>, p: nat, w: string, q: nat, n: nat)
    requires Closed(g, r) && AgreeOn(g, g', r) && p in r && Steps(g', p, w, q, n)
    ensures Steps(g, p, w, q, n) && q in r
    decreases n
  {
    if n > 0 {
      if s :| s in Succ(g', p, Eps) && Steps(g', s, w, q, n - 1) {
        assert s in Succ(g, p, Eps);
        StepsInRegion(g, g', r, s, w, q, n - 1);
      } else {
        var s :| s in Succ(g', p, Sym(w[0])) && Steps(g', s, w[1..], q, n - 1);
        assert s in Succ(g, p, Sym(w[0]));
        StepsInRegion(g, g', r, s, w[1..], q, n - 1);
      }
    }
  }

  /**
   * A path of `g'` from a closed region of `g` on which `g'` differs from
   * `g` at most at `x` either is a path of `g`, or reaches `x` by a path of
   * `g` (reading a prefix of `w`) and continues from `x` in `g'`.
   */
  lemma {:induction false} StepsExit(g: Graph, g': Graph, r: set<nat>, x: nat, p: nat, w: string, q: nat, n: nat)
    returns (via: bool, i: nat, k: nat, m: nat)
    requires Closed(g, r) && AgreeOn(g, g', r - {x}) && p in r && Steps(g', p, w, q, n)
    ensures via ==> i <= |w| && k + m == n && Steps(g, p, w[..i], x, k) && Steps(g', x, w[i..], q, m)
    ensures !via ==> Steps(g, p, w, q, n)
    decreases n, 1
  {
    if p == x {
      via, i, k, m := true, 0, 0, n;
      assert w[..0] == [] && w[0..] == w;
    } else if n == 0 {
      via, i, k, m := false, 0, 0, 0;
    } else if s :| s in Succ(g', p, Eps) && Steps(g', s, w, q, n - 1) {
      via, i, k, m := ExitEps(g, g', r, x, p, s, w, q, n);
    } else {
      var s :| s in Succ(g', p, Sym(w[0])) && Steps(g', s, w[1..], q, n - 1);
      via, i, k, m := ExitSym(g, g', r, x, p, s, w, q, n);
    }
  }

  /** `StepsExit` when the run starts with an epsilon move to `s`. */
  lemma {:induction false} ExitEps(g: Graph, g': Graph, r: set<nat>, x: nat, p: nat, s: nat, w: string, q: nat, n: nat)
    returns (via: bool, i: nat, k: nat, m: nat)
    requires Closed(g, r) && AgreeOn(g, g', r - {x}) && p in r && p != x && n > 0
    requires s in Succ(g', p, Eps) && Steps(g', s, w, q, n - 1)
    ensures via ==> i <= |w| && k + m == n && Steps(g, p, w[..i], x, k) && Steps(g', x, w[i..], q, m)
    ensures !via ==> Steps(g, p, w, q, n)
    decreases n, 0
  {
    assert s in Succ(g, p, Eps);
    var via', i', k', m' := StepsExit(g, g', r, x, s, w, q, n - 1);
    via, i, k, m := via', i', k' + 1, m';
    if via {
      EpsCons(g, p, s, w[..i'], x, k', k);
    } else {
      EpsCons(g, p, s, w, q, n - 1, n);
    }
  }

  /** `StepsExit` when the run starts by reading `w[0]` into `s`. */
  lemma {:induction false} ExitSym(g: Graph, g': Graph, r: set<nat>, x: nat, p: nat, s: nat, w: string, q: nat, n: nat)
    returns (via: bool, i: nat, k: nat, m: nat)
    requires Closed(g, r) && AgreeOn(g, g', r - {x}) && p in r && p != x && n > 0
    requires w != [] && s in Succ(g', p, Sym(w[0])) && Steps(g', s, w[1..], q, n - 1)
    ensures via ==> i <= |w| && k + m == n && Steps(g, p, w[..i], x, k) && Steps(g', x, w[i..], q, m)
    ensures !via ==> Steps(g, p, w, q, n)
    decreases n, 0
  {
    assert s in Succ(g, p, Sym(w[0]));
    var via', i', k', m' := StepsExit(g, g', r, x, s, w[1..], q, n - 1);
    via, i, k, m := via', i' + 1, k' + 1, m';
    if via {
      SymCons(g, p, w[0], s, w[1..][..i'], x, k', k);
      assert w[..i] == [w[0]] + w[1..][..i'];
      assert w[i..] == w[1..][i'..];
    } else {
      SymCons(g, p, w[0], s, w[1..], q, n - 1, n);
      assert w == [w[0]] + w[1..];
    }
  }

  /** Nothing is read on the way out of a sink. */
  lemma SinkSteps(g: Graph, x: nat, w: string, q: nat, n: nat)
    requires Sink(g, x) && Steps(g, x, w, q, n)
    ensures n == 0 && w == [] && q == x
  {
  }

  /**
   * The first edge of a path out of a state with no character edges is an
   * epsilon edge.
   */
  lemma FirstEpsStep(g: Graph, x: nat, w: string, q: nat, n: nat) returns (s: nat, m: nat)
    requires n > 0 && Steps(g, x, w, q, n)
    requires forall c :: Succ(g, x, Sym(c)) == {}
    ensures s in Succ(g, x, Eps) && m + 1 == n && Steps(g, s, w, q, m)
  {
    if w != [] { assert Succ(g, x, Sym(w[0])) == {}; }
    m := n - 1;
    s :| s in Succ(g, x, Eps) && Steps(g, s, w, q, m);
  }


  /** The language of an automaton is unaffected by appending states. */
  /** A fragment whose edges are left as they were keeps its language. */
  lemma LangAgree(g: Graph, g': Graph, a: Nfa, r: set<nat>)
    requires Fragment(g, a, r) && AgreeOn(g, g', r) && |g| <= |g'|
    ensures Fragment(g', a, r) && Lang(g', a) == Lang(g, a)
  {
    assert AgreeOn(g', g, r);
    forall w: string ensures w in Lang(g', a) <==> w in Lang(g, a) {
      if Reach(g', a.initial, w, a.final) {
        var n: nat :| Steps(g', a.initial, w, a.final, n);
        StepsInRegion(g, g', r, a.initial, w, a.final, n);
      }
      if Reach(g, a.initial, w, a.final) {
        var n: nat :| Steps(g, a.initial, w, a.final, n);
        StepsInRegion(g', g, r, a.initial, w, a.final, n);
      }
    }
  }

  lemma LangStable(g: Graph, g': Graph, a: Nfa, r: set<nat>)
    requires Fragment(g, a, r) && Extends(g, g')
    ensures Fragment(g', a, r) && Lang(g', a) == Lang(g, a)
  {
    assert AgreeOn(g, g', r) by {
      forall p: nat, l | p in r ensures Succ(g', p, l) == Succ(g, p, l) {
        assert g'[p] == g'[..|g|][p];
      }
    }
    LangAgree(g, g', a, r);
  }

  /** Adding an edge out of an appended state keeps the arena an extension. */
  lemma ExtendsAddEdge(g0: Graph, g: Graph, p: nat, l: Label, q: nat)
    requires Extends(g0, g) && |g0| <= p < |g|
    ensures Extends(g0, AddEdge(g, p, l, q))
  {
    var g' := AddEdge(g, p, l, q);
    assert g'[..|g0|] == g[..|g0|];
  }

  lemma ExtendsTrans(g0: Graph, g1: Graph, g2: Graph)
    requires Extends(g0, g1) && Extends(g1, g2)
    ensures Extends(g0, g2)
  {
    assert g2[..|g0|] == g2[..|g1|][..|g0|];
  }

  /** Every state of `r` was allocated at or after `lo`. */
  ghost predicate Above(r: set<nat>, lo: nat)
  {
    forall p :: p in r ==> lo <= p
  }


  // ---------------------------------------------------------------------
  // The arena: the heap of NfaState objects

  /** All NfaState objects; `new NfaState(id)` appends one with no edges. */
  /** The states of a fragment of `g` lie below every state above |g|. */
  lemma Separate(g: Graph, a: Nfa, ra: set<nat>, rb: set<nat>)
    requires Fragment(g, a, ra) && Above(rb, |g|)
    ensures ra !! rb
  {
  }

  lemma ExtendsRefl(g: Graph)
    ensures Extends(g, g)
  {
    assert g[..|g|] == g;
  }

  /** `g'` keeps every state of `g` outside `r` as it was. */
  ghost predicate SameOutside(g: Graph, g': Graph, r: set<nat>)
  {
    |g| <= |g'| && forall p: nat :: p < |g| && p !in r ==> g'[p] == g[p]
  }

  /** A fragment whose states were left alone keeps its language. */
  lemma Kept(g: Graph, g': Graph, r: set<nat>, c: Nfa, rc: set<nat>)
    requires SameOutside(g, g', r) && Fragment(g, c, rc) && rc !! r
    ensures Fragment(g', c, rc) && Lang(g', c) == Lang(g, c)
  {
    assert AgreeOn(g, g', rc) by {
      forall p: nat, l | p in rc ensures Succ(g', p, l) == Succ(g, p, l) {
        assert g'[p] == g[p];
      }
    }
    LangAgree(g, g', c, rc);
  }

  class NfaArena {
    var states: Graph

    ghost predicate Valid()
      reads this
    {
      ValidGraph(states)
    }

    constructor ()
      ensures Valid() && states == []
    {
      states := [];
    }

    /** `new NfaState(id)`: a fresh state with an empty transition map. */
    method NewState() returns (s: nat)
      requires Valid()
      modifies this
      ensures Valid()
      ensures s == |old(states)| && states == old(states) + [map[]]
    {
      ghost var g := states;
      s := |states|;
      states := states + [map[]];
      forall p: nat, l ensures Succ(states, p, l) == Succ(g, p, l) {
        if p < |g| { assert states[p] == g[p]; }
      }
    }

    /** NfaState.addTransition: add `target` to the `symbol` targets of `source`. */
    method AddTransition(source: nat, symbol: Label, target: nat)
      requires Valid() && source < |states| && target < |states|
      modifies this
      ensures Valid()
      ensures states == AddEdge(old(states), source, symbol, target)
    {
      ghost var g := states;
      states := AddEdge(states, source, symbol, target);
      forall p: nat, l, q | q in Succ(states, p, l) ensures q < |states| {
        assert q in Succ(g, p, l) || q == target;
      }
    }
  }
}
