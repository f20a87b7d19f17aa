/**
 * `NfaExpression`: a fluent wrapper around one automaton, whose literal,
 * concat, union and star delegate to the `NfaFactory` combinators.  Here an
 * expression is its `Nfa` together with the ghost region of arena states it
 * owns; every method keeps the arena below `g0` (the arena as it was when
 * the enclosing pattern started) untouched, and states the language of its
 * result in terms of the languages of its operands.
 */
module NfaExpression {
  import opened Wrappers
  import opened Languages
  import opened NfaGraph
  import opened NfaFactory

  /** literal(c): buildCharAutomaton(c). */
  method Literal(arena: NfaArena, ghost g0: Graph, c: char) returns (r: Nfa, ghost region: set<nat>)
    requires arena.Valid() && Extends(g0, arena.states)
    modifies arena
    ensures arena.Valid() && Extends(old(arena.states), arena.states) && Extends(g0, arena.states)
    ensures Fragment(arena.states, r, region) && Above(region, |old(arena.states)|)
    ensures Lang(arena.states, r) == iset{[c]}
  {
    ghost var g := arena.states;
    r := BuildCharAutomaton(arena, c);
    region := {r.initial, r.final};
    CharLaw(g, c);
    CharGraphExtends(g, c);
    ExtendsTrans(g0, g, arena.states);
  }

  /** A buildSequence of a non-empty literal word (so it never throws). */
  method Word(arena: NfaArena, ghost g0: Graph, w: string) returns (r: Nfa, ghost region: set<nat>)
    requires arena.Valid() && Extends(g0, arena.states) && w != []
    modifies arena
    ensures arena.Valid() && Extends(old(arena.states), arena.states) && Extends(g0, arena.states)
    ensures Fragment(arena.states, r, region) && Above(region, |old(arena.states)|)
    ensures Lang(arena.states, r) == iset{w}
  {
    ghost var g := arena.states;
    var o;
    o, region := BuildSequence(arena, w);
    r := o.value;
    ExtendsTrans(g0, g, arena.states);
  }

  /** concat(other): concatenate, consuming both operands. */
  method Concat(arena: NfaArena, ghost g0: Graph, a: Nfa, ghost ra: set<nat>, b: Nfa, ghost rb: set<nat>)
    returns (r: Nfa, ghost region: set<nat>)
    requires arena.Valid() && Extends(g0, arena.states)
    requires Fragment(arena.states, a, ra) && Fragment(arena.states, b, rb) && ra !! rb
    requires Above(ra, |g0|) && Above(rb, |g0|)
    modifies arena
    ensures arena.Valid() && Extends(g0, arena.states) && |arena.states| == |old(arena.states)|
    ensures Fragment(arena.states, r, region) && Above(region, |g0|)
    ensures Lang(arena.states, r) == Languages.Concat(Lang(old(arena.states), a), Lang(old(arena.states), b))
    ensures SameOutside(old(arena.states), arena.states, {a.final})
    ensures r == Nfa(a.initial, b.final) && region == ra + rb
  {
    ghost var g := arena.states;
    ConcatOutside(g, a, b);
    r := Concatenate(arena, a, b);
    region := ra + rb;
    ConcatStep(g0, g, arena.states, a, b, r, ra, rb, region);
  }

  /** union(other): two fresh states around both operands. */
  method Union(arena: NfaArena, ghost g0: Graph, a: Nfa, ghost ra: set<nat>, b: Nfa, ghost rb: set<nat>)
    returns (r: Nfa, ghost region: set<nat>)
    requires arena.Valid() && Extends(g0, arena.states)
    requires Fragment(arena.states, a, ra) && Fragment(arena.states, b, rb) && ra !! rb
    requires Above(ra, |g0|) && Above(rb, |g0|)
    modifies arena
    ensures arena.Valid() && Extends(g0, arena.states) && |arena.states| == |old(arena.states)| + 2
    ensures Fragment(arena.states, r, region) && Above(region, |g0|)
    ensures Lang(arena.states, r) == Lang(old(arena.states), a) + Lang(old(arena.states), b)
    ensures SameOutside(old(arena.states), arena.states, {a.final, b.final})
    ensures r == Nfa(|old(arena.states)|, |old(arena.states)| + 1)
    ensures region == ra + rb + {|old(arena.states)|, |old(arena.states)| + 1}
  {
    ghost var g := arena.states;
    UnionOutside(g, a, b);
    r := NfaFactory.Union(arena, a, b);
    region := ra + rb + {|g|, |g| + 1};
    UnionStep(g0, g, arena.states, a, b, r, ra, rb, region);
  }

  /** star(): kleene. */
  method Star(arena: NfaArena, ghost g0: Graph, a: Nfa, ghost ra: set<nat>) returns (r: Nfa, ghost region: set<nat>)
    requires arena.Valid() && Extends(g0, arena.states)
    requires Fragment(arena.states, a, ra) && Above(ra, |g0|)
    modifies arena
    ensures arena.Valid() && Extends(g0, arena.states) && |arena.states| == |old(arena.states)| + 2
    ensures Fragment(arena.states, r, region) && Above(region, |g0|)
    ensures Lang(arena.states, r) == Languages.Star(Lang(old(arena.states), a))
    ensures [] in Lang(arena.states, r)
    ensures SameOutside(old(arena.states), arena.states, {a.final})
    ensures r == Nfa(|old(arena.states)|, |old(arena.states)| + 1)
    ensures region == ra + {|old(arena.states)|, |old(arena.states)| + 1}
  {
    ghost var g := arena.states;
    KleeneOutside(g, a);
    r := Kleene(arena, a);
    region := ra + {|g|, |g| + 1};
    KleeneStep(g0, g, arena.states, a, r, ra, region);
  }

  /** x.concat(x.star()), the plus idiom, whose two operands share `x`. */
  method Plus(arena: NfaArena, ghost g0: Graph, a: Nfa, ghost ra: set<nat>) returns (r: Nfa, ghost region: set<nat>)
    requires arena.Valid() && Extends(g0, arena.states)
    requires Fragment(arena.states, a, ra) && Above(ra, |g0|)
    modifies arena
    ensures arena.Valid() && Extends(g0, arena.states) && |arena.states| == |old(arena.states)| + 2
    ensures Fragment(arena.states, r, region) && Above(region, |g0|)
    ensures Lang(arena.states, r) == Languages.Concat(Lang(old(arena.states), a), Languages.Star(Lang(old(arena.states), a)))
    ensures SameOutside(old(arena.states), arena.states, {a.final})
    ensures r == Nfa(a.initial, |old(arena.states)| + 1)
    ensures region == ra + {|old(arena.states)|, |old(arena.states)| + 1}
  {
    ghost var g := arena.states;
    PlusOutside(g, a);
    var star := Kleene(arena, a);
    r := Concatenate(arena, a, star);
    region := ra + {|g|, |g| + 1};
    PlusStep(g0, g, arena.states, a, r, ra, region);
  }

  /** q.concat(c).concat(q), the shared-delimiter idiom: the result is `q` itself. */
  method Delimited(arena: NfaArena, ghost g0: Graph, q: Nfa, ghost rq: set<nat>, c: Nfa, ghost rc: set<nat>)
    returns (r: Nfa, ghost region: set<nat>)
    requires arena.Valid() && Extends(g0, arena.states)
    requires Fragment(arena.states, q, rq) && Fragment(arena.states, c, rc) && rq !! rc
    requires Above(rq, |g0|) && Above(rc, |g0|)
    modifies arena
    ensures arena.Valid() && Extends(g0, arena.states) && |arena.states| == |old(arena.states)|
    ensures r == q && Closed(arena.states, region) && Above(region, |g0|) && r.initial in region && r.final in region
    ensures forall p :: p in region ==> p < |arena.states|
    ensures Lang(arena.states, r)
         == Languages.Concat(Lang(old(arena.states), q), Languages.Star(Languages.Concat(Lang(old(arena.states), c), Lang(old(arena.states), q))))
    ensures SameOutside(old(arena.states), arena.states, {q.final, c.final})
    ensures region == rq + rc
  {
    ghost var g := arena.states;
    DelimitedOutside(g, q, c);
    var left := Concatenate(arena, q, c);
    r := Concatenate(arena, left, q);
    region := rq + rc;
    SharedDelimiterStep(g0, g, arena.states, q, c, rq, rc, region);
  }
}
