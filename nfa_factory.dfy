/**
 * The Thompson combinators of `NfaFactory`.  Each one adds states and edges
 * to the arena; the graph it leaves behind is given by a function of the old
 * graph, and the lemmas below state the language each result accepts
 * (`Lang`) in terms of the languages of its arguments.
 */
module NfaFactory {
  import opened Wrappers
  import opened Languages
  import opened NfaGraph

  // ---------------------------------------------------------------------
  // The graph each combinator leaves behind

  /** buildCharAutomaton: two new states and one `c`-edge between them. */
  function CharGraph(g: Graph, c: char): Graph
  {
    AddEdge(g + [map[], map[]], |g|, Sym(c), |g| + 1)
  }

  /** concatenate: one epsilon edge from the first final to the second initial state. */
  function ConcatGraph(g: Graph, first: Nfa, second: Nfa): Graph
    requires first.final < |g|
  {
    AddEdge(g, first.final, Eps, second.initial)
  }

  /** union: a new start (|g|) and a new end (|g|+1) joined to both arguments by epsilon edges. */
  function UnionGraph(g: Graph, first: Nfa, second: Nfa): Graph
    requires first.final < |g| && second.final < |g|
  {
    var n := |g|;
    var g1 := AddEdge(g + [map[], map[]], n, Eps, first.initial);
    var g2 := AddEdge(g1, n, Eps, second.initial);
    var g3 := AddEdge(g2, first.final, Eps, n + 1);
    AddEdge(g3, second.final, Eps, n + 1)
  }

  /** kleene: a new start (|g|) and end (|g|+1); epsilon edges from the new start and the old final to the old initial and the new end. */
  function KleeneGraph(g: Graph, a: Nfa): Graph
    requires a.final < |g|
  {
    var n := |g|;
    var g1 := AddEdge(g + [map[], map[]], n, Eps, a.initial);
    var g2 := AddEdge(g1, n, Eps, n + 1);
    var g3 := AddEdge(g2, a.final, Eps, a.initial);
    AddEdge(g3, a.final, Eps, n + 1)
  }

  // ---------------------------------------------------------------------
  // Edge-level descriptions of those graphs

  lemma AppendEmptySucc(g: Graph)
    ensures forall p: nat, l :: Succ(g + [map[], map[]], p, l) == Succ(g, p, l)
  {
    forall p: nat, l ensures Succ(g + [map[], map[]], p, l) == Succ(g, p, l) {
      if p < |g| { assert (g + [map[], map[]])[p] == g[p]; }
    }
  }

  lemma CharSucc(g: Graph, c: char)
    ensures |CharGraph(g, c)| == |g| + 2
    ensures forall p: nat, l :: (Succ(CharGraph(g, c), p, l)
      == Succ(g, p, l) + (if p == |g| && l == Sym(c) then {|g| + 1} else {}))
    ensures forall l :: Succ(g, |g|, l) == {} && Succ(g, |g| + 1, l) == {}
  {
    AppendEmptySucc(g);
  }

  /** The edges of `g'` are those of `g` plus the ones `union(first, second)` adds. */
  ghost predicate UnionEdges(g: Graph, g': Graph, first: Nfa, second: Nfa)
  {
    && |g'| == |g| + 2
    && (forall l :: Succ(g, |g|, l) == {} && Succ(g, |g| + 1, l) == {})
    && forall p: nat, l, q :: q in Succ(g', p, l) <==>
      (|| q in Succ(g, p, l)
       || (p == |g| && l == Eps && (q == first.initial || q == second.initial))
       || ((p == first.final || p == second.final) && l == Eps && q == |g| + 1))
  }

  /** The edges of `g'` are those of `g` plus the ones `kleene(a)` adds. */
  ghost predicate KleeneEdges(g: Graph, g': Graph, a: Nfa)
  {
    && |g'| == |g| + 2
    && (forall l :: Succ(g, |g|, l) == {} && Succ(g, |g| + 1, l) == {})
    && forall p: nat, l, q :: q in Succ(g', p, l) <==>
      (|| q in Succ(g, p, l)
       || ((p == |g| || p == a.final) && l == Eps && (q == a.initial || q == |g| + 1)))
  }

  /** The edges of `g'` are those of `g` plus the ones `a.concat(a.star())` adds. */
  ghost predicate PlusEdges(g: Graph, g': Graph, a: Nfa)
  {
    && |g'| == |g| + 2
    && (forall l :: Succ(g, |g|, l) == {} && Succ(g, |g| + 1, l) == {})
    && forall p: nat, l, q :: q in Succ(g', p, l) <==>
      (|| q in Succ(g, p, l)
       || ((p == |g| || p == a.final) && l == Eps && (q == a.initial || q == |g| + 1))
       || (p == a.final && l == Eps && q == |g|))
  }

  /** The edges of `g'` are those of `g` plus the ones `q.concat(c).concat(q)` adds. */
  ghost predicate LoopEdges(g: Graph, g': Graph, q: Nfa, c: Nfa)
  {
    forall p: nat, l, x :: x in Succ(g', p, l) <==>
      (|| x in Succ(g, p, l)
       || (p == q.final && l == Eps && x == c.initial)
       || (p == c.final && l == Eps && x == q.initial))
  }

  lemma UnionSucc(g: Graph, first: Nfa, second: Nfa)
    requires first.final < |g| && second.final < |g|
    ensures UnionEdges(g, UnionGraph(g, first, second), first, second)
  {
    AppendEmptySucc(g);
  }

  lemma KleeneSucc(g: Graph, a: Nfa)
    requires a.final < |g|
    ensures KleeneEdges(g, KleeneGraph(g, a), a)
  {
    AppendEmptySucc(g);
  }

  lemma PlusSucc(g: Graph, a: Nfa)
    requires a.final < |g|
    ensures PlusEdges(g, ConcatGraph(KleeneGraph(g, a), a, Nfa(|g|, |g| + 1)), a)
  {
    KleeneSucc(g, a);
  }

  lemma LoopSucc(g: Graph, q: Nfa, c: Nfa)
    requires q.final < |g| && c.final < |g|
    ensures LoopEdges(g, ConcatGraph(ConcatGraph(g, q, c), Nfa(q.initial, c.final), q), q, c)
  {
  }

  // ---------------------------------------------------------------------
  // General facts about paths through a star-shaped exit

  /**
   * From inside `a`, every path of `g'` that ends at `f` reads a word of
   * `a` followed by a word of `a`*, provided the only new edges are epsilon
   * edges from `a.final` to `a.initial`, `f` and `s`, and from `s` to
   * `a.initial` and `f` (as `kleene` and the X·X* idiom leave them).
   */
  lemma {:induction false} StarOut(g: Graph, g': Graph, a: Nfa, r: set<nat>, s: nat, f: nat, p: nat, w: string, n: nat)
    returns (i: nat)
    requires Fragment(g, a, r) && s !in r && f !in r && s != f
    requires AgreeOn(g, g', r - {a.final})
    requires Succ(g', a.final, Eps) <= {a.initial, f, s}
    requires forall c :: Succ(g', a.final, Sym(c)) == {}
    requires Succ(g', s, Eps) <= {a.initial, f}
    requires forall c :: Succ(g', s, Sym(c)) == {}
    requires Sink(g', f)
    requires p in r && Steps(g', p, w, f, n)
    ensures i <= |w| && Reach(g, p, w[..i], a.final) && InStar(Lang(g, a), w[i..])
    decreases n
  {
    var via, j, k, left := StepsExit(g, g', r, a.final, p, w, f, n);
    if !via {
      StepsInRegion(g, g, r, p, w, f, n);
      assert false;
    }
    i := j;
    var rest := w[i..];
    var t, m := FirstEpsStep(g', a.final, rest, f, left);
    if t == s {
      t, m := FirstEpsStep(g', s, rest, f, m);
    }
    if t == f {
      SinkSteps(g', f, rest, f, m);
    } else {
      assert t == a.initial;
      var i2 := StarOut(g, g', a, r, s, f, a.initial, rest, m);
      assert rest[..i2] in Lang(g, a);
      assert rest == rest[..i2] + rest[i2..];
      StarCons(Lang(g, a), rest[..i2], rest[i2..]);
    }
  }

  /** Conversely, with epsilon edges from `a.final` to `a.initial` and to `f`, every word of `a`* leads from `a.final` to `f`. */
  lemma {:induction false} StarIn(g: Graph, g': Graph, a: Nfa, f: nat, v: string)
    requires SubGraph(g, g') && a.initial in Succ(g', a.final, Eps) && f in Succ(g', a.final, Eps)
    requires InStar(Lang(g, a), v)
    ensures Reach(g', a.final, v, f)
    decreases |v|
  {
    if v == [] {
      EdgeStep(g', a.final, Eps, f);
    } else {
      var i :| 0 < i <= |v| && v[..i] in Lang(g, a) && InStar(Lang(g, a), v[i..]);
      StarIn(g, g', a, f, v[i..]);
      ReachMono(g, g', a.initial, v[..i], a.final);
      EdgeStep(g', a.final, Eps, a.initial);
      ReachAppend(g', a.final, [], a.initial, v[..i], a.final);
      assert [] + v[..i] == v[..i];
      ReachAppend(g', a.final, v[..i], a.final, v[i..], f);
      assert v[..i] + v[i..] == v;
    }
  }

  /** From a fragment whose final state's only edge is an epsilon edge to a sink `f`: the words reaching `f` are the fragment's words. */
  lemma ExitToSink(g: Graph, g': Graph, a: Nfa, r: set<nat>, f: nat, w: string)
    requires Fragment(g, a, r) && f !in r
    requires AgreeOn(g, g', r - {a.final})
    requires Succ(g', a.final, Eps) == {f} && forall c :: Succ(g', a.final, Sym(c)) == {}
    requires Sink(g', f)
    requires Reach(g', a.initial, w, f)
    ensures w in Lang(g, a)
  {
    var n: nat :| Steps(g', a.initial, w, f, n);
    var via, i, k, left := StepsExit(g, g', r, a.final, a.initial, w, f, n);
    if !via {
      StepsInRegion(g, g, r, a.initial, w, f, n);
      assert false;
    }
    var t, m := FirstEpsStep(g', a.final, w[i..], f, left);
    SinkSteps(g', f, w[i..], f, m);
    assert w == w[..i];
  }


  /** A word of `x` leads from `s` to `f` once `s -ε-> x.initial` and `x.final -ε-> f` are edges. */
  lemma WrapIn(g: Graph, g': Graph, x: Nfa, s: nat, f: nat, w: string)
    requires SubGraph(g, g') && x.initial in Succ(g', s, Eps) && f in Succ(g', x.final, Eps)
    requires w in Lang(g, x)
    ensures Reach(g', s, w, f)
  {
    ReachMono(g, g', x.initial, w, x.final);
    EdgeStep(g', s, Eps, x.initial);
    EdgeStep(g', x.final, Eps, f);
    ReachAppend(g', s, [], x.initial, w, x.final);
    assert [] + w == w;
    ReachAppend(g', s, w, x.final, [], f);
    assert w + [] == w;
  }

  // ---------------------------------------------------------------------
  // Language laws

  /** buildCharAutomaton(c) accepts exactly the one-character word c. */
  lemma CharLaw(g: Graph, c: char)
    ensures Fragment(CharGraph(g, c), Nfa(|g|, |g| + 1), {|g|, |g| + 1})
    ensures Lang(CharGraph(g, c), Nfa(|g|, |g| + 1)) == iset{[c]}
  {
    var g' := CharGraph(g, c);
    var n := |g|;
    var f := n + 1;
    CharSucc(g, c);
    forall w: string ensures w in Lang(g', Nfa(n, f)) <==> w in iset{[c]} {
      if Reach(g', n, w, f) {
        var m: nat :| Steps(g', n, w, f, m);
        assert Succ(g', n, Eps) == {};
        var t: nat :| t in Succ(g', n, Sym(w[0])) && Steps(g', t, w[1..], f, m - 1);
        SinkSteps(g', f, w[1..], f, m - 1);
        assert w == [w[0]];
      }
      if w == [c] {
        EdgeStep(g', n, Sym(c), f);
      }
    }
  }

  lemma ConcatOut(g: Graph, g': Graph, a: Nfa, b: Nfa, ra: set<nat>, rb: set<nat>, w: string)
    requires Fragment(g, a, ra) && Fragment(g, b, rb) && ra !! rb
    requires AgreeOn(g, g', ra - {a.final}) && AgreeOn(g, g', rb)
    requires Succ(g', a.final, Eps) == {b.initial} && forall c :: Succ(g', a.final, Sym(c)) == {}
    requires Reach(g', a.initial, w, b.final)
    ensures w in Concat(Lang(g, a), Lang(g, b))
  {
    var n: nat :| Steps(g', a.initial, w, b.final, n);
    var via, i, k, left := StepsExit(g, g', ra, a.final, a.initial, w, b.final, n);
    if !via {
      StepsInRegion(g, g, ra, a.initial, w, b.final, n);
      assert false;
    }
    var t, m := FirstEpsStep(g', a.final, w[i..], b.final, left);
    StepsInRegion(g, g', rb, b.initial, w[i..], b.final, m);
    assert w[..i] in Lang(g, a) && w[i..] in Lang(g, b);
  }

  lemma ConcatIn(g: Graph, g': Graph, a: Nfa, b: Nfa, w: string)
    requires SubGraph(g, g') && b.initial in Succ(g', a.final, Eps)
    requires w in Concat(Lang(g, a), Lang(g, b))
    ensures Reach(g', a.initial, w, b.final)
  {
    var i :| 0 <= i <= |w| && w[..i] in Lang(g, a) && w[i..] in Lang(g, b);
    ReachMono(g, g', a.initial, w[..i], a.final);
    ReachMono(g, g', b.initial, w[i..], b.final);
    EdgeStep(g', a.final, Eps, b.initial);
    ReachAppend(g', a.initial, w[..i], a.final, [], b.initial);
    assert w[..i] + [] == w[..i];
    ReachAppend(g', a.initial, w[..i], b.initial, w[i..], b.final);
    assert w[..i] + w[i..] == w;
  }

  /** concatenate(A, B) accepts L(A)·L(B), and is again a Thompson automaton. */
  lemma ConcatLaw(g: Graph, a: Nfa, b: Nfa, ra: set<nat>, rb: set<nat>)
    requires Fragment(g, a, ra) && Fragment(g, b, rb) && ra !! rb
    ensures Fragment(ConcatGraph(g, a, b), Nfa(a.initial, b.final), ra + rb)
    ensures Lang(ConcatGraph(g, a, b), Nfa(a.initial, b.final)) == Concat(Lang(g, a), Lang(g, b))
  {
    var g' := ConcatGraph(g, a, b);
    assert SubGraph(g, g') && AgreeOn(g, g', ra - {a.final}) && AgreeOn(g, g', rb);
    assert Succ(g', a.final, Eps) == {b.initial} && forall c :: Succ(g', a.final, Sym(c)) == {};
    forall w: string ensures w in Lang(g', Nfa(a.initial, b.final)) <==> w in Concat(Lang(g, a), Lang(g, b)) {
      if Reach(g', a.initial, w, b.final) {
        ConcatOut(g, g', a, b, ra, rb, w);
      }
      if w in Concat(Lang(g, a), Lang(g, b)) {
        ConcatIn(g, g', a, b, w);
      }
    }
  }

  /** The edges of `union(A, B)` that the language proof needs. */
  lemma UnionShape(g: Graph, g': Graph, a: Nfa, b: Nfa, ra: set<nat>, rb: set<nat>)
    requires Fragment(g, a, ra) && Fragment(g, b, rb) && ra !! rb && UnionEdges(g, g', a, b)
    ensures SubGraph(g, g')
    ensures AgreeOn(g, g', ra - {a.final}) && AgreeOn(g, g', rb - {b.final})
    ensures Succ(g', |g|, Eps) == {a.initial, b.initial} && (forall c :: Succ(g', |g|, Sym(c)) == {})
    ensures Succ(g', a.final, Eps) == {|g| + 1} && (forall c :: Succ(g', a.final, Sym(c)) == {})
    ensures Succ(g', b.final, Eps) == {|g| + 1} && (forall c :: Succ(g', b.final, Sym(c)) == {})
    ensures Sink(g', |g| + 1)
    ensures Fragment(g', Nfa(|g|, |g| + 1), ra + rb + {|g|, |g| + 1})
  {
  }

  lemma UnionOut(g: Graph, g': Graph, a: Nfa, b: Nfa, ra: set<nat>, rb: set<nat>, s: nat, f: nat, w: string)
    requires Fragment(g, a, ra) && Fragment(g, b, rb) && f !in ra && f !in rb && s != f
    requires AgreeOn(g, g', ra - {a.final}) && AgreeOn(g, g', rb - {b.final})
    requires Succ(g', s, Eps) == {a.initial, b.initial} && forall c :: Succ(g', s, Sym(c)) == {}
    requires Succ(g', a.final, Eps) == {f} && forall c :: Succ(g', a.final, Sym(c)) == {}
    requires Succ(g', b.final, Eps) == {f} && forall c :: Succ(g', b.final, Sym(c)) == {}
    requires Sink(g', f) && Reach(g', s, w, f)
    ensures w in Lang(g, a) + Lang(g, b)
  {
    var m: nat :| Steps(g', s, w, f, m);
    var t, _ := FirstEpsStep(g', s, w, f, m);
    if t == a.initial {
      ExitToSink(g, g', a, ra, f, w);
    } else {
      ExitToSink(g, g', b, rb, f, w);
    }
  }

  lemma UnionLang(g: Graph, g': Graph, a: Nfa, b: Nfa, ra: set<nat>, rb: set<nat>, s: nat, f: nat)
    requires Fragment(g, a, ra) && Fragment(g, b, rb) && f !in ra && f !in rb && s != f
    requires SubGraph(g, g') && AgreeOn(g, g', ra - {a.final}) && AgreeOn(g, g', rb - {b.final})
    requires Succ(g', s, Eps) == {a.initial, b.initial} && forall c :: Succ(g', s, Sym(c)) == {}
    requires Succ(g', a.final, Eps) == {f} && forall c :: Succ(g', a.final, Sym(c)) == {}
    requires Succ(g', b.final, Eps) == {f} && forall c :: Succ(g', b.final, Sym(c)) == {}
    requires Sink(g', f)
    ensures Lang(g', Nfa(s, f)) == Lang(g, a) + Lang(g, b)
  {
    forall w: string ensures w in Lang(g', Nfa(s, f)) <==> w in Lang(g, a) + Lang(g, b) {
      if Reach(g', s, w, f) {
        UnionOut(g, g', a, b, ra, rb, s, f, w);
      }
      if w in Lang(g, a) {
        WrapIn(g, g', a, s, f, w);
      } else if w in Lang(g, b) {
        WrapIn(g, g', b, s, f, w);
      }
    }
  }

  /** union(A, B) accepts L(A) ∪ L(B), and is again a Thompson automaton. */
  lemma UnionLaw(g: Graph, a: Nfa, b: Nfa, ra: set<nat>, rb: set<nat>)
    requires Fragment(g, a, ra) && Fragment(g, b, rb) && ra !! rb
    ensures Fragment(UnionGraph(g, a, b), Nfa(|g|, |g| + 1), ra + rb + {|g|, |g| + 1})
    ensures Lang(UnionGraph(g, a, b), Nfa(|g|, |g| + 1)) == Lang(g, a) + Lang(g, b)
  {
    var g' := UnionGraph(g, a, b);
    UnionSucc(g, a, b);
    UnionShape(g, g', a, b, ra, rb);
    UnionLang(g, g', a, b, ra, rb, |g|, |g| + 1);
  }

  /** The edges of `kleene(A)` that the language proof needs. */
  lemma KleeneShape(g: Graph, g': Graph, a: Nfa, ra: set<nat>)
    requires Fragment(g, a, ra) && KleeneEdges(g, g', a)
    ensures SubGraph(g, g')
    ensures AgreeOn(g, g', ra - {a.final})
    ensures Succ(g', |g|, Eps) == {a.initial, |g| + 1} && (forall c :: Succ(g', |g|, Sym(c)) == {})
    ensures Succ(g', a.final, Eps) == {a.initial, |g| + 1} && (forall c :: Succ(g', a.final, Sym(c)) == {})
    ensures Sink(g', |g| + 1)
    ensures Fragment(g', Nfa(|g|, |g| + 1), ra + {|g|, |g| + 1})
  {
  }

  lemma KleeneOut(g: Graph, g': Graph, a: Nfa, ra: set<nat>, s: nat, f: nat, w: string)
    requires Fragment(g, a, ra) && s !in ra && f !in ra && s != f
    requires AgreeOn(g, g', ra - {a.final})
    requires Succ(g', s, Eps) == {a.initial, f} && forall c :: Succ(g', s, Sym(c)) == {}
    requires Succ(g', a.final, Eps) == {a.initial, f} && forall c :: Succ(g', a.final, Sym(c)) == {}
    requires Sink(g', f) && Reach(g', s, w, f)
    ensures InStar(Lang(g, a), w)
  {
    var m: nat :| Steps(g', s, w, f, m);
    var t, m' := FirstEpsStep(g', s, w, f, m);
    if t == f {
      SinkSteps(g', f, w, f, m');
    } else {
      var i := StarOut(g, g', a, ra, s, f, a.initial, w, m');
      assert w == w[..i] + w[i..];
      StarCons(Lang(g, a), w[..i], w[i..]);
    }
  }

  lemma KleeneIn(g: Graph, g': Graph, a: Nfa, s: nat, f: nat, w: string)
    requires SubGraph(g, g') && a.initial in Succ(g', s, Eps) && f in Succ(g', s, Eps)
    requires a.initial in Succ(g', a.final, Eps) && f in Succ(g', a.final, Eps)
    requires InStar(Lang(g, a), w)
    ensures Reach(g', s, w, f)
  {
    if w == [] {
      EdgeStep(g', s, Eps, f);
    } else {
      var i :| 0 < i <= |w| && w[..i] in Lang(g, a) && InStar(Lang(g, a), w[i..]);
      StarIn(g, g', a, f, w[i..]);
      ReachMono(g, g', a.initial, w[..i], a.final);
      EdgeStep(g', s, Eps, a.initial);
      ReachAppend(g', s, [], a.initial, w[..i], a.final);
      assert [] + w[..i] == w[..i];
      ReachAppend(g', s, w[..i], a.final, w[i..], f);
      assert w[..i] + w[i..] == w;
    }
  }

  lemma KleeneLang(g: Graph, g': Graph, a: Nfa, ra: set<nat>, s: nat, f: nat)
    requires Fragment(g, a, ra) && s !in ra && f !in ra && s != f
    requires SubGraph(g, g') && AgreeOn(g, g', ra - {a.final})
    requires Succ(g', s, Eps) == {a.initial, f} && forall c :: Succ(g', s, Sym(c)) == {}
    requires Succ(g', a.final, Eps) == {a.initial, f} && forall c :: Succ(g', a.final, Sym(c)) == {}
    requires Sink(g', f)
    ensures Lang(g', Nfa(s, f)) == Star(Lang(g, a))
  {
    forall w: string ensures w in Lang(g', Nfa(s, f)) <==> w in Star(Lang(g, a)) {
      if Reach(g', s, w, f) {
        KleeneOut(g, g', a, ra, s, f, w);
      }
      if InStar(Lang(g, a), w) {
        KleeneIn(g, g', a, s, f, w);
      }
    }
  }

  /** kleene(A) accepts L(A)*, in particular the empty word, and is again a Thompson automaton. */
  lemma KleeneLaw(g: Graph, a: Nfa, ra: set<nat>)
    requires Fragment(g, a, ra)
    ensures Fragment(KleeneGraph(g, a), Nfa(|g|, |g| + 1), ra + {|g|, |g| + 1})
    ensures Lang(KleeneGraph(g, a), Nfa(|g|, |g| + 1)) == Star(Lang(g, a))
    ensures [] in Lang(KleeneGraph(g, a), Nfa(|g|, |g| + 1))
  {
    var g' := KleeneGraph(g, a);
    KleeneSucc(g, a);
    KleeneShape(g, g', a, ra);
    KleeneLang(g, g', a, ra, |g|, |g| + 1);
    assert InStar(Lang(g, a), []);
  }

  /** The edges of `x.concat(x.star())` (see PlusLaw) that the language proof needs. */
  lemma PlusShape(g: Graph, g': Graph, a: Nfa, ra: set<nat>)
    requires Fragment(g, a, ra) && PlusEdges(g, g', a)
    ensures SubGraph(g, g')
    ensures AgreeOn(g, g', ra - {a.final})
    ensures Succ(g', |g|, Eps) == {a.initial, |g| + 1} && (forall c :: Succ(g', |g|, Sym(c)) == {})
    ensures Succ(g', a.final, Eps) == {a.initial, |g| + 1, |g|} && (forall c :: Succ(g', a.final, Sym(c)) == {})
    ensures Sink(g', |g| + 1)
    ensures Fragment(g', Nfa(a.initial, |g| + 1), ra + {|g|, |g| + 1})
  {
  }

  lemma PlusOut(g: Graph, g': Graph, a: Nfa, ra: set<nat>, s: nat, f: nat, w: string)
    requires Fragment(g, a, ra) && s !in ra && f !in ra && s != f
    requires AgreeOn(g, g', ra - {a.final})
    requires Succ(g', a.final, Eps) == {a.initial, f, s} && forall c :: Succ(g', a.final, Sym(c)) == {}
    requires Succ(g', s, Eps) == {a.initial, f} && forall c :: Succ(g', s, Sym(c)) == {}
    requires Sink(g', f) && Reach(g', a.initial, w, f)
    ensures w in Concat(Lang(g, a), Star(Lang(g, a)))
  {
    var m: nat :| Steps(g', a.initial, w, f, m);
    var i := StarOut(g, g', a, ra, s, f, a.initial, w, m);
    assert w[..i] in Lang(g, a) && w[i..] in Star(Lang(g, a));
  }

  lemma PlusIn(g: Graph, g': Graph, a: Nfa, f: nat, w: string)
    requires SubGraph(g, g') && a.initial in Succ(g', a.final, Eps) && f in Succ(g', a.final, Eps)
    requires w in Concat(Lang(g, a), Star(Lang(g, a)))
    ensures Reach(g', a.initial, w, f)
  {
    var i :| 0 <= i <= |w| && w[..i] in Lang(g, a) && w[i..] in Star(Lang(g, a));
    StarIn(g, g', a, f, w[i..]);
    ReachMono(g, g', a.initial, w[..i], a.final);
    ReachAppend(g', a.initial, w[..i], a.final, w[i..], f);
    assert w[..i] + w[i..] == w;
  }

  lemma PlusLang(g: Graph, g': Graph, a: Nfa, ra: set<nat>, s: nat, f: nat)
    requires Fragment(g, a, ra) && s !in ra && f !in ra && s != f
    requires SubGraph(g, g') && AgreeOn(g, g', ra - {a.final})
    requires Succ(g', a.final, Eps) == {a.initial, f, s} && forall c :: Succ(g', a.final, Sym(c)) == {}
    requires Succ(g', s, Eps) == {a.initial, f} && forall c :: Succ(g', s, Sym(c)) == {}
    requires Sink(g', f)
    ensures Lang(g', Nfa(a.initial, f)) == Concat(Lang(g, a), Star(Lang(g, a)))
  {
    forall w: string ensures w in Lang(g', Nfa(a.initial, f)) <==> w in Concat(Lang(g, a), Star(Lang(g, a))) {
      if Reach(g', a.initial, w, f) {
        PlusOut(g, g', a, ra, s, f, w);
      }
      if w in Concat(Lang(g, a), Star(Lang(g, a))) {
        PlusIn(g, g', a, f, w);
      }
    }
  }

  /**
   * The one-or-more idiom `x.concat(x.star())`, which shares the states of
   * `x` between both operands, accepts L(X)·L(X)*.
   */
  lemma PlusLaw(g: Graph, a: Nfa, ra: set<nat>)
    requires Fragment(g, a, ra)
    ensures Fragment(ConcatGraph(KleeneGraph(g, a), a, Nfa(|g|, |g| + 1)), Nfa(a.initial, |g| + 1), ra + {|g|, |g| + 1})
    ensures Lang(ConcatGraph(KleeneGraph(g, a), a, Nfa(|g|, |g| + 1)), Nfa(a.initial, |g| + 1))
         == Concat(Lang(g, a), Star(Lang(g, a)))
  {
    var g' := ConcatGraph(KleeneGraph(g, a), a, Nfa(|g|, |g| + 1));
    PlusSucc(g, a);
    PlusShape(g, g', a, ra);
    PlusLang(g, g', a, ra, |g|, |g| + 1);
  }

  /** The edges of `q.concat(c).concat(q)` (see SharedDelimiterLaw) that the language proof needs. */
  lemma LoopShape(g: Graph, g': Graph, q: Nfa, c: Nfa, rq: set<nat>, rc: set<nat>)
    requires Fragment(g, q, rq) && Fragment(g, c, rc) && rq !! rc && LoopEdges(g, g', q, c)
    ensures SubGraph(g, g')
    ensures AgreeOn(g, g', rq - {q.final}) && AgreeOn(g, g', rc - {c.final})
    ensures Succ(g', q.final, Eps) == {c.initial} && (forall ch :: Succ(g', q.final, Sym(ch)) == {})
    ensures Succ(g', c.final, Eps) == {q.initial} && (forall ch :: Succ(g', c.final, Sym(ch)) == {})
    ensures Closed(g', rq + rc)
  {
  }

  /** One turn of the loop: from q's final state through `c` back to q's initial state. */
  lemma LoopStep(g: Graph, g': Graph, q: Nfa, c: Nfa, rc: set<nat>, v: string, m: nat)
    returns (j: nat, m': nat)
    requires Fragment(g, c, rc) && q.final !in rc
    requires AgreeOn(g, g', rc - {c.final})
    requires Succ(g', q.final, Eps) == {c.initial} && forall ch :: Succ(g', q.final, Sym(ch)) == {}
    requires Succ(g', c.final, Eps) == {q.initial} && forall ch :: Succ(g', c.final, Sym(ch)) == {}
    requires m > 0 && Steps(g', q.final, v, q.final, m)
    ensures j <= |v| && v[..j] in Lang(g, c) && m' < m && Steps(g', q.initial, v[j..], q.final, m')
  {
    var t, m1 := FirstEpsStep(g', q.final, v, q.final, m);
    var via, j0, k, left := StepsExit(g, g', rc, c.final, c.initial, v, q.final, m1);
    if !via {
      StepsInRegion(g, g, rc, c.initial, v, q.final, m1);
      assert false;
    }
    j := j0;
    var t2;
    t2, m' := FirstEpsStep(g', c.final, v[j..], q.final, left);
  }

  lemma {:induction false} LoopOut(g: Graph, g': Graph, q: Nfa, c: Nfa, rq: set<nat>, rc: set<nat>, p: nat, w: string, n: nat)
    returns (i: nat)
    requires Fragment(g, q, rq) && Fragment(g, c, rc) && rq !! rc
    requires AgreeOn(g, g', rq - {q.final}) && AgreeOn(g, g', rc - {c.final})
    requires Succ(g', q.final, Eps) == {c.initial} && forall ch :: Succ(g', q.final, Sym(ch)) == {}
    requires Succ(g', c.final, Eps) == {q.initial} && forall ch :: Succ(g', c.final, Sym(ch)) == {}
    requires p in rq && Steps(g', p, w, q.final, n)
    ensures i <= |w| && Reach(g, p, w[..i], q.final) && InStar(Concat(Lang(g, c), Lang(g, q)), w[i..])
    decreases n
  {
    var lcq := Concat(Lang(g, c), Lang(g, q));
    var via, j, k, left := StepsExit(g, g', rq, q.final, p, w, q.final, n);
    if !via {
      i := |w|;
      assert w[..i] == w;
      return;
    }
    i := j;
    var rest := w[i..];
    if left == 0 {
      return;
    }
    var j2, m' := LoopStep(g, g', q, c, rc, rest, left);
    var rest2 := rest[j2..];
    var i3 := LoopOut(g, g', q, c, rq, rc, q.initial, rest2, m');
    assert rest2[..i3] in Lang(g, q);
    StarConsConcat(Lang(g, c), Lang(g, q), rest, j2, i3);
  }

  lemma {:induction false} LoopIn(g: Graph, g': Graph, q: Nfa, c: Nfa, v: string)
    requires SubGraph(g, g') && c.initial in Succ(g', q.final, Eps) && q.initial in Succ(g', c.final, Eps)
    requires InStar(Concat(Lang(g, c), Lang(g, q)), v)
    ensures Reach(g', q.final, v, q.final)
    decreases |v|
  {
    if v == [] {
      ReachEmpty(g', q.final);
    } else {
      var i := StarSplit(Concat(Lang(g, c), Lang(g, q)), v);
      LoopIn(g, g', q, c, v[i..]);
      LoopPieceCons(g, g', q, c, v, i);
    }
  }

  lemma LoopPieceCons(g: Graph, g': Graph, q: Nfa, c: Nfa, v: string, i: nat)
    requires SubGraph(g, g') && c.initial in Succ(g', q.final, Eps) && q.initial in Succ(g', c.final, Eps)
    requires i <= |v| && v[..i] in Concat(Lang(g, c), Lang(g, q)) && Reach(g', q.final, v[i..], q.final)
    ensures Reach(g', q.final, v, q.final)
  {
    LoopPieceIn(g, g', q, c, v[..i]);
    ReachAppend(g', q.final, v[..i], q.final, v[i..], q.final);
    assert v[..i] + v[i..] == v;
  }

  lemma LoopPieceIn(g: Graph, g': Graph, q: Nfa, c: Nfa, piece: string)
    requires SubGraph(g, g') && c.initial in Succ(g', q.final, Eps) && q.initial in Succ(g', c.final, Eps)
    requires piece in Concat(Lang(g, c), Lang(g, q))
    ensures Reach(g', q.final, piece, q.final)
  {
    var j :| 0 <= j <= |piece| && piece[..j] in Lang(g, c) && piece[j..] in Lang(g, q);
    WrapIn(g, g', c, q.final, q.initial, piece[..j]);
    ReachMono(g, g', q.initial, piece[j..], q.final);
    ReachAppend(g', q.final, piece[..j], q.initial, piece[j..], q.final);
    assert piece[..j] + piece[j..] == piece;
  }

  lemma LoopLang(g: Graph, g': Graph, q: Nfa, c: Nfa, rq: set<nat>, rc: set<nat>)
    requires Fragment(g, q, rq) && Fragment(g, c, rc) && rq !! rc
    requires SubGraph(g, g') && AgreeOn(g, g', rq - {q.final}) && AgreeOn(g, g', rc - {c.final})
    requires Succ(g', q.final, Eps) == {c.initial} && forall ch :: Succ(g', q.final, Sym(ch)) == {}
    requires Succ(g', c.final, Eps) == {q.initial} && forall ch :: Succ(g', c.final, Sym(ch)) == {}
    ensures Lang(g', q) == Concat(Lang(g, q), Star(Concat(Lang(g, c), Lang(g, q))))
  {
    var lcq := Concat(Lang(g, c), Lang(g, q));
    forall w: string ensures w in Lang(g', q) <==> w in Concat(Lang(g, q), Star(lcq)) {
      if Reach(g', q.initial, w, q.final) {
        var n: nat :| Steps(g', q.initial, w, q.final, n);
        var i := LoopOut(g, g', q, c, rq, rc, q.initial, w, n);
        assert w[..i] in Lang(g, q) && w[i..] in Star(lcq);
      }
      if w in Concat(Lang(g, q), Star(lcq)) {
        var i :| 0 <= i <= |w| && w[..i] in Lang(g, q) && w[i..] in Star(lcq);
        LoopIn(g, g', q, c, w[i..]);
        ReachMono(g, g', q.initial, w[..i], q.final);
        ReachAppend(g', q.initial, w[..i], q.final, w[i..], q.final);
        Rejoin(w, i);
      }
    }
  }

  /**
   * The shared-delimiter idiom `q.concat(c).concat(q)`, whose first and last
   * operands are the same automaton: its result is `q` itself, whose final
   * state now loops back through `c`.  It accepts L(Q)·(L(C)·L(Q))*.
   */
  lemma SharedDelimiterLaw(g: Graph, q: Nfa, c: Nfa, rq: set<nat>, rc: set<nat>)
    requires Fragment(g, q, rq) && Fragment(g, c, rc) && rq !! rc
    ensures Closed(ConcatGraph(ConcatGraph(g, q, c), Nfa(q.initial, c.final), q), rq + rc)
    ensures Lang(ConcatGraph(ConcatGraph(g, q, c), Nfa(q.initial, c.final), q), q)
         == Concat(Lang(g, q), Star(Concat(Lang(g, c), Lang(g, q))))
  {
    var g' := ConcatGraph(ConcatGraph(g, q, c), Nfa(q.initial, c.final), q);
    LoopSucc(g, q, c);
    LoopShape(g, g', q, c, rq, rc);
    LoopLang(g, g', q, c, rq, rc);
  }

  // ---------------------------------------------------------------------
  // The combinators on the arena

  /** buildCharAutomaton: a new start and end state joined by a `c`-edge. */
  method BuildCharAutomaton(arena: NfaArena, c: char) returns (r: Nfa)
    requires arena.Valid()
    modifies arena
    ensures arena.Valid() && arena.states == CharGraph(old(arena.states), c)
    ensures |arena.states| == |old(arena.states)| + 2
    ensures r == Nfa(|old(arena.states)|, |old(arena.states)| + 1)
  {
    ghost var g := arena.states;
    var start := arena.NewState();
    var end := arena.NewState();
    arena.AddTransition(start, Sym(c), end);
    assert g + [map[]] + [map[]] == g + [map[], map[]];
    r := Nfa(start, end);
  }

  /** concatenate: an epsilon edge from the first final state to the second initial state. */
  method Concatenate(arena: NfaArena, first: Nfa, second: Nfa) returns (r: Nfa)
    requires arena.Valid() && first.final < |arena.states| && second.initial < |arena.states|
    modifies arena
    ensures arena.Valid() && arena.states == ConcatGraph(old(arena.states), first, second)
    ensures r == Nfa(first.initial, second.final)
  {
    arena.AddTransition(first.final, Eps, second.initial);
    r := Nfa(first.initial, second.final);
  }

  /** union: a new start with epsilon edges to both initial states, and epsilon edges from both final states to a new end. */
  method Union(arena: NfaArena, first: Nfa, second: Nfa) returns (r: Nfa)
    requires arena.Valid()
    requires first.initial < |arena.states| && first.final < |arena.states|
    requires second.initial < |arena.states| && second.final < |arena.states|
    modifies arena
    ensures arena.Valid() && arena.states == UnionGraph(old(arena.states), first, second)
    ensures |arena.states| == |old(arena.states)| + 2
    ensures r == Nfa(|old(arena.states)|, |old(arena.states)| + 1)
  {
    ghost var g := arena.states;
    var newStart := arena.NewState();
    var newEnd := arena.NewState();
    assert g + [map[]] + [map[]] == g + [map[], map[]];
    arena.AddTransition(newStart, Eps, first.initial);
    arena.AddTransition(newStart, Eps, second.initial);
    arena.AddTransition(first.final, Eps, newEnd);
    arena.AddTransition(second.final, Eps, newEnd);
    r := Nfa(newStart, newEnd);
  }

  /** kleene: a new start and end; epsilon edges from the new start and the old final state to the old initial state and the new end. */
  method Kleene(arena: NfaArena, nfa: Nfa) returns (r: Nfa)
    requires arena.Valid() && nfa.initial < |arena.states| && nfa.final < |arena.states|
    modifies arena
    ensures arena.Valid() && arena.states == KleeneGraph(old(arena.states), nfa)
    ensures |arena.states| == |old(arena.states)| + 2
    ensures r == Nfa(|old(arena.states)|, |old(arena.states)| + 1)
  {
    ghost var g := arena.states;
    var newStart := arena.NewState();
    var newEnd := arena.NewState();
    assert g + [map[]] + [map[]] == g + [map[], map[]];
    arena.AddTransition(newStart, Eps, nfa.initial);
    arena.AddTransition(newStart, Eps, newEnd);
    arena.AddTransition(nfa.final, Eps, nfa.initial);
    arena.AddTransition(nfa.final, Eps, newEnd);
    r := Nfa(newStart, newEnd);
  }

  lemma CharGraphExtends(g: Graph, c: char)
    ensures Extends(g, CharGraph(g, c))
  {
    var g' := CharGraph(g, c);
    assert g'[..|g|] == (g + [map[], map[]])[..|g|];
  }

  /** One turn of buildSequence's loop: the next character automaton, appended to the result so far. */
  lemma SequenceStep(g0: Graph, g1: Graph, g3: Graph, a: Nfa, b: Nfa, r: set<nat>, r': set<nat>, s: string, i: nat)
    requires i < |s| && Extends(g0, g1) && Fragment(g1, a, r) && Above(r, |g0|)
    requires Lang(g1, a) == iset{s[..i]}
    requires g3 == ConcatGraph(CharGraph(g1, s[i]), a, Nfa(|g1|, |g1| + 1))
    requires b == Nfa(a.initial, |g1| + 1) && r' == r + {|g1|, |g1| + 1}
    ensures Extends(g0, g3) && Fragment(g3, b, r') && Above(r', |g0|)
    ensures Lang(g3, b) == iset{s[..i + 1]}
  {
    var g2 := CharGraph(g1, s[i]);
    var next := Nfa(|g1|, |g1| + 1);
    CharLaw(g1, s[i]);
    CharGraphExtends(g1, s[i]);
    LangStable(g1, g2, a, r);
    ExtendsTrans(g0, g1, g2);
    ConcatLaw(g2, a, next, r, {|g1|, |g1| + 1});
    ExtendsAddEdge(g0, g2, a.final, Eps, next.initial);
    ConcatWords(s[..i], [s[i]]);
    assert s[..i] + [s[i]] == s[..i + 1];
  }

  /**
   * buildSequence: the character automata of `sequence` chained by
   * concatenate.  The empty sequence is rejected (the source throws
   * IllegalArgumentException), which is the `None` result here.
   */
  method BuildSequence(arena: NfaArena, sequence: string) returns (r: Option<Nfa>, ghost region: set<nat>)
    requires arena.Valid()
    modifies arena
    ensures arena.Valid() && Extends(old(arena.states), arena.states)
    ensures r.Some? <==> sequence != []
    ensures r.None? ==> arena.states == old(arena.states)
    ensures r.Some? ==> && Fragment(arena.states, r.value, region) && Above(region, |old(arena.states)|)
                        && Lang(arena.states, r.value) == iset{sequence}
  {
    if sequence == [] {
      return None, {};
    }
    ghost var g0 := arena.states;
    var result := BuildCharAutomaton(arena, sequence[0]);
    CharLaw(g0, sequence[0]);
    CharGraphExtends(g0, sequence[0]);
    region := {result.initial, result.final};
    assert sequence[..1] == [sequence[0]];
    var i := 1;
    while i < |sequence|
      invariant 1 <= i <= |sequence|
      invariant arena.Valid() && Extends(g0, arena.states)
      invariant Fragment(arena.states, result, region) && Above(region, |g0|)
      invariant Lang(arena.states, result) == iset{sequence[..i]}
      decreases |sequence| - i
    {
      ghost var g1, a, r0 := arena.states, result, region;
      var next := BuildCharAutomaton(arena, sequence[i]);
      result := Concatenate(arena, result, next);
      region := region + {next.initial, next.final};
      SequenceStep(g0, g1, arena.states, a, result, r0, region, sequence, i);
      i := i + 1;
    }
    assert sequence[..i] == sequence;
    r := Some(result);
  }

  /** buildString: the same automaton as buildSequence. */
  method BuildString(arena: NfaArena, str: string) returns (r: Option<Nfa>, ghost region: set<nat>)
    requires arena.Valid()
    modifies arena
    ensures arena.Valid() && Extends(old(arena.states), arena.states)
    ensures r.Some? <==> str != []
    ensures r.None? ==> arena.states == old(arena.states)
    ensures r.Some? ==> && Fragment(arena.states, r.value, region) && Above(region, |old(arena.states)|)
                        && Lang(arena.states, r.value) == iset{str}
  {
    r, region := BuildSequence(arena, str);
  }

  /** A union whose arguments lie above `g0` leaves the part below `g0` alone. */
  lemma UnionExtends(g0: Graph, g: Graph, a: Nfa, b: Nfa)
    requires Extends(g0, g) && |g0| <= a.final < |g| && |g0| <= b.final < |g|
    ensures Extends(g0, UnionGraph(g, a, b))
  {
    var n := |g|;
    var g0' := g + [map[], map[]];
    assert g0'[..|g0|] == g[..|g0|];
    var g1 := AddEdge(g0', n, Eps, a.initial);
    ExtendsAddEdge(g0, g0', n, Eps, a.initial);
    var g2 := AddEdge(g1, n, Eps, b.initial);
    ExtendsAddEdge(g0, g1, n, Eps, b.initial);
    var g3 := AddEdge(g2, a.final, Eps, n + 1);
    ExtendsAddEdge(g0, g2, a.final, Eps, n + 1);
    ExtendsAddEdge(g0, g3, b.final, Eps, n + 1);
  }

  /** `start` together with the characters from `first` up to but not including `ch`. */
  ghost function RangeChars(start: char, first: int, ch: int): iset<char>
  {
    iset c: char | InRange(start, first, ch, c)
  }

  ghost predicate InRange(start: char, first: int, ch: int, c: char)
  {
    c == start || first <= c as int < ch
  }

  /** One turn of buildRange's loop: the automaton so far, united with the character automaton of `ch`. */
  lemma RangeStep(g0: Graph, g1: Graph, g2: Graph, g3: Graph, a: Nfa, b: Nfa, r: set<nat>, r': set<nat>,
                  start: char, first: int, ch: char)
    requires Extends(g0, g1) && Fragment(g1, a, r) && Above(r, |g0|) && first <= ch as int
    requires Lang(g1, a) == Chars(RangeChars(start, first, ch as int))
    requires g2 == CharGraph(g1, ch) && |g2| == |g1| + 2
    requires g3 == UnionGraph(g2, a, Nfa(|g1|, |g1| + 1))
    requires b == Nfa(|g2|, |g2| + 1) && r' == r + {|g1|, |g1| + 1} + {|g2|, |g2| + 1}
    ensures Extends(g0, g3) && Fragment(g3, b, r') && Above(r', |g0|)
    ensures Lang(g3, b) == Chars(RangeChars(start, first, ch as int + 1))
  {
    var next := Nfa(|g1|, |g1| + 1);
    CharLaw(g1, ch);
    CharGraphExtends(g1, ch);
    LangStable(g1, g2, a, r);
    ExtendsTrans(g0, g1, g2);
    UnionStep(g0, g2, g3, a, next, b, r, {|g1|, |g1| + 1}, r');
    RangeAdd(start, first, ch);
  }

  /** A union step of the loops below: the union of two fragments lying above `g0`. */
  lemma UnionStep(g0: Graph, g: Graph, g': Graph, a: Nfa, b: Nfa, u: Nfa, ra: set<nat>, rb: set<nat>, ru: set<nat>)
    requires Extends(g0, g) && Fragment(g, a, ra) && Fragment(g, b, rb) && ra !! rb
    requires Above(ra, |g0|) && Above(rb, |g0|)
    requires g' == UnionGraph(g, a, b) && u == Nfa(|g|, |g| + 1) && ru == ra + rb + {|g|, |g| + 1}
    ensures Extends(g0, g') && Fragment(g', u, ru) && Above(ru, |g0|)
    ensures Lang(g', u) == Lang(g, a) + Lang(g, b)
  {
    UnionLaw(g, a, b, ra, rb);
    UnionExtends(g0, g, a, b);
  }

  /** The combinators change only the final states of their operands. */
  lemma ConcatOutside(g: Graph, a: Nfa, b: Nfa)
    requires a.final < |g|
    ensures SameOutside(g, ConcatGraph(g, a, b), {a.final})
  {
  }

  lemma UnionOutside(g: Graph, a: Nfa, b: Nfa)
    requires a.final < |g| && b.final < |g|
    ensures SameOutside(g, UnionGraph(g, a, b), {a.final, b.final})
  {
  }

  lemma KleeneOutside(g: Graph, a: Nfa)
    requires a.final < |g|
    ensures SameOutside(g, KleeneGraph(g, a), {a.final})
  {
  }

  lemma PlusOutside(g: Graph, a: Nfa)
    requires a.final < |g|
    ensures SameOutside(g, ConcatGraph(KleeneGraph(g, a), a, Nfa(|g|, |g| + 1)), {a.final})
  {
  }

  lemma DelimitedOutside(g: Graph, q: Nfa, c: Nfa)
    requires q.final < |g| && c.final < |g|
    ensures SameOutside(g, ConcatGraph(ConcatGraph(g, q, c), Nfa(q.initial, c.final), q), {q.final, c.final})
  {
  }

  /** A concatenation of two fragments lying above `g0`. */
  lemma ConcatStep(g0: Graph, g: Graph, g': Graph, a: Nfa, b: Nfa, u: Nfa, ra: set<nat>, rb: set<nat>, ru: set<nat>)
    requires Extends(g0, g) && Fragment(g, a, ra) && Fragment(g, b, rb) && ra !! rb
    requires Above(ra, |g0|) && Above(rb, |g0|)
    requires g' == ConcatGraph(g, a, b) && u == Nfa(a.initial, b.final) && ru == ra + rb
    ensures Extends(g0, g') && Fragment(g', u, ru) && Above(ru, |g0|)
    ensures Lang(g', u) == Concat(Lang(g, a), Lang(g, b))
  {
    ConcatLaw(g, a, b, ra, rb);
    ExtendsAddEdge(g0, g, a.final, Eps, b.initial);
  }

  /** A Kleene star of a fragment lying above `g0`. */
  lemma KleeneStep(g0: Graph, g: Graph, g': Graph, a: Nfa, u: Nfa, ra: set<nat>, ru: set<nat>)
    requires Extends(g0, g) && Fragment(g, a, ra) && Above(ra, |g0|)
    requires g' == KleeneGraph(g, a) && u == Nfa(|g|, |g| + 1) && ru == ra + {|g|, |g| + 1}
    ensures Extends(g0, g') && Fragment(g', u, ru) && Above(ru, |g0|)
    ensures Lang(g', u) == Star(Lang(g, a)) && [] in Lang(g', u)
  {
    KleeneLaw(g, a, ra);
    var n := |g|;
    var g0' := g + [map[], map[]];
    assert g0'[..|g0|] == g[..|g0|];
    var g1 := AddEdge(g0', n, Eps, a.initial);
    ExtendsAddEdge(g0, g0', n, Eps, a.initial);
    var g2 := AddEdge(g1, n, Eps, n + 1);
    ExtendsAddEdge(g0, g1, n, Eps, n + 1);
    var g3 := AddEdge(g2, a.final, Eps, a.initial);
    ExtendsAddEdge(g0, g2, a.final, Eps, a.initial);
    ExtendsAddEdge(g0, g3, a.final, Eps, n + 1);
  }

  /** The plus idiom X.concat(X.star()) on a fragment lying above `g0`. */
  lemma PlusStep(g0: Graph, g: Graph, g': Graph, a: Nfa, u: Nfa, ra: set<nat>, ru: set<nat>)
    requires Extends(g0, g) && Fragment(g, a, ra) && Above(ra, |g0|)
    requires g' == ConcatGraph(KleeneGraph(g, a), a, Nfa(|g|, |g| + 1)) && u == Nfa(a.initial, |g| + 1)
    requires ru == ra + {|g|, |g| + 1}
    ensures Extends(g0, g') && Fragment(g', u, ru) && Above(ru, |g0|)
    ensures Lang(g', u) == Concat(Lang(g, a), Star(Lang(g, a)))
  {
    PlusLaw(g, a, ra);
    KleeneStep(g0, g, KleeneGraph(g, a), a, Nfa(|g|, |g| + 1), ra, ru);
    ExtendsAddEdge(g0, KleeneGraph(g, a), a.final, Eps, |g|);
  }

  /** The shared-delimiter idiom q.concat(c).concat(q) on fragments lying above `g0`. */
  lemma SharedDelimiterStep(g0: Graph, g: Graph, g': Graph, q: Nfa, c: Nfa, rq: set<nat>, rc: set<nat>, ru: set<nat>)
    requires Extends(g0, g) && Fragment(g, q, rq) && Fragment(g, c, rc) && rq !! rc
    requires Above(rq, |g0|) && Above(rc, |g0|)
    requires g' == ConcatGraph(ConcatGraph(g, q, c), Nfa(q.initial, c.final), q) && ru == rq + rc
    ensures Extends(g0, g') && Closed(g', ru) && Above(ru, |g0|) && q.initial in ru && q.final in ru
    ensures |g'| == |g| && forall p :: p in ru ==> p < |g'|
    ensures Lang(g', q) == Concat(Lang(g, q), Star(Concat(Lang(g, c), Lang(g, q))))
  {
    SharedDelimiterLaw(g, q, c, rq, rc);
    ConcatStep(g0, g, ConcatGraph(g, q, c), q, c, Nfa(q.initial, c.final), rq, rc, ru);
    ExtendsAddEdge(g0, ConcatGraph(g, q, c), c.final, Eps, q.initial);
  }

  lemma RangeAdd(start: char, first: int, ch: char)
    requires first <= ch as int
    ensures Chars(RangeChars(start, first, ch as int)) + iset{[ch]} == Chars(RangeChars(start, first, ch as int + 1))
  {
    CharsAdd(RangeChars(start, first, ch as int), ch);
    assert RangeChars(start, first, ch as int) + iset{ch} == RangeChars(start, first, ch as int + 1);
  }

  /** The body of buildRange's loop: `rangeNfa = union(rangeNfa, buildCharAutomaton(ch))`. */
  method AddRangeChar(arena: NfaArena, a: Nfa, ghost g0: Graph, ghost r: set<nat>, ghost start: char, ghost first: int, ch: char)
    returns (b: Nfa, ghost r': set<nat>)
    requires arena.Valid() && Extends(g0, arena.states) && first <= ch as int
    requires Fragment(arena.states, a, r) && Above(r, |g0|)
    requires Lang(arena.states, a) == Chars(RangeChars(start, first, ch as int))
    modifies arena
    ensures arena.Valid() && Extends(g0, arena.states)
    ensures Fragment(arena.states, b, r') && Above(r', |g0|)
    ensures Lang(arena.states, b) == Chars(RangeChars(start, first, ch as int + 1))
  {
    ghost var g1 := arena.states;
    var next := BuildCharAutomaton(arena, ch);
    ghost var g2 := arena.states;
    b := Union(arena, a, next);
    r' := r + {|g1|, |g1| + 1} + {|g2|, |g2| + 1};
    RangeStep(g0, g1, g2, arena.states, a, b, r, r', start, first, ch);
  }

  /**
   * buildRange: the character automaton of `start` united, one by one, with
   * those of the characters from `start + 1` (a 16-bit char, so 0xFFFF + 1 is
   * 0) up to `end`.  Dafny's `char` leaves out the surrogate block, so `end`
   * stays below 0xD800.
   */
  method BuildRange(arena: NfaArena, start: char, end: char) returns (r: Nfa, ghost region: set<nat>)
    requires arena.Valid() && start as int < 0x1_0000 && end as int < 0xD800
    modifies arena
    ensures arena.Valid() && Extends(old(arena.states), arena.states)
    ensures Fragment(arena.states, r, region) && Above(region, |old(arena.states)|)
    ensures Lang(arena.states, r) == Chars(RangeChars(start, (start as int + 1) % 0x1_0000, end as int + 1))
  {
    ghost var g0 := arena.states;
    r := BuildCharAutomaton(arena, start);
    var first := (start as int + 1) % 0x1_0000;
    region := {r.initial, r.final};
    RangeInit(g0, start, first);
    var ch := first;
    while ch <= end as int
      invariant first <= ch && (ch == first || ch <= end as int + 1)
      invariant arena.Valid() && Extends(g0, arena.states)
      invariant Fragment(arena.states, r, region) && Above(region, |g0|)
      invariant Lang(arena.states, r) == Chars(RangeChars(start, first, ch))
      decreases end as int - ch
    {
      r, region := AddRangeChar(arena, r, g0, region, start, first, ch as char);
      ch := ch + 1;
    }
    assert RangeChars(start, first, ch) == RangeChars(start, first, end as int + 1);
  }

  /** Before buildRange's loop: the automaton of `start` alone. */
  lemma RangeInit(g0: Graph, start: char, first: int)
    ensures Extends(g0, CharGraph(g0, start)) && Above({|g0|, |g0| + 1}, |g0|)
    ensures Fragment(CharGraph(g0, start), Nfa(|g0|, |g0| + 1), {|g0|, |g0| + 1})
    ensures Lang(CharGraph(g0, start), Nfa(|g0|, |g0| + 1)) == Chars(RangeChars(start, first, first))
  {
    CharLaw(g0, start);
    CharGraphExtends(g0, start);
    CharsOne(start);
    assert RangeChars(start, first, first) == iset{start};
  }
}
