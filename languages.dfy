/**
 * Languages (possibly infinite sets of strings) and the operations the
 * automaton combinators realise: concatenation, union (iset `+`) and star.
 */
module Languages {

  type Language = iset<string>

  /** The single-character strings whose character is in `cs`. */
  ghost function Chars(cs: iset<char>): Language
  {
    iset w: string | |w| == 1 && w[0] in cs
  }

  /** L(A)·L(B): all splits into a prefix from `a` and a suffix from `b`. */
  ghost function Concat(a: Language, b: Language): Language
  {
    iset w: string | exists i :: 0 <= i <= |w| && w[..i] in a && w[i..] in b
  }

  /** Membership in L(A)*, cut into non-empty pieces. */
  ghost predicate InStar(a: Language, w: string)
    decreases |w|
  {
    w == [] || exists i :: 0 < i <= |w| && w[..i] in a && InStar(a, w[i..])
  }

  ghost function Star(a: Language): Language
  {
    iset w: string | InStar(a, w)
  }

  /** Every character of `w` is in `cs`. */
  ghost predicate AllIn(w: string, cs: iset<char>)
  {
    forall k :: 0 <= k < |w| ==> w[k] in cs
  }

  /** A word of `a` followed by a word of `b` is in L(A)·L(B). */
  lemma ConcatOf(a: Language, b: Language, u: string, v: string)
    requires u in a && v in b
    ensures u + v in Concat(a, b)
  {
    var w := u + v;
    assert w[..|u|] == u && w[|u|..] == v;
  }

  /** A non-empty word of L(A)* starts with a non-empty word of `a`. */
  lemma StarSplit(a: Language, w: string) returns (i: nat)
    requires InStar(a, w) && w != []
    ensures 0 < i <= |w| && w[..i] in a && InStar(a, w[i..])
  {
    i :| 0 < i <= |w| && w[..i] in a && InStar(a, w[i..]);
  }

  /** A word of L(A) followed by a word of L(A)* is again in L(A)*. */
  lemma StarCons(a: Language, u: string, v: string)
    requires u in a && InStar(a, v)
    ensures InStar(a, u + v)
  {
    if u != [] {
      var w := u + v;
      assert w[..|u|] == u && w[|u|..] == v;
    } else {
      assert u + v == v;
    }
  }

  /** A word of `a`, a word of `b`, then a word of (ab)*: a word of (ab)*. */
  lemma StarConsConcat(a: Language, b: Language, w: string, j: nat, i: nat)
    requires j <= |w| && w[..j] in a && i <= |w[j..]| && w[j..][..i] in b && InStar(Concat(a, b), w[j..][i..])
    ensures InStar(Concat(a, b), w)
  {
    var piece := w[..j] + w[j..][..i];
    assert w == piece + w[j..][i..];
    ConcatOf(a, b, w[..j], w[j..][..i]);
    StarCons(Concat(a, b), piece, w[j..][i..]);
  }

  /** L(A)* contains every concatenation of two of its words. */
  lemma {:induction false} StarAppend(a: Language, u: string, v: string)
    requires InStar(a, u) && InStar(a, v)
    ensures InStar(a, u + v)
    decreases |u|
  {
    if u == [] {
      assert u + v == v;
    } else {
      var i :| 0 < i <= |u| && u[..i] in a && InStar(a, u[i..]);
      StarAppend(a, u[i..], v);
      assert u + v == u[..i] + (u[i..] + v);
      StarCons(a, u[..i], u[i..] + v);
    }
  }

  /** The star of a character class is exactly the strings over that class. */
  lemma {:induction false} StarOfChars(cs: iset<char>, w: string)
    ensures InStar(Chars(cs), w) <==> AllIn(w, cs)
    decreases |w|
  {
    if w != [] {
      StarOfChars(cs, w[1..]);
      if InStar(Chars(cs), w) {
        var i :| 0 < i <= |w| && w[..i] in Chars(cs) && InStar(Chars(cs), w[i..]);
        assert i == 1;
        assert w[0] == w[..i][0];
        forall k | 0 <= k < |w| ensures w[k] in cs {
          if k > 0 { assert w[k] == w[1..][k - 1]; }
        }
      }
      if AllIn(w, cs) {
        assert AllIn(w[1..], cs) by {
          forall k | 0 <= k < |w[1..]| ensures w[1..][k] in cs { assert w[1..][k] == w[k + 1]; }
        }
        assert w[..1] == [w[0]];
        assert w[..1] in Chars(cs);
      }
    }
  }

  /** X·X* over a character class: the non-empty strings over that class. */
  lemma PlusOfChars(cs: iset<char>)
    ensures Concat(Chars(cs), Star(Chars(cs))) == iset w: string | |w| >= 1 && AllIn(w, cs)
  {
    forall w: string
      ensures w in Concat(Chars(cs), Star(Chars(cs))) <==> |w| >= 1 && AllIn(w, cs)
    {
      if w in Concat(Chars(cs), Star(Chars(cs))) {
        var i :| 0 <= i <= |w| && w[..i] in Chars(cs) && w[i..] in Star(Chars(cs));
        StarOfChars(cs, w[i..]);
        assert i == 1;
        forall k | 0 <= k < |w| ensures w[k] in cs {
          if k == 0 { assert w[0] == w[..i][0]; } else { assert w[k] == w[i..][k - 1]; }
        }
      }
      if |w| >= 1 && AllIn(w, cs) {
        assert w[..1] == [w[0]];
        assert AllIn(w[1..], cs) by {
          forall k | 0 <= k < |w[1..]| ensures w[1..][k] in cs { assert w[1..][k] == w[k + 1]; }
        }
        StarOfChars(cs, w[1..]);
        assert w[..1] in Chars(cs) && w[1..] in Star(Chars(cs));
      }
    }
  }

  /** Concatenation with a fixed word on the left. */
  lemma ConcatWordLeft(u: string, b: Language, w: string)
    ensures w in Concat(iset{u}, b) <==> |u| <= |w| && w[..|u|] == u && w[|u|..] in b
  {
    if w in Concat(iset{u}, b) {
      var i :| 0 <= i <= |w| && w[..i] in iset{u} && w[i..] in b;
      assert |w[..i]| == |u|;
    }
  }

  /** Concatenation with a fixed word on the right. */
  lemma ConcatWordRight(a: Language, v: string, w: string)
    ensures w in Concat(a, iset{v}) <==> |v| <= |w| && w[|w| - |v|..] == v && w[..|w| - |v|] in a
  {
    if w in Concat(a, iset{v}) {
      var i :| 0 <= i <= |w| && w[..i] in a && w[i..] in iset{v};
      assert |w[i..]| == |v|;
    }
    if |v| <= |w| && w[|w| - |v|..] == v && w[..|w| - |v|] in a {
      var i := |w| - |v|;
      assert 0 <= i <= |w| && w[..i] in a && w[i..] in iset{v};
    }
  }

  /** Two single words concatenate to their concatenation. */
  lemma ConcatWords(u: string, v: string)
    ensures Concat(iset{u}, iset{v}) == iset{u + v}
  {
    forall w: string ensures w in Concat(iset{u}, iset{v}) <==> w == u + v {
      ConcatWordLeft(u, iset{v}, w);
      if w == u + v {
        assert w[..|u|] == u && w[|u|..] == v;
      }
      if |u| <= |w| && w[..|u|] == u && w[|u|..] == v {
        assert w == w[..|u|] + w[|u|..];
      }
    }
  }

  /** The one-character words over {c} are just [c]. */
  lemma CharsOne(c: char)
    ensures Chars(iset{c}) == iset{[c]}
  {
    forall w: string ensures w in Chars(iset{c}) <==> w == [c] {
      if |w| == 1 {
        assert w == [w[0]];
      }
    }
  }

  /** Adding one more alternative character. */
  lemma CharsAdd(cs: iset<char>, c: char)
    ensures Chars(cs) + iset{[c]} == Chars(cs + iset{c})
  {
    forall w: string ensures w in Chars(cs) + iset{[c]} <==> w in Chars(cs + iset{c}) {
      if |w| == 1 {
        assert w == [w[0]];
      }
    }
  }

  /** A word is its prefix followed by the rest. */
  lemma Rejoin(w: string, i: nat)
    requires i <= |w|
    ensures w[..i] + w[i..] == w
  {
  }

  /** The words `w[..i] + [c] + w[i+1..]` with a prefix from `a` and a suffix from `b`. */
  ghost function Infix(a: Language, c: char, b: Language): Language
  {
    iset w: string | exists i :: 0 <= i < |w| && w[i] == c && w[..i] in a && w[i + 1..] in b
  }

  /** (A·c)·B is A·c·B. */
  lemma InfixLeft(a: Language, c: char, b: Language)
    ensures Concat(Concat(a, iset{[c]}), b) == Infix(a, c, b)
  {
    forall w: string ensures w in Concat(Concat(a, iset{[c]}), b) <==> w in Infix(a, c, b) {
      if w in Concat(Concat(a, iset{[c]}), b) {
        InfixLeftOut(a, c, b, w);
      }
      if w in Infix(a, c, b) {
        var i :| 0 <= i < |w| && w[i] == c && w[..i] in a && w[i + 1..] in b;
        ConcatOf(a, iset{[c]}, w[..i], [c]);
        assert w[..i] + [c] == w[..i + 1];
        ConcatOf(Concat(a, iset{[c]}), b, w[..i + 1], w[i + 1..]);
        Rejoin(w, i + 1);
      }
    }
  }

  lemma InfixLeftOut(a: Language, c: char, b: Language, w: string)
    requires w in Concat(Concat(a, iset{[c]}), b)
    ensures w in Infix(a, c, b)
  {
    var i :| 0 <= i <= |w| && w[..i] in Concat(a, iset{[c]}) && w[i..] in b;
    var u := w[..i];
    ConcatWordRight(a, [c], u);
    var j := i - 1;
    assert u[..j] == w[..j] && u[j] == w[j] && w[j + 1..] == w[i..];
    assert 0 <= j < |w| && w[j] == c && w[..j] in a && w[j + 1..] in b;
  }

  /** A·(c·B) is A·c·B. */
  lemma InfixRight(a: Language, c: char, b: Language)
    ensures Concat(a, Concat(iset{[c]}, b)) == Infix(a, c, b)
  {
    forall w: string ensures w in Concat(a, Concat(iset{[c]}, b)) <==> w in Infix(a, c, b) {
      if w in Concat(a, Concat(iset{[c]}, b)) {
        var i :| 0 <= i <= |w| && w[..i] in a && w[i..] in Concat(iset{[c]}, b);
        ConcatWordLeft([c], b, w[i..]);
        assert w[i] == w[i..][0] && w[i + 1..] == w[i..][1..];
      }
      if w in Infix(a, c, b) {
        var i :| 0 <= i < |w| && w[i] == c && w[..i] in a && w[i + 1..] in b;
        ConcatOf(iset{[c]}, b, [c], w[i + 1..]);
        assert [c] + w[i + 1..] == w[i..];
        ConcatOf(a, Concat(iset{[c]}, b), w[..i], w[i..]);
        Rejoin(w, i);
      }
    }
  }

  /** The words made of `u`, then a word of `a`, then `v`. */
  ghost function Wrapped(u: string, a: Language, v: string): Language
  {
    iset w: string | |u| + |v| <= |w| && w[..|u|] == u && w[|w| - |v|..] == v && w[|u|..|w| - |v|] in a
  }

  /** u·(A·v) is the words wrapped by `u` and `v`. */
  lemma WrappedLang(u: string, a: Language, v: string)
    ensures Concat(iset{u}, Concat(a, iset{v})) == Wrapped(u, a, v)
  {
    forall w: string ensures w in Concat(iset{u}, Concat(a, iset{v})) <==> w in Wrapped(u, a, v) {
      ConcatWordLeft(u, Concat(a, iset{v}), w);
      if |u| <= |w| {
        var m := w[|u|..];
        ConcatWordRight(a, v, m);
        if |v| <= |m| {
          assert m[|m| - |v|..] == w[|w| - |v|..];
          assert m[..|m| - |v|] == w[|u|..|w| - |v|];
        }
      }
    }
  }
}
