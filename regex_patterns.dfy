/**
 * `RegexPatterns`: the fourteen token-category automata, built in the arena
 * from the combinators, each with the language it accepts.  The languages
 * are stated directly on strings (a non-empty run of lower-case letters, a
 * run of digits, a dot between two runs of digits, ...); the lemmas at the
 * end connect those statements to the laws of the combinators.  Note that
 * '.' in these patterns is the literal dot character, not a wildcard.
 */
module RegexPatterns {
  import opened Wrappers
  import opened Languages
  import opened NfaGraph
  import opened NfaFactory
  import NfaExpression

  // ---------------------------------------------------------------------
  // The languages of the categories

  predicate IsLetter(c: char) { 'a' <= c <= 'z' }

  predicate IsDigit(c: char) { '0' <= c <= '9' }

  ghost function Letters(): iset<char> { iset c | IsLetter(c) }

  ghost function Digits(): iset<char> { iset c | IsDigit(c) }

  /** The characters occurring in `cs`. */
  ghost function CharsOf(cs: seq<char>): iset<char> { iset c | c in cs }

  /** The words listed in `ws`. */
  ghost function WordsOf(ws: seq<string>): Language { iset w | w in ws }

  /** The characters the Java for-loops of IdentifierNfa, IntegerNfa and WhitespaceNfa visit, in order. */
  const Lowercase: string := seq(26, i requires 0 <= i < 26 => ('a' as int + i) as char)
  const DecimalDigits: string := seq(10, i requires 0 <= i < 10 => ('0' as int + i) as char)
  const Blanks: string := [' ', '\t', '\n']

  const KeywordWords: seq<string> := ["number", "letter", "word", "choice", "decimal"]
  const OperatorWords: seq<string> := ["add", "minus", "mul", "div", "pow", "barabar"]

  /** IDENTIFIER: one or more lower-case letters. */
  ghost function Identifiers(): Language { iset w: string | |w| >= 1 && AllIn(w, Letters()) }

  /** INTEGER: one or more decimal digits. */
  ghost function Integers(): Language { iset w: string | |w| >= 1 && AllIn(w, Digits()) }

  /** DECIMAL: an integer, a dot, an integer. */
  ghost function Decimals(): Language { Infix(Integers(), '.', Integers()) }

  /** EXPONENT: a decimal, a caret, a decimal. */
  ghost function Exponents(): Language { Infix(Decimals(), '^', Decimals()) }

  /** CHARACTER: an identifier between two single quotes. */
  ghost function CharacterLiterals(): Language { Wrapped("'", Identifiers(), "'") }

  /** SINGLE_LINE_COMMENT: `bolo` followed by dots only. */
  ghost function SingleLineComments(): Language
  {
    iset w: string | |w| >= 4 && w[..4] == "bolo" && AllIn(w[4..], iset{'.'})
  }

  /** MULTI_LINE_COMMENT: `/*`, dots only, `*/`. */
  ghost function MultiLineComments(): Language
  {
    iset w: string | |w| >= 4 && w[..2] == "/*" && w[|w| - 2..] == "*/" && AllIn(w[2..|w| - 2], iset{'.'})
  }

  /** WHITESPACE: any string of blanks, tabs and newlines, the empty one included. */
  ghost function WhitespaceRuns(): Language { iset w: string | AllIn(w, CharsOf(Blanks)) }

  /**
   * STRING: what `quote.concat(content).concat(quote)` accepts.  The two
   * quotes are one shared automaton, so its final state loops back to the
   * dots: the words start and end with `"` and hold only dots and quotes,
   * and the lone quote `"` is one of them.
   */
  ghost function StringLiterals(): Language
  {
    iset w: string | |w| >= 1 && w[0] == '"' && w[|w| - 1] == '"' && AllIn(w, iset{'.', '"'})
  }

  // ---------------------------------------------------------------------
  // The loops shared by several builders

  /**
   * The loop of IdentifierNfa, IntegerNfa and WhitespaceNfa: a null-seeded
   * accumulator; the first literal is taken as it is, each later one is
   * united with what came before.
   */
  method ChoiceOf(arena: NfaArena, ghost g0: Graph, cs: seq<char>) returns (r: Nfa, ghost region: set<nat>)
    requires arena.Valid() && Extends(g0, arena.states) && cs != []
    modifies arena
    ensures arena.Valid() && Extends(g0, arena.states)
    ensures Fragment(arena.states, r, region) && Above(region, |old(arena.states)|)
    ensures Lang(arena.states, r) == Chars(CharsOf(cs))
  {
    ghost var g1 := arena.states;
    var acc: Option<Nfa> := None;
    region := {};
    var i := 0;
    while i < |cs|
      invariant 0 <= i <= |cs| && (acc.Some? <==> i > 0)
      invariant arena.Valid() && Extends(g0, arena.states) && Extends(g1, arena.states)
      invariant acc.Some? ==> && Fragment(arena.states, acc.value, region) && Above(region, |g1|)
                              && Lang(arena.states, acc.value) == Chars(CharsOf(cs[..i]))
      decreases |cs| - i
    {
      acc, region := AddChoice(arena, g1, acc, region, cs, i);
      i := i + 1;
    }
    assert cs[..i] == cs;
    r := acc.value;
  }

  /** One turn of ChoiceOf: `acc = (acc == null) ? literal(cs[i]) : acc.union(literal(cs[i]))`. */
  method AddChoice(arena: NfaArena, ghost g1: Graph, acc: Option<Nfa>, ghost racc: set<nat>, cs: seq<char>, i: nat)
    returns (acc': Option<Nfa>, ghost racc': set<nat>)
    requires arena.Valid() && Extends(g1, arena.states) && i < |cs| && (acc.Some? <==> i > 0)
    requires acc.Some? ==> && Fragment(arena.states, acc.value, racc) && Above(racc, |g1|)
                           && Lang(arena.states, acc.value) == Chars(CharsOf(cs[..i]))
    modifies arena
    ensures arena.Valid() && Extends(g1, arena.states) && acc'.Some?
    ensures Fragment(arena.states, acc'.value, racc') && Above(racc', |g1|)
    ensures Lang(arena.states, acc'.value) == Chars(CharsOf(cs[..i + 1]))
  {
    ghost var g := arena.states;
    var lit, rl := NfaExpression.Literal(arena, g1, cs[i]);
    CharsSnoc(cs, i);
    if acc.None? {
      CharsOne(cs[i]);
      assert CharsOf(cs[..i + 1]) == iset{cs[i]};
      acc', racc' := Some(lit), rl;
    } else {
      ghost var g2 := arena.states;
      LangStable(g, g2, acc.value, racc);
      Separate(g, acc.value, racc, rl);
      var u;
      u, racc' := NfaExpression.Union(arena, g1, acc.value, racc, lit, rl);
      acc' := Some(u);
    }
  }

  lemma CharsSnoc(cs: seq<char>, i: nat)
    requires i < |cs|
    ensures Chars(CharsOf(cs[..i])) + iset{[cs[i]]} == Chars(CharsOf(cs[..i + 1]))
  {
    CharsAdd(CharsOf(cs[..i]), cs[i]);
    assert cs[..i + 1] == cs[..i] + [cs[i]];
    assert CharsOf(cs[..i]) + iset{cs[i]} == CharsOf(cs[..i + 1]);
  }

  // ---------------------------------------------------------------------
  // The languages of the building blocks, as the categories state them

  lemma LowercaseLetters()
    ensures CharsOf(Lowercase) == Letters()
  {
    forall c: char ensures c in Lowercase <==> IsLetter(c) {
      if IsLetter(c) {
        assert c == Lowercase[c as int - 'a' as int];
      }
    }
  }

  lemma DecimalDigitsDigits()
    ensures CharsOf(DecimalDigits) == Digits()
  {
    forall c: char ensures c in DecimalDigits <==> IsDigit(c) {
      if IsDigit(c) {
        assert c == DecimalDigits[c as int - '0' as int];
      }
    }
  }

  /** letters.concat(letters.star()) over a..z accepts exactly the identifiers. */
  lemma IdentifierLaw()
    ensures Concat(Chars(CharsOf(Lowercase)), Star(Chars(CharsOf(Lowercase)))) == Identifiers()
  {
    LowercaseLetters();
    PlusOfChars(Letters());
  }

  /** digits.concat(digits.star()) over 0..9 accepts exactly the integers. */
  lemma IntegerLaw()
    ensures Concat(Chars(CharsOf(DecimalDigits)), Star(Chars(CharsOf(DecimalDigits)))) == Integers()
  {
    DecimalDigitsDigits();
    PlusOfChars(Digits());
  }

  /** bolo followed by the star of a dot. */
  lemma SingleLineCommentLaw()
    ensures Concat(iset{"bolo"}, Star(Chars(iset{'.'}))) == SingleLineComments()
  {
    forall w: string ensures w in Concat(iset{"bolo"}, Star(Chars(iset{'.'}))) <==> w in SingleLineComments() {
      ConcatWordLeft("bolo", Star(Chars(iset{'.'})), w);
      if |w| >= 4 {
        StarOfChars(iset{'.'}, w[4..]);
      }
    }
  }

  /** `/*`, the star of a dot, then `*/`. */
  lemma MultiLineCommentLaw()
    ensures Concat(iset{"/*"}, Concat(Star(Chars(iset{'.'})), iset{"*/"})) == MultiLineComments()
  {
    WrappedLang("/*", Star(Chars(iset{'.'})), "*/");
    forall w: string ensures w in Wrapped("/*", Star(Chars(iset{'.'})), "*/") <==> w in MultiLineComments() {
      if |w| >= 4 {
        StarOfChars(iset{'.'}, w[2..|w| - 2]);
      }
    }
  }

  /** The star of the blank choice: the strings of blanks, tabs and newlines. */
  lemma WhitespaceLaw()
    ensures Star(Chars(CharsOf(Blanks))) == WhitespaceRuns()
  {
    forall w: string ensures w in Star(Chars(CharsOf(Blanks))) <==> w in WhitespaceRuns() {
      StarOfChars(CharsOf(Blanks), w);
    }
  }

  /** A dot, then a quote-terminated run: one piece of the string body. */
  ghost function QuotedRun(): Language { Concat(Star(Chars(iset{'.'})), iset{"\""}) }

  /** A dot in front of a piece gives a piece. */
  lemma DotPiece(p: string)
    requires p in QuotedRun()
    ensures ['.'] + p in QuotedRun()
  {
    var dots := Chars(iset{'.'});
    ConcatWordRight(Star(dots), "\"", p);
    var x := p[..|p| - 1];
    assert ['.'] in dots;
    StarCons(dots, ['.'], x);
    ConcatOf(Star(dots), iset{"\""}, ['.'] + x, "\"");
    assert p == x + "\"";
    assert ['.'] + p == (['.'] + x) + "\"";
  }

  /** The star of the pieces: empty, or ending in a quote and made of dots and quotes. */
  lemma QuotedRuns(v: string)
    ensures InStar(QuotedRun(), v) <==> (v == [] || (v[|v| - 1] == '"' && AllIn(v, iset{'.', '"'})))
  {
    if v != [] {
      if InStar(QuotedRun(), v) {
        QuotedRunsOut(v);
      }
      if v[|v| - 1] == '"' && AllIn(v, iset{'.', '"'}) {
        QuotedRunsIn(v);
      }
    }
  }

  /** A non-empty run of dots and quotes ending in a quote is a sequence of pieces. */
  lemma {:induction false} QuotedRunsIn(v: string)
    requires v != [] && v[|v| - 1] == '"' && AllIn(v, iset{'.', '"'})
    ensures InStar(QuotedRun(), v)
    decreases |v|
  {
    var pieces := QuotedRun();
    var tail := v[1..];
    assert AllIn(tail, iset{'.', '"'}) by {
      forall k | 0 <= k < |tail| ensures tail[k] in iset{'.', '"'} { assert tail[k] == v[k + 1]; }
    }
    if |v| > 1 {
      assert tail[|tail| - 1] == v[|v| - 1];
      QuotedRunsIn(tail);
    }
    if v[0] == '"' {
      QuotePiece();
      StarCons(pieces, "\"", tail);
      assert "\"" + tail == v;
    } else {
      assert InStar(pieces, tail);
      DotRun(v);
    }
  }

  /** A lone quote is a piece. */
  lemma QuotePiece()
    ensures "\"" in QuotedRun()
  {
    ConcatOf(Star(Chars(iset{'.'})), iset{"\""}, [], "\"");
    assert [] + "\"" == "\"";
  }

  /** A dot in front of a non-empty sequence of pieces lengthens its first piece. */
  lemma DotRun(v: string)
    requires |v| > 1 && v[0] == '.' && InStar(QuotedRun(), v[1..])
    ensures InStar(QuotedRun(), v)
  {
    var tail := v[1..];
    var j := StarSplit(QuotedRun(), tail);
    var p1 := tail[..j];
    DotPiece(p1);
    StarCons(QuotedRun(), ['.'] + p1, tail[j..]);
    assert (['.'] + p1) + tail[j..] == v;
  }

  lemma {:induction false} QuotedRunsOut(v: string)
    requires v != [] && InStar(QuotedRun(), v)
    ensures v[|v| - 1] == '"' && AllIn(v, iset{'.', '"'})
    decreases |v|
  {
    var i := StarSplit(QuotedRun(), v);
    var piece := v[..i];
    var rest := v[i..];
    PieceShape(piece);
    if rest != [] {
      QuotedRunsOut(rest);
      assert v[|v| - 1] == rest[|rest| - 1];
    }
    forall k | 0 <= k < |v| ensures v[k] in iset{'.', '"'} {
      if k < i {
        assert v[k] == piece[k];
      } else {
        assert v[k] == rest[k - i];
      }
    }
  }

  /** A piece is dots followed by one quote. */
  lemma PieceShape(piece: string)
    requires piece in QuotedRun()
    ensures piece != [] && piece[|piece| - 1] == '"' && AllIn(piece, iset{'.', '"'})
  {
    var dots := Chars(iset{'.'});
    ConcatWordRight(Star(dots), "\"", piece);
    var front := piece[..|piece| - 1];
    StarOfChars(iset{'.'}, front);
    forall k | 0 <= k < |piece| ensures piece[k] in iset{'.', '"'} {
      if k < |piece| - 1 {
        assert piece[k] == front[k];
      } else {
        assert piece[k] == piece[|piece| - 1..][0];
      }
    }
  }


  /** quote.concat(content).concat(quote): the STRING language. */
  lemma StringLaw()
    ensures Concat(iset{"\""}, Star(QuotedRun())) == StringLiterals()
  {
    forall w: string ensures w in Concat(iset{"\""}, Star(QuotedRun())) <==> w in StringLiterals() {
      ConcatWordLeft("\"", Star(QuotedRun()), w);
      if |w| >= 1 {
        var v := w[1..];
        QuotedRuns(v);
        if v != [] {
          assert v[|v| - 1] == w[|w| - 1];
        }
        if w[..1] == "\"" && InStar(QuotedRun(), v) {
          assert w[0] == w[..1][0];
          forall k | 0 <= k < |w| ensures w[k] in iset{'.', '"'} {
            if k > 0 { assert w[k] == v[k - 1]; }
          }
        }
        if w in StringLiterals() {
          assert w[..1] == [w[0]];
          assert AllIn(v, iset{'.', '"'}) by {
            forall k | 0 <= k < |v| ensures v[k] in iset{'.', '"'} { assert v[k] == w[k + 1]; }
          }
        }
      }
    }
  }

  // ---------------------------------------------------------------------
  // Word lists

  /**
   * The loop of KeywordsNfa and ArithmeticOperatorNfa: the sequence of the
   * first word, united in turn with the sequence of each later word.
   */
  method WordsChoice(arena: NfaArena, ghost g0: Graph, ws: seq<string>) returns (r: Nfa, ghost region: set<nat>)
    requires arena.Valid() && Extends(g0, arena.states) && ws != []
    requires forall k :: 0 <= k < |ws| ==> ws[k] != []
    modifies arena
    ensures arena.Valid() && Extends(g0, arena.states)
    ensures Fragment(arena.states, r, region) && Above(region, |old(arena.states)|)
    ensures Lang(arena.states, r) == WordsOf(ws)
  {
    ghost var g1 := arena.states;
    r, region := NfaExpression.Word(arena, g1, ws[0]);
    assert WordsOf(ws[..1]) == iset{ws[0]};
    var i := 1;
    while i < |ws|
      invariant 1 <= i <= |ws|
      invariant arena.Valid() && Extends(g0, arena.states) && Extends(g1, arena.states)
      invariant Fragment(arena.states, r, region) && Above(region, |g1|)
      invariant Lang(arena.states, r) == WordsOf(ws[..i])
      decreases |ws| - i
    {
      r, region := AddWord(arena, g1, r, region, ws, i);
      i := i + 1;
    }
    assert ws[..i] == ws;
  }

  /** One turn of WordsChoice: `result = union(result, buildSequence(ws[i]))`. */
  method AddWord(arena: NfaArena, ghost g1: Graph, a: Nfa, ghost ra: set<nat>, ws: seq<string>, i: nat)
    returns (r: Nfa, ghost region: set<nat>)
    requires arena.Valid() && Extends(g1, arena.states) && i < |ws| && ws[i] != []
    requires Fragment(arena.states, a, ra) && Above(ra, |g1|) && Lang(arena.states, a) == WordsOf(ws[..i])
    modifies arena
    ensures arena.Valid() && Extends(g1, arena.states)
    ensures Fragment(arena.states, r, region) && Above(region, |g1|)
    ensures Lang(arena.states, r) == WordsOf(ws[..i + 1])
  {
    ghost var g := arena.states;
    var next, rn := NfaExpression.Word(arena, g1, ws[i]);
    LangStable(g, arena.states, a, ra);
    Separate(g, a, ra, rn);
    r, region := NfaExpression.Union(arena, g1, a, ra, next, rn);
    assert ws[..i + 1] == ws[..i] + [ws[i]];
    assert WordsOf(ws[..i]) + iset{ws[i]} == WordsOf(ws[..i + 1]);
  }

  // ---------------------------------------------------------------------
  // The fourteen builders

  /** IdentifierNfa: the letters a..z, then letters.concat(letters.star()). */
  method IdentifierNfa(arena: NfaArena) returns (r: Nfa, ghost region: set<nat>)
    requires arena.Valid()
    modifies arena
    ensures arena.Valid() && Extends(old(arena.states), arena.states)
    ensures Fragment(arena.states, r, region) && Above(region, |old(arena.states)|)
    ensures Lang(arena.states, r) == Identifiers()
  {
    ghost var g0 := arena.states;
    ExtendsRefl(g0);
    var letters, rl := ChoiceOf(arena, g0, Lowercase);
    r, region := NfaExpression.Plus(arena, g0, letters, rl);
    IdentifierLaw();
  }

  /** IntegerNfa: the digits 0..9, then digits.concat(digits.star()). */
  method IntegerNfa(arena: NfaArena) returns (r: Nfa, ghost region: set<nat>)
    requires arena.Valid()
    modifies arena
    ensures arena.Valid() && Extends(old(arena.states), arena.states)
    ensures Fragment(arena.states, r, region) && Above(region, |old(arena.states)|)
    ensures Lang(arena.states, r) == Integers()
  {
    ghost var g0 := arena.states;
    ExtendsRefl(g0);
    var digits, rd := ChoiceOf(arena, g0, DecimalDigits);
    r, region := NfaExpression.Plus(arena, g0, digits, rd);
    IntegerLaw();
  }

  /** DecimalNfa: intPart.concat(dot).concat(fracPart). */
  method DecimalNfa(arena: NfaArena) returns (r: Nfa, ghost region: set<nat>)
    requires arena.Valid()
    modifies arena
    ensures arena.Valid() && Extends(old(arena.states), arena.states)
    ensures Fragment(arena.states, r, region) && Above(region, |old(arena.states)|)
    ensures Lang(arena.states, r) == Decimals()
  {
    ghost var g0 := arena.states;
    var intPart, ri := IntegerNfa(arena);
    ghost var g1 := arena.states;
    var dot, rd := NfaExpression.Literal(arena, g0, '.');
    ghost var g2 := arena.states;
    LangStable(g1, g2, intPart, ri);
    Separate(g1, intPart, ri, rd);
    var fracPart, rf := IntegerNfa(arena);
    ghost var g3 := arena.states;
    ExtendsTrans(g0, g2, g3);
    LangStable(g2, g3, intPart, ri);
    LangStable(g2, g3, dot, rd);
    Separate(g2, intPart, ri, rf);
    Separate(g2, dot, rd, rf);
    var left, rl := NfaExpression.Concat(arena, g0, intPart, ri, dot, rd);
    Kept(g3, arena.states, {intPart.final}, fracPart, rf);
    r, region := NfaExpression.Concat(arena, g0, left, rl, fracPart, rf);
    InfixLeft(Integers(), '.', Integers());
  }

  /** BooleanNfa: yes.union(no). */
  method BooleanNfa(arena: NfaArena) returns (r: Nfa, ghost region: set<nat>)
    requires arena.Valid()
    modifies arena
    ensures arena.Valid() && Extends(old(arena.states), arena.states)
    ensures Fragment(arena.states, r, region) && Above(region, |old(arena.states)|)
    ensures Lang(arena.states, r) == iset{"yes", "no"}
  {
    ghost var g0 := arena.states;
    ExtendsRefl(g0);
    var yes, ry := NfaExpression.Word(arena, g0, "yes");
    ghost var g1 := arena.states;
    var no, rn := NfaExpression.Word(arena, g0, "no");
    LangStable(g1, arena.states, yes, ry);
    Separate(g1, yes, ry, rn);
    r, region := NfaExpression.Union(arena, g0, yes, ry, no, rn);
  }

  /** KeywordsNfa: the union of the sequences of the five keywords. */
  method KeywordsNfa(arena: NfaArena) returns (r: Nfa, ghost region: set<nat>)
    requires arena.Valid()
    modifies arena
    ensures arena.Valid() && Extends(old(arena.states), arena.states)
    ensures Fragment(arena.states, r, region) && Above(region, |old(arena.states)|)
    ensures Lang(arena.states, r) == iset{"number", "letter", "word", "choice", "decimal"}
  {
    ghost var g0 := arena.states;
    ExtendsRefl(g0);
    r, region := WordsChoice(arena, g0, KeywordWords);
    assert WordsOf(KeywordWords) == iset{"number", "letter", "word", "choice", "decimal"};
  }

  /** CharacterNfa: concatenate(openQuote, concatenate(content, closeQuote)). */
  method CharacterNfa(arena: NfaArena) returns (r: Nfa, ghost region: set<nat>)
    requires arena.Valid()
    modifies arena
    ensures arena.Valid() && Extends(old(arena.states), arena.states)
    ensures Fragment(arena.states, r, region) && Above(region, |old(arena.states)|)
    ensures Lang(arena.states, r) == CharacterLiterals()
  {
    ghost var g0 := arena.states;
    ExtendsRefl(g0);
    var openQuote, ro := NfaExpression.Word(arena, g0, "'");
    ghost var g1 := arena.states;
    var content, rc := IdentifierNfa(arena);
    ghost var g2 := arena.states;
    ExtendsTrans(g0, g1, g2);
    LangStable(g1, g2, openQuote, ro);
    Separate(g1, openQuote, ro, rc);
    var closeQuote, rq := NfaExpression.Word(arena, g0, "'");
    ghost var g3 := arena.states;
    LangStable(g2, g3, openQuote, ro);
    LangStable(g2, g3, content, rc);
    Separate(g2, openQuote, ro, rq);
    Separate(g2, content, rc, rq);
    var temp, rt := NfaExpression.Concat(arena, g0, content, rc, closeQuote, rq);
    Kept(g3, arena.states, {content.final}, openQuote, ro);
    r, region := NfaExpression.Concat(arena, g0, openQuote, ro, temp, rt);
    WrappedLang("'", Identifiers(), "'");
  }

  /** ArithmeticOperatorNfa: the union of the sequences of the six operator words. */
  method ArithmeticOperatorNfa(arena: NfaArena) returns (r: Nfa, ghost region: set<nat>)
    requires arena.Valid()
    modifies arena
    ensures arena.Valid() && Extends(old(arena.states), arena.states)
    ensures Fragment(arena.states, r, region) && Above(region, |old(arena.states)|)
    ensures Lang(arena.states, r) == iset{"add", "minus", "mul", "div", "pow", "barabar"}
  {
    ghost var g0 := arena.states;
    ExtendsRefl(g0);
    r, region := WordsChoice(arena, g0, OperatorWords);
    assert WordsOf(OperatorWords) == iset{"add", "minus", "mul", "div", "pow", "barabar"};
  }

  /** ExponentNfa: concatenate(baseExp, concatenate(caret, exponent)). */
  method ExponentNfa(arena: NfaArena) returns (r: Nfa, ghost region: set<nat>)
    requires arena.Valid()
    modifies arena
    ensures arena.Valid() && Extends(old(arena.states), arena.states)
    ensures Fragment(arena.states, r, region) && Above(region, |old(arena.states)|)
    ensures Lang(arena.states, r) == Exponents()
  {
    ghost var g0 := arena.states;
    var baseExp, rb := DecimalNfa(arena);
    ghost var g1 := arena.states;
    var caret, rc := NfaExpression.Literal(arena, g0, '^');
    ghost var g2 := arena.states;
    LangStable(g1, g2, baseExp, rb);
    Separate(g1, baseExp, rb, rc);
    var exponent, re := DecimalNfa(arena);
    ghost var g3 := arena.states;
    ExtendsTrans(g0, g2, g3);
    LangStable(g2, g3, baseExp, rb);
    LangStable(g2, g3, caret, rc);
    Separate(g2, baseExp, rb, re);
    Separate(g2, caret, rc, re);
    var tail, rt := NfaExpression.Concat(arena, g0, caret, rc, exponent, re);
    Kept(g3, arena.states, {caret.final}, baseExp, rb);
    r, region := NfaExpression.Concat(arena, g0, baseExp, rb, tail, rt);
    InfixRight(Decimals(), '^', Decimals());
  }

  /** SingleLineCommentNfa: concatenate(bolo, kleene('.')). */
  method SingleLineCommentNfa(arena: NfaArena) returns (r: Nfa, ghost region: set<nat>)
    requires arena.Valid()
    modifies arena
    ensures arena.Valid() && Extends(old(arena.states), arena.states)
    ensures Fragment(arena.states, r, region) && Above(region, |old(arena.states)|)
    ensures Lang(arena.states, r) == SingleLineComments()
  {
    ghost var g0 := arena.states;
    ExtendsRefl(g0);
    var prefix, rp := NfaExpression.Word(arena, g0, "bolo");
    ghost var g1 := arena.states;
    var dot, rd := NfaExpression.Literal(arena, g0, '.');
    ghost var g2 := arena.states;
    LangStable(g1, g2, prefix, rp);
    Separate(g1, prefix, rp, rd);
    var rest, rr := NfaExpression.Star(arena, g0, dot, rd);
    Kept(g2, arena.states, {dot.final}, prefix, rp);
    r, region := NfaExpression.Concat(arena, g0, prefix, rp, rest, rr);
    CharsOne('.');
    SingleLineCommentLaw();
  }

  /** MultiLineCommentNfa: concatenate(start, concatenate(kleene('.'), end)). */
  method MultiLineCommentNfa(arena: NfaArena) returns (r: Nfa, ghost region: set<nat>)
    requires arena.Valid()
    modifies arena
    ensures arena.Valid() && Extends(old(arena.states), arena.states)
    ensures Fragment(arena.states, r, region) && Above(region, |old(arena.states)|)
    ensures Lang(arena.states, r) == MultiLineComments()
  {
    ghost var g0 := arena.states;
    ExtendsRefl(g0);
    var start, rs := NfaExpression.Word(arena, g0, "/*");
    ghost var g1 := arena.states;
    var dot, rd := NfaExpression.Literal(arena, g0, '.');
    ghost var g2 := arena.states;
    LangStable(g1, g2, start, rs);
    Separate(g1, start, rs, rd);
    var body, rb := NfaExpression.Star(arena, g0, dot, rd);
    ghost var g3 := arena.states;
    Kept(g2, g3, {dot.final}, start, rs);
    var end, re := NfaExpression.Word(arena, g0, "*/");
    ghost var g4 := arena.states;
    LangStable(g3, g4, start, rs);
    LangStable(g3, g4, body, rb);
    Separate(g3, start, rs, re);
    Separate(g3, body, rb, re);
    var tail, rt := NfaExpression.Concat(arena, g0, body, rb, end, re);
    Kept(g4, arena.states, {body.final}, start, rs);
    r, region := NfaExpression.Concat(arena, g0, start, rs, tail, rt);
    CharsOne('.');
    MultiLineCommentLaw();
  }

  /** WhitespaceNfa: the choice of blank, tab and newline, then star(). */
  method WhitespaceNfa(arena: NfaArena) returns (r: Nfa, ghost region: set<nat>)
    requires arena.Valid()
    modifies arena
    ensures arena.Valid() && Extends(old(arena.states), arena.states)
    ensures Fragment(arena.states, r, region) && Above(region, |old(arena.states)|)
    ensures Lang(arena.states, r) == WhitespaceRuns()
  {
    ghost var g0 := arena.states;
    ExtendsRefl(g0);
    var combined, rc := ChoiceOf(arena, g0, Blanks);
    r, region := NfaExpression.Star(arena, g0, combined, rc);
    WhitespaceLaw();
  }

  /**
   * StringNfa: quote.concat(content).concat(quote) with one shared quote
   * automaton.  The result is the quote automaton itself, whose final state
   * now has an edge back into the body, so it is closed but its final
   * state is no longer a sink.
   */
  method StringNfa(arena: NfaArena) returns (r: Nfa, ghost region: set<nat>)
    requires arena.Valid()
    modifies arena
    ensures arena.Valid() && Extends(old(arena.states), arena.states)
    ensures Closed(arena.states, region) && Above(region, |old(arena.states)|)
    ensures r.initial in region && r.final in region && forall p :: p in region ==> p < |arena.states|
    ensures Lang(arena.states, r) == StringLiterals()
  {
    ghost var g0 := arena.states;
    ExtendsRefl(g0);
    var quote, rq := NfaExpression.Literal(arena, g0, '"');
    ghost var g1 := arena.states;
    var dot, rd := NfaExpression.Literal(arena, g0, '.');
    ghost var g2 := arena.states;
    LangStable(g1, g2, quote, rq);
    Separate(g1, quote, rq, rd);
    var content, rc := NfaExpression.Star(arena, g0, dot, rd);
    Kept(g2, arena.states, {dot.final}, quote, rq);
    r, region := NfaExpression.Delimited(arena, g0, quote, rq, content, rc);
    CharsOne('.');
    StringLaw();
  }

  /** InputOutputNfa: union(andar, bahir). */
  method InputOutputNfa(arena: NfaArena) returns (r: Nfa, ghost region: set<nat>)
    requires arena.Valid()
    modifies arena
    ensures arena.Valid() && Extends(old(arena.states), arena.states)
    ensures Fragment(arena.states, r, region) && Above(region, |old(arena.states)|)
    ensures Lang(arena.states, r) == iset{"andar", "bahir"}
  {
    ghost var g0 := arena.states;
    ExtendsRefl(g0);
    var inNfa, ri := NfaExpression.Word(arena, g0, "andar");
    ghost var g1 := arena.states;
    var outNfa, ro := NfaExpression.Word(arena, g0, "bahir");
    LangStable(g1, arena.states, inNfa, ri);
    Separate(g1, inNfa, ri, ro);
    r, region := NfaExpression.Union(arena, g0, inNfa, ri, outNfa, ro);
  }

  /** ConstantNfa: the sequence of `const`. */
  method ConstantNfa(arena: NfaArena) returns (r: Nfa, ghost region: set<nat>)
    requires arena.Valid()
    modifies arena
    ensures arena.Valid() && Extends(old(arena.states), arena.states)
    ensures Fragment(arena.states, r, region) && Above(region, |old(arena.states)|)
    ensures Lang(arena.states, r) == iset{"const"}
  {
    ghost var g0 := arena.states;
    ExtendsRefl(g0);
    r, region := NfaExpression.Word(arena, g0, "const");
  }
}
