/**
 * `CodeTokenizer`: the constructor builds one DFA per category, by the
 * subset construction on the category's Thompson automaton, and keeps them
 * in a map from category name to DFA; `tokenize` runs the scanning loop of
 * the `Scanner` module over that map, in the map's iteration order.
 */
module Tokenizer {
  import opened Wrappers
  import opened Languages
  import opened NfaGraph
  import opened DfaGraph
  import opened DfaMatch
  import opened NfaToDfa
  import opened RegexPatterns
  import opened Scanner

  /**
   * The order in which the category map (a `java.util.HashMap` holding the
   * fourteen names, grown to 32 buckets) hands out its entries: by bucket,
   * and within a bucket in the order of the `put` calls.
   */
  const HashMapOrder: seq<Kind> := [MultiLineComment, Io, Keyword, Decimal, Constant, Boolean,
    Operator, SingleLineComment, Whitespace, Exponent, String, Character, Identifier, Integer]

  /** The iteration order lists every category name exactly once. */
  lemma HashMapOrderNames()
    ensures |HashMapOrder| == |CategoryNames|
    ensures forall n :: n in HashMapOrder <==> n in CategoryNames
    ensures forall i, j :: 0 <= i < j < |HashMapOrder| ==> HashMapOrder[i] != HashMapOrder[j]
  {
  }

  /** The map holds a valid DFA for `n`, recognizing that name's pattern. */
  ghost predicate PutDone(s: map<Kind, Dfa>, n: Kind)
  {
    n in s && ValidDfa(s[n]) && Recognizes(s[n], PatternLanguage(n))
  }

  /** The map holds a valid DFA for each of the fourteen names, recognizing that name's pattern. */
  ghost predicate MapOk(s: map<Kind, Dfa>)
  {
    forall n :: n in CategoryNames ==> PutDone(s, n)
  }

  /** The entries of the map, in iteration order. */
  function Entries(s: map<Kind, Dfa>): (r: seq<Category>)
    requires forall n :: n in HashMapOrder ==> n in s
    ensures |r| == |HashMapOrder|
    ensures forall i :: 0 <= i < |r| ==> r[i].name == HashMapOrder[i] && r[i].dfa == s[HashMapOrder[i]]
  {
    seq(|HashMapOrder|, i requires 0 <= i < |HashMapOrder| => Category(HashMapOrder[i], s[HashMapOrder[i]]))
  }

  /** The entries of a well-built map are categories the scanner lemmas apply to. */
  lemma EntriesOk(s: map<Kind, Dfa>)
    requires MapOk(s)
    ensures forall n :: n in HashMapOrder ==> n in s
    ensures CategoriesOk(Entries(s))
  {
    HashMapOrderNames();
    var cats := Entries(s);
    forall i | 0 <= i < |cats|
      ensures CategoryOk(cats[i])
    {
      var n := HashMapOrder[i];
      assert n in CategoryNames;
      assert cats[i] == Category(n, s[n]);
    }
  }

  /**
   * convertNfaToDfa on a fresh arena's automaton: a valid DFA whose
   * accepting flags pick out the printable words of the automaton's language.
   */
  method Convert(arena: NfaArena, nfa: Nfa, ghost L: Language) returns (d: Dfa)
    requires arena.Valid() && nfa.initial < |arena.states| && nfa.final < |arena.states|
    requires Lang(arena.states, nfa) == L
    ensures ValidDfa(d) && Recognizes(d, L)
  {
    ghost var subsets;
    d, subsets := ConvertNfaToDfa(arena.states, nfa);
    forall w
      ensures AcceptsByFlag(d, w) <==> OverAlphabet(w) && w in L
    {
      FlagAccepts(d, w);
    }
  }

  class CodeTokenizer {
    /** The category map `s`: category name to DFA. */
    const s: map<Kind, Dfa>

    ghost predicate Valid()
    {
      MapOk(s)
    }

    /** The map's entries, in the order tokenize tries them. */
    function Categories(): (r: seq<Category>)
      requires Valid()
      ensures |r| == |HashMapOrder| && forall i :: 0 <= i < |r| ==> r[i].name == HashMapOrder[i]
    {
      EntriesOk(s);
      Entries(s)
    }

    /** The entries are categories as the scanner's lemmas require them. */
    lemma CategoriesWellBuilt()
      requires Valid()
      ensures CategoriesOk(Categories())
    {
      EntriesOk(s);
    }

    /**
     * In the map's iteration order DECIMAL comes before EXPONENT, and every
     * exponent starts with a decimal: the dispatch never picks EXPONENT.
     */
    lemma ExponentNeverChosen(code: string, pos: nat)
      requires Valid() && pos <= |code|
      ensures FirstMatch(Categories(), code, pos, 0).Some? ==> Categories()[FirstMatch(Categories(), code, pos, 0).value.0].name != Exponent
    {
      var cats := Categories();
      CategoriesWellBuilt();
      HashMapOrderNames();
      ExponentShadowed(cats, code, pos, 3, 9);
    }

    /** The fourteen `put` calls, each on the DFA of a freshly built pattern automaton. */
    constructor()
      ensures Valid()
    {
      var m: map<Kind, Dfa> := map[];
      var i := 0;
      while i < |CategoryNames|
        invariant 0 <= i <= |CategoryNames|
        invariant forall k :: 0 <= k < i ==> PutDone(m, CategoryNames[k])
      {
        var name := CategoryNames[i];
        var d := PatternDfa(name);
        m := m[name := d];
        i := i + 1;
      }
      s := m;
    }

    /**
     * tokenize: the loop of the Java method, whose variables are kept
     * together in a `ScanState`; each turn does what `Step` says, so the
     * tokens (rendered as `kind: text`) and the reports are those of `Scan`.
     */
    method Tokenize(code: string) returns (tokens: seq<string>, diagnostics: seq<Diagnostic>)
      requires Valid()
      ensures tokens == RenderAll(Scan(Categories(), code).0)
      ensures diagnostics == Scan(Categories(), code).1
    {
      var cats := Categories();
      var st := Initial();
      ghost var final := ScanFrom(cats, code, st);
      while st.pos < |code|
        invariant st.pos <= |code| && ScanFrom(cats, code, st) == final
        decreases |code| - st.pos
      {
        StepAhead(cats, code, st);
        st := Turn(cats, code, st);
      }
      assert st == final;
      tokens := RenderAll(st.tokens);
      diagnostics := FinalChecks(st);
    }
  }

  /** The checks after the loop: unclosed comment, then parenthesis, then string. */
  method FinalChecks(st: ScanState) returns (diagnostics: seq<Diagnostic>)
    ensures diagnostics == st.diagnostics + EndReports(st)
  {
    ghost var comment: seq<Diagnostic> := if st.inComment then [UnclosedMultiLineComment(st.commentStart)] else [];
    ghost var paren: seq<Diagnostic> := if st.openParentheses > 0 then [UnclosedParenthesis] else [];
    diagnostics := st.diagnostics;
    if st.inComment {
      diagnostics := diagnostics + [UnclosedMultiLineComment(st.commentStart)];
    }
    assert diagnostics == st.diagnostics + comment;
    if st.openParentheses > 0 {
      diagnostics := diagnostics + [UnclosedParenthesis];
    }
    assert diagnostics == st.diagnostics + comment + paren;
    if st.inString {
      diagnostics := diagnostics + [UnclosedString(st.stringStartLine)];
    }
  }

  /** The automaton of the named pattern, converted to its DFA. */
  method PatternDfa(name: Kind) returns (d: Dfa)
    requires name in CategoryNames
    ensures ValidDfa(d) && Recognizes(d, PatternLanguage(name))
  {
    var a := new NfaArena();
    var n;
    ghost var region;
    match name {
      case Identifier =>
        n, region := IdentifierNfa(a);
        d := Convert(a, n, PatternLanguage(Identifier));
      case Keyword =>
        n, region := KeywordsNfa(a);
        d := Convert(a, n, PatternLanguage(Keyword));
      case Integer =>
        n, region := IntegerNfa(a);
        d := Convert(a, n, PatternLanguage(Integer));
      case Decimal =>
        n, region := DecimalNfa(a);
        d := Convert(a, n, PatternLanguage(Decimal));
      case Boolean =>
        n, region := BooleanNfa(a);
        d := Convert(a, n, PatternLanguage(Boolean));
      case Character =>
        n, region := CharacterNfa(a);
        d := Convert(a, n, PatternLanguage(Character));
      case Operator =>
        n, region := ArithmeticOperatorNfa(a);
        d := Convert(a, n, PatternLanguage(Operator));
      case Exponent =>
        n, region := ExponentNfa(a);
        d := Convert(a, n, PatternLanguage(Exponent));
      case SingleLineComment =>
        n, region := SingleLineCommentNfa(a);
        d := Convert(a, n, PatternLanguage(SingleLineComment));
      case MultiLineComment =>
        n, region := MultiLineCommentNfa(a);
        d := Convert(a, n, PatternLanguage(MultiLineComment));
      case Whitespace =>
        n, region := WhitespaceNfa(a);
        d := Convert(a, n, PatternLanguage(Whitespace));
      case String =>
        n, region := StringNfa(a);
        d := Convert(a, n, PatternLanguage(String));
      case Io =>
        n, region := InputOutputNfa(a);
        d := Convert(a, n, PatternLanguage(Io));
      case Constant =>
        n, region := ConstantNfa(a);
        d := Convert(a, n, PatternLanguage(Constant));
      case _ => assert false;
    }
  }

  /** A turn of the loop leaves the rest of the scan to its successor state. */
  lemma StepAhead(cats: seq<Category>, code: string, st: ScanState)
    requires st.pos < |code|
    ensures ScanFrom(cats, code, st) == ScanFrom(cats, code, Step(cats, code, st))
  {
  }

  /**
   * The loop over the map's entries: the first category whose DFA matches
   * a non-empty prefix at `pos`, with the length of its longest match.
   */
  method MatchCategories(cats: seq<Category>, code: string, pos: nat) returns (found: bool, i: nat, len: nat)
    requires pos <= |code|
    ensures found <==> FirstMatch(cats, code, pos, 0).Some?
    ensures found ==> FirstMatch(cats, code, pos, 0) == Some((i, len))
  {
    i := 0;
    while i < |cats|
      invariant i <= |cats|
      invariant FirstMatch(cats, code, pos, 0) == FirstMatch(cats, code, pos, i)
    {
      len := MatchDfa(cats[i].dfa, code, pos);
      if len > 0 {
        return true, i, len;
      }
      i := i + 1;
    }
    return false, i, 0;
  }

  /** One turn of the tokenize loop, on the loop's variables. */
  method Turn(cats: seq<Category>, code: string, st: ScanState) returns (r: ScanState)
    requires st.pos < |code|
    ensures r == Step(cats, code, st)
  {
    var pos := st.pos;
    var ch := code[pos];
    if ch == '\n' {
      return st.(line := st.line + 1, pos := pos + 1);
    }
    if StartsWithAt(code, pos, Marker) {
      if st.inComment {
        r := st.(inComment := false, tokens := st.tokens + [Token(MultiLineCommentEnd, Marker)]);
      } else {
        r := st.(inComment := true, commentStart := st.line, tokens := st.tokens + [Token(MultiLineCommentStart, Marker)]);
      }
      return r.(pos := pos + |Marker|);
    }
    if st.inComment {
      return st.(pos := pos + 1);
    }
    if ch == '"' {
      if st.inString {
        r := st.(tokens := st.tokens + [Token(String, "\"" + st.content + "\"")], content := [], inString := false);
      } else {
        r := st.(inString := true, stringStartLine := st.line);
      }
      return r.(pos := pos + 1);
    }
    if st.inString {
      return st.(content := st.content + [ch], pos := pos + 1);
    }
    if ch == '(' {
      return st.(openParentheses := st.openParentheses + 1, tokens := st.tokens + [Token(ParenthesisOpen, "(")], pos := pos + 1);
    }
    if ch == ')' {
      r := st;
      if st.openParentheses == 0 {
        r := r.(diagnostics := st.diagnostics + [UnexpectedCharacter(st.line, pos, ')')]);
      } else {
        r := r.(openParentheses := st.openParentheses - 1);
      }
      return r.(tokens := st.tokens + [Token(ParenthesisClose, ")")], pos := pos + 1);
    }
    r := DispatchTurn(cats, code, st);
  }

  /** The last branch of a turn: try the categories in order at `st.pos`. */
  method DispatchTurn(cats: seq<Category>, code: string, st: ScanState) returns (r: ScanState)
    requires st.pos < |code|
    ensures r == Dispatch(cats, code, st)
  {
    var pos := st.pos;
    var found, i, len := MatchCategories(cats, code, pos);
    if found {
      r := st;
      if cats[i].name != Whitespace {
        r := r.(tokens := st.tokens + [Token(cats[i].name, code[pos..pos + len])]);
      }
      r := r.(pos := pos + len);
    } else {
      r := st.(diagnostics := st.diagnostics + [UnexpectedCharacter(st.line, pos, code[pos])], pos := pos + 1);
    }
  }
}
