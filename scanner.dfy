/**
 * The scanner of `CodeTokenizer.tokenize`, as a function of the categories
 * (name and DFA, in the order the category map is iterated) and the source
 * text.  One `Step` is one turn of the Java while-loop; `Scan` runs the
 * steps to the end of the text and adds the end-of-input reports.  The
 * lemmas state what the scanner guarantees about its tokens and reports.
 */
module Scanner {
  import opened Wrappers
  import opened Languages
  import opened DfaGraph
  import opened DfaMatch
  import opened NfaToDfa
  import opened RegexPatterns

  /**
   * The token types: the fourteen category names, which are the keys of the
   * category map, and the four kinds the scanner emits itself.  `KindName`
   * gives the Java string of each.
   */
  datatype Kind =
    | Identifier | Keyword | Integer | Decimal | Boolean | Character | Operator | Exponent
    | SingleLineComment | MultiLineComment | Whitespace | String | Io | Constant
    | ParenthesisOpen | ParenthesisClose | MultiLineCommentStart | MultiLineCommentEnd

  function KindName(k: Kind): string
  {
    match k
    case Identifier => "IDENTIFIER"
    case Keyword => "KEYWORD"
    case Integer => "INTEGER"
    case Decimal => "DECIMAL"
    case Boolean => "BOOLEAN"
    case Character => "CHARACTER"
    case Operator => "OPERATOR"
    case Exponent => "EXPONENT"
    case SingleLineComment => "SINGLE_LINE_COMMENT"
    case MultiLineComment => "MULTI_LINE_COMMENT"
    case Whitespace => "WHITESPACE"
    case String => "STRING"
    case Io => "IO"
    case Constant => "CONSTANT"
    case ParenthesisOpen => "PARENTHESIS_OPEN"
    case ParenthesisClose => "PARENTHESIS_CLOSE"
    case MultiLineCommentStart => "MULTI_LINE_COMMENT_START"
    case MultiLineCommentEnd => "MULTI_LINE_COMMENT_END"
  }

  /** A token as the scanner emits it; Java renders it as `kind + ": " + text`. */
  datatype Token = Token(kind: Kind, text: string)

  /** A report of ErrorHandling: an unexpected character, or an unclosed construct at the end. */
  datatype Diagnostic =
    | UnexpectedCharacter(line: int, pos: int, ch: char)
    | UnclosedMultiLineComment(startLine: int)
    | UnclosedParenthesis
    | UnclosedString(startLine: int)

  /** One entry of the category map: the category name and its DFA. */
  datatype Category = Category(name: Kind, dfa: Dfa)

  function Render(t: Token): string
  {
    KindName(t.kind) + ": " + t.text
  }

  function RenderAll(ts: seq<Token>): (r: seq<string>)
    ensures |r| == |ts| && forall i :: 0 <= i < |ts| ==> r[i] == Render(ts[i])
  {
    seq(|ts|, i requires 0 <= i < |ts| => Render(ts[i]))
  }

  /** The marker that opens and closes a multi-line comment. */
  const Marker: string := "zadabolo"

  /** The names of the fourteen categories the tokenizer registers. */
  const CategoryNames: seq<Kind> := [Identifier, Keyword, Integer, Decimal, Boolean, Character,
    Operator, Exponent, SingleLineComment, MultiLineComment, Whitespace, String, Io, Constant]

  /** The language of the pattern each category is built from. */
  ghost function PatternLanguage(name: Kind): Language
  {
    match name
    case Identifier => Identifiers()
    case Keyword => iset{"number", "letter", "word", "choice", "decimal"}
    case Integer => Integers()
    case Decimal => Decimals()
    case Boolean => iset{"yes", "no"}
    case Character => CharacterLiterals()
    case Operator => iset{"add", "minus", "mul", "div", "pow", "barabar"}
    case Exponent => Exponents()
    case SingleLineComment => SingleLineComments()
    case MultiLineComment => MultiLineComments()
    case Whitespace => WhitespaceRuns()
    case String => StringLiterals()
    case Io => iset{"andar", "bahir"}
    case Constant => iset{"const"}
    case _ => iset{}
  }


  /**
   * A category as the constructor registers it: one of the fourteen names,
   * and a DFA whose accepting flags pick out exactly the words of the
   * pattern that use only printable characters.
   */
  ghost predicate CategoryOk(c: Category)
  {
    c.name in CategoryNames && ValidDfa(c.dfa) && Recognizes(c.dfa, PatternLanguage(c.name))
  }

  /** The accepting flags of `d` pick out exactly the printable words of `L`. */
  ghost predicate Recognizes(d: Dfa, L: Language)
  {
    forall w {:trigger AcceptsByFlag(d, w)} :: AcceptsByFlag(d, w) <==> OverAlphabet(w) && w in L
  }

  ghost predicate CategoriesOk(cats: seq<Category>)
  {
    forall i :: 0 <= i < |cats| ==> CategoryOk(cats[i])
  }

  /** code.startsWith(s, pos). */
  predicate StartsWithAt(code: string, pos: nat, s: string)
  {
    pos + |s| <= |code| && code[pos..pos + |s|] == s
  }

  /**
   * The DFA dispatch: the first category, from index `i` on, whose DFA
   * matches a non-empty prefix at `pos`, with the length of that match.
   */
  function FirstMatch(cats: seq<Category>, code: string, pos: nat, i: nat): (r: Option<(nat, nat)>)
    requires pos <= |code|
    ensures r.Some? ==>
      && i <= r.value.0 < |cats| && r.value.1 == MatchDfa(cats[r.value.0].dfa, code, pos) > 0
      && forall j :: i <= j < r.value.0 ==> MatchDfa(cats[j].dfa, code, pos) == 0
    ensures r.None? ==> forall j :: i <= j < |cats| ==> MatchDfa(cats[j].dfa, code, pos) == 0
    decreases |cats| - i
  {
    if i >= |cats| then None
    else
      var len := MatchDfa(cats[i].dfa, code, pos);
      if len > 0 then Some((i, len)) else FirstMatch(cats, code, pos, i + 1)
  }

  /** The variables of the tokenize loop. */
  datatype ScanState = ScanState(
    pos: nat, line: int, openParentheses: int, inComment: bool, inString: bool,
    commentStart: int, stringStartLine: int, content: string,
    tokens: seq<Token>, diagnostics: seq<Diagnostic>)

  /** The variables as tokenize initialises them: the loop invariants hold for every text. */
  function Initial(): (r: ScanState)
    ensures forall code: string :: ScanInv(code, r) && StartsInv(code, r)
  {
    assert forall code: string :: code[..0] == [];
    ScanState(0, 1, 0, false, false, -1, -1, [], [], [])
  }

  /** One turn of the tokenize loop, which consumes at least one character. */
  function Step(cats: seq<Category>, code: string, st: ScanState): (r: ScanState)
    requires st.pos < |code|
    ensures st.pos < r.pos <= |code|
  {
    var pos := st.pos;
    var ch := code[pos];
    if ch == '\n' then st.(line := st.line + 1, pos := pos + 1)
    else if StartsWithAt(code, pos, Marker) then
      if st.inComment then
        st.(inComment := false, tokens := st.tokens + [Token(MultiLineCommentEnd, Marker)], pos := pos + |Marker|)
      else
        st.(inComment := true, commentStart := st.line,
            tokens := st.tokens + [Token(MultiLineCommentStart, Marker)], pos := pos + |Marker|)
    else if st.inComment then st.(pos := pos + 1)
    else if ch == '"' then
      if st.inString then
        st.(tokens := st.tokens + [Token(String, "\"" + st.content + "\"")], content := [], inString := false, pos := pos + 1)
      else
        st.(inString := true, stringStartLine := st.line, pos := pos + 1)
    else if st.inString then st.(content := st.content + [ch], pos := pos + 1)
    else if ch == '(' then
      st.(openParentheses := st.openParentheses + 1, tokens := st.tokens + [Token(ParenthesisOpen, "(")], pos := pos + 1)
    else if ch == ')' then
      var closed := st.(tokens := st.tokens + [Token(ParenthesisClose, ")")], pos := pos + 1);
      if st.openParentheses == 0 then closed.(diagnostics := st.diagnostics + [UnexpectedCharacter(st.line, pos, ')')])
      else closed.(openParentheses := st.openParentheses - 1)
    else Dispatch(cats, code, st)
  }

  /**
   * The last branch of a turn: the first matching category's token (none for
   * whitespace), or an unexpected-character report and one character skipped.
   */
  function Dispatch(cats: seq<Category>, code: string, st: ScanState): (r: ScanState)
    requires st.pos < |code|
    ensures st.pos < r.pos <= |code|
    ensures && r.line == st.line && r.openParentheses == st.openParentheses && r.content == st.content
            && r.inComment == st.inComment && r.inString == st.inString
            && r.commentStart == st.commentStart && r.stringStartLine == st.stringStartLine
    ensures st.tokens <= r.tokens && |r.tokens| <= |st.tokens| + 1
    ensures r.diagnostics == st.diagnostics || r.diagnostics == st.diagnostics + [UnexpectedCharacter(st.line, st.pos, code[st.pos])]
  {
    var m := FirstMatch(cats, code, st.pos, 0);
    if m.None? then Miss(code, st)
    else Emit(code, st, cats[m.value.0].name, m.value.1)
  }

  /** An unexpected character: report it with its line and index, and skip it. */
  function Miss(code: string, st: ScanState): (r: ScanState)
    requires st.pos < |code|
    ensures r.pos == st.pos + 1
  {
    st.(diagnostics := st.diagnostics + [UnexpectedCharacter(st.line, st.pos, code[st.pos])], pos := st.pos + 1)
  }

  /** A match of `len` characters in category `name`: its token (none for whitespace), and move past it. */
  function Emit(code: string, st: ScanState, name: Kind, len: nat): (r: ScanState)
    requires st.pos + len <= |code|
    ensures r.pos == st.pos + len
  {
    st.(tokens := if name == Whitespace then st.tokens else st.tokens + [Token(name, code[st.pos..st.pos + len])],
        pos := st.pos + len)
  }

  /**
   * The loop from `st` to the end of the text: it stops at the end, only
   * appends tokens and reports, and every report it adds is an
   * unexpected-character report.
   */
  function ScanFrom(cats: seq<Category>, code: string, st: ScanState): (r: ScanState)
    requires st.pos <= |code|
    ensures r.pos == |code|
    ensures st.tokens <= r.tokens && st.diagnostics <= r.diagnostics
    ensures forall k :: |st.diagnostics| <= k < |r.diagnostics| ==> r.diagnostics[k].UnexpectedCharacter?
    decreases |code| - st.pos
  {
    if st.pos >= |code| then st
    else
      StepAppends(cats, code, st);
      ScanFrom(cats, code, Step(cats, code, st))
  }

  /**
   * A turn appends at most one token and at most one report, which is an
   * unexpected-character report of the character at the current position.
   */
  lemma StepAppends(cats: seq<Category>, code: string, st: ScanState)
    requires st.pos < |code|
    ensures var r := Step(cats, code, st);
      && st.tokens <= r.tokens && |r.tokens| <= |st.tokens| + 1
      && (r.diagnostics == st.diagnostics || r.diagnostics == st.diagnostics + [UnexpectedCharacter(st.line, st.pos, code[st.pos])])
  {
  }

  /** The final error checks: unclosed comment, then parenthesis, then string. */
  function EndReports(st: ScanState): (r: seq<Diagnostic>)
    ensures |r| <= 3 && forall k :: 0 <= k < |r| ==> !r[k].UnexpectedCharacter?
  {
    (if st.inComment then [UnclosedMultiLineComment(st.commentStart)] else [])
    + (if st.openParentheses > 0 then [UnclosedParenthesis] else [])
    + (if st.inString then [UnclosedString(st.stringStartLine)] else [])
  }

  /**
   * tokenize: the tokens and, in order, every report made along the way; the
   * unexpected-character reports of the loop come before the at most three
   * reports of the final checks.
   */
  function Scan(cats: seq<Category>, code: string): (r: (seq<Token>, seq<Diagnostic>))
    ensures forall i, j :: 0 <= i < j < |r.1| && r.1[j].UnexpectedCharacter? ==> r.1[i].UnexpectedCharacter?
    ensures forall k :: 0 <= k < |r.1| - 3 ==> r.1[k].UnexpectedCharacter?
  {
    var st := ScanFrom(cats, code, Initial());
    (st.tokens, st.diagnostics + EndReports(st))
  }

  // ---------------------------------------------------------------------
  // What one category's match means

  /** The `k` characters at `pos` are a printable word of `L`. */
  ghost predicate LexemeIn(L: Language, code: string, pos: nat, k: nat)
  {
    pos + k <= |code| && OverAlphabet(code[pos..pos + k]) && code[pos..pos + k] in L
  }

  /**
   * matchDfa on a DFA that recognizes `L` is maximal munch over `L`: the
   * result is the longest non-empty prefix at `pos` that is a printable word
   * of `L`, or 0 when there is none.
   */
  lemma MatchMeaning(d: Dfa, L: Language, code: string, pos: nat)
    requires Recognizes(d, L) && pos <= |code|
    ensures var len := MatchDfa(d, code, pos);
      && (len > 0 ==> LexemeIn(L, code, pos, len))
      && forall k: nat :: len < k ==> !LexemeIn(L, code, pos, k)
  {
    var len := MatchDfa(d, code, pos);
    MatchDfaLongest(d, code, pos);
    if len > 0 {
      assert AcceptedPrefix(d, code, pos, len);
    }
    forall k: nat | len < k && pos + k <= |code|
      ensures !LexemeIn(L, code, pos, k)
    {
      assert !AcceptedPrefix(d, code, pos, k);
    }
  }

  /**
   * The dispatch picks the first category (in map order) that matches a
   * non-empty prefix, with its longest match; no earlier category matches
   * any non-empty prefix at all.
   */
  lemma FirstMatchMeaning(cats: seq<Category>, code: string, pos: nat)
    requires CategoriesOk(cats) && pos <= |code|
    ensures match FirstMatch(cats, code, pos, 0)
      case Some((i, len)) =>
        && LexemeIn(PatternLanguage(cats[i].name), code, pos, len)
        && (forall k: nat :: len < k ==> !LexemeIn(PatternLanguage(cats[i].name), code, pos, k))
        && (forall j, k: nat :: 0 <= j < i && 0 < k ==> !LexemeIn(PatternLanguage(cats[j].name), code, pos, k))
      case None =>
        forall j, k: nat :: 0 <= j < |cats| && 0 < k ==> !LexemeIn(PatternLanguage(cats[j].name), code, pos, k)
  {
    forall j | 0 <= j < |cats|
      ensures var len := MatchDfa(cats[j].dfa, code, pos);
        && (len > 0 ==> LexemeIn(PatternLanguage(cats[j].name), code, pos, len))
        && forall k: nat :: len < k ==> !LexemeIn(PatternLanguage(cats[j].name), code, pos, k)
    {
      MatchMeaning(cats[j].dfa, PatternLanguage(cats[j].name), code, pos);
    }
  }

  /** A character outside 32..126 (a tab, say) starts no category's token. */
  lemma UnprintableUnmatched(cats: seq<Category>, code: string, pos: nat)
    requires CategoriesOk(cats) && pos < |code| && !InAlphabet(code[pos])
    ensures FirstMatch(cats, code, pos, 0) == None
  {
    forall j | 0 <= j < |cats|
      ensures MatchDfa(cats[j].dfa, code, pos) == 0
    {
      var L := CategoryLanguage(cats, j);
      UnprintableNoMatch(cats[j].dfa, L, code, pos);
    }
  }

  /** A DFA of printable words matches nothing at an unprintable character. */
  lemma UnprintableNoMatch(d: Dfa, L: Language, code: string, pos: nat)
    requires Recognizes(d, L) && pos < |code| && !InAlphabet(code[pos])
    ensures MatchDfa(d, code, pos) == 0
  {
    var len := MatchDfa(d, code, pos);
    if len > 0 {
      assert code[pos..pos + len][0] == code[pos];
    }
    MatchMeaning(d, L, code, pos);
  }

  /** The STRING category never matches where the scanner consults the DFAs (never at a quote). */
  lemma StringCategoryIdle(c: Category, code: string, pos: nat)
    requires CategoryOk(c) && c.name == String && pos < |code| && code[pos] != '"'
    ensures MatchDfa(c.dfa, code, pos) == 0
  {
    MatchMeaning(c.dfa, StringLiterals(), code, pos);
  }

  /**
   * Every exponent starts with a decimal, so when DECIMAL comes before
   * EXPONENT in the map order, the dispatch never picks EXPONENT.
   */
  lemma ExponentShadowed(cats: seq<Category>, code: string, pos: nat, j: nat, i: nat)
    requires CategoriesOk(cats) && pos <= |code| && j < i < |cats|
    requires cats[j].name == Decimal && cats[i].name == Exponent
    ensures FirstMatch(cats, code, pos, 0).Some? ==> FirstMatch(cats, code, pos, 0).value.0 != i
  {
    assert CategoryOk(cats[i]) && CategoryOk(cats[j]);
    assert PatternLanguage(cats[i].name) == Exponents();
    assert PatternLanguage(cats[j].name) == Decimals();
    if MatchDfa(cats[i].dfa, code, pos) > 0 {
      ExponentNeedsDecimal(cats[i].dfa, cats[j].dfa, code, pos);
    }
  }

  /** Where an EXPONENT DFA matches, a DECIMAL DFA matches too. */
  lemma ExponentNeedsDecimal(de: Dfa, dd: Dfa, code: string, pos: nat)
    requires Recognizes(de, Exponents()) && Recognizes(dd, Decimals()) && pos <= |code|
    requires MatchDfa(de, code, pos) > 0
    ensures MatchDfa(dd, code, pos) > 0
  {
    var len := MatchDfa(de, code, pos);
    MatchMeaning(de, Exponents(), code, pos);
    assert LexemeIn(Exponents(), code, pos, len);
    var w := code[pos..pos + len];
    var m := DecimalHead(w);
    DecimalTaken(dd, code, pos, w, m);
  }

  /** An exponent starts with a decimal: the part before its caret. */
  lemma DecimalHead(w: string) returns (m: nat)
    requires w in Exponents()
    ensures m < |w| && w[..m] in Decimals()
  {
    m :| 0 <= m < |w| && w[m] == '^' && w[..m] in Decimals() && w[m + 1..] in Decimals();
  }

  /** A decimal that starts a printable word at `pos` is matched by a DFA recognizing DECIMAL. */
  lemma DecimalTaken(d: Dfa, code: string, pos: nat, w: string, m: nat)
    requires Recognizes(d, Decimals()) && pos + |w| <= |code| && w == code[pos..pos + |w|]
    requires OverAlphabet(w) && m < |w| && w[..m] in Decimals()
    ensures MatchDfa(d, code, pos) > 0
  {
    var u := w[..m];
    var t :| 0 <= t < |u| && u[t] == '.' && u[..t] in Integers() && u[t + 1..] in Integers();
    assert u == code[pos..pos + m];
    assert OverAlphabet(u) by {
      forall k | 0 <= k < |u|
        ensures InAlphabet(u[k])
      {
        assert u[k] == w[k];
      }
    }
    assert LexemeIn(Decimals(), code, pos, m);
    MatchMeaning(d, Decimals(), code, pos);
  }

  // ---------------------------------------------------------------------
  // What the loop keeps true

  /** The number of newline characters in `s`. */
  function Newlines(s: string): nat
  {
    if s == [] then 0 else Newlines(s[..|s| - 1]) + (if s[|s| - 1] == '\n' then 1 else 0)
  }

  lemma {:induction false} NewlinesAppend(s: string, t: string)
    ensures Newlines(s + t) == Newlines(s) + Newlines(t)
    decreases |t|
  {
    if t != [] {
      var t' := t[..|t| - 1];
      assert (s + t)[..|s + t| - 1] == s + t';
      assert (s + t)[|s + t| - 1] == t[|t| - 1];
      NewlinesAppend(s, t');
    } else {
      assert s + t == s;
    }
  }

  lemma {:induction false} NewlinesNone(s: string)
    requires forall k :: 0 <= k < |s| ==> s[k] != '\n'
    ensures Newlines(s) == 0
    decreases |s|
  {
    if s != [] {
      NewlinesNone(s[..|s| - 1]);
    }
  }

  /** The tokens of kind `k`. */
  function CountKind(ts: seq<Token>, k: Kind): nat
  {
    if ts == [] then 0 else CountKind(ts[..|ts| - 1], k) + (if ts[|ts| - 1].kind == k then 1 else 0)
  }

  /** The reports of a `)` with no open parenthesis. */
  function CloseErrors(ds: seq<Diagnostic>): nat
  {
    if ds == [] then 0
    else CloseErrors(ds[..|ds| - 1]) + (if ds[|ds| - 1].UnexpectedCharacter? && ds[|ds| - 1].ch == ')' then 1 else 0)
  }

  /** An unexpected-character report names a character of the text, its index and its 1-based line. */
  ghost predicate Reports(code: string, d: Diagnostic)
  {
    d.UnexpectedCharacter? && 0 <= d.pos < |code| && code[d.pos] == d.ch && d.line == 1 + Newlines(code[..d.pos])
  }

  /** No token is of kind WHITESPACE. */
  ghost predicate NoWhitespace(ts: seq<Token>)
  {
    forall k :: 0 <= k < |ts| ==> ts[k].kind != Whitespace
  }

  /** Every report is a correct unexpected-character report before position `p`. */
  ghost predicate ReportsBefore(code: string, ds: seq<Diagnostic>, p: nat)
  {
    forall k :: 0 <= k < |ds| ==> Reports(code, ds[k]) && ds[k].pos < p
  }

  /** The unexpected-character reports come in increasing order of position. */
  ghost predicate Ordered(ds: seq<Diagnostic>)
  {
    forall a: nat, b: nat {:trigger InOrder(ds, a, b)} :: InOrder(ds, a, b)
  }

  /** The reports at `a` and `b`, when `a < b` and both are unexpected characters, are in order of position. */
  ghost predicate InOrder(ds: seq<Diagnostic>, a: nat, b: nat)
  {
    a < b < |ds| && ds[a].UnexpectedCharacter? && ds[b].UnexpectedCharacter? ==> ds[a].pos < ds[b].pos
  }

  /** The invariant of the tokenize loop. */
  ghost predicate ScanInv(code: string, st: ScanState)
  {
    && st.pos <= |code|
    && st.line == 1 + Newlines(code[..st.pos])
    && 0 <= st.openParentheses
    && st.openParentheses
         == CountKind(st.tokens, ParenthesisOpen) - CountKind(st.tokens, ParenthesisClose) + CloseErrors(st.diagnostics)
    && CountKind(st.tokens, MultiLineCommentStart)
         == CountKind(st.tokens, MultiLineCommentEnd) + (if st.inComment then 1 else 0)
    && (!st.inString ==> st.content == [])
    && NoWhitespace(st.tokens)
    && ReportsBefore(code, st.diagnostics, st.pos)
    && Ordered(st.diagnostics)
  }

  /** Some quote before position `p` stands on line `line`. */
  ghost predicate StringOpenedAt(code: string, p: nat, line: int)
  {
    exists q: nat :: q < p && q < |code| && code[q] == '"' && line == 1 + Newlines(code[..q])
  }

  /** Some comment marker ending by position `p` starts on line `line`. */
  ghost predicate CommentOpenedAt(code: string, p: nat, line: int)
  {
    exists q: nat :: q + |Marker| <= p && StartsWithAt(code, q, Marker) && line == 1 + Newlines(code[..q])
  }

  /**
   * The start lines the final checks report: while a string is open its
   * start line is the line of a quote already read, and while a comment is
   * open its start line is the line of a marker already read.
   */
  ghost predicate StartsInv(code: string, st: ScanState)
  {
    && (st.inString ==> StringOpenedAt(code, st.pos, st.stringStartLine))
    && (st.inComment ==> CommentOpenedAt(code, st.pos, st.commentStart))
  }

  /** Reading one character adds one line exactly when it is a newline. */
  lemma OneChar(code: string, p: nat)
    requires p < |code|
    ensures Newlines(code[..p + 1]) == Newlines(code[..p]) + (if code[p] == '\n' then 1 else 0)
  {
    assert code[..p + 1][..p] == code[..p];
  }

  /** A stretch of printable characters adds no line. */
  lemma {:induction false} NoLineBreaks(code: string, p: nat, q: nat)
    requires p <= q <= |code| && OverAlphabet(code[p..q])
    ensures Newlines(code[..q]) == Newlines(code[..p])
  {
    assert code[..q] == code[..p] + code[p..q];
    NewlinesAppend(code[..p], code[p..q]);
    NewlinesNone(code[p..q]);
  }

  lemma {:induction false} CountKindSnoc(ts: seq<Token>, t: Token, k: Kind)
    ensures CountKind(ts + [t], k) == CountKind(ts, k) + (if t.kind == k then 1 else 0)
  {
    assert (ts + [t])[..|ts|] == ts;
  }

  lemma {:induction false} CloseErrorsSnoc(ds: seq<Diagnostic>, d: Diagnostic)
    ensures CloseErrors(ds + [d]) == CloseErrors(ds) + (if d.UnexpectedCharacter? && d.ch == ')' then 1 else 0)
  {
    assert (ds + [d])[..|ds|] == ds;
  }

  /** The token kinds whose numbers the invariant relates. */
  predicate Counted(k: Kind)
  {
    k == ParenthesisOpen || k == ParenthesisClose || k == MultiLineCommentStart || k == MultiLineCommentEnd
  }

  /** Appending a token of any other kind leaves those numbers as they were. */
  lemma PlainToken(st: ScanState, t: Token)
    requires !Counted(t.kind)
    ensures CountKind(st.tokens + [t], ParenthesisOpen) == CountKind(st.tokens, ParenthesisOpen)
    ensures CountKind(st.tokens + [t], ParenthesisClose) == CountKind(st.tokens, ParenthesisClose)
    ensures CountKind(st.tokens + [t], MultiLineCommentStart) == CountKind(st.tokens, MultiLineCommentStart)
    ensures CountKind(st.tokens + [t], MultiLineCommentEnd) == CountKind(st.tokens, MultiLineCommentEnd)
  {
    CountAll(st.tokens, t);
  }

  /** How one more token changes each counted number. */
  lemma CountAll(ts: seq<Token>, t: Token)
    ensures CountKind(ts + [t], ParenthesisOpen) == CountKind(ts, ParenthesisOpen) + (if t.kind == ParenthesisOpen then 1 else 0)
    ensures CountKind(ts + [t], ParenthesisClose) == CountKind(ts, ParenthesisClose) + (if t.kind == ParenthesisClose then 1 else 0)
    ensures CountKind(ts + [t], MultiLineCommentStart)
         == CountKind(ts, MultiLineCommentStart) + (if t.kind == MultiLineCommentStart then 1 else 0)
    ensures CountKind(ts + [t], MultiLineCommentEnd)
         == CountKind(ts, MultiLineCommentEnd) + (if t.kind == MultiLineCommentEnd then 1 else 0)
  {
    CountKindSnoc(ts, t, ParenthesisOpen);
    CountKindSnoc(ts, t, ParenthesisClose);
    CountKindSnoc(ts, t, MultiLineCommentStart);
    CountKindSnoc(ts, t, MultiLineCommentEnd);
  }

  /** Reports before `p` are reports before any later position. */
  lemma ReportsLater(code: string, ds: seq<Diagnostic>, p: nat, q: nat)
    requires ReportsBefore(code, ds, p) && p <= q
    ensures ReportsBefore(code, ds, q)
  {
  }

  /** A correct report at the current position keeps the reports correct and ordered. */
  lemma NewReport(code: string, st: ScanState, p: nat)
    requires ScanInv(code, st) && st.pos < p && st.pos < |code|
    ensures var ds := st.diagnostics + [UnexpectedCharacter(st.line, st.pos, code[st.pos])];
      ReportsBefore(code, ds, p) && Ordered(ds)
  {
    var ds := st.diagnostics + [UnexpectedCharacter(st.line, st.pos, code[st.pos])];
    forall a: nat, b: nat
      ensures InOrder(ds, a, b)
    {
      if b < |st.diagnostics| {
        assert InOrder(st.diagnostics, a, b);
      }
    }
  }

  /** A token other than whitespace keeps the tokens free of whitespace. */
  lemma NoWhitespaceSnoc(ts: seq<Token>, t: Token)
    requires NoWhitespace(ts) && t.kind != Whitespace
    ensures NoWhitespace(ts + [t])
  {
  }

  /** One turn of the loop keeps the invariant. */
  lemma StepInv(cats: seq<Category>, code: string, st: ScanState)
    requires CategoriesOk(cats) && ScanInv(code, st) && st.pos < |code|
    ensures ScanInv(code, Step(cats, code, st))
  {
    var ch := code[st.pos];
    if ch == '\n' {
      NewlineStep(cats, code, st);
    } else if StartsWithAt(code, st.pos, Marker) {
      MarkerStep(cats, code, st);
    } else if st.inComment {
      CommentStep(cats, code, st);
    } else if ch == '"' {
      QuoteStep(cats, code, st);
    } else if st.inString {
      ContentStep(cats, code, st);
    } else if ch == '(' {
      OpenStep(cats, code, st);
    } else if ch == ')' {
      CloseStep(cats, code, st);
    } else {
      StepDispatch(cats, code, st);
      DispatchInv(cats, code, st);
    }
  }

  // Each branch of a turn: what `Step` does there (a lemma that does not
  // mention the invariant), that the new state keeps the invariant (a lemma
  // that does not mention `Step`), and the two put together.

  /** A line break only moves to the next line. */
  lemma StepNewline(cats: seq<Category>, code: string, st: ScanState)
    requires st.pos < |code| && code[st.pos] == '\n'
    ensures Step(cats, code, st) == st.(line := st.line + 1, pos := st.pos + 1)
  {
  }

  lemma NewlineInv(code: string, st: ScanState)
    requires ScanInv(code, st) && st.pos < |code| && code[st.pos] == '\n'
    ensures ScanInv(code, st.(line := st.line + 1, pos := st.pos + 1))
  {
    OneChar(code, st.pos);
    ReportsLater(code, st.diagnostics, st.pos, st.pos + 1);
  }

  lemma NewlineStep(cats: seq<Category>, code: string, st: ScanState)
    requires ScanInv(code, st) && st.pos < |code| && code[st.pos] == '\n'
    ensures ScanInv(code, Step(cats, code, st))
  {
    StepNewline(cats, code, st);
    NewlineInv(code, st);
  }

  /** The comment marker, outside a line break, opens or closes a comment. */
  lemma StepMarker(cats: seq<Category>, code: string, st: ScanState)
    requires st.pos < |code| && code[st.pos] != '\n' && StartsWithAt(code, st.pos, Marker)
    ensures Step(cats, code, st)
         == st.(inComment := !st.inComment, commentStart := if st.inComment then st.commentStart else st.line,
                tokens := st.tokens + [Token(if st.inComment then MultiLineCommentEnd else MultiLineCommentStart, Marker)],
                pos := st.pos + |Marker|)
  {
  }

  lemma MarkerStep(cats: seq<Category>, code: string, st: ScanState)
    requires ScanInv(code, st) && st.pos < |code| && code[st.pos] != '\n' && StartsWithAt(code, st.pos, Marker)
    ensures ScanInv(code, Step(cats, code, st))
  {
    StepMarker(cats, code, st);
    MarkerInv(code, st);
  }

  /** Inside a comment, any other character is skipped. */
  lemma StepComment(cats: seq<Category>, code: string, st: ScanState)
    requires st.pos < |code| && code[st.pos] != '\n' && !StartsWithAt(code, st.pos, Marker) && st.inComment
    ensures Step(cats, code, st) == st.(pos := st.pos + 1)
  {
  }

  /** Moving over one character other than a line break keeps the invariant. */
  lemma SkipOneInv(code: string, st: ScanState)
    requires ScanInv(code, st) && st.pos < |code| && code[st.pos] != '\n'
    ensures ScanInv(code, st.(pos := st.pos + 1))
  {
    OneChar(code, st.pos);
    ReportsLater(code, st.diagnostics, st.pos, st.pos + 1);
  }

  lemma CommentStep(cats: seq<Category>, code: string, st: ScanState)
    requires ScanInv(code, st) && st.pos < |code| && code[st.pos] != '\n' && !StartsWithAt(code, st.pos, Marker)
    requires st.inComment
    ensures ScanInv(code, Step(cats, code, st))
  {
    StepComment(cats, code, st);
    SkipOneInv(code, st);
  }

  /** A quote outside a comment opens a string, or closes the open one and emits it. */
  lemma StepQuote(cats: seq<Category>, code: string, st: ScanState)
    requires st.pos < |code| && code[st.pos] == '"' && !StartsWithAt(code, st.pos, Marker) && !st.inComment
    ensures Step(cats, code, st)
         == if st.inString then st.(tokens := st.tokens + [Token(String, "\"" + st.content + "\"")], content := [], inString := false, pos := st.pos + 1)
            else st.(inString := true, stringStartLine := st.line, pos := st.pos + 1)
  {
  }

  lemma QuoteInv(code: string, st: ScanState)
    requires ScanInv(code, st) && st.pos < |code| && code[st.pos] == '"'
    ensures st.inString ==>
      ScanInv(code, st.(tokens := st.tokens + [Token(String, "\"" + st.content + "\"")], content := [], inString := false, pos := st.pos + 1))
    ensures !st.inString ==> ScanInv(code, st.(inString := true, stringStartLine := st.line, pos := st.pos + 1))
  {
    OneChar(code, st.pos);
    ReportsLater(code, st.diagnostics, st.pos, st.pos + 1);
    if st.inString {
      var t := Token(String, "\"" + st.content + "\"");
      PlainToken(st, t);
      NoWhitespaceSnoc(st.tokens, t);
    }
  }

  lemma QuoteStep(cats: seq<Category>, code: string, st: ScanState)
    requires ScanInv(code, st) && st.pos < |code| && code[st.pos] == '"' && !StartsWithAt(code, st.pos, Marker)
    requires !st.inComment
    ensures ScanInv(code, Step(cats, code, st))
  {
    StepQuote(cats, code, st);
    QuoteInv(code, st);
  }

  /** Inside a string, any other character is added to its content. */
  lemma StepContent(cats: seq<Category>, code: string, st: ScanState)
    requires st.pos < |code| && code[st.pos] != '\n' && code[st.pos] != '"' && !StartsWithAt(code, st.pos, Marker)
    requires !st.inComment && st.inString
    ensures Step(cats, code, st) == st.(content := st.content + [code[st.pos]], pos := st.pos + 1)
  {
  }

  lemma ContentInv(code: string, st: ScanState)
    requires ScanInv(code, st) && st.pos < |code| && code[st.pos] != '\n' && st.inString
    ensures ScanInv(code, st.(content := st.content + [code[st.pos]], pos := st.pos + 1))
  {
    OneChar(code, st.pos);
    ReportsLater(code, st.diagnostics, st.pos, st.pos + 1);
  }

  lemma ContentStep(cats: seq<Category>, code: string, st: ScanState)
    requires ScanInv(code, st) && st.pos < |code| && code[st.pos] != '\n' && code[st.pos] != '"'
    requires !StartsWithAt(code, st.pos, Marker) && !st.inComment && st.inString
    ensures ScanInv(code, Step(cats, code, st))
  {
    StepContent(cats, code, st);
    ContentInv(code, st);
  }

  /** The marker does not start at a parenthesis. */
  lemma NoMarkerAt(code: string, pos: nat)
    requires pos < |code| && (code[pos] == '(' || code[pos] == ')')
    ensures !StartsWithAt(code, pos, Marker)
  {
    if pos + |Marker| <= |code| {
      assert code[pos..pos + |Marker|][0] == code[pos];
    }
  }

  /** Outside comments and strings, an open parenthesis is emitted and counted. */
  lemma StepOpen(cats: seq<Category>, code: string, st: ScanState)
    requires st.pos < |code| && code[st.pos] == '(' && !st.inComment && !st.inString
    ensures Step(cats, code, st)
         == st.(openParentheses := st.openParentheses + 1, tokens := st.tokens + [Token(ParenthesisOpen, "(")], pos := st.pos + 1)
  {
    NoMarkerAt(code, st.pos);
  }

  lemma OpenInv(code: string, st: ScanState)
    requires ScanInv(code, st) && st.pos < |code| && code[st.pos] == '('
    ensures ScanInv(code, st.(openParentheses := st.openParentheses + 1, tokens := st.tokens + [Token(ParenthesisOpen, "(")], pos := st.pos + 1))
  {
    var t := Token(ParenthesisOpen, "(");
    OneChar(code, st.pos);
    CountAll(st.tokens, t);
    NoWhitespaceSnoc(st.tokens, t);
    ReportsLater(code, st.diagnostics, st.pos, st.pos + 1);
  }

  lemma OpenStep(cats: seq<Category>, code: string, st: ScanState)
    requires ScanInv(code, st) && st.pos < |code| && code[st.pos] == '(' && !st.inComment && !st.inString
    ensures ScanInv(code, Step(cats, code, st))
  {
    StepOpen(cats, code, st);
    OpenInv(code, st);
  }

  /** Outside comments and strings, a close parenthesis is emitted; without an open one it is also reported. */
  lemma StepClose(cats: seq<Category>, code: string, st: ScanState)
    requires st.pos < |code| && code[st.pos] == ')' && !st.inComment && !st.inString
    ensures var closed := st.(tokens := st.tokens + [Token(ParenthesisClose, ")")], pos := st.pos + 1);
      Step(cats, code, st)
      == if st.openParentheses == 0 then closed.(diagnostics := st.diagnostics + [UnexpectedCharacter(st.line, st.pos, ')')])
         else closed.(openParentheses := st.openParentheses - 1)
  {
    NoMarkerAt(code, st.pos);
  }

  lemma CloseStep(cats: seq<Category>, code: string, st: ScanState)
    requires ScanInv(code, st) && st.pos < |code| && code[st.pos] == ')' && !st.inComment && !st.inString
    ensures ScanInv(code, Step(cats, code, st))
  {
    StepClose(cats, code, st);
    if st.openParentheses == 0 {
      UnmatchedClose(code, st);
    } else {
      MatchedClose(code, st);
    }
  }

  /** Outside comments and strings, any other character goes to the categories. */
  lemma StepDispatch(cats: seq<Category>, code: string, st: ScanState)
    requires st.pos < |code| && code[st.pos] != '\n' && !StartsWithAt(code, st.pos, Marker)
    requires !st.inComment && code[st.pos] != '"' && !st.inString && code[st.pos] != '(' && code[st.pos] != ')'
    ensures Step(cats, code, st) == Dispatch(cats, code, st)
  {
  }

  /** A close parenthesis with none open is emitted, reported, and counted as an error. */
  lemma UnmatchedClose(code: string, st: ScanState)
    requires ScanInv(code, st) && st.pos < |code| && code[st.pos] == ')' && st.openParentheses == 0
    ensures ScanInv(code, st.(tokens := st.tokens + [Token(ParenthesisClose, ")")], pos := st.pos + 1,
                              diagnostics := st.diagnostics + [UnexpectedCharacter(st.line, st.pos, ')')]))
  {
    var t := Token(ParenthesisClose, ")");
    OneChar(code, st.pos);
    CountAll(st.tokens, t);
    NoWhitespaceSnoc(st.tokens, t);
    CloseErrorsSnoc(st.diagnostics, UnexpectedCharacter(st.line, st.pos, ')'));
    NewReport(code, st, st.pos + 1);
  }

  /** A close parenthesis matching an open one is emitted and counted. */
  lemma MatchedClose(code: string, st: ScanState)
    requires ScanInv(code, st) && st.pos < |code| && code[st.pos] == ')' && st.openParentheses > 0
    ensures ScanInv(code, st.(tokens := st.tokens + [Token(ParenthesisClose, ")")], pos := st.pos + 1,
                              openParentheses := st.openParentheses - 1))
  {
    var t := Token(ParenthesisClose, ")");
    OneChar(code, st.pos);
    CountAll(st.tokens, t);
    NoWhitespaceSnoc(st.tokens, t);
    ReportsLater(code, st.diagnostics, st.pos, st.pos + 1);
  }

  /** The marker branch keeps the invariant. */
  lemma MarkerInv(code: string, st: ScanState)
    requires ScanInv(code, st) && StartsWithAt(code, st.pos, Marker)
    ensures var t := Token(if st.inComment then MultiLineCommentEnd else MultiLineCommentStart, Marker);
      ScanInv(code, st.(inComment := !st.inComment, commentStart := if st.inComment then st.commentStart else st.line,
                        tokens := st.tokens + [t], pos := st.pos + |Marker|))
  {
    var pos := st.pos;
    var t := Token(if st.inComment then MultiLineCommentEnd else MultiLineCommentStart, Marker);
    assert code[pos..pos + |Marker|] == Marker;
    assert OverAlphabet(Marker);
    NoLineBreaks(code, pos, pos + |Marker|);
    CountAll(st.tokens, t);
    NoWhitespaceSnoc(st.tokens, t);
    ReportsLater(code, st.diagnostics, pos, pos + |Marker|);
  }


  /** The dispatch branch of a turn keeps the invariant. */
  lemma DispatchInv(cats: seq<Category>, code: string, st: ScanState)
    requires CategoriesOk(cats) && ScanInv(code, st) && st.pos < |code|
    requires code[st.pos] != '\n' && code[st.pos] != ')'
    ensures ScanInv(code, Dispatch(cats, code, st))
  {
    var m := FirstMatch(cats, code, st.pos, 0);
    if m.None? {
      MissInv(code, st);
    } else {
      var L := CategoryLanguage(cats, m.value.0);
      ChosenInv(cats, code, st, L);
    }
  }

  /** A language that category `i` recognizes; its name is not a counted kind. */
  lemma CategoryLanguage(cats: seq<Category>, i: nat) returns (L: Language)
    requires CategoriesOk(cats) && i < |cats|
    ensures Recognizes(cats[i].dfa, L) && !Counted(cats[i].name)
  {
    assert CategoryOk(cats[i]);
    NameUncounted(cats[i].name);
    L := PatternLanguage(cats[i].name);
  }

  /** None of the fourteen category names is one of the four counted kinds. */
  lemma NameUncounted(n: Kind)
    requires n in CategoryNames
    ensures !Counted(n)
  {
  }

  /** The token of the chosen category keeps the invariant. */
  lemma ChosenInv(cats: seq<Category>, code: string, st: ScanState, L: Language)
    requires ScanInv(code, st) && st.pos < |code| && FirstMatch(cats, code, st.pos, 0).Some?
    requires var c := cats[FirstMatch(cats, code, st.pos, 0).value.0];
      Recognizes(c.dfa, L) && !Counted(c.name)
    ensures ScanInv(code, Dispatch(cats, code, st))
  {
    var m := FirstMatch(cats, code, st.pos, 0).value;
    var c := cats[m.0];
    assert OverAlphabet(code[st.pos..st.pos + m.1]) by {
      MatchMeaning(c.dfa, L, code, st.pos);
    }
    TokenInv(c.name, code, st, m.1);
    assert Dispatch(cats, code, st) == Emit(code, st, c.name, m.1);
  }

  /** A match of printable characters becomes a token (none for whitespace) and keeps the invariant. */
  lemma TokenInv(name: Kind, code: string, st: ScanState, len: nat)
    requires !Counted(name) && ScanInv(code, st) && st.pos + len <= |code|
    requires OverAlphabet(code[st.pos..st.pos + len])
    ensures ScanInv(code, Emit(code, st, name, len))
  {
    if name == Whitespace {
      NoLineBreaks(code, st.pos, st.pos + len);
      WhitespaceInv(code, st, len);
    } else {
      PlainEmit(code, st, name, len);
      NoLineBreaks(code, st.pos, st.pos + len);
      PlainInv(code, st, Token(name, code[st.pos..st.pos + len]), len);
    }
  }

  /** A whitespace match without line breaks is skipped without a token and keeps the invariant. */
  lemma WhitespaceInv(code: string, st: ScanState, len: nat)
    requires ScanInv(code, st) && st.pos + len <= |code| && Newlines(code[..st.pos + len]) == Newlines(code[..st.pos])
    ensures ScanInv(code, Emit(code, st, Whitespace, len))
  {
    ReportsLater(code, st.diagnostics, st.pos, st.pos + len);
  }

  /** A match of any other category becomes a token of that category. */
  lemma PlainEmit(code: string, st: ScanState, name: Kind, len: nat)
    requires name != Whitespace && st.pos + len <= |code|
    ensures Emit(code, st, name, len)
         == st.(tokens := st.tokens + [Token(name, code[st.pos..st.pos + len])], pos := st.pos + len)
  {
  }

  /** A token, neither counted nor whitespace, over text without line breaks keeps the invariant. */
  lemma PlainInv(code: string, st: ScanState, t: Token, len: nat)
    requires !Counted(t.kind) && t.kind != Whitespace
    requires ScanInv(code, st) && st.pos + len <= |code| && Newlines(code[..st.pos + len]) == Newlines(code[..st.pos])
    ensures ScanInv(code, st.(tokens := st.tokens + [t], pos := st.pos + len))
  {
    ReportsLater(code, st.diagnostics, st.pos, st.pos + len);
    NoWhitespaceSnoc(st.tokens, t);
    PlainToken(st, t);
  }

  /** A character no category matches is reported and skipped, keeping the invariant. */
  lemma MissInv(code: string, st: ScanState)
    requires ScanInv(code, st) && st.pos < |code| && code[st.pos] != '\n' && code[st.pos] != ')'
    ensures ScanInv(code, Miss(code, st))
  {
    OneChar(code, st.pos);
    CloseErrorsSnoc(st.diagnostics, UnexpectedCharacter(st.line, st.pos, code[st.pos]));
    NewReport(code, st, st.pos + 1);
  }

  /** An open string keeps its start line as the loop moves on. */
  lemma StringLater(code: string, p: nat, p': nat, line: int)
    requires StringOpenedAt(code, p, line) && p <= p'
    ensures StringOpenedAt(code, p', line)
  {
    var q: nat :| q < p && q < |code| && code[q] == '"' && line == 1 + Newlines(code[..q]);
    assert q < p';
  }

  /** An open comment keeps its start line as the loop moves on. */
  lemma CommentLater(code: string, p: nat, p': nat, line: int)
    requires CommentOpenedAt(code, p, line) && p <= p'
    ensures CommentOpenedAt(code, p', line)
  {
    var q: nat :| q + |Marker| <= p && StartsWithAt(code, q, Marker) && line == 1 + Newlines(code[..q]);
    assert q + |Marker| <= p';
  }

  /** A turn that leaves both modes and both start lines alone keeps the start-line invariant. */
  lemma StartsKept(code: string, st: ScanState, r: ScanState)
    requires StartsInv(code, st) && st.pos <= r.pos
    requires r.inString == st.inString && r.stringStartLine == st.stringStartLine
    requires r.inComment == st.inComment && r.commentStart == st.commentStart
    ensures StartsInv(code, r)
  {
    if st.inString {
      StringLater(code, st.pos, r.pos, st.stringStartLine);
    }
    if st.inComment {
      CommentLater(code, st.pos, r.pos, st.commentStart);
    }
  }

  /**
   * Every turn keeps the start-line invariant: a marker that opens a comment
   * and a quote that opens a string record the current line, which is the
   * line of that marker or quote.
   */
  lemma StepStarts(cats: seq<Category>, code: string, st: ScanState)
    requires st.pos < |code| && st.line == 1 + Newlines(code[..st.pos]) && StartsInv(code, st)
    ensures StartsInv(code, Step(cats, code, st))
  {
    var ch := code[st.pos];
    var r := Step(cats, code, st);
    if ch == '\n' {
      StepNewline(cats, code, st);
      StartsKept(code, st, r);
    } else if StartsWithAt(code, st.pos, Marker) {
      StepMarker(cats, code, st);
      MarkerStarts(code, st, r);
    } else if st.inComment {
      StepComment(cats, code, st);
      StartsKept(code, st, r);
    } else if ch == '"' {
      StepQuote(cats, code, st);
      QuoteStarts(code, st, r);
    } else if st.inString {
      StepContent(cats, code, st);
      StartsKept(code, st, r);
    } else if ch == '(' {
      StepOpen(cats, code, st);
      StartsKept(code, st, r);
    } else if ch == ')' {
      StepClose(cats, code, st);
      StartsKept(code, st, r);
    } else {
      StepDispatch(cats, code, st);
      StartsKept(code, st, r);
    }
  }

  /** The marker toggles the comment and, on opening, records the marker's line. */
  lemma MarkerStarts(code: string, st: ScanState, r: ScanState)
    requires st.pos < |code| && st.line == 1 + Newlines(code[..st.pos]) && StartsInv(code, st)
    requires StartsWithAt(code, st.pos, Marker) && st.pos + |Marker| == r.pos
    requires r.inString == st.inString && r.stringStartLine == st.stringStartLine && r.inComment == !st.inComment
    requires r.commentStart == if st.inComment then st.commentStart else st.line
    ensures StartsInv(code, r)
  {
    if st.inString {
      StringLater(code, st.pos, r.pos, st.stringStartLine);
    }
    if !st.inComment {
      assert st.pos + |Marker| <= r.pos && StartsWithAt(code, st.pos, Marker);
    }
  }

  /** A quote that opens a string records the quote's line. */
  lemma QuoteStarts(code: string, st: ScanState, r: ScanState)
    requires st.pos < |code| && st.line == 1 + Newlines(code[..st.pos]) && StartsInv(code, st)
    requires code[st.pos] == '"' && !st.inComment && st.pos + 1 == r.pos && !r.inComment
    requires r.inString == !st.inString && (!st.inString ==> r.stringStartLine == st.line)
    ensures StartsInv(code, r)
  {
    if !st.inString {
      assert st.pos < r.pos && code[st.pos] == '"';
    }
  }

  /** The start-line invariant holds to the end of the loop. */
  lemma {:induction false} ScanFromStarts(cats: seq<Category>, code: string, st: ScanState)
    requires CategoriesOk(cats) && ScanInv(code, st) && StartsInv(code, st)
    ensures StartsInv(code, ScanFrom(cats, code, st))
    decreases |code| - st.pos
  {
    if st.pos < |code| {
      StepStarts(cats, code, st);
      StepInv(cats, code, st);
      ScanFromStarts(cats, code, Step(cats, code, st));
    }
  }

  /**
   * A STRING token is emitted only by a quote that closes an open string,
   * outside a comment, and it is the string's content between its quotes:
   * the STRING category itself never produces one.
   */
  lemma StringTokenAtClose(cats: seq<Category>, code: string, st: ScanState)
    requires CategoriesOk(cats) && st.pos < |code|
    ensures var r := Step(cats, code, st);
      CountKind(r.tokens, String) != CountKind(st.tokens, String) ==>
        && code[st.pos] == '"' && st.inString && !st.inComment
        && r.tokens == st.tokens + [Token(String, "\"" + st.content + "\"")]
  {
    var ch := code[st.pos];
    var r := Step(cats, code, st);
    if ch == '\n' {
      StepNewline(cats, code, st);
    } else if StartsWithAt(code, st.pos, Marker) {
      StepMarker(cats, code, st);
      CountKindSnoc(st.tokens, r.tokens[|st.tokens|], String);
    } else if st.inComment {
      StepComment(cats, code, st);
    } else if ch == '"' {
      StepQuote(cats, code, st);
    } else if st.inString {
      StepContent(cats, code, st);
    } else if ch == '(' {
      StepOpen(cats, code, st);
      CountKindSnoc(st.tokens, Token(ParenthesisOpen, "("), String);
    } else if ch == ')' {
      StepClose(cats, code, st);
      CountKindSnoc(st.tokens, Token(ParenthesisClose, ")"), String);
    } else {
      StepDispatch(cats, code, st);
      DispatchNoString(cats, code, st);
    }
  }

  /** Where the dispatch runs (never at a quote), it emits no STRING token. */
  lemma DispatchNoString(cats: seq<Category>, code: string, st: ScanState)
    requires CategoriesOk(cats) && st.pos < |code| && code[st.pos] != '"'
    ensures CountKind(Dispatch(cats, code, st).tokens, String) == CountKind(st.tokens, String)
  {
    forall j | 0 <= j < |cats| && cats[j].name == String
      ensures MatchDfa(cats[j].dfa, code, st.pos) == 0
    {
      StringCategoryIdle(cats[j], code, st.pos);
    }
    var m := FirstMatch(cats, code, st.pos, 0);
    if m.Some? {
      var (i, len) := m.value;
      if cats[i].name != Whitespace {
        CountKindSnoc(st.tokens, Token(cats[i].name, code[st.pos..st.pos + len]), String);
      }
    }
  }

  /** The invariant holds when the loop ends, and the loop ends at the end of the text. */
  lemma {:induction false} ScanFromInv(cats: seq<Category>, code: string, st: ScanState)
    requires CategoriesOk(cats) && ScanInv(code, st)
    ensures ScanInv(code, ScanFrom(cats, code, st)) && ScanFrom(cats, code, st).pos == |code|
    decreases |code| - st.pos
  {
    if st.pos < |code| {
      StepInv(cats, code, st);
      ScanFromInv(cats, code, Step(cats, code, st));
    }
  }

  /** Reports that are not unexpected characters add no `)` reports. */
  lemma {:induction false} CloseErrorsEnd(ds: seq<Diagnostic>, e: seq<Diagnostic>)
    requires forall k :: 0 <= k < |e| ==> !e[k].UnexpectedCharacter?
    ensures CloseErrors(ds + e) == CloseErrors(ds)
    decreases |e|
  {
    if e == [] {
      assert ds + e == ds;
    } else {
      var e' := e[..|e| - 1];
      assert (ds + e)[..|ds + e| - 1] == ds + e';
      assert (ds + e)[|ds + e| - 1] == e[|e| - 1];
      CloseErrorsEnd(ds, e');
    }
  }

  /**
   * The end-of-input reports: an unclosed-comment report, first, exactly
   * when a comment is open, with its start line; an unclosed-parenthesis
   * report exactly when the counter is positive; an unclosed-string report,
   * last, exactly when a string is open, with its start line.
   */
  lemma EndReportsShape(st: ScanState)
    ensures forall k :: 0 <= k < |EndReports(st)| ==> !EndReports(st)[k].UnexpectedCharacter?
    ensures (exists k :: 0 <= k < |EndReports(st)| && EndReports(st)[k].UnclosedMultiLineComment?) <==> st.inComment
    ensures forall k :: 0 <= k < |EndReports(st)| && EndReports(st)[k].UnclosedMultiLineComment?
                ==> k == 0 && EndReports(st)[k] == UnclosedMultiLineComment(st.commentStart)
    ensures UnclosedParenthesis in EndReports(st) <==> st.openParentheses > 0
    ensures (exists k :: 0 <= k < |EndReports(st)| && EndReports(st)[k].UnclosedString?) <==> st.inString
    ensures forall k :: 0 <= k < |EndReports(st)| && EndReports(st)[k].UnclosedString?
                ==> k == |EndReports(st)| - 1 && EndReports(st)[k] == UnclosedString(st.stringStartLine)
  {
    var e := EndReports(st);
    if st.inComment {
      assert e[0].UnclosedMultiLineComment?;
    }
    if st.openParentheses > 0 {
      assert e[if st.inComment then 1 else 0] == UnclosedParenthesis;
    }
    if st.inString {
      assert e[|e| - 1].UnclosedString?;
    }
  }

  /** At the end, the start line of an unclosed comment or string is that of a marker or quote of the text. */
  lemma EndStarts(code: string, st: ScanState)
    requires StartsInv(code, st) && st.pos == |code|
    requires forall k :: 0 <= k < |st.diagnostics| ==> st.diagnostics[k].UnexpectedCharacter?
    ensures var ds := st.diagnostics + EndReports(st);
      && (forall k :: 0 <= k < |ds| && ds[k].UnclosedMultiLineComment? ==> CommentOpenedAt(code, |code|, ds[k].startLine))
      && (forall k :: 0 <= k < |ds| && ds[k].UnclosedString?
            ==> k == |ds| - 1 && StringOpenedAt(code, |code|, ds[k].startLine))
  {
    EndReportsShape(st);
    var ds := st.diagnostics + EndReports(st);
    assert forall k :: 0 <= k < |st.diagnostics| ==> ds[k] == st.diagnostics[k];
    assert forall k :: |st.diagnostics| <= k < |ds| ==> ds[k] == EndReports(st)[k - |st.diagnostics|];
  }

  /** At the end, every report made along the way stays correct and in order. */
  lemma EndReportsOk(code: string, st: ScanState)
    requires ReportsBefore(code, st.diagnostics, st.pos) && Ordered(st.diagnostics)
    ensures var ds := st.diagnostics + EndReports(st);
      && (forall k :: 0 <= k < |ds| && ds[k].UnexpectedCharacter? ==> Reports(code, ds[k]))
      && Ordered(ds)
  {
    EndReportsShape(st);
    var ds := st.diagnostics + EndReports(st);
    assert forall k :: 0 <= k < |st.diagnostics| ==> ds[k] == st.diagnostics[k];
    assert forall k :: |st.diagnostics| <= k < |ds| ==> ds[k] == EndReports(st)[k - |st.diagnostics|];
    forall a: nat, b: nat
      ensures InOrder(ds, a, b)
    {
      assert InOrder(st.diagnostics, a, b);
    }
  }

  /** At the end, an unclosed comment is reported exactly when more comment markers opened than closed. */
  lemma EndComment(code: string, st: ScanState)
    requires CountKind(st.tokens, MultiLineCommentStart) == CountKind(st.tokens, MultiLineCommentEnd) + (if st.inComment then 1 else 0)
    requires forall k :: 0 <= k < |st.diagnostics| ==> st.diagnostics[k].UnexpectedCharacter?
    ensures var ds := st.diagnostics + EndReports(st);
      (exists k :: 0 <= k < |ds| && ds[k].UnclosedMultiLineComment?)
      <==> CountKind(st.tokens, MultiLineCommentStart) > CountKind(st.tokens, MultiLineCommentEnd)
  {
    EndReportsShape(st);
    var ds := st.diagnostics + EndReports(st);
    assert forall k :: 0 <= k < |st.diagnostics| ==> ds[k] == st.diagnostics[k];
    assert forall k :: |st.diagnostics| <= k < |ds| ==> ds[k] == EndReports(st)[k - |st.diagnostics|];
    if st.inComment {
      var k :| 0 <= k < |EndReports(st)| && EndReports(st)[k].UnclosedMultiLineComment?;
      assert ds[|st.diagnostics| + k] == EndReports(st)[k];
    }
  }

  /** At the end, an unclosed parenthesis is reported exactly when more `(` than accepted `)` were read. */
  lemma EndParen(code: string, st: ScanState)
    requires 0 <= st.openParentheses
    requires st.openParentheses
          == CountKind(st.tokens, ParenthesisOpen) - CountKind(st.tokens, ParenthesisClose) + CloseErrors(st.diagnostics)
    requires forall k :: 0 <= k < |st.diagnostics| ==> st.diagnostics[k].UnexpectedCharacter?
    ensures var ds := st.diagnostics + EndReports(st);
      UnclosedParenthesis in ds
      <==> CountKind(st.tokens, ParenthesisOpen) - CountKind(st.tokens, ParenthesisClose) + CloseErrors(ds) > 0
  {
    EndReportsShape(st);
    CloseErrorsEnd(st.diagnostics, EndReports(st));
    assert UnclosedParenthesis !in st.diagnostics;
  }

  /**
   * What tokenize guarantees, for categories built as the constructor builds
   * them: no whitespace token is emitted; every unexpected-character report
   * names a character of the text with its index and 1-based line, in text
   * order; the end-of-input reports say exactly whether a comment was left
   * open and whether more `(` than accepted `)` were read; and an unclosed
   * comment or string is reported, the string last, with the line of a
   * marker or quote of the text.
   */
  lemma ScanProperties(cats: seq<Category>, code: string)
    requires CategoriesOk(cats)
    ensures var (tokens, diagnostics) := Scan(cats, code);
      && NoWhitespace(tokens)
      && (forall k :: 0 <= k < |diagnostics| && diagnostics[k].UnexpectedCharacter? ==> Reports(code, diagnostics[k]))
      && Ordered(diagnostics)
      && ((exists k :: 0 <= k < |diagnostics| && diagnostics[k].UnclosedMultiLineComment?)
          <==> CountKind(tokens, MultiLineCommentStart) > CountKind(tokens, MultiLineCommentEnd))
      && (UnclosedParenthesis in diagnostics
          <==> CountKind(tokens, ParenthesisOpen) - CountKind(tokens, ParenthesisClose) + CloseErrors(diagnostics) > 0)
      && (forall k :: 0 <= k < |diagnostics| && diagnostics[k].UnclosedMultiLineComment?
            ==> CommentOpenedAt(code, |code|, diagnostics[k].startLine))
      && (forall k :: 0 <= k < |diagnostics| && diagnostics[k].UnclosedString?
            ==> k == |diagnostics| - 1 && StringOpenedAt(code, |code|, diagnostics[k].startLine))
  {
    ScanFromInv(cats, code, Initial());
    ScanFromStarts(cats, code, Initial());
    var st := ScanFrom(cats, code, Initial());
    EndReportsOk(code, st);
    assert forall k :: 0 <= k < |st.diagnostics| ==> st.diagnostics[k].UnexpectedCharacter?;
    EndComment(code, st);
    EndParen(code, st);
    EndStarts(code, st);
  }

  /**
   * A character outside 32..126, such as a tab, outside a comment and a
   * string, is reported as unexpected and skipped.
   */
  lemma UnprintableReported(cats: seq<Category>, code: string, st: ScanState)
    requires CategoriesOk(cats) && st.pos < |code| && !st.inComment && !st.inString
    requires !InAlphabet(code[st.pos]) && code[st.pos] != '\n'
    ensures Step(cats, code, st)
         == st.(diagnostics := st.diagnostics + [UnexpectedCharacter(st.line, st.pos, code[st.pos])], pos := st.pos + 1)
  {
    UnprintableUnmatched(cats, code, st.pos);
    if st.pos + |Marker| <= |code| {
      assert code[st.pos..st.pos + |Marker|][0] == code[st.pos];
    }
    assert Step(cats, code, st) == Dispatch(cats, code, st) == Miss(code, st);
  }
}
