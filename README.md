# CodeTokenizer in Dafny

A model of the lexer generator in `CodeTokenizer.java`, with proofs of what it
guarantees. The Java program works in three stages:

1. It builds one Thompson ε-NFA per token category from a handful of
   combinators: a character, concatenation, union, Kleene star, a sequence,
   a range.
2. It turns each NFA into a DFA by the subset construction over the
   printable characters 32..126.
3. It scans the source text. The scan loop handles line counting, a
   `zadabolo` comment toggle, string literals and a parenthesis counter.
   Every other character goes to the category DFAs. They are tried in the
   category map's iteration order, and the first one with a non-empty
   longest match wins. A character no category matches is reported and
   skipped.

The model follows that structure, one module per part:

| module | file | models |
|---|---|---|
| `Wrappers` | `wrappers.dfy` | `Option` |
| `Languages` | `languages.dfy` | languages as `iset<string>`: concatenation, star, and the algebra the proofs need |
| `NfaGraph` | `nfa_graph.dfy` | `NfaState`/`Nfa` as an arena of states addressed by index, with edges `Label -> set<nat>` where `Label = Eps \| Sym(char)`; `NfaArena` is the mutable heap of states; path semantics `Steps`/`Reach`/`Lang` |
| `NfaFactory` | `nfa_factory.dfy` | the combinators of `NfaFactory` as methods on the arena, each with the exact new graph and its language law |
| `NfaExpression` | `nfa_expression.dfy` | the `NfaExpression` wrapper, including the two sharing idioms: `x.concat(x.star())` and `q.concat(c).concat(q)` |
| `RegexPatterns` | `regex_patterns.dfy` | the fourteen category builders, each proved to accept a language stated directly on strings |
| `DfaGraph` | `dfa_graph.dfy` | `DfaState`/`Dfa`: a state id is its index; runs and acceptance |
| `NfaToDfa` | `nfa_to_dfa.dfy` | `epsilonClosure`, `transition` and `convertNfaToDfa`, with the worklist and the `stateMap` memo |
| `DfaMatch` | `match_dfa.dfy` | `matchDfaRecursive`/`matchDfa` (the returned length) |
| `Scanner` | `scanner.dfy` | one turn of the `tokenize` loop as the function `Step`, the whole scan as `Scan`, and what the scan guarantees |
| `Tokenizer` | `code_tokenizer.dfy` | the `CodeTokenizer` class: the constructor's category map and the imperative `tokenize` loop, proved to compute `Scan` |

## Main results

- **Subset construction.** For every word `w`, the DFA built by
  `convertNfaToDfa` accepts `w` exactly when `w` uses only the characters
  32..126 and the NFA accepts it (`NfaToDfa.ConvertNfaToDfa`).
  - Each subset gets exactly one DFA state.
  - A state accepts exactly when its subset holds the NFA's final state.
  - Transitions exist only on the alphabet, and only to non-empty closures.
- **Category languages.** Each of the fourteen patterns accepts exactly the
  language written out in `RegexPatterns`, for example:
  - IDENTIFIER: one or more of `a`..`z`;
  - DECIMAL: integer `.` integer;
  - STRING: the words that start and end with `"` and contain only `.` and
    `"`. The closing-quote automaton is the opening one itself, so the lone
    `"` is one of these words.
- **Longest match.** `matchDfa` returns the length of the longest non-empty
  prefix the DFA accepts, or 0 when there is none (`DfaMatch.MatchDfaLongest`).
- **Dispatch.** The category chosen is the first, in map order, whose pattern
  has a non-empty printable prefix at the position. Its token is that
  prefix's longest such match (`Scanner.FirstMatchMeaning`).
- **Characters outside 32..126.** A tab, or any other character outside that
  range, is never part of a category match (the `\n` branch comes first). So
  a tab outside a string or comment always produces an unexpected-character
  report (`Scanner.UnprintableReported`).
- **What the scan guarantees** (`Scanner.ScanProperties`, and
  `Tokenizer.CodeTokenizer.Tokenize` for the class), for any category order:
  - no WHITESPACE token is emitted;
  - every unexpected-character report names a character of the text, its
    index and its 1-based line, and the reports come in text order;
  - an unclosed comment is reported exactly when more comment markers opened
    than closed;
  - an unclosed parenthesis is reported exactly when more `(` were read than
    `)` that matched one;
  - an unclosed string is reported last, exactly when the text ends inside a
    string. Its start line, like that of an unclosed comment, is the line of a
    quote (marker) of the text;
  - a STRING token is emitted only when a quote closes an open string
    (`Scanner.StringTokenAtClose`).
  - The loop invariant behind these (`Scanner.StepInv`) also shows that
    `openParentheses` never goes negative.
- **The concrete map order.** The class iterates its map in the order
  OpenJDK's `HashMap` gives for these fourteen keys (`Tokenizer.HashMapOrder`).
  In that order DECIMAL comes before EXPONENT, and every exponent starts with
  a decimal. So the tokenizer never emits an EXPONENT token
  (`Tokenizer.CodeTokenizer.ExponentNeverChosen`).

## Where the model departs from the source text, or fills in a gap

- **STRING category.** Its DFA is never consulted at a quote. The scan loop
  handles every `"` before the dispatch, so the STRING category matches
  nothing wherever the dispatch runs (`Scanner.StringCategoryIdle`).
- **Comment marker inside a string.** `zadabolo` is checked before the string
  branch, so it toggles comment mode even inside an open string, and the
  comment flag and the string flag can both be set. The model keeps the two
  Java booleans and does not merge them into one mode.
- **Category order.**
  - The `Scanner` lemmas take the order as a parameter, a sequence of
    (name, DFA) pairs, and hold for every order.
  - Java leaves `HashMap` iteration order unspecified. The class instead
    fixes the order OpenJDK actually produces: 32 buckets after the
    thirteenth `put`, keys ordered by `String.hashCode`'s bucket, ties in
    insertion order.

## Model

| member | source | states |
|---|---|---|
| NfaGraph.NfaArena.NewState | CodeTokenizer.java:8-11 | a new state is appended with an empty transition map; its index is the new state's identity and every earlier state is unchanged |
| NfaGraph.NfaArena.AddTransition | CodeTokenizer.java:13-20 | the target is added to the source state's set for that label (the set is created when absent); no other state or label changes |
| NfaFactory.BuildCharAutomaton | CodeTokenizer.java:70-75 | two fresh states and one edge labelled `c` between them; the result is (start, end) |
| NfaFactory.CharLaw | CodeTokenizer.java:70-75 | the character automaton is a Thompson fragment (final state a sink) accepting exactly the one-letter word `c` |
| NfaFactory.Concatenate | CodeTokenizer.java:77-80 | adds only the ε-edge from the first final state to the second initial state and returns (first.initial, second.final) |
| NfaFactory.ConcatLaw | CodeTokenizer.java:77-80 | for disjoint fragments the result accepts L(A)·L(B) and is again a fragment |
| NfaFactory.Union | CodeTokenizer.java:82-98 | two fresh states and exactly the four ε-edges new start → both initials and both finals → new end |
| NfaFactory.UnionLaw | CodeTokenizer.java:82-98 | the result accepts L(A) ∪ L(B) |
| NfaFactory.Kleene | CodeTokenizer.java:100-116 | two fresh states and exactly the four ε-edges of the Kleene construction |
| NfaFactory.KleeneLaw | CodeTokenizer.java:100-116 | the result accepts L(A)*, the empty word included |
| NfaFactory.PlusLaw | CodeTokenizer.java:247 | `x.concat(x.star())` on one shared fragment `x` accepts L(x)·L(x)* |
| NfaFactory.SharedDelimiterLaw | CodeTokenizer.java:331 | `q.concat(c).concat(q)` with the same `q` twice accepts L(q)·(L(c)·L(q))*, because the second concatenation adds an edge back into the body |
| NfaFactory.BuildSequence | CodeTokenizer.java:118-129 | the empty sequence is rejected (`None`, arena unchanged: the exception); any other sequence yields a fragment accepting exactly that word |
| NfaFactory.BuildString | CodeTokenizer.java:131-133 | the same as `BuildSequence` |
| NfaFactory.BuildRange | CodeTokenizer.java:135-143 | accepts exactly the one-letter words `start` and `start+1 .. end`, so only `start` when `end < start+1`; `start+1` wraps at 16 bits as Java's `(char)` cast does |
| NfaExpression.Literal | CodeTokenizer.java:219-221 | a fragment accepting exactly the one-letter word `c` |
| NfaExpression.Concat | CodeTokenizer.java:223-225 | accepts the concatenation of the two languages; only the first fragment's final state gains an edge |
| NfaExpression.Union | CodeTokenizer.java:227-229 | accepts the union of the two languages; only the two final states gain edges |
| NfaExpression.Star | CodeTokenizer.java:231-233 | accepts the star of the language, the empty word included; only the operand's final state gains edges |
| NfaExpression.Plus | CodeTokenizer.java:247 | `x.concat(x.star())` accepts L(x)·L(x)* |
| NfaExpression.Delimited | CodeTokenizer.java:331 | `q.concat(c).concat(q)` accepts L(q)·(L(c)·L(q))* and keeps its region closed |
| RegexPatterns.ChoiceOf | CodeTokenizer.java:243-246 | the loop that unites the literals of a character list accepts exactly the one-letter words over that list |
| RegexPatterns.WordsChoice | CodeTokenizer.java:274-277 | the loop that unites the sequences of a word list accepts exactly those words |
| RegexPatterns.IdentifierNfa | CodeTokenizer.java:241-248 | accepts exactly the non-empty words over `a`..`z` |
| RegexPatterns.IntegerNfa | CodeTokenizer.java:250-257 | accepts exactly the non-empty words over `0`..`9` |
| RegexPatterns.DecimalNfa | CodeTokenizer.java:259-264 | accepts exactly integer `.` integer |
| RegexPatterns.BooleanNfa | CodeTokenizer.java:266-270 | accepts exactly `yes` and `no` |
| RegexPatterns.KeywordsNfa | CodeTokenizer.java:272-279 | accepts exactly the five keywords |
| RegexPatterns.CharacterNfa | CodeTokenizer.java:281-287 | accepts exactly `'` identifier `'` |
| RegexPatterns.ArithmeticOperatorNfa | CodeTokenizer.java:289-296 | accepts exactly the six operator words |
| RegexPatterns.ExponentNfa | CodeTokenizer.java:298-303 | accepts exactly decimal `^` decimal |
| RegexPatterns.SingleLineCommentNfa | CodeTokenizer.java:305-309 | accepts exactly `bolo` followed by any number of `.` (a literal dot) |
| RegexPatterns.MultiLineCommentNfa | CodeTokenizer.java:311-316 | accepts exactly `/*`, any number of `.`, `*/` |
| RegexPatterns.WhitespaceNfa | CodeTokenizer.java:318-326 | accepts exactly the words over blank, tab and newline, the empty word included |
| RegexPatterns.StringNfa | CodeTokenizer.java:328-332 | accepts exactly the words that start and end with `"` and hold only `.` and `"`, the lone `"` included |
| RegexPatterns.StringLaw | CodeTokenizer.java:331 | the shared-quote law `"`·(`.`*`"`)* equals that direct description of the STRING words |
| RegexPatterns.InputOutputNfa | CodeTokenizer.java:334-338 | accepts exactly `andar` and `bahir` |
| RegexPatterns.ConstantNfa | CodeTokenizer.java:340-342 | accepts exactly `const` |
| NfaToDfa.EpsRoots | CodeTokenizer.java:159-160 | the ε-closure of a set of states contains the set |
| NfaToDfa.EpsStep | CodeTokenizer.java:150-157 | the ε-closure is closed under ε-edges |
| NfaToDfa.EpsClosureLeast | CodeTokenizer.java:150-165 | the ε-closure lies inside every ε-closed superset: it is the least one |
| NfaToDfa.ClosureVisit | CodeTokenizer.java:150-157 | the visit adds only states of the closure and leaves the visited set ε-closed except at states still pending; the visited check makes it stop on ε-cycles |
| NfaToDfa.EpsilonClosure | CodeTokenizer.java:159-165 | the result is exactly the ε-closure of the given states |
| NfaToDfa.Transition | CodeTokenizer.java:167-173 | the result is exactly the union of the `symbol`-successors of the given states |
| NfaToDfa.AddSymbol | CodeTokenizer.java:189-198 | one symbol of the inner loop keeps the exploration invariant one symbol further: the current state's transitions are those of the subset construction up to this symbol (none for an empty target, else to the target's state), `stateMap` only grows, and the queue changes only when a new subset is registered |
| NfaToDfa.ExploreNext | CodeTokenizer.java:186-199 | one turn of the worklist: the polled subset gets its transitions on all of 32..126, and the queue shrinks unless a new subset was found |
| NfaToDfa.CollectAccepting | CodeTokenizer.java:202-207 | the accepting set is exactly the ids of the states whose flag is set |
| NfaToDfa.ConvertNfaToDfa | CodeTokenizer.java:175-209 | the result is the subset automaton: one state per distinct non-empty closed subset, the start state is the closure of the initial state, a state accepts iff its subset holds the final state, and transitions exist only on 32..126 and only to non-empty closures; it accepts exactly the NFA's words over 32..126 |
| NfaToDfa.NfaSubsets | CodeTokenizer.java:189 | running the closed subsets on a word gives exactly the NFA states reachable on that word |
| NfaToDfa.SubsetTransition | CodeTokenizer.java:188-198 | every DFA transition is on a character of 32..126 and leads to a DFA state |
| NfaToDfa.OffAlphabetStuck | CodeTokenizer.java:188 | a word with any character outside 32..126 (a tab, a newline) gets stuck in the DFA |
| NfaToDfa.SubsetDfaLanguage | CodeTokenizer.java:175-209 | the subset automaton accepts a word iff the word is over 32..126 and the NFA accepts it |
| NfaToDfa.SubsetFlags | CodeTokenizer.java:202-208 | a state is in `acceptingStates` iff its accepting flag is set |
| DfaMatch.MatchDfaRecursive | CodeTokenizer.java:561-576 | the recursion returns the last accepting length it was given, or a longer length reached by reading at most the rest of the input; `DfaMatch.MatchLongest` states which |
| DfaMatch.MatchLongest | CodeTokenizer.java:561-576 | from any point of the run, with the longest accepted length so far, the recursion returns the longest accepted prefix length overall |
| DfaMatch.MatchDfa | CodeTokenizer.java:578-590 | the match never runs past the end of the input |
| DfaMatch.MatchDfaLongest | CodeTokenizer.java:578-590 | the result is the length of the longest non-empty prefix from `startPos` that ends in an accepting state, or 0 when there is none (an accepting start state alone gives 0) |
| Scanner.FirstMatch | CodeTokenizer.java:526-539 | the chosen entry is the first whose match length is positive, with that length; every earlier entry matched 0; `None` means every entry matched 0 |
| Scanner.Step | CodeTokenizer.java:454-545 | every turn of the loop consumes at least one character and stays within the text, so the scan terminates |
| Scanner.StepAppends | CodeTokenizer.java:454-545 | a turn only appends: at most one token, and at most one report, which is an unexpected-character report of the character at the current position with the current line |
| Scanner.StringTokenAtClose | CodeTokenizer.java:484-496 | a turn emits a STRING token only at a quote that closes an open string outside a comment, and that token is the accumulated `stringContent` between quotes; the STRING category never emits one |
| Scanner.DispatchNoString | CodeTokenizer.java:525-539 | the category dispatch, which never runs at a quote, emits no STRING token |
| Scanner.StepNewline | CodeTokenizer.java:457-461 | a newline, in any mode, only increments the line and the position |
| Scanner.StepMarker | CodeTokenizer.java:464-476 | `zadabolo` toggles the comment flag in any mode, even inside a string; it emits the START or END token and records the start line only on opening |
| Scanner.StepComment | CodeTokenizer.java:478-481 | inside a comment any other character is skipped |
| Scanner.StepQuote | CodeTokenizer.java:484-496 | outside a comment, a quote either opens a string (records its line) or closes it, emitting the STRING token with its quotes and clearing the content |
| Scanner.StepContent | CodeTokenizer.java:498-502 | inside a string any other character is appended to the content and no token is emitted |
| Scanner.StepOpen | CodeTokenizer.java:505-511 | `(` emits PARENTHESIS_OPEN and increments the counter |
| Scanner.StepClose | CodeTokenizer.java:513-523 | `)` always emits PARENTHESIS_CLOSE; at count 0 it is reported as an unexpected `)` with its line and index, otherwise the counter decrements |
| Scanner.StepDispatch | CodeTokenizer.java:525-544 | outside comments and strings, any other character goes to the category dispatch |
| Scanner.Dispatch | CodeTokenizer.java:525-544 | the dispatch branch moves forward within the text, appends at most one token and at most the one unexpected-character report of the current character, and changes no other loop variable; its invariant is `Scanner.DispatchInv` |
| Scanner.Miss | CodeTokenizer.java:541-544 | no category matched: the character is reported with its line and index and skipped, so the position moves by exactly one (`Scanner.MissInv` keeps the invariant) |
| Scanner.Emit | CodeTokenizer.java:530-537 | a match of `len` characters moves the position by exactly `len`; a WHITESPACE match adds no token, any other match adds its lexeme with the category name (`Scanner.PlainEmit`, `Scanner.TokenInv`) |
| Scanner.MatchMeaning | CodeTokenizer.java:529 | on a DFA recognizing L, the match is the longest non-empty printable prefix in L, and no longer prefix is in L |
| Scanner.FirstMatchMeaning | CodeTokenizer.java:526-539 | the dispatch takes the first category in map order whose pattern has a non-empty prefix here, with its longest match; no earlier category has any |
| Scanner.UnprintableUnmatched | CodeTokenizer.java:188 | no category matches at a character outside 32..126 |
| Scanner.UnprintableReported | CodeTokenizer.java:541-544 | outside comments and strings, a character outside 32..126 other than newline is reported with its line and index and skipped |
| Scanner.StringCategoryIdle | CodeTokenizer.java:328-332 | the STRING category's DFA matches nothing at any character other than a quote; since every quote is taken by the string branch first (`Scanner.StepQuote`), the STRING category never produces a token |
| Scanner.ExponentShadowed | CodeTokenizer.java:298-303 | whenever DECIMAL precedes EXPONENT in the order, the dispatch never picks EXPONENT |
| Scanner.UnmatchedClose | CodeTokenizer.java:514-515 | the report of an unmatched `)` keeps the loop invariant: it is counted among the close errors and its line and index are right |
| Scanner.MissInv | CodeTokenizer.java:541-544 | the report of an unmatched character keeps the reports correct and in order |
| Scanner.StepInv | CodeTokenizer.java:454-545 | every turn keeps the loop invariant: the line number counts the newlines read, the counter is non-negative and equals opens minus closes plus unmatched closes, the comment flag says whether START tokens outnumber END tokens, no WHITESPACE token is emitted, and the reports are correct and ordered |
| Scanner.Initial | CodeTokenizer.java:444-452 | the initial values of the loop variables (position 0, line 1, counter 0, no comment, no string, no tokens, no reports) satisfy the loop invariant and the start-line invariant for every text |
| Scanner.ScanFrom | CodeTokenizer.java:454-545 | the loop from a state runs to the end of the text, only appends tokens and reports, and every report it adds is an unexpected-character report |
| Scanner.ScanFromInv | CodeTokenizer.java:454-545 | the loop reaches the end of the text with the invariant intact |
| Scanner.StepStarts | CodeTokenizer.java:464-496 | every turn keeps the start-line invariant: while a string is open `stringStartLine` is the line of a quote already read, and while a comment is open `commentStart` is the line of a marker already read; the marker and the quote that open record the current line |
| Scanner.ScanFromStarts | CodeTokenizer.java:454-545 | the start-line invariant holds when the loop ends |
| Scanner.EndReports | CodeTokenizer.java:547-556 | the final checks add at most three reports, none of them an unexpected-character report |
| Scanner.EndReportsShape | CodeTokenizer.java:547-556 | the final checks add no unexpected-character report; an unclosed-comment report, first, iff the comment flag is set, carrying `commentStart`; an unclosed-parenthesis report iff the counter is positive; an unclosed-string report, last, iff the string flag is set, carrying `stringStartLine` |
| Scanner.EndStarts | CodeTokenizer.java:547-556 | at the end of the text, the line an unclosed-comment report carries is the line of a comment marker of the text, and the unclosed-string report is the last report and carries the line of a quote of the text |
| Scanner.ScanProperties | CodeTokenizer.java:443-559 | for categories built as the constructor builds them, in any order: no WHITESPACE token; every unexpected-character report is correct and the reports are in text order; an unclosed comment is reported iff START tokens outnumber END tokens; an unclosed parenthesis is reported iff opens exceed accepted closes; an unclosed-comment report carries the line of a marker of the text; an unclosed-string report is the last report and carries the line of a quote of the text |
| Scanner.Scan | CodeTokenizer.java:443-559 | the loop run from the initial values to the end of the text, then the final checks: all unexpected-character reports come before the final checks' reports, which are at most the last three |
| Scanner.RenderAll | CodeTokenizer.java:534 | each token is rendered as `type: lexeme`, one string per token, in order |
| Tokenizer.CodeTokenizer.Categories | CodeTokenizer.java:526 | the map's entries in iteration order, one per category name, named as `HashMapOrder` lists them |
| Tokenizer.CodeTokenizer.CategoriesWellBuilt | CodeTokenizer.java:393-411 | every entry is a valid DFA recognizing exactly the printable words of its category's pattern |
| Tokenizer.HashMapOrderNames | CodeTokenizer.java:396-409 | the iteration order lists each of the fourteen category names exactly once |
| Tokenizer.Convert | CodeTokenizer.java:396 | converting a pattern automaton for L gives a valid DFA whose flags accept exactly the printable words of L |
| Tokenizer.PatternDfa | CodeTokenizer.java:396-409 | the DFA registered for each name recognizes that name's pattern language |
| Tokenizer.CodeTokenizer.constructor | CodeTokenizer.java:393-411 | the map holds, for each of the fourteen names, a valid DFA recognizing its pattern |
| Tokenizer.CodeTokenizer.ExponentNeverChosen | CodeTokenizer.java:526-539 | in the map's iteration order the dispatch never picks EXPONENT |
| Tokenizer.MatchCategories | CodeTokenizer.java:526-539 | the inner loop stops at the first entry with a positive match and returns it; it reports no match iff every entry matched 0 |
| Tokenizer.DispatchTurn | CodeTokenizer.java:525-544 | the dispatch branch of a turn computes exactly `Scanner.Dispatch`: a match emits its token (none for WHITESPACE) and moves past it; no match reports the character and moves by one |
| Tokenizer.Turn | CodeTokenizer.java:454-545 | one turn of the imperative loop computes exactly `Step` |
| Tokenizer.FinalChecks | CodeTokenizer.java:547-556 | the final checks append the unclosed-comment, unclosed-parenthesis and unclosed-string reports in that order |
| Tokenizer.CodeTokenizer.Tokenize | CodeTokenizer.java:443-559 | the imperative loop returns the rendered tokens and the reports of `Scan` over the map's entries; with `Scanner.ScanProperties` this gives its guarantees |

## Left out

- `main` is left out: reading the file, lower-casing the text and printing the tokens are I/O.
- The transition-table printing in `matchDfa` and the `transitionsList` trace are console output. Only the returned length is modelled.
- `ErrorHandling` is not modelled as printing. Its four ANSI-coloured `System.err` reports become `Diagnostic` values appended in call order. The text of the messages is not modelled.
- `SymbolTable`, `addPredefinedSymbols` and `displaySymbolTable` are static data and console output, and `tokenize` never reads them.
- `EPSILON` is a label of its own, `Eps`, instead of a character key. Its literal value is a mis-encoded non-ASCII character. No pattern and no DFA symbol uses it, so the languages are the same.
- The numeric `stateId`s are left out. The NFA ids 0/1 are reused and carry no identity, so states are arena indices. DFA ids are handed out in creation order, so a DFA state's id is its index.
- Java's `Set` and `HashMap` iteration order inside the subset construction is left out. Subsets and `stateMap` are Dafny sets and maps. The result is determined up to that order, and the proved properties do not depend on it.
- Tokens are `Token(kind, text)` values and token types are the enumeration `Kind`. `KindName` gives the Java type strings, and `Render` produces the `type + ": " + lexeme` strings that `tokenize` returns.
- The loop variables of `tokenize` are kept together in one `ScanState`, and `stringContent` is a `string`.
- Scanner.StepContent: it does not state any property of the accumulated string content beyond the append itself. The invariant requires only that the content is empty outside a string.
- `Turn` and `DispatchTurn` are the body of the Java while-loop, split into methods along its branches. `MatchCategories` is the for-each over the map's entries.
- The unrolled loops of the Java builders are not modelled line by line. Their `for` loops over literal arrays are modelled as the loops of `ChoiceOf` and `WordsChoice`, and the fourteen `put` calls of the constructor as a loop over the names.
- NfaFactory.BuildRange: requires `end` below the surrogate range `0xD800`, because Dafny's `char` has no surrogates. So the model does not cover Java's `buildRange` for any `end` from `0xD800` on. Java terminates for every `end` up to `'\uFFFE'`, and loops forever for `end == '\uFFFF'`, because `ch++` wraps. No pattern calls `buildRange`.
- Scanner.Step: positions and lengths count Unicode scalar values, because a Dafny `string` is a sequence of them. Java's `charAt` and `length` count UTF-16 code units. A character above U+FFFF is one character to the model but two surrogate halves to Java. For example, on `a😀b` Java reports two unexpected characters, at indexes 1 and 2, and then an IDENTIFIER at 3. The model reports one unexpected character at index 1 and the IDENTIFIER at 2. Every later index shifts by one per such character. The same holds for `Scanner.Scan` and `Tokenizer.CodeTokenizer.Tokenize`.
- Scanner.ScanProperties: the start line of an unclosed comment or string is proved to be the line of a marker or a quote read before the end. It is not proved to be the marker or quote that opened the construct still open at the end.
- DfaMatch.MatchDfa: its own contract states only the bound. The longest-match property is the separate lemma `DfaMatch.MatchDfaLongest`.
- The dispatch order used by the class is OpenJDK's `HashMap` order for these keys. Java does not promise that order. The `Scanner` results hold for every order.
