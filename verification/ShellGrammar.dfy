/** The grammar of shell commands that ex4/xv6/sh.c parses: characters, tokens, concrete syntax, and the
    command tree that a piece of syntax stands for.

    Concrete syntax has a type for each level of the grammar: a line, its pipelines, and in these simple
    commands and blocks, with redirections written `<`, `>` or `>>` before, between and behind the words.
    The functions that give the tokens of a piece of syntax take the tokens that follow, so that what is
    written is a prefix by construction. The trees are what the shell runs: words without their
    redirections, each of which has become a node around the command.

    Every tree has a syntax (LineFor), with parentheses where an operand is of a higher level than its
    place allows, and every list of legal tokens has a text (Text) that lexes to it. */
module ShellGrammar {
  const MAXARGS: nat := 10
  const NUL: char := '\0'

  /** A command tree over words of type T: strings, or places in the text. */
  datatype Cmd<T> =
    | Exec(args: seq<T>)
    | Redir(cmd: Cmd<T>, file: T, output: bool)
    | Pipe(left: Cmd<T>, right: Cmd<T>)
    | List(left: Cmd<T>, right: Cmd<T>)
    | Back(cmd: Cmd<T>)

  /** A word from q up to, not including, eq. */
  datatype Span = Span(q: nat, eq: nat)

  datatype Result<T> = Ok(value: T) | Panic(message: string)

  // ----- characters and tokens

  predicate Space(c: char) {
    c == ' ' || c == '\t' || c == '\r' || c == '\n' || c == '\U{000B}'
  }

  predicate Symbol(c: char) {
    c == '<' || c == '|' || c == '>' || c == '&' || c == ';' || c == '(' || c == ')'
  }

  predicate WordChar(c: char) {
    !Space(c) && !Symbol(c) && c != NUL
  }

  predicate LegalWord(w: string) {
    w != "" && forall i :: 0 <= i < |w| ==> WordChar(w[i])
  }

  predicate LegalText(cs: string) {
    forall i :: 0 <= i < |cs| ==> cs[i] != NUL
  }

  /** Symbols, with '+' for ">>", and words. */
  datatype Token = Sym(c: char) | Word(w: string)

  function WordLen(cs: string): (n: nat)
    ensures n <= |cs|
    ensures forall i :: 0 <= i < n ==> WordChar(cs[i])
    ensures n < |cs| ==> !WordChar(cs[n])
  {
    if cs == "" || !WordChar(cs[0]) then 0 else 1 + WordLen(cs[1..])
  }

  /** The tokens of a text. */
  function Lex(cs: string): seq<Token>
    requires LegalText(cs)
  {
    if cs == "" then []
    else if Space(cs[0]) then Lex(cs[1..])
    else if cs[0] == '>' && |cs| > 1 && cs[1] == '>' then [Sym('+')] + Lex(cs[2..])
    else if Symbol(cs[0]) then [Sym(cs[0])] + Lex(cs[1..])
    else [Word(cs[..WordLen(cs)])] + Lex(cs[WordLen(cs)..])
  }

  // ----- concrete syntax

  datatype Arrow = In | Out | Append

  datatype Redirection = Redirection(arrow: Arrow, file: string)

  /** A word and the redirections behind it. */
  datatype Part = Part(word: string, reds: seq<Redirection>)

  datatype Simple = Words(reds: seq<Redirection>, parts: seq<Part>) | Block(line: Line, reds: seq<Redirection>)

  datatype Pipeline = Last(cmd: Simple) | Then(cmd: Simple, next: Pipeline)

  /** A pipeline with ampersands behind it, and what comes after a semicolon. */
  datatype Line = End(pipe: Pipeline, ands: nat) | Semi(pipe: Pipeline, ands: nat, next: Line)

  // ----- the tokens of a piece of syntax, and then `rest`

  function ArrowChar(a: Arrow): char {
    match a
    case In => '<'
    case Out => '>'
    case Append => '+'
  }

  function RedsThen(reds: seq<Redirection>, rest: seq<Token>): seq<Token> {
    if reds == [] then rest else [Sym(ArrowChar(reds[0].arrow)), Word(reds[0].file)] + RedsThen(reds[1..], rest)
  }

  function PartsThen(parts: seq<Part>, rest: seq<Token>): seq<Token> {
    if parts == [] then rest else [Word(parts[0].word)] + RedsThen(parts[0].reds, PartsThen(parts[1..], rest))
  }

  function Marks(n: nat, rest: seq<Token>): seq<Token> {
    if n == 0 then rest else [Sym('&')] + Marks(n - 1, rest)
  }

  function SimpleThen(c: Simple, rest: seq<Token>): seq<Token> {
    match c
    case Words(reds, parts) => RedsThen(reds, PartsThen(parts, rest))
    case Block(line, reds) => [Sym('(')] + LineThen(line, [Sym(')')] + RedsThen(reds, rest))
  }

  function PipelineThen(p: Pipeline, rest: seq<Token>): seq<Token> {
    match p
    case Last(c) => SimpleThen(c, rest)
    case Then(c, next) => SimpleThen(c, [Sym('|')] + PipelineThen(next, rest))
  }

  function LineThen(l: Line, rest: seq<Token>): seq<Token> {
    match l
    case End(p, n) => PipelineThen(p, Marks(n, rest))
    case Semi(p, n, next) => PipelineThen(p, Marks(n, [Sym(';')] + LineThen(next, rest)))
  }

  // ----- the tree that it stands for

  datatype Red<T> = Red(file: T, output: bool)

  /** `<` opens the file for reading, `>` and `>>` for writing. */
  function Opened(r: Redirection): (m: Red<string>)
    ensures m.file == r.file
    ensures m.output <==> r.arrow == Out || r.arrow == Append
  {
    Red(r.file, r.arrow != In)
  }

  function OpenedAll(reds: seq<Redirection>): (r: seq<Red<string>>)
    ensures |r| == |reds|
  {
    seq(|reds|, i requires 0 <= i < |reds| => Opened(reds[i]))
  }

  /** A command with redirections around it, the last one outermost. */
  function Wrap<T>(c: Cmd<T>, reds: seq<Red<T>>): Cmd<T>
    decreases |reds|
  {
    if reds == [] then c
    else Redir(Wrap(c, reds[..|reds| - 1]), reds[|reds| - 1].file, reds[|reds| - 1].output)
  }

  function InBack<T>(t: Cmd<T>, n: nat): Cmd<T> {
    if n == 0 then t else Back(InBack(t, n - 1))
  }

  function WordsOf(parts: seq<Part>): (r: seq<string>)
    ensures |r| == |parts|
  {
    seq(|parts|, i requires 0 <= i < |parts| => parts[i].word)
  }

  /** The redirections between and behind the words, in order. */
  function RedsOf(parts: seq<Part>): seq<Redirection> {
    if parts == [] then [] else parts[0].reds + RedsOf(parts[1..])
  }

  function SimpleTree(c: Simple): Cmd<string> {
    match c
    case Words(reds, parts) => Wrap(Exec(WordsOf(parts)), OpenedAll(reds + RedsOf(parts)))
    case Block(line, reds) => Wrap(LineTree(line), OpenedAll(reds))
  }

  function PipelineTree(p: Pipeline): Cmd<string> {
    match p
    case Last(c) => SimpleTree(c)
    case Then(c, next) => Pipe(SimpleTree(c), PipelineTree(next))
  }

  function LineTree(l: Line): Cmd<string> {
    match l
    case End(p, n) => InBack(PipelineTree(p), n)
    case Semi(p, n, next) => List(InBack(PipelineTree(p), n), LineTree(next))
  }

  // ----- what is legal

  predicate LegalReds(reds: seq<Redirection>) {
    forall i :: 0 <= i < |reds| ==> LegalWord(reds[i].file)
  }

  predicate LegalParts(parts: seq<Part>) {
    forall i :: 0 <= i < |parts| ==> LegalWord(parts[i].word) && LegalReds(parts[i].reds)
  }

  /** At most nine words. */
  predicate LegalSimple(c: Simple) {
    match c
    case Words(reds, parts) => |parts| < MAXARGS && LegalReds(reds) && LegalParts(parts)
    case Block(line, reds) => LegalLine(line) && LegalReds(reds)
  }

  predicate LegalPipeline(p: Pipeline) {
    match p
    case Last(c) => LegalSimple(c)
    case Then(c, next) => LegalSimple(c) && LegalPipeline(next)
  }

  predicate LegalLine(l: Line) {
    match l
    case End(p, _) => LegalPipeline(p)
    case Semi(p, _, next) => LegalPipeline(p) && LegalLine(next)
  }

  predicate Legal(t: Cmd<string>) {
    match t
    case Exec(args) => |args| < MAXARGS && forall i :: 0 <= i < |args| ==> LegalWord(args[i])
    case Redir(c, file, _) => Legal(c) && LegalWord(file)
    case Pipe(l, r) => Legal(l) && Legal(r)
    case List(l, r) => Legal(l) && Legal(r)
    case Back(c) => Legal(c)
  }

  // ----- a syntax for every tree

  function Arrowed(file: string, output: bool): Redirection {
    Redirection(if output then Out else In, file)
  }

  function WithRed(c: Simple, r: Redirection): Simple {
    match c
    case Words(reds, parts) =>
      if parts == [] then Words(reds + [r], [])
      else
        var p := parts[|parts| - 1];
        Words(reds, parts[..|parts| - 1] + [Part(p.word, p.reds + [r])])
    case Block(line, reds) => Block(line, reds + [r])
  }

  function WithMark(l: Line): Line
    requires l.End?
  {
    End(l.pipe, l.ands + 1)
  }

  function Plain(args: seq<string>): seq<Part> {
    seq(|args|, i requires 0 <= i < |args| => Part(args[i], []))
  }

  predicate Compound(t: Cmd<string>) {
    t.List? || t.Back? || t.Pipe?
  }

  function Bare(t: Cmd<string>): Line
    requires Compound(t)
    decreases t, 0
  {
    match t
    case List(l, r) => var first := BackFor(l); Semi(first.pipe, first.ands, LineFor(r))
    case Back(c) => WithMark(BackFor(c))
    case Pipe(l, r) => End(Then(SimpleFor(l), PipelineFor(r)), 0)
  }

  function SimpleFor(t: Cmd<string>): Simple
    decreases t, 1
  {
    match t
    case Exec(args) => Words([], Plain(args))
    case Redir(c, file, output) => WithRed(SimpleFor(c), Arrowed(file, output))
    case _ => Block(Bare(t), [])
  }

  function PipelineFor(t: Cmd<string>): Pipeline
    decreases t, 2
  {
    match t
    case Pipe(l, r) => Then(SimpleFor(l), PipelineFor(r))
    case _ => Last(SimpleFor(t))
  }

  function BackFor(t: Cmd<string>): (l: Line)
    ensures l.End?
    decreases t, 3
  {
    match t
    case Back(c) => WithMark(BackFor(c))
    case _ => End(PipelineFor(t), 0)
  }

  /** The syntax of a tree, with parentheses where they are needed. */
  function LineFor(t: Cmd<string>): Line
    decreases t, 4
  {
    if t.List? then Bare(t) else BackFor(t)
  }

  lemma WithRedTree(c: Simple, r: Redirection)
    ensures SimpleTree(WithRed(c, r)) == Redir(SimpleTree(c), r.file, Opened(r).output)
    ensures LegalSimple(c) && LegalWord(r.file) ==> LegalSimple(WithRed(c, r))
  {
    match c
    case Words(reds, parts) =>
      hide Wrap, OpenedAll, LegalWord, RedsOf, WordsOf;
      if parts == [] {
        LastWrapped(Exec(WordsOf([])), reds, r);
        assert RedsOf([]) == [] by {
          NoReds([]);
          assert Plain([]) == [];
        }
        assert reds + [r] + [] == reds + [r] && reds + [] == reds;
      } else {
        var n := |parts| - 1;
        var p := Part(parts[n].word, parts[n].reds + [r]);
        SameWords(parts, p, r);
        assert reds + RedsOf(parts[..n] + [p]) == (reds + RedsOf(parts)) + [r];
        LastWrapped(Exec(WordsOf(parts)), reds + RedsOf(parts), r);
      }
    case Block(line, reds) =>
      LastWrapped(LineTree(line), reds, r);
  }

  /** A redirection more behind the last word. */
  lemma {:induction false} SameWords(parts: seq<Part>, p: Part, r: Redirection)
    requires parts != [] && p.word == parts[|parts| - 1].word && p.reds == parts[|parts| - 1].reds + [r]
    ensures WordsOf(parts[..|parts| - 1] + [p]) == WordsOf(parts)
    ensures RedsOf(parts[..|parts| - 1] + [p]) == RedsOf(parts) + [r]
  {
    var init, last := parts[..|parts| - 1], parts[|parts| - 1];
    assert parts == init + [last];
    assert RedsOf(init + [p]) == RedsOf(init) + p.reds by {
      LastReds(init, p);
    }
    assert RedsOf(parts) == RedsOf(init) + last.reds by {
      LastReds(init, last);
    }
  }

  lemma LastWrapped(c: Cmd<string>, reds: seq<Redirection>, r: Redirection)
    ensures Wrap(c, OpenedAll(reds + [r])) == Redir(Wrap(c, OpenedAll(reds)), r.file, Opened(r).output)
  {
    var all := OpenedAll(reds + [r]);
    assert all[..|all| - 1] == OpenedAll(reds);
  }

  lemma {:induction false} LastReds(parts: seq<Part>, p: Part)
    ensures RedsOf(parts + [p]) == RedsOf(parts) + p.reds
  {
    if parts == [] {
      assert parts + [p] == [p] && [p][1..] == [];
    } else {
      assert (parts + [p])[0] == parts[0] && (parts + [p])[1..] == parts[1..] + [p];
      LastReds(parts[1..], p);
      assert parts[0].reds + (RedsOf(parts[1..]) + p.reds) == (parts[0].reds + RedsOf(parts[1..])) + p.reds;
    }
  }

  lemma {:induction false} NoReds(args: seq<string>)
    ensures RedsOf(Plain(args)) == [] && WordsOf(Plain(args)) == args
  {
    if args != [] {
      assert Plain(args)[1..] == Plain(args[1..]);
      NoReds(args[1..]);
    }
  }

  /** Every tree has a syntax, and a legal one a legal syntax. */
  lemma {:induction false} TreeOfLineFor(t: Cmd<string>)
    ensures SimpleTree(SimpleFor(t)) == PipelineTree(PipelineFor(t)) == t
    ensures LineTree(BackFor(t)) == LineTree(LineFor(t)) == t
    ensures Legal(t) ==> LegalSimple(SimpleFor(t)) && LegalPipeline(PipelineFor(t))
    ensures Legal(t) ==> LegalLine(BackFor(t)) && LegalLine(LineFor(t))
    decreases t
  {
    match t
    case Exec(args) =>
      NoReds(args);
      assert [] + RedsOf(Plain(args)) == [] && OpenedAll([]) == [];
    case Redir(c, file, output) =>
      TreeOfLineFor(c);
      WithRedTree(SimpleFor(c), Arrowed(file, output));
    case Pipe(l, r) =>
      TreeOfLineFor(l);
      TreeOfLineFor(r);
      BareTree(t);
    case List(l, r) =>
      TreeOfLineFor(l);
      TreeOfLineFor(r);
      BareTree(t);
    case Back(c) =>
      TreeOfLineFor(c);
      BareTree(t);
  }

  lemma BareTree(t: Cmd<string>)
    requires Compound(t)
    requires t.Pipe? ==> SimpleTree(SimpleFor(t.left)) == t.left && PipelineTree(PipelineFor(t.right)) == t.right
    requires t.List? ==> LineTree(BackFor(t.left)) == t.left && LineTree(LineFor(t.right)) == t.right
    requires t.Back? ==> LineTree(BackFor(t.cmd)) == t.cmd
    ensures LineTree(Bare(t)) == t && SimpleTree(Block(Bare(t), [])) == t
  {
    hide SimpleFor, PipelineFor, BackFor, LineFor, Wrap;
    assert LineTree(Bare(t)) == t by {
      match t
      case List(l, r) => assert Bare(t) == Semi(BackFor(l).pipe, BackFor(l).ands, LineFor(r));
      case Back(c) => assert Bare(t) == WithMark(BackFor(c));
      case Pipe(l, r) => assert Bare(t) == End(Then(SimpleFor(l), PipelineFor(r)), 0);
    }
    Unwrapped(Bare(t));
  }

  lemma Unwrapped(l: Line)
    ensures SimpleTree(Block(l, [])) == LineTree(l)
  {
    assert OpenedAll([]) == [];
  }

  // ----- writing as text

  function TokenText(t: Token): string {
    match t
    case Sym(c) => if c == '+' then ">>" else [c]
    case Word(w) => w
  }

  /** Every token followed by a blank. */
  function Text(ts: seq<Token>): string {
    if ts == [] then "" else TokenText(ts[0]) + " " + Text(ts[1..])
  }

  predicate LegalToken(t: Token) {
    match t
    case Sym(c) => Symbol(c) || c == '+'
    case Word(w) => LegalWord(w)
  }

  predicate LegalTokens(ts: seq<Token>) {
    forall i :: 0 <= i < |ts| ==> LegalToken(ts[i])
  }

  lemma {:induction false} WordLenIs(w: string, cs: string)
    requires (forall i :: 0 <= i < |w| ==> WordChar(w[i])) && (cs != "" ==> !WordChar(cs[0]))
    ensures WordLen(w + cs) == |w|
  {
    if w == "" {
      assert w + cs == cs;
    } else {
      assert (w + cs)[1..] == w[1..] + cs;
      WordLenIs(w[1..], cs);
    }
  }

  lemma {:induction false} TextLegal(ts: seq<Token>)
    requires LegalTokens(ts)
    ensures LegalText(Text(ts))
  {
    if ts != [] {
      TextLegal(ts[1..]);
    }
  }

  lemma TextStep(ts: seq<Token>)
    requires ts != []
    ensures Text(ts) == TokenText(ts[0]) + (" " + Text(ts[1..]))
  {
    hide TokenText;
    assert TokenText(ts[0]) + " " + Text(ts[1..]) == TokenText(ts[0]) + (" " + Text(ts[1..]));
  }

  lemma LexBlank(c: char, cs: string)
    requires LegalText(cs) && Space(c)
    ensures LegalText([c] + cs) && Lex([c] + cs) == Lex(cs)
  {
    assert ([c] + cs)[1..] == cs;
  }

  /** The lexer undoes writing. */
  lemma {:induction false} LexText(ts: seq<Token>)
    requires LegalTokens(ts)
    ensures LegalText(Text(ts)) && Lex(Text(ts)) == ts
  {
    if ts != [] {
      LexText(ts[1..]);
      TextStep(ts);
      LexBlank(' ', Text(ts[1..]));
      hide Text, TokenText, Lex, LegalText;
      LexToken(ts[0], " " + Text(ts[1..]));
    }
  }

  /** What may come behind a token without joining it. */
  predicate Apart(t: Token, more: string) {
    match t
    case Sym(c) => c == '>' && more != "" ==> more[0] != '>'
    case Word(w) => more != "" ==> !WordChar(more[0])
  }

  /** A token that the rest of the text does not join is lexed first. With LexBlank this is all there is to
      the lexer. */
  lemma LexToken(t: Token, more: string)
    requires LegalToken(t) && LegalText(more) && Apart(t, more)
    ensures LegalText(TokenText(t) + more) && Lex(TokenText(t) + more) == [t] + Lex(more)
  {
    var cs := TokenText(t) + more;
    LexFirst(cs);
    match t
    case Sym(c) =>
      if c == '+' {
        assert cs[2..] == more;
      } else {
        assert cs[1..] == more;
      }
    case Word(w) =>
      WordLenIs(w, more);
      assert cs[..|w|] == w && cs[|w|..] == more;
  }

  lemma AtEnd(cs: string)
    requires LegalText(cs) && cs != "" && !Space(cs[0])
    ensures Lex(cs) != []
  {
  }

  lemma LexFirst(cs: string)
    requires LegalText(cs) && (cs != "" ==> !Space(cs[0]))
    ensures cs == "" ==> Lex(cs) == []
    ensures cs != "" && cs[0] == '>' && |cs| > 1 && cs[1] == '>' ==> Lex(cs) == [Sym('+')] + Lex(cs[2..])
    ensures cs != "" && Symbol(cs[0]) && !(cs[0] == '>' && |cs| > 1 && cs[1] == '>') ==>
              Lex(cs) == [Sym(cs[0])] + Lex(cs[1..])
    ensures cs != "" && !Symbol(cs[0]) ==>
              WordLen(cs) > 0 && Lex(cs) == [Word(cs[..WordLen(cs)])] + Lex(cs[WordLen(cs)..])
  {
  }

  // ----- the text of every tree

  lemma {:induction false} RedsLegal(reds: seq<Redirection>, rest: seq<Token>)
    requires LegalReds(reds) && LegalTokens(rest)
    ensures LegalTokens(RedsThen(reds, rest))
  {
    if reds != [] {
      RedsLegal(reds[1..], rest);
    }
  }

  lemma {:induction false} PartsLegal(parts: seq<Part>, rest: seq<Token>)
    requires LegalParts(parts) && LegalTokens(rest)
    ensures LegalTokens(PartsThen(parts, rest))
  {
    if parts != [] {
      PartsLegal(parts[1..], rest);
      RedsLegal(parts[0].reds, PartsThen(parts[1..], rest));
    }
  }

  lemma {:induction false} SimpleLegal(c: Simple, rest: seq<Token>)
    requires LegalSimple(c) && LegalTokens(rest)
    ensures LegalTokens(SimpleThen(c, rest))
  {
    match c
    case Words(reds, parts) =>
      PartsLegal(parts, rest);
      RedsLegal(reds, PartsThen(parts, rest));
    case Block(line, reds) =>
      RedsLegal(reds, rest);
      LineLegal(line, [Sym(')')] + RedsThen(reds, rest));
  }

  lemma {:induction false} PipelineLegal(p: Pipeline, rest: seq<Token>)
    requires LegalPipeline(p) && LegalTokens(rest)
    ensures LegalTokens(PipelineThen(p, rest))
  {
    match p
    case Last(c) => SimpleLegal(c, rest);
    case Then(c, next) =>
      PipelineLegal(next, rest);
      SimpleLegal(c, [Sym('|')] + PipelineThen(next, rest));
  }

  lemma {:induction false} MarksLegal(n: nat, rest: seq<Token>)
    requires LegalTokens(rest)
    ensures LegalTokens(Marks(n, rest))
  {
    if n > 0 {
      MarksLegal(n - 1, rest);
    }
  }

  lemma {:induction false} LineLegal(l: Line, rest: seq<Token>)
    requires LegalLine(l) && LegalTokens(rest)
    ensures LegalTokens(LineThen(l, rest))
  {
    match l
    case End(p, n) =>
      MarksLegal(n, rest);
      PipelineLegal(p, Marks(n, rest));
    case Semi(p, n, next) =>
      LineLegal(next, rest);
      MarksLegal(n, [Sym(';')] + LineThen(next, rest));
      PipelineLegal(p, Marks(n, [Sym(';')] + LineThen(next, rest)));
  }

  /** The text of any legal line lexes to its tokens. */
  lemma LineLexes(l: Line)
    requires LegalLine(l)
    ensures LegalText(Text(LineThen(l, []))) && Lex(Text(LineThen(l, []))) == LineThen(l, [])
  {
    LineLegal(l, []);
    LexText(LineThen(l, []));
  }
}
