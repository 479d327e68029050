/** The command parser of ex4/xv6/sh.c, against the grammar in ShellGrammar.

    Every parsing method makes two promises about what is left to read. What it accepts is right: if it
    returns a tree, then the tokens that it has read are those of a piece of legal syntax that stands for
    that tree, and this piece is a ghost result. And it accepts what is right: if what is left to read is
    some legal piece of syntax followed by `rest`, and `rest` starts with something that ends a command at
    this level, then the method returns that very piece and leaves `rest`. The piece and `rest` are ghost
    arguments. So a text parses if and only if it lexes to a legal line.

    Trees hold places in the text (Span) until nulterminate has put a NUL behind every word; Read gives
    the tree of strings that a tree of places stands for. */
module ShellParser {
  import opened ShellGrammar

  // ----- trees over places in the text

  predicate SpanOk(text: string, x: Span) {
    && x.q < x.eq <= |text|
    && (forall i :: x.q <= i < x.eq ==> WordChar(text[i]))
    && (x.eq < |text| ==> !WordChar(text[x.eq]))
  }

  predicate Placed(text: string, c: Cmd<Span>) {
    match c
    case Exec(args) => |args| < MAXARGS && forall i :: 0 <= i < |args| ==> SpanOk(text, args[i])
    case Redir(d, file, _) => Placed(text, d) && SpanOk(text, file)
    case Pipe(l, r) => Placed(text, l) && Placed(text, r)
    case List(l, r) => Placed(text, l) && Placed(text, r)
    case Back(d) => Placed(text, d)
  }

  function ReadWord(text: string, x: Span): string
    requires SpanOk(text, x)
  {
    text[x.q..x.eq]
  }

  function ReadWords(text: string, args: seq<Span>): (r: seq<string>)
    requires forall i :: 0 <= i < |args| ==> SpanOk(text, args[i])
    ensures |r| == |args|
  {
    seq(|args|, i requires 0 <= i < |args| => ReadWord(text, args[i]))
  }

  /** The tree of strings that a tree of places stands for. */
  function Read(text: string, c: Cmd<Span>): (t: Cmd<string>)
    requires Placed(text, c)
    ensures Legal(t)
  {
    match c
    case Exec(args) => Exec(ReadWords(text, args))
    case Redir(d, file, output) => Redir(Read(text, d), ReadWord(text, file), output)
    case Pipe(l, r) => Pipe(Read(text, l), Read(text, r))
    case List(l, r) => List(Read(text, l), Read(text, r))
    case Back(d) => Back(Read(text, d))
  }

  datatype Turn = Stop | Got(word: Span, reds: seq<Red<Span>>) | Fail(message: string)

  predicate PlacedReds(text: string, reds: seq<Red<Span>>) {
    forall i :: 0 <= i < |reds| ==> SpanOk(text, reds[i].file)
  }

  function ReadReds(text: string, reds: seq<Red<Span>>): (r: seq<Red<string>>)
    requires PlacedReds(text, reds)
    ensures |r| == |reds|
  {
    seq(|reds|, i requires 0 <= i < |reds| => Red(ReadWord(text, reds[i].file), reds[i].output))
  }

  lemma {:induction false} WrapReads(text: string, c: Cmd<Span>, reds: seq<Red<Span>>)
    requires Placed(text, c) && PlacedReds(text, reds)
    ensures Placed(text, Wrap(c, reds)) && Read(text, Wrap(c, reds)) == Wrap(Read(text, c), ReadReds(text, reds))
    decreases |reds|
  {
    if reds != [] {
      var init := reds[..|reds| - 1];
      WrapReads(text, c, init);
      assert ReadReds(text, reds)[..|reds| - 1] == ReadReds(text, init);
    }
  }

  lemma ReadsBack(text: string, c: Cmd<Span>)
    requires Placed(text, c)
    ensures Placed(text, Back(c)) && Read(text, Back(c)) == Back(Read(text, c))
  {
  }

  lemma ReadsList(text: string, c: Cmd<Span>, d: Cmd<Span>)
    requires Placed(text, c) && Placed(text, d)
    ensures Placed(text, List(c, d)) && Read(text, List(c, d)) == List(Read(text, c), Read(text, d))
  {
  }

  // ----- one token more

  /** The token after a command is one of these symbols, or there is none. */
  predicate Ends(ts: seq<Token>, symbols: string) {
    ts == [] || (ts[0].Sym? && ts[0].c in symbols)
  }

  predicate Starts(ts: seq<Token>, toks: string) {
    ts != [] && ts[0].Sym? && (if ts[0].c == '+' then '>' in toks else ts[0].c in toks)
  }

  function ArrowOf(c: char): Arrow {
    if c == '<' then In else if c == '>' then Out else Append
  }

  lemma {:induction false} LastRed(reds: seq<Redirection>, x: Redirection, rest: seq<Token>)
    ensures RedsThen(reds + [x], rest) == RedsThen(reds, [Sym(ArrowChar(x.arrow)), Word(x.file)] + rest)
  {
    if reds == [] {
      assert reds + [x] == [x] && [x][1..] == [];
    } else {
      assert (reds + [x])[0] == reds[0] && (reds + [x])[1..] == reds[1..] + [x];
      LastRed(reds[1..], x, rest);
    }
  }

  lemma {:induction false} LastPart(parts: seq<Part>, p: Part, rest: seq<Token>)
    ensures PartsThen(parts + [p], rest) == PartsThen(parts, [Word(p.word)] + RedsThen(p.reds, rest))
  {
    if parts == [] {
      assert parts + [p] == [p] && [p][1..] == [];
    } else {
      assert (parts + [p])[0] == parts[0] && (parts + [p])[1..] == parts[1..] + [p];
      LastPart(parts[1..], p, rest);
    }
  }

  lemma {:induction false} LastMark(n: nat, rest: seq<Token>)
    ensures Marks(n, [Sym('&')] + rest) == Marks(n + 1, rest)
  {
    if n > 0 {
      LastMark(n - 1, rest);
    }
  }

  /** What comes first in redirections, in words and in ampersands. */
  lemma RedsStart(reds: seq<Redirection>, rest: seq<Token>)
    ensures reds != [] ==> |RedsThen(reds, rest)| >= 2 && Starts(RedsThen(reds, rest), "<>")
    ensures reds != [] ==> RedsThen(reds, rest)[0] == Sym(ArrowChar(reds[0].arrow))
    ensures reds != [] ==> RedsThen(reds, rest)[1] == Word(reds[0].file)
    ensures reds != [] ==> RedsThen(reds, rest)[1..][1..] == RedsThen(reds[1..], rest)
    ensures reds == [] ==> RedsThen(reds, rest) == rest
  {
  }

  lemma PartsStart(parts: seq<Part>, rest: seq<Token>)
    ensures parts != [] ==>
              && PartsThen(parts, rest) != [] && PartsThen(parts, rest)[0] == Word(parts[0].word)
              && PartsThen(parts, rest)[1..] == RedsThen(parts[0].reds, PartsThen(parts[1..], rest))
    ensures parts == [] ==> PartsThen(parts, rest) == rest
    ensures Ends(rest, "|)&;") ==> !Starts(PartsThen(parts, rest), "<>")
  {
  }

  lemma MarksStart(n: nat, rest: seq<Token>)
    ensures n > 0 ==> Marks(n, rest) == [Sym('&')] + Marks(n - 1, rest)
    ensures n == 0 ==> Marks(n, rest) == rest
    ensures n > 0 ==> Ends(Marks(n, rest), "&")
  {
  }

  class Parser {
    const text: string
    var s: nat

    constructor (text: string)
      ensures this.text == text && s == 0
    {
      this.text := text;
      s := 0;
    }

    predicate Valid()
      reads this
    {
      s <= |text| && LegalText(text)
    }

    /** What is still to be read, as tokens. */
    ghost function Rest(): seq<Token>
      requires Valid()
      reads this
    {
      Lex(text[s..])
    }

    function At(i: nat): char {
      if i < |text| then text[i] else NUL
    }

    method SkipSpace()
      requires Valid()
      modifies this`s
      ensures Valid() && s >= old(s) && Rest() == old(Rest())
      ensures s < |text| ==> !Space(text[s])
    {
      while s < |text| && Space(text[s])
        invariant Valid() && s >= old(s) && Rest() == old(Rest())
      {
        assert text[s..][1..] == text[s + 1..];
        s := s + 1;
      }
    }

    /** The next token: its character, 'a' for a word, NUL at the end (sh.c:266-308). */
    method Gettoken() returns (tok: char, word: Span)
      requires Valid()
      modifies this`s
      ensures Valid() && s >= old(s)
      ensures old(Rest()) == [] ==> tok == NUL && Rest() == []
      ensures old(Rest()) != [] ==> s > old(s) && Rest() == old(Rest())[1..]
      ensures old(Rest()) != [] && old(Rest())[0].Sym? ==> tok == old(Rest())[0].c && tok != 'a' && tok != NUL
      ensures old(Rest()) != [] && old(Rest())[0].Word? ==>
                tok == 'a' && SpanOk(text, word) && ReadWord(text, word) == old(Rest())[0].w
    {
      hide Lex, WordLen;
      SkipSpace();
      var q := s;
      ghost var cs := text[s..];
      LexFirst(cs);
      tok := At(s);
      if tok == NUL {
      } else if tok == '>' {
        assert cs[1..] == text[s + 1..];
        s := s + 1;
        if At(s) == '>' {
          assert cs[2..] == text[s + 1..];
          tok := '+';
          s := s + 1;
        }
      } else if Symbol(tok) {
        assert cs[1..] == text[s + 1..];
        s := s + 1;
      } else {
        tok := 'a';
        while s < |text| && !Space(text[s]) && !Symbol(text[s])
          invariant q <= s <= |text| && s - q <= WordLen(cs)
        {
          assert cs[s - q] == text[s];
          s := s + 1;
        }
        assert s - q == WordLen(cs);
        assert cs[s - q..] == text[s..];
      }
      word := Span(q, s);
      SkipSpace();
    }

    /** Whether the next token starts with one of the symbols (sh.c:311-320). */
    method Peek(toks: string) returns (r: bool)
      requires Valid() && forall i :: 0 <= i < |toks| ==> Symbol(toks[i])
      modifies this`s
      ensures Valid() && s >= old(s) && Rest() == old(Rest())
      ensures (r <==> Starts(Rest(), toks)) && (s < |text| ==> !Space(text[s]))
    {
      SkipSpace();
      r := At(s) != NUL && At(s) in toks;
    }

    /** The redirections that come next (sh.c:380-395), innermost first. */
    method ParseRedirs(ghost reds: seq<Redirection>, ghost rest: seq<Token>)
      returns (r: Result<seq<Red<Span>>>, ghost got: seq<Redirection>)
      requires Valid()
      modifies this`s
      ensures Valid() && s >= old(s)
      ensures r.Ok? ==> PlacedReds(text, r.value) && ReadReds(text, r.value) == OpenedAll(got) && LegalReds(got)
      ensures r.Ok? ==> old(Rest()) == RedsThen(got, Rest()) && !Starts(Rest(), "<>")
      ensures old(Rest()) == RedsThen(reds, rest) && !Starts(rest, "<>") ==> r.Ok? && got == reds && Rest() == rest
    {
      hide Lex, SpanOk, ReadWord, RedsThen, LegalWord;
      ghost var goal := Rest() == RedsThen(reds, rest) && !Starts(rest, "<>");
      var out: seq<Red<Span>> := [];
      got := [];
      RedsStart([], Rest());
      while true
        invariant Valid() && s >= old(s) && PlacedReds(text, out) && ReadReds(text, out) == OpenedAll(got)
        invariant LegalReds(got) && old(Rest()) == RedsThen(got, Rest())
        invariant goal ==> |got| <= |reds| && got == reds[..|got|] && Rest() == RedsThen(reds[|got|..], rest)
        decreases |text| - s
      {
        if goal {
          RedsStart(reds[|got|..], rest);
        }
        var more := Peek("<>");
        if !more {
          break;
        }
        ghost var ts := Rest();
        var tok, _ := Gettoken();
        var kind, word := Gettoken();
        if kind != 'a' {
          return Panic("missing file for redirection"), [];
        }
        ghost var red := Redirection(ArrowOf(tok), ReadWord(text, word));
        OneRed(text, out, Red(word, tok != '<'), got, red);
        out := out + [Red(word, tok != '<')];
        assert ts == [Sym(ArrowChar(red.arrow)), Word(red.file)] + Rest();
        LastRed(got, red, Rest());
        WordLegal(text, word);
        got := got + [red];
      }
      r := Ok(out);
    }

    /** A parenthesised command with its redirections (sh.c:404-412). */
    method ParseBlock(ghost c: Simple, ghost rest: seq<Token>) returns (r: Result<Cmd<Span>>, ghost got: Simple)
      requires Valid()
      modifies this`s
      ensures Valid() && s >= old(s)
      ensures r.Ok? ==> Placed(text, r.value) && Read(text, r.value) == SimpleTree(got) && LegalSimple(got)
      ensures r.Ok? ==> old(Rest()) == SimpleThen(got, Rest())
      ensures c.Block? && old(Rest()) == SimpleThen(c, rest) && LegalSimple(c) && Ends(rest, "|)&;") ==>
                r.Ok? && got == c && Rest() == rest
      decreases |text| - s, 0
    {
      hide Lex, LineThen, RedsThen, LegalLine, LegalReds, Placed, Read, PlacedReds, ReadReds, Wrap;
      ghost var goal := c.Block? && Rest() == SimpleThen(c, rest) && LegalSimple(c) && Ends(rest, "|)&;");
      got := EMPTY;
      var opens := Peek("(");
      if !opens {
        return Panic("parseblock"), got;
      }
      ghost var ts := Rest();
      ghost var inner := if c.Block? then c.line else NOTHING;
      ghost var after := if c.Block? then [Sym(')')] + RedsThen(c.reds, rest) else [];
      var _, _ := Gettoken();
      var line, l := ParseLine(inner, after);
      if line.Panic? {
        return line, got;
      }
      var closes := Peek(")");
      if !closes {
        return Panic("syntax - missing )"), got;
      }
      ghost var ts2 := Rest();
      var _, _ := Gettoken();
      assert ts == [Sym('(')] + LineThen(l, ts2) && ts2 == [Sym(')')] + Rest();
      var more, reds := ParseRedirs(if c.Block? then c.reds else [], rest);
      if more.Panic? {
        return Panic(more.message), got;
      }
      WrapReads(text, line.value, more.value);
      got := Block(l, reds);
      r := Ok(Wrap(line.value, more.value));
    }

    /** A block, or words and redirections in any order (sh.c:423-445). */
    method ParseExec(ghost c: Simple, ghost rest: seq<Token>) returns (r: Result<Cmd<Span>>, ghost got: Simple)
      requires Valid()
      modifies this`s
      ensures Valid() && s >= old(s)
      ensures r.Ok? ==> Placed(text, r.value) && Read(text, r.value) == SimpleTree(got) && LegalSimple(got)
      ensures r.Ok? ==> old(Rest()) == SimpleThen(got, Rest())
      ensures old(Rest()) == SimpleThen(c, rest) && LegalSimple(c) && Ends(rest, "|)&;") ==>
                r.Ok? && got == c && Rest() == rest
      decreases |text| - s, 1
    {
      hide Lex, LegalSimple, SimpleTree, Placed, Read;
      SimpleStart(c, rest);
      var opens := Peek("(");
      if opens {
        r, got := ParseBlock(c, rest);
      } else {
        r, got := ParseWords(c, rest);
      }
    }

    /** One turn of parseexec's loop, after count words: a word with the redirections behind it, or the end
        of the command (sh.c:431-442). */
    method ParsePart(count: nat, ghost todo: seq<Part>, ghost rest: seq<Token>) returns (t: Turn, ghost p: Part)
      requires Valid() && count < MAXARGS
      modifies this`s
      ensures Valid() && s >= old(s) && (t.Got? ==> s > old(s) && count + 1 < MAXARGS)
      ensures t.Got? ==> SpanOk(text, t.word) && p.word == ReadWord(text, t.word) && LegalReds(p.reds)
      ensures t.Got? ==> PlacedReds(text, t.reds) && ReadReds(text, t.reds) == OpenedAll(p.reds)
      ensures t.Got? ==> old(Rest()) == [Word(p.word)] + RedsThen(p.reds, Rest())
      ensures t.Stop? ==> Rest() == old(Rest())
      ensures old(Rest()) == PartsThen(todo, rest) && Ends(rest, "|)&;") && count + |todo| < MAXARGS ==>
                && !t.Fail? && (t.Got? <==> todo != [])
                && (t.Got? ==> p == todo[0] && Rest() == PartsThen(todo[1..], rest))
    {
      hide Lex, RedsThen, PartsThen, PlacedReds, ReadReds, OpenedAll, SpanOk, ReadWord, LegalWord, LegalReds;
      ghost var goal := Rest() == PartsThen(todo, rest) && Ends(rest, "|)&;") && count + |todo| < MAXARGS;
      ghost var first, others := Part("", []), todo;
      p := first;
      PartsStart(todo, rest);
      if todo != [] {
        first, others := todo[0], todo[1..];
        PartsStart(others, rest);
      }
      var stops := Peek("|)&;");
      if stops {
        return Stop, p;
      }
      ghost var ts := Rest();
      var tok, word := Gettoken();
      if tok == NUL {
        return Stop, p;
      }
      if tok != 'a' {
        return Fail("syntax"), p;
      }
      if count + 1 >= MAXARGS {
        return Fail("too many args"), p;
      }
      var added, here := ParseRedirs(first.reds, PartsThen(others, rest));
      if added.Panic? {
        return Fail(added.message), p;
      }
      p := Part(ReadWord(text, word), here);
      assert ts == [Word(p.word)] + RedsThen(here, Rest());
      t := Got(word, added.value);
    }

    /** The words and redirections of one command (sh.c:426-445); the tenth word is a panic. */
    method ParseWords(ghost c: Simple, ghost rest: seq<Token>) returns (r: Result<Cmd<Span>>, ghost got: Simple)
      requires Valid()
      modifies this`s
      ensures Valid() && s >= old(s)
      ensures r.Ok? ==> Placed(text, r.value) && Read(text, r.value) == SimpleTree(got) && LegalSimple(got)
      ensures r.Ok? ==> old(Rest()) == SimpleThen(got, Rest())
      ensures c.Words? && old(Rest()) == SimpleThen(c, rest) && LegalSimple(c) && Ends(rest, "|)&;") ==>
                r.Ok? && got == c && Rest() == rest
    {
      hide Lex, RedsThen, PartsThen, PlacedReds, ReadReds, OpenedAll, Wrap, SpanOk, ReadWord, LegalWord, RedsOf,
          WordsOf, LegalReds, Sofar, Placed, Read, SimpleTree, LegalParts;
      ghost var goal := c.Words? && Rest() == SimpleThen(c, rest) && LegalSimple(c) && Ends(rest, "|)&;");
      ghost var todo := if c.Words? then c.parts else [];
      ghost var parts: seq<Part> := [];
      got := EMPTY;
      PartsStart(todo, rest);
      var more, reds := ParseRedirs(if c.Words? then c.reds else [], PartsThen(todo, rest));
      if more.Panic? {
        return Panic(more.message), got;
      }
      var args: seq<Span>, list := [], more.value;
      NoParts(text, list, reds, Rest());
      assert goal ==> |todo| < MAXARGS && todo[0..] == todo && todo[..0] == [];
      hide SimpleThen, LegalSimple, ReadWords;
      while true
        invariant Valid() && s >= old(s) && |args| == |parts| < MAXARGS && LegalReds(reds)
        invariant Sofar(text, args, list, reds, parts)
        invariant old(Rest()) == RedsThen(reds, PartsThen(parts, Rest()))
        invariant goal ==> reds == c.reds && |parts| <= |todo| && parts == todo[..|parts|]
        invariant goal ==> Rest() == PartsThen(todo[|parts|..], rest)
        decreases |text| - s
      {
        ghost var left := if goal then todo[|parts|..] else [];
        if goal {
          OnePart(todo, |parts|);
        }
        var t, p := ParsePart(|args|, left, rest);
        match t
        case Fail(message) => return Panic(message), got;
        case Stop => break;
        case Got(word, added) =>
          LastPart(parts, p, Rest());
          OneMore(text, args, word, list, added, reds, parts, p);
          args, list := args + [word], list + added;
          parts := parts + [p];
      }
      got := Words(reds, parts);
      WordsRead(text, args, list, got);
      WordsThen(reds, parts, Rest());
      assert goal ==> parts == todo && Rest() == rest by {
        if goal {
          PartsStart(todo[|parts|..], rest);
        }
      }
      r := Ok(Wrap(Exec(args), list));
    }

    /** Commands with '|' between them (sh.c:366-371). */
    method ParsePipe(ghost p: Pipeline, ghost rest: seq<Token>) returns (r: Result<Cmd<Span>>, ghost got: Pipeline)
      requires Valid()
      modifies this`s
      ensures Valid() && s >= old(s)
      ensures r.Ok? ==> Placed(text, r.value) && Read(text, r.value) == PipelineTree(got) && LegalPipeline(got)
      ensures r.Ok? ==> old(Rest()) == PipelineThen(got, Rest())
      ensures old(Rest()) == PipelineThen(p, rest) && LegalPipeline(p) && Ends(rest, ")&;") ==>
                r.Ok? && got == p && Rest() == rest
      decreases |text| - s, 2
    {
      hide Lex, SimpleThen, LegalSimple, SimpleTree;
      ghost var after := if p.Then? then [Sym('|')] + PipelineThen(p.next, rest) else rest;
      var left, c := ParseExec(p.cmd, after);
      got := Last(c);
      if left.Panic? {
        return left, got;
      }
      var more := Peek("|");
      ghost var ts := Rest();
      if more {
        var _, _ := Gettoken();
        assert ts == [Sym('|')] + Rest();
        var right, next := ParsePipe(if p.Then? then p.next else p, rest);
        if right.Panic? {
          return right, got;
        }
        got := Then(c, next);
        return Ok(Pipe(left.value, right.value)), got;
      }
      r := left;
    }

    /** The '&'s after a command (sh.c:350-353). */
    method ParseBackground(c0: Cmd<Span>, ghost n: nat, ghost after: seq<Token>) returns (c: Cmd<Span>, ghost got: nat)
      requires Valid() && Placed(text, c0)
      modifies this`s
      ensures Valid() && s >= old(s) && Placed(text, c)
      ensures Read(text, c) == InBack(Read(text, c0), got) && old(Rest()) == Marks(got, Rest())
      ensures old(Rest()) == Marks(n, after) && !Starts(after, "&") ==> got == n && Rest() == after
    {
      hide Lex, Marks, Read, Placed;
      ghost var goal := Rest() == Marks(n, after) && !Starts(after, "&");
      c, got := c0, 0;
      MarksStart(0, Rest());
      while true
        invariant Valid() && s >= old(s) && Placed(text, c)
        invariant Read(text, c) == InBack(Read(text, c0), got) && old(Rest()) == Marks(got, Rest())
        invariant goal ==> got <= n && Rest() == Marks(n - got, after)
        decreases |text| - s
      {
        if goal {
          MarksStart(n - got, after);
        }
        ghost var ts := Rest();
        var more := Peek("&");
        if !more {
          break;
        }
        var _, _ := Gettoken();
        ReadsBack(text, c);
        LastMark(got, Rest());
        assert ts == [Sym('&')] + Rest();
        c := Back(c);
        got := got + 1;
      }
    }

    /** Pipelines with '&' and ';' after them (sh.c:349-358). */
    method ParseLine(ghost l: Line, ghost rest: seq<Token>) returns (r: Result<Cmd<Span>>, ghost got: Line)
      requires Valid()
      modifies this`s
      ensures Valid() && s >= old(s)
      ensures r.Ok? ==> Placed(text, r.value) && Read(text, r.value) == LineTree(got) && LegalLine(got)
      ensures r.Ok? ==> old(Rest()) == LineThen(got, Rest())
      ensures old(Rest()) == LineThen(l, rest) && LegalLine(l) && Ends(rest, ")") ==>
                r.Ok? && got == l && Rest() == rest
      decreases |text| - s, 3
    {
      hide Lex, PipelineThen, LegalPipeline, PipelineTree, Marks, InBack, Read, Placed;
      ghost var after := if l.Semi? then [Sym(';')] + LineThen(l.next, rest) else rest;
      MarksStart(l.ands, after);
      var cmd, p := ParsePipe(l.pipe, Marks(l.ands, after));
      got := End(p, 0);
      if cmd.Panic? {
        return cmd, got;
      }
      var c, n := ParseBackground(cmd.value, l.ands, after);
      got := End(p, n);
      ghost var ts := Rest();
      var more := Peek(";");
      if more {
        var _, _ := Gettoken();
        var right, next := ParseLine(if l.Semi? then l.next else l, rest);
        if right.Panic? {
          return right, got;
        }
        ReadsList(text, c, right.value);
        got := Semi(p, n, next);
        assert ts == [Sym(';')] + LineThen(next, Rest());
        return Ok(List(c, right.value)), got;
      }
      r := Ok(c);
    }

    /** The whole text (sh.c:333-339). What parses is a legal line, and the result the tree that it stands
        for; and every legal line parses. */
    method ParseCmd(ghost l: Line) returns (r: Result<Cmd<Span>>, ghost got: Line)
      requires Valid() && s == 0
      modifies this`s
      ensures r.Ok? ==> Placed(text, r.value) && Read(text, r.value) == LineTree(got)
      ensures r.Ok? ==> Lex(text) == LineThen(got, []) && LegalLine(got)
      ensures Lex(text) == LineThen(l, []) && LegalLine(l) ==> r.Ok? && got == l
    {
      assert text[0..] == text;
      r, got := ParseLine(l, []);
      if r.Panic? {
        return;
      }
      var _ := Peek("");
      if s != |text| {
        AtEnd(text[s..]);
        return Panic("syntax"), got;
      }
    }
  }

  const EMPTY: Simple := Words([], [])
  const NOTHING: Line := End(Last(EMPTY), 0)

  lemma OneRed(text: string, out: seq<Red<Span>>, x: Red<Span>, got: seq<Redirection>, red: Redirection)
    requires PlacedReds(text, out) && SpanOk(text, x.file) && ReadReds(text, out) == OpenedAll(got)
    requires red.file == ReadWord(text, x.file) && (x.output <==> red.arrow != In)
    ensures PlacedReds(text, out + [x]) && ReadReds(text, out + [x]) == OpenedAll(got + [red])
  {
    assert |out| == |got|;
    assert ReadReds(text, out + [x]) == ReadReds(text, out) + [Red(ReadWord(text, x.file), x.output)];
    assert OpenedAll(got + [red]) == OpenedAll(got) + [Opened(red)];
  }

  lemma WordLegal(text: string, x: Span)
    requires SpanOk(text, x)
    ensures LegalWord(ReadWord(text, x))
  {
  }

  /** Only a block starts with a parenthesis. */
  lemma SimpleStart(c: Simple, rest: seq<Token>)
    ensures Ends(rest, "|)&;") ==> (Starts(SimpleThen(c, rest), "(") <==> c.Block?)
  {
    if c.Words? {
      PartsStart(c.parts, rest);
      RedsStart(c.reds, PartsThen(c.parts, rest));
    }
  }

  /** The words and redirections that have been read stand for these parts. */
  ghost predicate Sofar(text: string, args: seq<Span>, list: seq<Red<Span>>, reds: seq<Redirection>, parts: seq<Part>) {
    && |args| == |parts| && (forall i :: 0 <= i < |args| ==> SpanOk(text, args[i])) && PlacedReds(text, list)
    && ReadWords(text, args) == WordsOf(parts) && LegalParts(parts)
    && ReadReds(text, list) == OpenedAll(reds + RedsOf(parts))
  }

  lemma WordsThen(reds: seq<Redirection>, parts: seq<Part>, rest: seq<Token>)
    ensures SimpleThen(Words(reds, parts), rest) == RedsThen(reds, PartsThen(parts, rest))
  {
  }

  lemma OnePart(parts: seq<Part>, k: nat)
    requires k <= |parts|
    ensures k < |parts| ==>
              && parts[k..] != [] && parts[k..][0] == parts[k] && parts[k..][1..] == parts[k + 1..]
              && parts[..k] + [parts[k]] == parts[..k + 1]
    ensures k == |parts| ==> parts[k..] == []
  {
  }

  lemma NoParts(text: string, list: seq<Red<Span>>, reds: seq<Redirection>, rest: seq<Token>)
    requires PlacedReds(text, list) && ReadReds(text, list) == OpenedAll(reds)
    ensures PartsThen([], rest) == rest && Sofar(text, [], list, reds, [])
  {
    assert reds + RedsOf([]) == reds;
    assert ReadWords(text, []) == WordsOf([]) == [];
  }

  /** One word with its redirections is added. */
  lemma OneMore(text: string, args: seq<Span>, word: Span, list: seq<Red<Span>>, added: seq<Red<Span>>,
      reds: seq<Redirection>, parts: seq<Part>, p: Part)
    requires Sofar(text, args, list, reds, parts) && SpanOk(text, word) && p.word == ReadWord(text, word)
    requires PlacedReds(text, added) && LegalReds(p.reds) && ReadReds(text, added) == OpenedAll(p.reds)
    ensures Sofar(text, args + [word], list + added, reds, parts + [p])
  {
    hide RedsOf, LegalWord;
    WordLegal(text, word);
    WordsJoin(text, args, word, parts, p);
    LastReds(parts, p);
    assert reds + RedsOf(parts + [p]) == (reds + RedsOf(parts)) + p.reds;
    assert OpenedAll((reds + RedsOf(parts)) + p.reds) == OpenedAll(reds + RedsOf(parts)) + OpenedAll(p.reds);
    assert ReadReds(text, list + added) == ReadReds(text, list) + ReadReds(text, added);
  }

  lemma WordsJoin(text: string, args: seq<Span>, word: Span, parts: seq<Part>, p: Part)
    requires (forall i :: 0 <= i < |args| ==> SpanOk(text, args[i])) && SpanOk(text, word)
    requires ReadWords(text, args) == WordsOf(parts) && p.word == ReadWord(text, word)
    ensures forall i :: 0 <= i < |args + [word]| ==> SpanOk(text, (args + [word])[i])
    ensures ReadWords(text, args + [word]) == WordsOf(parts + [p])
  {
    hide SpanOk, ReadWord;
    assert |args| == |parts|;
    assert ReadWords(text, args + [word]) == ReadWords(text, args) + [ReadWord(text, word)];
    assert WordsOf(parts + [p]) == WordsOf(parts) + [p.word];
  }

  lemma WordsRead(text: string, args: seq<Span>, list: seq<Red<Span>>, c: Simple)
    requires c.Words? && |args| < MAXARGS && Sofar(text, args, list, c.reds, c.parts) && LegalReds(c.reds)
    ensures Placed(text, Wrap(Exec(args), list)) && Read(text, Wrap(Exec(args), list)) == SimpleTree(c)
    ensures LegalSimple(c)
  {
    WrapReads(text, Exec(args), list);
  }

  // ----- no text has two meanings

  lemma {:induction false} RedsUnique(a: seq<Redirection>, r: seq<Token>, b: seq<Redirection>, q: seq<Token>)
    requires RedsThen(a, r) == RedsThen(b, q) && !Starts(r, "<>") && !Starts(q, "<>")
    ensures a == b && r == q
  {
    RedsStart(a, r);
    RedsStart(b, q);
    if a != [] && b != [] {
      ArrowsDiffer(a[0].arrow, b[0].arrow);
      RedsUnique(a[1..], r, b[1..], q);
      assert a == [a[0]] + a[1..] && b == [b[0]] + b[1..];
    }
  }

  lemma ArrowsDiffer(x: Arrow, y: Arrow)
    ensures ArrowChar(x) == ArrowChar(y) ==> x == y
  {
  }

  lemma {:induction false} PartsUnique(a: seq<Part>, r: seq<Token>, b: seq<Part>, q: seq<Token>)
    requires PartsThen(a, r) == PartsThen(b, q) && Ends(r, "|)&;") && Ends(q, "|)&;")
    ensures a == b && r == q
  {
    PartsStart(a, r);
    PartsStart(b, q);
    if a != [] && b != [] {
      PartsStart(a[1..], r);
      PartsStart(b[1..], q);
      RedsUnique(a[0].reds, PartsThen(a[1..], r), b[0].reds, PartsThen(b[1..], q));
      PartsUnique(a[1..], r, b[1..], q);
      assert a == [a[0]] + a[1..] && b == [b[0]] + b[1..];
    }
  }

  lemma {:induction false} MarksUnique(n: nat, r: seq<Token>, m: nat, q: seq<Token>)
    requires Marks(n, r) == Marks(m, q) && !Starts(r, "&") && !Starts(q, "&")
    ensures n == m && r == q
  {
    MarksStart(n, r);
    MarksStart(m, q);
    if n > 0 && m > 0 {
      assert Marks(n, r)[1..] == Marks(n - 1, r) && Marks(m, q)[1..] == Marks(m - 1, q);
      MarksUnique(n - 1, r, m - 1, q);
    }
  }

  lemma {:induction false} SimpleUnique(c: Simple, r: seq<Token>, d: Simple, q: seq<Token>)
    requires SimpleThen(c, r) == SimpleThen(d, q) && Ends(r, "|)&;") && Ends(q, "|)&;")
    ensures c == d && r == q
    decreases c
  {
    SimpleStart(c, r);
    SimpleStart(d, q);
    if c.Words? {
      PartsStart(c.parts, r);
      PartsStart(d.parts, q);
      RedsUnique(c.reds, PartsThen(c.parts, r), d.reds, PartsThen(d.parts, q));
      PartsUnique(c.parts, r, d.parts, q);
    } else {
      var cs, ds := [Sym(')')] + RedsThen(c.reds, r), [Sym(')')] + RedsThen(d.reds, q);
      assert SimpleThen(c, r)[1..] == LineThen(c.line, cs) && SimpleThen(d, q)[1..] == LineThen(d.line, ds);
      LineUnique(c.line, cs, d.line, ds);
      assert cs[1..] == RedsThen(c.reds, r) && ds[1..] == RedsThen(d.reds, q);
      RedsUnique(c.reds, r, d.reds, q);
    }
  }

  lemma {:induction false} PipelineUnique(c: Pipeline, r: seq<Token>, d: Pipeline, q: seq<Token>)
    requires PipelineThen(c, r) == PipelineThen(d, q) && Ends(r, ")&;") && Ends(q, ")&;")
    ensures c == d && r == q
    decreases c
  {
    hide SimpleThen;
    var cs := if c.Then? then [Sym('|')] + PipelineThen(c.next, r) else r;
    var ds := if d.Then? then [Sym('|')] + PipelineThen(d.next, q) else q;
    SimpleUnique(c.cmd, cs, d.cmd, ds);
    if c.Then? && d.Then? {
      assert cs[1..] == PipelineThen(c.next, r) && ds[1..] == PipelineThen(d.next, q);
      PipelineUnique(c.next, r, d.next, q);
    }
  }

  /** A list of tokens is that of one line at most. */
  lemma {:induction false} LineUnique(l: Line, r: seq<Token>, m: Line, q: seq<Token>)
    requires LineThen(l, r) == LineThen(m, q) && Ends(r, ")") && Ends(q, ")")
    ensures l == m && r == q
    decreases l
  {
    hide PipelineThen;
    var ls := if l.Semi? then [Sym(';')] + LineThen(l.next, r) else r;
    var ms := if m.Semi? then [Sym(';')] + LineThen(m.next, q) else q;
    MarksStart(l.ands, ls);
    MarksStart(m.ands, ms);
    PipelineUnique(l.pipe, Marks(l.ands, ls), m.pipe, Marks(m.ands, ms));
    MarksUnique(l.ands, ls, m.ands, ms);
    if l.Semi? && m.Semi? {
      assert ls[1..] == LineThen(l.next, r) && ms[1..] == LineThen(m.next, q);
      LineUnique(l.next, r, m.next, q);
    }
  }

  /** The text is that of a legal line. */
  ghost predicate Writes(text: string, l: Line) {
    LegalText(text) && Lex(text) == LineThen(l, []) && LegalLine(l)
  }

  /** A text parses if and only if it is that of a legal line, and then to the tree of that line. */
  method Parse(text: string) returns (r: Result<Cmd<Span>>)
    requires LegalText(text)
    ensures r.Ok? <==> exists l :: Writes(text, l)
    ensures r.Ok? ==> Placed(text, r.value)
    ensures forall l :: Writes(text, l) ==> r.Ok? && Read(text, r.value) == LineTree(l)
  {
    ghost var known := exists l :: Writes(text, l);
    ghost var l0 := NOTHING;
    if known {
      l0 :| Writes(text, l0);
    }
    var p := new Parser(text);
    ghost var got;
    r, got := p.ParseCmd(l0);
    if r.Ok? {
      assert Writes(text, got);
    }
    forall l | Writes(text, l)
      ensures r.Ok? && l == got
    {
      LineUnique(l, [], l0, []);
    }
  }

  /** Round trip: every legal command tree has a text, and parsing that gives the tree back. */
  method ParseWritten(ghost t: Cmd<string>, text: string) returns (r: Result<Cmd<Span>>)
    requires Legal(t) && text == Text(LineThen(LineFor(t), []))
    ensures r.Ok? && Placed(text, r.value) && Read(text, r.value) == t
  {
    TreeOfLineFor(t);
    LineLexes(LineFor(t));
    r := Parse(text);
    assert Writes(text, LineFor(t));
  }

  // ----- a sample

  function Name(w: string): Simple {
    Words([], [Part(w, [])])
  }

  lemma NameThen(w: string, rest: seq<Token>)
    requires LegalWord(w)
    ensures SimpleThen(Name(w), rest) == [Word(w)] + rest && LegalSimple(Name(w)) && SimpleTree(Name(w)) == Exec([w])
  {
    var parts := [Part(w, [])];
    assert parts[1..] == [] && RedsOf(parts) == [] + RedsOf([]) == [];
    assert OpenedAll([] + RedsOf(parts)) == [] && WordsOf(parts) == [w];
    assert RedsThen([], PartsThen([], rest)) == rest;
  }

  lemma OneRedThen(r: Redirection, rest: seq<Token>)
    ensures RedsThen([r], rest) == [Sym(ArrowChar(r.arrow)), Word(r.file)] + rest
    ensures OpenedAll([r]) == [Opened(r)]
  {
    assert [r][1..] == [];
  }

  /** "< f a >> g" */
  const SAMPLE_FIRST: Simple := Words([Redirection(In, "f")], [Part("a", [Redirection(Append, "g")])])

  lemma SampleFirst(rest: seq<Token>)
    ensures SimpleThen(SAMPLE_FIRST, rest) == [Sym('<'), Word("f"), Word("a"), Sym('+'), Word("g")] + rest
    ensures LegalSimple(SAMPLE_FIRST) && SimpleTree(SAMPLE_FIRST) == Redir(Redir(Exec(["a"]), "f", false), "g", true)
  {
    assert LegalWord("f") && LegalWord("a") && LegalWord("g");
    var f, g := Redirection(In, "f"), Redirection(Append, "g");
    var parts := [Part("a", [g])];
    assert parts[1..] == [] && PartsThen([], rest) == rest;
    OneRedThen(g, rest);
    assert PartsThen(parts, rest) == [Word("a")] + RedsThen([g], rest);
    OneRedThen(f, PartsThen(parts, rest));
    LastReds([], parts[0]);
    assert [] + parts == parts && RedsOf(parts) == [g];
    LastWrapped(Exec(["a"]), [f], g);
    LastWrapped(Exec(["a"]), [], f);
    assert WordsOf(parts) == ["a"] && [] + [f] == [f] && OpenedAll([]) == [];
  }

  /** "( c ) > h" */
  const SAMPLE_LAST: Simple := Block(End(Last(Name("c")), 0), [Redirection(Out, "h")])

  lemma SampleLast(rest: seq<Token>)
    ensures SimpleThen(SAMPLE_LAST, rest) == [Sym('('), Word("c"), Sym(')'), Sym('>'), Word("h")] + rest
    ensures LegalSimple(SAMPLE_LAST) && SimpleTree(SAMPLE_LAST) == Redir(Exec(["c"]), "h", true)
  {
    var h := Redirection(Out, "h");
    OneRedThen(h, rest);
    var more := [Sym(')')] + RedsThen([h], rest);
    NameThen("c", more);
    assert LineThen(SAMPLE_LAST.line, more) == SimpleThen(Name("c"), more);
    LastWrapped(Exec(["c"]), [], h);
    assert [] + [h] == [h] && OpenedAll([]) == [];
  }

  const SAMPLE: Line := Semi(Then(SAMPLE_FIRST, Last(Name("b"))), 1, End(Last(SAMPLE_LAST), 0))

  lemma SampleLine()
    ensures LineThen(SAMPLE, []) == [Sym('<'), Word("f"), Word("a"), Sym('+'), Word("g"), Sym('|'), Word("b"), Sym('&'),
                                     Sym(';'), Sym('('), Word("c"), Sym(')'), Sym('>'), Word("h")]
    ensures LegalLine(SAMPLE)
    ensures LineTree(SAMPLE) == List(Back(Pipe(Redir(Redir(Exec(["a"]), "f", false), "g", true), Exec(["b"]))),
                                     Redir(Exec(["c"]), "h", true))
  {
    hide SimpleThen, SimpleTree, LegalSimple;
    SampleLast([]);
    var last := [Sym(';')] + LineThen(End(Last(SAMPLE_LAST), 0), []);
    assert last == [Sym(';')] + SimpleThen(SAMPLE_LAST, []);
    MarksStart(1, last);
    MarksStart(0, last);
    NameThen("b", Marks(1, last));
    SampleFirst([Sym('|')] + SimpleThen(Name("b"), Marks(1, last)));
    assert PipelineThen(Last(Name("b")), Marks(1, last)) == SimpleThen(Name("b"), Marks(1, last));
  }

  /** "< f a >> g | b & ; ( c ) > h": redirections around words and blocks, `>>` like `>`, and every
      kind of command. */
  method ParseSample(text: string) returns (r: Result<Cmd<Span>>)
    requires LegalText(text)
    requires Lex(text) == [Sym('<'), Word("f"), Word("a"), Sym('+'), Word("g"), Sym('|'), Word("b"), Sym('&'), Sym(';'),
                           Sym('('), Word("c"), Sym(')'), Sym('>'), Word("h")]
    ensures r.Ok? && Placed(text, r.value)
    ensures Read(text, r.value) == List(Back(Pipe(Redir(Redir(Exec(["a"]), "f", false), "g", true), Exec(["b"]))),
                                        Redir(Exec(["c"]), "h", true))
  {
    SampleLine();
    r := Parse(text);
    assert Writes(text, SAMPLE);
  }

  // ----- terminating the words in place

  /** The buffer is the text and a NUL, except that some characters that end words may be NUL. */
  ghost predicate Cleaned(b: string, text: string) {
    && |b| == |text| + 1 && b[|text|] == NUL
    && forall i :: 0 <= i < |text| ==> b[i] == text[i] || (b[i] == NUL && !WordChar(text[i]))
  }

  predicate Ended(b: string, x: Span) {
    x.eq < |b| && b[x.eq] == NUL
  }

  predicate Terminated(b: string, c: Cmd<Span>) {
    match c
    case Exec(args) => forall i :: 0 <= i < |args| ==> Ended(b, args[i])
    case Redir(d, file, _) => Terminated(b, d) && Ended(b, file)
    case Pipe(l, r) => Terminated(b, l) && Terminated(b, r)
    case List(l, r) => Terminated(b, l) && Terminated(b, r)
    case Back(d) => Terminated(b, d)
  }

  ghost predicate MoreNuls(b: string, b': string) {
    |b'| == |b| && forall i :: 0 <= i < |b| ==> b'[i] == b[i] || b'[i] == NUL
  }

  lemma {:induction false} StaysTerminated(b: string, b': string, c: Cmd<Span>)
    requires Terminated(b, c) && MoreNuls(b, b')
    ensures Terminated(b', c)
  {
    match c
    case Exec(args) =>
      forall i | 0 <= i < |args|
        ensures Ended(b', args[i])
      {
        assert Ended(b, args[i]);
      }
    case Redir(d, file, _) => StaysTerminated(b, b', d);
    case Pipe(l, r) =>
      StaysTerminated(b, b', l);
      StaysTerminated(b, b', r);
    case List(l, r) =>
      StaysTerminated(b, b', l);
      StaysTerminated(b, b', r);
    case Back(d) => StaysTerminated(b, b', d);
  }

  /** Writes a NUL after every word of the command (sh.c:450-493); no word is damaged. */
  method NulTerminate(c: Cmd<Span>, buf: array<char>, ghost text: string)
    requires Cleaned(buf[..], text) && Placed(text, c)
    modifies buf
    ensures Cleaned(buf[..], text) && Terminated(buf[..], c) && MoreNuls(old(buf[..]), buf[..])
    decreases c
  {
    match c
    case Exec(args) =>
      var i := 0;
      while i < |args|
        invariant 0 <= i <= |args|
        invariant Cleaned(buf[..], text) && MoreNuls(old(buf[..]), buf[..])
        invariant forall j :: 0 <= j < i ==> Ended(buf[..], args[j])
      {
        assert SpanOk(text, args[i]);
        buf[args[i].eq] := NUL;
        i := i + 1;
      }
    case Redir(d, file, _) =>
      NulTerminate(d, buf, text);
      ghost var b := buf[..];
      buf[file.eq] := NUL;
      StaysTerminated(b, buf[..], d);
    case Pipe(l, r) =>
      NulTerminate(l, buf, text);
      ghost var b := buf[..];
      NulTerminate(r, buf, text);
      StaysTerminated(b, buf[..], l);
    case List(l, r) =>
      NulTerminate(l, buf, text);
      ghost var b := buf[..];
      NulTerminate(r, buf, text);
      StaysTerminated(b, buf[..], l);
    case Back(d) =>
      NulTerminate(d, buf, text);
  }

  /** The C string that starts at q. */
  function CString(b: string, q: nat): string
    decreases |b| - q
  {
    if q < |b| && b[q] != NUL then [b[q]] + CString(b, q + 1) else ""
  }

  function Strings(b: string, c: Cmd<Span>): Cmd<string> {
    match c
    case Exec(args) => Exec(seq(|args|, i requires 0 <= i < |args| => CString(b, args[i].q)))
    case Redir(d, file, output) => Redir(Strings(b, d), CString(b, file.q), output)
    case Pipe(l, r) => Pipe(Strings(b, l), Strings(b, r))
    case List(l, r) => List(Strings(b, l), Strings(b, r))
    case Back(d) => Back(Strings(b, d))
  }

  lemma {:induction false} WordIsString(b: string, text: string, x: Span)
    requires Cleaned(b, text) && x.q <= x.eq <= |text| && Ended(b, x)
    requires forall i :: x.q <= i < x.eq ==> WordChar(text[i])
    ensures CString(b, x.q) == text[x.q..x.eq]
    decreases x.eq - x.q
  {
    if x.q < x.eq {
      assert b[x.q] == text[x.q];
      WordIsString(b, text, Span(x.q + 1, x.eq));
    }
  }

  /** After that, the words as C strings are the words that were parsed. */
  lemma {:induction false} StringsAre(b: string, text: string, c: Cmd<Span>)
    requires Cleaned(b, text) && Placed(text, c) && Terminated(b, c)
    ensures Strings(b, c) == Read(text, c)
  {
    match c
    case Exec(args) =>
      forall i | 0 <= i < |args|
        ensures CString(b, args[i].q) == ReadWord(text, args[i])
      {
        assert SpanOk(text, args[i]) && Ended(b, args[i]);
        WordIsString(b, text, args[i]);
      }
    case Redir(d, file, _) =>
      StringsAre(b, text, d);
      WordIsString(b, text, file);
    case Pipe(l, r) =>
      StringsAre(b, text, l);
      StringsAre(b, text, r);
    case List(l, r) =>
      StringsAre(b, text, l);
      StringsAre(b, text, r);
    case Back(d) =>
      StringsAre(b, text, d);
  }

  /** parsecmd: parses the buffer and terminates the words in it. The tree over the buffer is then the
      tree of C strings that was written there. */
  method ParseInPlace(buf: array<char>) returns (r: Result<Cmd<Span>>)
    requires buf.Length > 0 && buf[buf.Length - 1] == NUL && LegalText(buf[..buf.Length - 1])
    modifies buf
    ensures var text := old(buf[..buf.Length - 1]);
            && (r.Ok? <==> exists l :: Writes(text, l))
            && forall l :: Writes(text, l) ==> r.Ok? && Strings(buf[..], r.value) == LineTree(l)
    ensures r.Ok? ==> Legal(Strings(buf[..], r.value))
    ensures r.Panic? ==> buf[..] == old(buf[..])
  {
    ghost var text := buf[..buf.Length - 1];
    r := Parse(buf[..buf.Length - 1]);
    if r.Ok? {
      NulTerminate(r.value, buf, text);
      StringsAre(buf[..], text, r.value);
    }
  }
}
