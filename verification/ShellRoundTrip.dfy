/**
 What the shell's parser accepts, and what it makes of it: the grammar of command lines, the command tree that a line
 of the grammar stands for, and the proof that parsing any spelling of the line gives that tree.
 */
module ShellRoundTrip {
  import opened ShellSpec

  // ----- the grammar -----

  /** A word of a command, or a redirection: op is '<', '>', or '+' for ">>". */
  datatype Item = Arg(word: string) | Into(op: char, file: string)

  /** A command with its words and redirections in any order, or a line in parentheses with redirections behind it. */
  datatype Stage = Simple(items: seq<Item>) | Block(line: CommandLine, redirs: seq<Item>)

  datatype Pipeline = Only(stage: Stage) | Piped(stage: Stage, rest: Pipeline)

  /** A pipeline with some "&" behind it, and perhaps a ";" and another line. */
  datatype CommandLine = Last(pipe: Pipeline, amps: nat) | Then(pipe: Pipeline, amps: nat, rest: CommandLine)

  predicate IsBlank(c: char) {
    c in {' ', '\t', '\r', '\n', '\U{000b}'}
  }

  predicate Blank(g: string) {
    forall i :: 0 <= i < |g| ==> IsBlank(g[i])
  }

  /** A non-empty word without blanks and symbols. */
  predicate PlainWord(w: string) {
    w != "" && forall i :: 0 <= i < |w| ==> !IsBlank(w[i]) && w[i] !in {'<', '|', '>', '&', ';', '(', ')', '\0'}
  }

  predicate GoodItem(i: Item) {
    match i
    case Arg(word) => PlainWord(word)
    case Into(op, file) => op in {'<', '>', '+'} && PlainWord(file)
  }

  predicate GoodItems(items: seq<Item>) {
    forall i :: 0 <= i < |items| ==> GoodItem(items[i])
  }

  predicate AllInto(items: seq<Item>) {
    forall i :: 0 <= i < |items| ==> items[i].Into?
  }

  predicate GoodStage(st: Stage) {
    match st
    case Simple(items) => GoodItems(items)
    case Block(line, redirs) => GoodLine(line) && GoodItems(redirs) && AllInto(redirs)
  }

  predicate GoodPipe(pl: Pipeline) {
    GoodStage(pl.stage) && (pl.Piped? ==> GoodPipe(pl.rest))
  }

  predicate GoodLine(l: CommandLine) {
    GoodPipe(l.pipe) && (l.Then? ==> GoodLine(l.rest))
  }

  // ----- the command tree of a line -----

  /** A command tree with the words themselves in place of pointers into the line. */
  datatype Tree =
    | TExec(args: seq<string>)
    | TRedir(sub: Tree, file: string, input: bool)
    | TPipe(left: Tree, right: Tree)
    | TList(left: Tree, right: Tree)
    | TBack(sub: Tree)

  /** A word goes to the command inside the redirections. */
  function AddWord(t: Tree, w: string): Tree {
    match t
    case TExec(args) => TExec(args + [w])
    case TRedir(sub, file, input) => TRedir(AddWord(sub, w), file, input)
    case _ => t
  }

  /** A redirection goes around everything before it. */
  function AddItem(t: Tree, i: Item): Tree {
    match i
    case Arg(word) => AddWord(t, word)
    case Into(op, file) => TRedir(t, file, op == '<')
  }

  function AddItems(t: Tree, items: seq<Item>): Tree
    decreases |items|
  {
    if items == [] then t else AddItems(AddItem(t, items[0]), items[1..])
  }

  function InBackground(t: Tree, amps: nat): Tree
    decreases amps
  {
    if amps == 0 then t else InBackground(TBack(t), amps - 1)
  }

  function StageTree(st: Stage): Tree {
    match st
    case Simple(items) => AddItems(TExec([]), items)
    case Block(line, redirs) => AddItems(LineTree(line), redirs)
  }

  function PipeTree(pl: Pipeline): Tree {
    match pl
    case Only(st) => StageTree(st)
    case Piped(st, rest) => TPipe(StageTree(st), PipeTree(rest))
  }

  function LineTree(l: CommandLine): Tree {
    match l
    case Last(pl, amps) => InBackground(PipeTree(pl), amps)
    case Then(pl, amps, rest) => TList(InBackground(PipeTree(pl), amps), LineTree(rest))
  }

  function WordsIn(items: seq<Item>): seq<string> {
    if items == [] then []
    else (if items[0].Arg? then [items[0].word] else []) + WordsIn(items[1..])
  }

  /** No command has more words than argv has room for besides its terminating zero. */
  predicate StageFits(st: Stage) {
    match st
    case Simple(items) => |WordsIn(items)| <= 9
    case Block(line, _) => LineFits(line)
  }

  predicate PipeFits(pl: Pipeline) {
    StageFits(pl.stage) && (pl.Piped? ==> PipeFits(pl.rest))
  }

  predicate LineFits(l: CommandLine) {
    PipeFits(l.pipe) && (l.Then? ==> LineFits(l.rest))
  }

  // ----- the tokens of a line -----

  datatype Tok = Word(text: string) | Sym(c: char)

  function ItemToks(i: Item): seq<Tok> {
    match i
    case Arg(word) => [Word(word)]
    case Into(op, file) => [Sym(op), Word(file)]
  }

  function ItemsToks(items: seq<Item>): seq<Tok> {
    if items == [] then [] else ItemToks(items[0]) + ItemsToks(items[1..])
  }

  function Amps(n: nat): seq<Tok> {
    if n == 0 then [] else [Sym('&')] + Amps(n - 1)
  }

  function StageToks(st: Stage): seq<Tok> {
    match st
    case Simple(items) => ItemsToks(items)
    case Block(line, redirs) => [Sym('(')] + (LineToks(line) + ([Sym(')')] + ItemsToks(redirs)))
  }

  function PipeToks(pl: Pipeline): seq<Tok> {
    match pl
    case Only(st) => StageToks(st)
    case Piped(st, rest) => StageToks(st) + ([Sym('|')] + PipeToks(rest))
  }

  function LineToks(l: CommandLine): seq<Tok> {
    match l
    case Last(pl, amps) => PipeToks(pl) + Amps(amps)
    case Then(pl, amps, rest) => PipeToks(pl) + (Amps(amps) + ([Sym(';')] + LineToks(rest)))
  }

  // ----- reading tokens -----

  function Kind(t: Tok): char {
    if t.Word? then 'a' else t.c
  }

  /** From p on the line has these tokens, and then, behind the blanks, goes on at e. */
  predicate Reads(s: Line, p: nat, toks: seq<Tok>, e: nat)
    requires p <= |s|
    decreases |toks|
  {
    if toks == [] then e == SkipSpace(s, p)
    else
      var t := GetToken(s, p);
      t.kind == Kind(toks[0]) && (toks[0].Word? ==> s[t.q..t.eq] == toks[0].text) && Reads(s, t.next, toks[1..], e)
  }

  lemma {:induction false} SkipTwice(s: Line, p: nat)
    requires p <= |s|
    ensures SkipSpace(s, SkipSpace(s, p)) == SkipSpace(s, p) && GetToken(s, SkipSpace(s, p)) == GetToken(s, p)
  {
  }

  lemma ReadsFromNext(s: Line, p: nat, toks: seq<Tok>, e: nat)
    requires p <= |s| && Reads(s, p, toks, e)
    ensures Reads(s, SkipSpace(s, p), toks, e) && e <= |s| && SkipSpace(s, e) == e
    decreases |toks|
  {
    hide GetToken, SkipSpace;
    SkipTwice(s, p);
    if toks != [] {
      ReadsFromNext(s, GetToken(s, p).next, toks[1..], e);
    }
  }

  /** Where the first tokens end, the others begin. */
  lemma {:induction false} ReadsApart(s: Line, p: nat, a: seq<Tok>, b: seq<Tok>, e: nat) returns (m: nat)
    requires p <= |s| && Reads(s, p, a + b, e)
    ensures m <= |s| && Reads(s, p, a, m) && Reads(s, m, b, e) && e <= |s|
    decreases |a|
  {
    hide GetToken, SkipSpace;
    if a == [] {
      assert a + b == b;
      m := SkipSpace(s, p);
      ReadsFromNext(s, p, b, e);
    } else {
      assert (a + b)[1..] == a[1..] + b;
      m := ReadsApart(s, GetToken(s, p).next, a[1..], b, e);
    }
  }

  /** The kind of the next token. */
  function NextKind(s: Line, p: nat): char
    requires p <= |s|
  {
    GetToken(s, p).kind
  }

  lemma FirstKind(s: Line, p: nat, t: Tok, rest: seq<Tok>, e: nat)
    requires p <= |s| && Reads(s, p, [t] + rest, e)
    ensures NextKind(s, p) == Kind(t) && Reads(s, GetToken(s, p).next, rest, e)
    ensures t.Word? ==> var k := GetToken(s, p); s[k.q..k.eq] == t.text
  {
    hide GetToken, SkipSpace;
    assert ([t] + rest)[1..] == rest;
  }

  lemma NoTokens(s: Line, p: nat, e: nat)
    requires p <= |s| && Reads(s, p, [], e)
    ensures e == SkipSpace(s, p) <= |s| && NextKind(s, p) == NextKind(s, e)
  {
    SkipTwice(s, p);
  }

  lemma Peeks(s: Line, p: nat)
    requires p <= |s|
    ensures var k := NextKind(s, p);
      && (Peek(s, p, {'<', '>'}) <==> k in {'<', '>', '+'})
      && (Peek(s, p, {'|', ')', '&', ';'}) <==> k in {'|', ')', '&', ';'})
      && (Peek(s, p, {'('}) <==> k == '(') && (Peek(s, p, {')'}) <==> k == ')') && (Peek(s, p, {'|'}) <==> k == '|')
      && (Peek(s, p, {'&'}) <==> k == '&') && (Peek(s, p, {';'}) <==> k == ';')
  {
  }

  lemma AtTheEnd(s: Line, p: nat)
    requires p <= |s| && NextKind(s, p) == '\0'
    ensures SkipSpace(s, p) == |s| && GetToken(s, p).next == |s|
  {
  }

  // ----- redirections and words -----

  function Text(s: Line, w: (nat, nat)): string {
    if w.0 <= w.1 <= |s| then s[w.0..w.1] else ""
  }

  function Texts(s: Line, ws: seq<(nat, nat)>): (r: seq<string>)
    ensures |r| == |ws|
  {
    if ws == [] then [] else [Text(s, ws[0])] + Texts(s, ws[1..])
  }

  /** The tree a parsed command stands for, each word read from the line. */
  function Read(s: Line, c: Cmd): Tree {
    match c
    case Exec(args) => TExec(Texts(s, args))
    case Redir(sub, file, input) => TRedir(Read(s, sub), Text(s, file), input)
    case Pipe(l, r) => TPipe(Read(s, l), Read(s, r))
    case List(l, r) => TList(Read(s, l), Read(s, r))
    case Back(sub) => TBack(Read(s, sub))
  }

  /** The redirections among the items, and those that were parsed. */
  function FilesIn(items: seq<Item>): seq<(string, bool)> {
    if items == [] then []
    else (if items[0].Into? then [(items[0].file, items[0].op == '<')] else []) + FilesIn(items[1..])
  }

  function Files(s: Line, rs: seq<Redirection>): seq<(string, bool)> {
    if rs == [] then [] else [(Text(s, rs[0].file), rs[0].input)] + Files(s, rs[1..])
  }

  lemma {:induction false} FilesTwo(s: Line, a: seq<Redirection>, b: seq<Redirection>)
    ensures Files(s, a + b) == Files(s, a) + Files(s, b)
    decreases |a|
  {
    if a == [] {
      assert a + b == b;
    } else {
      assert (a + b)[1..] == a[1..] + b;
      FilesTwo(s, a[1..], b);
    }
  }

  lemma Associative<T>(a: seq<T>, b: seq<T>, c: seq<T>)
    ensures a + (b + c) == (a + b) + c
  {
  }

  lemma ItemsFirst(i: Item, items: seq<Item>)
    ensures ItemsToks([i] + items) == ItemToks(i) + ItemsToks(items)
    ensures WordsIn([i] + items) == (if i.Arg? then [i.word] else []) + WordsIn(items)
    ensures FilesIn([i] + items) == (if i.Into? then [(i.file, i.op == '<')] else []) + FilesIn(items)
  {
    assert ([i] + items)[1..] == items;
  }

  lemma {:induction false} ItemsTwo(a: seq<Item>, b: seq<Item>)
    ensures ItemsToks(a + b) == ItemsToks(a) + ItemsToks(b)
    ensures WordsIn(a + b) == WordsIn(a) + WordsIn(b) && FilesIn(a + b) == FilesIn(a) + FilesIn(b)
    decreases |a|
  {
    if a == [] {
      assert a + b == b;
    } else {
      var i, tail := a[0], a[1..];
      assert a + b == [i] + (tail + b) && a == [i] + tail;
      ItemsFirst(i, tail + b);
      ItemsFirst(i, tail);
      ItemsTwo(tail, b);
      hide ItemsToks, WordsIn, FilesIn, ItemToks;
      Associative(ItemToks(i), ItemsToks(tail), ItemsToks(b));
      Associative(if i.Arg? then [i.word] else [], WordsIn(tail), WordsIn(b));
      Associative(if i.Into? then [(i.file, i.op == '<')] else [], FilesIn(tail), FilesIn(b));
    }
  }

  /** Redirections are read up to the next token that is none. */
  lemma {:induction false} ReadsRedirs(s: Line, p: nat, items: seq<Item>, e: nat)
    requires p <= |s| && Reads(s, p, ItemsToks(items), e) && GoodItems(items) && AllInto(items)
    requires e <= |s| && NextKind(s, e) !in {'<', '>', '+'}
    ensures var r := ParseRedirs(s, p);
      r.ROk? && r.next == e && Files(s, r.redirs) == FilesIn(items) && WordsIn(items) == []
    decreases |items|
  {
    hide GetToken, SkipSpace, Peek;
    Peeks(s, p);
    if items == [] {
      NoTokens(s, p, e);
    } else {
      var Into(op, file) := items[0];
      assert GoodItem(items[0]);
      assert ItemsToks(items) == [Sym(op)] + ([Word(file)] + ItemsToks(items[1..]));
      FirstKind(s, p, Sym(op), [Word(file)] + ItemsToks(items[1..]), e);
      var p1 := GetToken(s, p).next;
      FirstKind(s, p1, Word(file), ItemsToks(items[1..]), e);
      ReadsRedirs(s, GetToken(s, p1).next, items[1..], e);
      var k := GetToken(s, p1);
      var first := Redirection((k.q, k.eq), op == '<');
      FilesFirst(s, first, ParseRedirs(s, k.next).redirs);
    }
  }

  lemma FilesFirst(s: Line, r: Redirection, rs: seq<Redirection>)
    ensures Files(s, [r] + rs) == [(Text(s, r.file), r.input)] + Files(s, rs)
  {
    assert ([r] + rs)[1..] == rs;
  }

  lemma TextsFirst(s: Line, w: (nat, nat), ws: seq<(nat, nat)>)
    ensures Texts(s, [w] + ws) == [Text(s, w)] + Texts(s, ws)
  {
    assert ([w] + ws)[1..] == ws;
  }

  /** How many redirections come before the first word. */
  function Leading(items: seq<Item>): (n: nat)
    ensures n <= |items| && AllInto(items[..n]) && (n < |items| ==> items[n].Arg?)
  {
    if items == [] || items[0].Arg? then 0
    else
      var n := Leading(items[1..]) + 1;
      assert forall i :: 0 < i < n ==> items[i] == items[1..][..n - 1][i - 1];
      n
  }

  /** The leading redirections are read, and the rest begins with a word or ends. */
  lemma ReadsLeading(s: Line, p: nat, items: seq<Item>, e: nat) returns (m: nat)
    requires p <= |s| && Reads(s, p, ItemsToks(items), e) && GoodItems(items)
    requires e <= |s| && NextKind(s, e) in {')', '|', ';', '&', '\0'}
    ensures
      var n, r := Leading(items), ParseRedirs(s, p);
      && r.ROk? && r.next == m <= |s| && Reads(s, m, ItemsToks(items[n..]), e) && GoodItems(items[n..])
      && (items[n..] == [] || items[n..][0].Arg?) && WordsIn(items[n..]) == WordsIn(items)
      && Files(s, r.redirs) + FilesIn(items[n..]) == FilesIn(items)
  {
    hide GetToken, SkipSpace, ParseRedirs, Reads, GoodItem;
    var n := Leading(items);
    var a, b := items[..n], items[n..];
    assert items == a + b;
    ItemsTwo(a, b);
    m := ReadsApart(s, p, ItemsToks(a), ItemsToks(b), e);
    if b == [] {
      NoTokens(s, m, e);
    } else {
      assert ItemsToks(b) == [Word(b[0].word)] + ItemsToks(b[1..]);
      FirstKind(s, m, Word(b[0].word), ItemsToks(b[1..]), e);
    }
    ReadsRedirs(s, p, a, m);
  }

  /** What the argument loop has to give for these items, with argc words already read. */
  predicate ArgsAre(s: Line, r: ArgsResult, argc: nat, items: seq<Item>, e: nat) {
    if argc + |WordsIn(items)| < MAXARGS then
      r.AOk? && r.next == e && Texts(s, r.args) == WordsIn(items) && Files(s, r.redirs) == FilesIn(items)
    else r.APanic?
  }

  lemma {:induction false} ReadsArgs(s: Line, p: nat, items: seq<Item>, argc: nat, e: nat)
    requires p <= |s| && Reads(s, p, ItemsToks(items), e) && GoodItems(items) && argc < MAXARGS
    requires items == [] || items[0].Arg?
    requires e <= |s| && NextKind(s, e) in {')', '|', ';', '&', '\0'}
    ensures ArgsAre(s, ParseArgs(s, p, argc), argc, items, e)
    decreases |items|
  {
    hide GetToken, SkipSpace, Peek, ParseRedirs, Reads, GoodItem;
    Peeks(s, p);
    if items == [] {
      NoTokens(s, p, e);
      if NextKind(s, p) == '\0' {
        AtTheEnd(s, p);
      }
    } else {
      var w, tail := items[0].word, items[1..];
      assert ItemsToks(items) == [Word(w)] + ItemsToks(tail);
      FirstKind(s, p, Word(w), ItemsToks(tail), e);
      var tok := GetToken(s, p);
      var m := ReadsLeading(s, tok.next, tail, e);
      var n := Leading(tail);
      if argc + 1 < MAXARGS {
        ReadsArgs(s, m, tail[n..], argc + 1, e);
      }
      FirstWord(s, p, argc, items, tail[n..], e);
    }
  }

  lemma FirstWord(s: Line, p: nat, argc: nat, items: seq<Item>, rest: seq<Item>, e: nat)
    requires p <= |s| && items != [] && items[0].Arg? && argc < MAXARGS
    requires var tok := GetToken(s, p);
      && tok.kind == 'a' && Text(s, (tok.q, tok.eq)) == items[0].word && !Peek(s, p, {'|', ')', '&', ';'})
      && var r := ParseRedirs(s, tok.next);
      && r.ROk? && WordsIn(rest) == WordsIn(items[1..]) && Files(s, r.redirs) + FilesIn(rest) == FilesIn(items[1..])
      && (argc + 1 < MAXARGS ==> ArgsAre(s, ParseArgs(s, r.next, argc + 1), argc + 1, rest, e))
    ensures ArgsAre(s, ParseArgs(s, p, argc), argc, items, e)
  {
    hide GetToken, SkipSpace, Peek, ParseRedirs, Text, WordsIn, FilesIn, Texts, Files;
    var tok := GetToken(s, p);
    var r := ParseRedirs(s, tok.next);
    assert items == [items[0]] + items[1..];
    ItemsFirst(items[0], items[1..]);
    if argc + 1 < MAXARGS {
      var more := ParseArgs(s, r.next, argc + 1);
      if more.AOk? {
        TextsFirst(s, (tok.q, tok.eq), more.args);
        FilesTwo(s, r.redirs, more.redirs);
      }
    }
  }

  // ----- nesting -----

  /** A tree inside redirections, the first one innermost. */
  function Nest(t: Tree, fs: seq<(string, bool)>): Tree
    decreases |fs|
  {
    if fs == [] then t else Nest(TRedir(t, fs[0].0, fs[0].1), fs[1..])
  }

  lemma {:induction false} NestOneMore(t: Tree, fs: seq<(string, bool)>, f: (string, bool))
    ensures Nest(t, fs + [f]) == TRedir(Nest(t, fs), f.0, f.1)
    decreases |fs|
  {
    if fs == [] {
      assert (fs + [f])[1..] == [];
    } else {
      assert (fs + [f])[1..] == fs[1..] + [f];
      NestOneMore(TRedir(t, fs[0].0, fs[0].1), fs[1..], f);
    }
  }

  lemma {:induction false} AddWordInside(t: Tree, fs: seq<(string, bool)>, w: string)
    ensures AddWord(Nest(t, fs), w) == Nest(AddWord(t, w), fs)
    decreases |fs|
  {
    if fs != [] {
      AddWordInside(TRedir(t, fs[0].0, fs[0].1), fs[1..], w);
    }
  }

  lemma {:induction false} ItemsNest(ws: seq<string>, fs: seq<(string, bool)>, items: seq<Item>)
    ensures AddItems(Nest(TExec(ws), fs), items) == Nest(TExec(ws + WordsIn(items)), fs + FilesIn(items))
    decreases |items|
  {
    if items == [] {
      assert ws + [] == ws && fs + [] == fs;
    } else if items[0].Arg? {
      var w := items[0].word;
      AddWordInside(TExec(ws), fs, w);
      ItemsNest(ws + [w], fs, items[1..]);
      Associative(ws, [w], WordsIn(items[1..]));
      assert FilesIn(items) == FilesIn(items[1..]);
    } else {
      var f := (items[0].file, items[0].op == '<');
      NestOneMore(TExec(ws), fs, f);
      ItemsNest(ws, fs + [f], items[1..]);
      Associative(fs, [f], FilesIn(items[1..]));
      assert WordsIn(items) == WordsIn(items[1..]);
    }
  }

  lemma {:induction false} RedirsNest(t: Tree, items: seq<Item>)
    requires AllInto(items)
    ensures AddItems(t, items) == Nest(t, FilesIn(items))
    decreases |items|
  {
    if items != [] {
      var f := (items[0].file, items[0].op == '<');
      assert FilesIn(items) == [f] + FilesIn(items[1..]) && ([f] + FilesIn(items[1..]))[1..] == FilesIn(items[1..]);
      RedirsNest(TRedir(t, f.0, f.1), items[1..]);
    }
  }

  lemma {:induction false} WrapNests(s: Line, c: Cmd, rs: seq<Redirection>)
    ensures Read(s, Wrap(c, rs)) == Nest(Read(s, c), Files(s, rs))
    decreases |rs|
  {
    if rs != [] {
      WrapNests(s, Redir(c, rs[0].file, rs[0].input), rs[1..]);
      assert Files(s, rs)[1..] == Files(s, rs[1..]);
    }
  }

  // ----- the whole grammar -----

  /** What parsing up to e must give. */
  predicate ReadsAs(s: Line, r: Result, t: Tree, fits: bool, e: nat) {
    if fits then r.Ok? && r.next == e && Read(s, r.cmd) == t else r.Panic?
  }

  lemma ReadSimple(s: Line, p: nat, items: seq<Item>, e: nat)
    requires p <= |s| && Reads(s, p, ItemsToks(items), e) && GoodItems(items)
    requires e <= |s| && NextKind(s, e) in {')', '|', ';', '&', '\0'}
    ensures ReadsAs(s, ParseExec(s, p), StageTree(Simple(items)), StageFits(Simple(items)), e)
  {
    hide GetToken, SkipSpace, Peek, ParseRedirs, ParseArgs, Reads, GoodItems, Wrap, Files, FilesIn, WordsIn,
      AddItems, Texts, ItemsToks;
    Peeks(s, p);
    NotBlock(s, p, items, e);
    var m := ReadsLeading(s, p, items, e);
    var rest := items[Leading(items)..];
    ReadsArgs(s, m, rest, 0, e);
    var rs, args := ParseRedirs(s, p), ParseArgs(s, m, 0);
    if args.AOk? {
      FilesTwo(s, rs.redirs, args.redirs);
      WrapNests(s, Exec(args.args), rs.redirs + args.redirs);
      ItemsNest([], [], items);
      assert [] + WordsIn(items) == WordsIn(items) && [] + FilesIn(items) == FilesIn(items);
    }
  }

  lemma NotBlock(s: Line, p: nat, items: seq<Item>, e: nat)
    requires p <= |s| && Reads(s, p, ItemsToks(items), e) && GoodItems(items)
    requires e <= |s| && NextKind(s, e) in {')', '|', ';', '&', '\0'}
    ensures NextKind(s, p) != '('
  {
    hide GetToken, SkipSpace;
    if items == [] {
      NoTokens(s, p, e);
    } else {
      assert GoodItem(items[0]);
      var toks := ItemsToks(items);
      assert toks == [toks[0]] + toks[1..];
      FirstKind(s, p, toks[0], toks[1..], e);
    }
  }

  lemma {:induction false} ReadStage(s: Line, p: nat, st: Stage, e: nat)
    requires p <= |s| && Reads(s, p, StageToks(st), e) && GoodStage(st)
    requires e <= |s| && NextKind(s, e) in {')', '|', ';', '&', '\0'}
    ensures ReadsAs(s, ParseExec(s, p), StageTree(st), StageFits(st), e)
    decreases st, 1
  {
    hide GetToken, SkipSpace, Peek, ParseRedirs, ParseLine, ParseExec, Reads, ReadsAs, LineToks, ItemsToks;
    match st
    case Simple(items) => ReadSimple(s, p, items, e);
    case Block(line, redirs) =>
      FirstKind(s, p, Sym('('), LineToks(line) + ([Sym(')')] + ItemsToks(redirs)), e);
      var p1 := GetToken(s, p).next;
      var m := ReadsApart(s, p1, LineToks(line), [Sym(')')] + ItemsToks(redirs), e);
      FirstKind(s, m, Sym(')'), ItemsToks(redirs), e);
      ReadLine(s, p1, line, m);
      ReadsRedirs(s, GetToken(s, m).next, redirs, e);
      ReadBlock(s, p, line, redirs, m, e);
  }

  lemma ReadBlock(s: Line, p: nat, line: CommandLine, redirs: seq<Item>, m: nat, e: nat)
    requires p <= |s| && m <= |s| && NextKind(s, p) == '(' && NextKind(s, m) == ')' && AllInto(redirs)
    requires ReadsAs(s, ParseLine(s, GetToken(s, p).next), LineTree(line), LineFits(line), m)
    requires var r := ParseRedirs(s, GetToken(s, m).next);
      r.ROk? && r.next == e && Files(s, r.redirs) == FilesIn(redirs)
    ensures ReadsAs(s, ParseExec(s, p), StageTree(Block(line, redirs)), StageFits(Block(line, redirs)), e)
  {
    hide GetToken, SkipSpace, Peek, ParseRedirs, ParseLine, Wrap;
    Peeks(s, p);
    Peeks(s, m);
    var inner := ParseLine(s, GetToken(s, p).next);
    if inner.Ok? {
      WrapNests(s, inner.cmd, ParseRedirs(s, GetToken(s, m).next).redirs);
      RedirsNest(LineTree(line), redirs);
    }
  }

  lemma {:induction false} ReadPipe(s: Line, p: nat, pl: Pipeline, e: nat)
    requires p <= |s| && Reads(s, p, PipeToks(pl), e) && GoodPipe(pl)
    requires e <= |s| && NextKind(s, e) in {')', ';', '&', '\0'}
    ensures ReadsAs(s, ParsePipe(s, p), PipeTree(pl), PipeFits(pl), e)
    decreases pl, 2
  {
    hide GetToken, SkipSpace, Peek, ParsePipe, ParseExec, Reads, ReadsAs, StageToks;
    match pl
    case Only(st) =>
      ReadStage(s, p, st, e);
      ReadsFromNext(s, p, StageToks(st), e);
      LastStage(s, p, st, e);
    case Piped(st, rest) =>
      var m := ReadsApart(s, p, StageToks(st), [Sym('|')] + PipeToks(rest), e);
      FirstKind(s, m, Sym('|'), PipeToks(rest), e);
      ReadStage(s, p, st, m);
      ReadPipe(s, GetToken(s, m).next, rest, e);
      FirstStage(s, p, st, m, rest, e);
  }

  lemma LastStage(s: Line, p: nat, st: Stage, e: nat)
    requires p <= |s| && e <= |s| && ReadsAs(s, ParseExec(s, p), StageTree(st), StageFits(st), e)
    requires NextKind(s, e) != '|' && SkipSpace(s, e) == e
    ensures ReadsAs(s, ParsePipe(s, p), StageTree(st), StageFits(st), e)
  {
    hide GetToken, SkipSpace, Peek, ParseExec;
    Peeks(s, e);
  }

  lemma FirstStage(s: Line, p: nat, st: Stage, m: nat, rest: Pipeline, e: nat)
    requires p <= |s| && m <= |s| && ReadsAs(s, ParseExec(s, p), StageTree(st), StageFits(st), m)
    requires NextKind(s, m) == '|' && ReadsAs(s, ParsePipe(s, GetToken(s, m).next), PipeTree(rest), PipeFits(rest), e)
    ensures ReadsAs(s, ParsePipe(s, p), PipeTree(Piped(st, rest)), PipeFits(Piped(st, rest)), e)
  {
    hide GetToken, SkipSpace, Peek, ParseExec;
    Peeks(s, m);
  }

  lemma {:induction false} ReadAmps(s: Line, c: Cmd, p: nat, n: nat, e: nat)
    requires p <= |s| && Reads(s, p, Amps(n), e) && e <= |s| && NextKind(s, e) != '&'
    ensures var r := ParseBacks(s, c, p); r.next == e && Read(s, r.cmd) == InBackground(Read(s, c), n)
    decreases n
  {
    hide GetToken, SkipSpace, Peek;
    Peeks(s, p);
    if n == 0 {
      NoTokens(s, p, e);
    } else {
      FirstKind(s, p, Sym('&'), Amps(n - 1), e);
      ReadAmps(s, Back(c), GetToken(s, p).next, n - 1, e);
    }
  }

  /** Parsing from p gives the tree of the line whose tokens stand there, or panics if a command has too many words. */
  lemma {:induction false} ReadLine(s: Line, p: nat, l: CommandLine, e: nat)
    requires p <= |s| && Reads(s, p, LineToks(l), e) && GoodLine(l)
    requires e <= |s| && NextKind(s, e) in {')', '\0'}
    ensures ReadsAs(s, ParseLine(s, p), LineTree(l), LineFits(l), e)
    decreases l, 3
  {
    hide GetToken, SkipSpace, Peek, ParseLine, ParsePipe, Reads, ReadsAs, PipeToks, Amps;
    match l
    case Last(pl, amps) =>
      var m := ReadsApart(s, p, PipeToks(pl), Amps(amps), e);
      AfterPipe(s, m, amps, e);
      ReadPipe(s, p, pl, m);
      ReadsFromNext(s, m, Amps(amps), e);
      LastLine(s, p, pl, amps, m, e);
    case Then(pl, amps, rest) =>
      var m := ReadsApart(s, p, PipeToks(pl), Amps(amps) + ([Sym(';')] + LineToks(rest)), e);
      var k := ReadsApart(s, m, Amps(amps), [Sym(';')] + LineToks(rest), e);
      FirstKind(s, k, Sym(';'), LineToks(rest), e);
      AfterPipe(s, m, amps, k);
      ReadPipe(s, p, pl, m);
      ReadLine(s, GetToken(s, k).next, rest, e);
      FirstLine(s, p, pl, amps, m, k, rest, e);
  }

  lemma AfterPipe(s: Line, m: nat, amps: nat, e: nat)
    requires m <= |s| && Reads(s, m, Amps(amps), e) && e <= |s| && NextKind(s, e) in {')', ';', '\0'}
    ensures NextKind(s, m) in {')', ';', '&', '\0'}
  {
    hide GetToken, SkipSpace;
    if amps == 0 {
      NoTokens(s, m, e);
    } else {
      FirstKind(s, m, Sym('&'), Amps(amps - 1), e);
    }
  }

  lemma LastLine(s: Line, p: nat, pl: Pipeline, amps: nat, m: nat, e: nat)
    requires p <= |s| && m <= |s| && e <= |s| && ReadsAs(s, ParsePipe(s, p), PipeTree(pl), PipeFits(pl), m)
    requires Reads(s, m, Amps(amps), e) && NextKind(s, e) in {')', '\0'} && SkipSpace(s, e) == e
    ensures ReadsAs(s, ParseLine(s, p), LineTree(Last(pl, amps)), LineFits(Last(pl, amps)), e)
  {
    hide GetToken, SkipSpace, Peek, ParsePipe, ParseBacks, Reads;
    Peeks(s, e);
    var first := ParsePipe(s, p);
    if first.Ok? {
      ReadAmps(s, first.cmd, m, amps, e);
    }
  }

  lemma FirstLine(s: Line, p: nat, pl: Pipeline, amps: nat, m: nat, k: nat, rest: CommandLine, e: nat)
    requires p <= |s| && m <= |s| && k <= |s| && ReadsAs(s, ParsePipe(s, p), PipeTree(pl), PipeFits(pl), m)
    requires Reads(s, m, Amps(amps), k) && NextKind(s, k) == ';'
    requires ReadsAs(s, ParseLine(s, GetToken(s, k).next), LineTree(rest), LineFits(rest), e)
    ensures ReadsAs(s, ParseLine(s, p), LineTree(Then(pl, amps, rest)), LineFits(Then(pl, amps, rest)), e)
  {
    hide GetToken, SkipSpace, Peek, ParsePipe, ParseBacks, Reads;
    Peeks(s, k);
    var first := ParsePipe(s, p);
    if first.Ok? {
      ReadAmps(s, first.cmd, m, amps, k);
    }
  }

  // ----- spelling -----

  function Spelling(t: Tok): string {
    if t.Word? then t.text else if t.c == '+' then ">>" else [t.c]
  }

  predicate GoodTok(t: Tok) {
    if t.Word? then PlainWord(t.text) else t.c in {'<', '>', '+', '|', '&', ';', '(', ')'}
  }

  predicate GoodToks(toks: seq<Tok>) {
    forall i :: 0 <= i < |toks| ==> GoodTok(toks[i])
  }

  /** The tokens with a gap behind each. */
  function Spell(toks: seq<Tok>, gaps: seq<string>): string
    requires |gaps| == |toks|
  {
    if toks == [] then "" else Spelling(toks[0]) + gaps[0] + Spell(toks[1..], gaps[1..])
  }

  /** Without a gap these two would be read as other tokens. */
  predicate NeedGap(a: Tok, b: Tok) {
    (a.Word? && b.Word?) || (a == Sym('>') && b in {Sym('>'), Sym('+')})
  }

  /** Blanks may stand between any two tokens, and must between some. */
  predicate Apart(toks: seq<Tok>, gaps: seq<string>) {
    && |gaps| == |toks| && (forall i :: 0 <= i < |gaps| ==> Blank(gaps[i]))
    && forall i :: 0 <= i < |toks| - 1 && NeedGap(toks[i], toks[i + 1]) ==> gaps[i] != ""
  }

  lemma Chars(c: char)
    ensures IsBlank(c) <==> IsSpace(c)
    ensures IsWord(c) <==> !IsBlank(c) && c !in {'<', '|', '>', '&', ';', '(', ')', '\0'}
  {
  }

  lemma {:induction false} SkipBlanks(s: Line, p: nat, e: nat)
    requires p <= e <= |s| && (e < |s| ==> !IsSpace(s[e])) && forall i :: p <= i < e ==> IsSpace(s[i])
    ensures SkipSpace(s, p) == e
    decreases e - p
  {
    if p < e {
      SkipBlanks(s, p + 1, e);
    }
  }

  lemma {:induction false} SkipWordTo(s: Line, p: nat, e: nat)
    requires p <= e <= |s| && (e < |s| ==> !IsWord(s[e]))
    requires forall i :: p <= i < e ==> IsWord(s[i])
    ensures SkipWord(s, p) == e
    decreases e - p
  {
    if p < e {
      SkipWordTo(s, p + 1, e);
    }
  }

  /** The token at p, if it ends at e and what follows does not belong to it. */
  lemma TokenRead(s: Line, p: nat, t: Tok, e: nat)
    requires GoodTok(t) && p + |Spelling(t)| == e <= |s| && s[p..e] == Spelling(t)
    requires e < |s| && t.Word? ==> !IsWord(s[e])
    requires e < |s| && t == Sym('>') ==> s[e] != '>'
    ensures GetToken(s, p) == Token(Kind(t), p, e, SkipSpace(s, e)) && p < e && !IsSpace(s[p])
  {
    assert s[p] == Spelling(t)[0];
    if t.Word? {
      forall i | p <= i < e ensures IsWord(s[i]) {
        assert s[i] == s[p..e][i - p];
        Chars(s[i]);
      }
      SkipWordTo(s, p, e);
    } else if t.c == '+' {
      assert s[p + 1] == s[p..e][1];
    }
  }

  lemma FirstOfSpelling(t: Tok)
    requires GoodTok(t)
    ensures Spelling(t) != "" && !IsSpace(Spelling(t)[0])
    ensures !t.Word? ==> !IsWord(Spelling(t)[0])
    ensures Spelling(t)[0] == '>' <==> t in {Sym('>'), Sym('+')}
  {
    Chars(Spelling(t)[0]);
  }

  lemma SpellFirst(s: Line, p: nat, toks: seq<Tok>, gaps: seq<string>) returns (e: nat, m: nat)
    requires p <= |s| && |gaps| == |toks| && toks != [] && s[p..] == Spell(toks, gaps)
    ensures e == p + |Spelling(toks[0])| && m == e + |gaps[0]| && m <= |s|
    ensures s[p..e] == Spelling(toks[0]) && s[e..m] == gaps[0] && s[m..] == Spell(toks[1..], gaps[1..])
  {
    var v, g, rest := Spelling(toks[0]), gaps[0], Spell(toks[1..], gaps[1..]);
    assert s[p..] == v + g + rest;
    hide Spell, Spelling;
    e, m := p + |v|, p + |v| + |g|;
    assert s[p..e] == s[p..][..|v|] && s[e..m] == s[p..][|v|..|v| + |g|] && s[m..] == s[p..][|v| + |g|..];
  }

  /** What follows the first token does not belong to it. */
  lemma NotGlued(s: Line, toks: seq<Tok>, gaps: seq<string>, e: nat, m: nat)
    requires Apart(toks, gaps) && GoodToks(toks) && toks != [] && e < |s| && m == e + |gaps[0]| <= |s|
    requires s[e..m] == gaps[0] && s[m..] == Spell(toks[1..], gaps[1..])
    ensures toks[0].Word? ==> !IsWord(s[e])
    ensures toks[0] == Sym('>') ==> s[e] != '>'
  {
    hide GoodTok, Spelling, IsBlank, IsWord, IsSpace;
    if gaps[0] != "" {
      assert s[e] == s[e..m][0] && Blank(gaps[0]);
      BlankChar(s[e]);
    } else {
      assert s[m..][0] == s[e];
      var t := toks[1];
      assert !NeedGap(toks[0], t) && GoodTok(t) && toks[1..][0] == t;
      FirstOfSpelling(t);
    }
  }

  lemma BlankChar(c: char)
    requires IsBlank(c)
    ensures !IsWord(c) && IsSpace(c) && c != '>'
  {
  }

  lemma GapSkipped(s: Line, e: nat, m: nat)
    requires e <= m <= |s| && Blank(s[e..m]) && SkipSpace(s, m) == m
    ensures SkipSpace(s, e) == m
  {
    forall i | e <= i < m ensures IsSpace(s[i]) {
      assert s[i] == s[e..m][i - e];
      BlankChar(s[i]);
    }
    SkipBlanks(s, e, m);
  }

  lemma ReadsFirst(s: Line, p: nat, toks: seq<Tok>, q: nat, m: nat, e: nat)
    requires p <= q <= m <= |s| && toks != [] && GetToken(s, p) == Token(Kind(toks[0]), p, q, m)
    requires toks[0].Word? ==> s[p..q] == toks[0].text
    requires Reads(s, m, toks[1..], e)
    ensures Reads(s, p, toks, e)
  {
    hide GetToken, SkipSpace;
  }

  lemma NoBlankHere(s: Line, p: nat)
    requires p < |s| && !IsSpace(s[p])
    ensures SkipSpace(s, p) == p
  {
  }

  lemma ReadsNothing(s: Line)
    ensures Reads(s, |s|, [], |s|) && SkipSpace(s, |s|) == |s|
  {
  }

  lemma ApartRest(toks: seq<Tok>, gaps: seq<string>)
    requires Apart(toks, gaps) && GoodToks(toks) && toks != []
    ensures |gaps| == |toks| && Apart(toks[1..], gaps[1..]) && GoodToks(toks[1..]) && GoodTok(toks[0]) && Blank(gaps[0])
  {
    hide Blank, GoodTok, NeedGap;
    forall i | 0 <= i < |toks[1..]| - 1 && NeedGap(toks[1..][i], toks[1..][i + 1]) ensures gaps[1..][i] != "" {
      assert NeedGap(toks[i + 1], toks[i + 2]) && gaps[i + 1] != "";
    }
  }

  /** Spelled tokens are read back, whatever the gaps. */
  lemma {:induction false} ReadsSpelled(s: Line, p: nat, toks: seq<Tok>, gaps: seq<string>)
    requires p <= |s| && Apart(toks, gaps) && GoodToks(toks) && s[p..] == Spell(toks, gaps)
    ensures Reads(s, p, toks, |s|)
    ensures SkipSpace(s, p) == p
    decreases |toks|
  {
    hide GetToken, SkipSpace, GoodToks, GoodTok, IsSpace, IsWord, Spelling, Blank, Reads, Apart;
    if toks == [] {
      ReadsNothing(s);
    } else {
      ApartRest(toks, gaps);
      var e, m := SpellFirst(s, p, toks, gaps);
      ReadsSpelled(s, m, toks[1..], gaps[1..]);
      if e < |s| {
        NotGlued(s, toks, gaps, e, m);
      }
      TokenRead(s, p, toks[0], e);
      GapSkipped(s, e, m);
      NoBlankHere(s, p);
      WordSpelling(toks[0]);
      ReadsFirst(s, p, toks, e, m, |s|);
    }
  }

  lemma WordSpelling(t: Tok)
    ensures t.Word? ==> Spelling(t) == t.text
  {
  }

  // ----- the tokens of a line are good tokens -----

  lemma GoodTwo(a: seq<Tok>, b: seq<Tok>)
    requires GoodToks(a) && GoodToks(b)
    ensures GoodToks(a + b)
  {
  }

  lemma {:induction false} ItemsGood(items: seq<Item>)
    requires GoodItems(items)
    ensures GoodToks(ItemsToks(items))
    decreases |items|
  {
    if items != [] {
      assert GoodItem(items[0]);
      ItemsGood(items[1..]);
      GoodTwo(ItemToks(items[0]), ItemsToks(items[1..]));
    }
  }

  lemma {:induction false} AmpsGood(n: nat)
    ensures GoodToks(Amps(n))
  {
    if n > 0 {
      AmpsGood(n - 1);
    }
  }

  lemma {:induction false} StageGood(st: Stage)
    requires GoodStage(st)
    ensures GoodToks(StageToks(st))
    decreases st, 1
  {
    hide PlainWord;
    match st
    case Simple(items) => ItemsGood(items);
    case Block(line, redirs) =>
      LineGood(line);
      ItemsGood(redirs);
      GoodTwo([Sym(')')], ItemsToks(redirs));
      GoodTwo(LineToks(line), [Sym(')')] + ItemsToks(redirs));
      GoodTwo([Sym('(')], LineToks(line) + ([Sym(')')] + ItemsToks(redirs)));
  }

  lemma {:induction false} PipeGood(pl: Pipeline)
    requires GoodPipe(pl)
    ensures GoodToks(PipeToks(pl))
    decreases pl, 2
  {
    StageGood(pl.stage);
    if pl.Piped? {
      PipeGood(pl.rest);
      GoodTwo([Sym('|')], PipeToks(pl.rest));
      GoodTwo(StageToks(pl.stage), [Sym('|')] + PipeToks(pl.rest));
    }
  }

  lemma {:induction false} LineGood(l: CommandLine)
    requires GoodLine(l)
    ensures GoodToks(LineToks(l))
    decreases l, 3
  {
    PipeGood(l.pipe);
    AmpsGood(l.amps);
    if l.Last? {
      GoodTwo(PipeToks(l.pipe), Amps(l.amps));
    } else {
      LineGood(l.rest);
      GoodTwo([Sym(';')], LineToks(l.rest));
      GoodTwo(Amps(l.amps), [Sym(';')] + LineToks(l.rest));
      GoodTwo(PipeToks(l.pipe), Amps(l.amps) + ([Sym(';')] + LineToks(l.rest)));
    }
  }

  lemma {:induction false} NoNulSpelled(toks: seq<Tok>, gaps: seq<string>)
    requires Apart(toks, gaps) && GoodToks(toks)
    ensures '\0' !in Spell(toks, gaps)
    decreases |toks|
  {
    if toks != [] {
      ApartRest(toks, gaps);
      NoNulSpelled(toks[1..], gaps[1..]);
    }
  }

  // ----- the results -----

  /** A line of the grammar, spelled with blanks in front and in the gaps. */
  function Spelled(l: CommandLine, lead: string, gaps: seq<string>): string
    requires |gaps| == |LineToks(l)|
  {
    lead + Spell(LineToks(l), gaps)
  }

  /**
   Parsing any spelling of a line of the grammar succeeds exactly when no command has more than nine words, and then
   gives the command tree of the line.
   */
  lemma RoundTrip(l: CommandLine, lead: string, gaps: seq<string>)
    requires GoodLine(l) && Blank(lead) && Apart(LineToks(l), gaps)
    ensures '\0' !in Spelled(l, lead, gaps)
    ensures
      var s: Line := Spelled(l, lead, gaps);
      && (ParseCmd(s).Ok? <==> LineFits(l))
      && (LineFits(l) ==> Read(s, ParseCmd(s).cmd) == LineTree(l))
  {
    LineGood(l);
    NoNulSpelled(LineToks(l), gaps);
    var s: Line := Spelled(l, lead, gaps);
    SpelledReads(s, l, lead, gaps);
    hide LineToks, LineTree, Reads, Spelled;
    AtLineEnd(s);
    ReadLine(s, 0, l, |s|);
  }

  lemma AtLineEnd(s: Line)
    ensures NextKind(s, |s|) == '\0' && SkipSpace(s, |s|) == |s|
  {
  }

  lemma SpelledReads(s: Line, l: CommandLine, lead: string, gaps: seq<string>)
    requires GoodToks(LineToks(l)) && Blank(lead) && Apart(LineToks(l), gaps) && s == Spelled(l, lead, gaps)
    ensures Reads(s, 0, LineToks(l), |s|)
  {
    var m := |lead|;
    assert s[m..] == Spell(LineToks(l), gaps) && s[0..m] == lead;
    hide LineToks, Spell, Reads;
    ReadsSpelled(s, m, LineToks(l), gaps);
    GapSkipped(s, 0, m);
    SkipTwice(s, 0);
    SameFromNext(s, 0, LineToks(l), |s|);
  }

  lemma SameFromNext(s: Line, p: nat, toks: seq<Tok>, e: nat)
    requires p <= |s| && Reads(s, SkipSpace(s, p), toks, e)
    ensures Reads(s, p, toks, e)
  {
    hide GetToken, SkipSpace;
    SkipTwice(s, p);
  }

  // ----- nothing else is accepted -----

  lemma ReadsJoined(s: Line, p: nat, a: seq<Tok>, m: nat, b: seq<Tok>, e: nat)
    requires p <= |s| && Reads(s, p, a, m) && m <= |s| && Reads(s, m, b, e)
    ensures Reads(s, p, a + b, e)
    decreases |a|
  {
    hide GetToken, SkipSpace;
    if a == [] {
      assert a + b == b;
      SameFromNext(s, p, b, e);
    } else {
      assert (a + b)[1..] == a[1..] + b;
      ReadsJoined(s, GetToken(s, p).next, a[1..], m, b, e);
    }
  }

  /** The next token, if it is a symbol. */
  lemma OneToken(s: Line, p: nat, t: Tok)
    requires p <= |s| && GetToken(s, p).kind == Kind(t)
    requires t.Word? ==> s[GetToken(s, p).q..GetToken(s, p).eq] == t.text
    ensures Reads(s, p, [t], GetToken(s, p).next)
  {
    TokenStopsAtNext(s, p);
    hide GetToken, SkipSpace;
    assert [t][1..] == [];
  }

  lemma TokenStopsAtNext(s: Line, p: nat)
    requires p <= |s|
    ensures SkipSpace(s, GetToken(s, p).next) == GetToken(s, p).next
  {
    SkipTwice(s, TokenEnd(s, SkipSpace(s, p)));
  }

  /** The text of a word token is a plain word. */
  lemma WordText(s: Line, p: nat) returns (w: string)
    requires p <= |s| && GetToken(s, p).kind == 'a'
    ensures var k := GetToken(s, p); w == s[k.q..k.eq] && w == Text(s, (k.q, k.eq)) && PlainWord(w)
  {
    var k := GetToken(s, p);
    hide GetToken;
    w := s[k.q..k.eq];
    forall i | 0 <= i < |w| ensures !IsBlank(w[i]) && w[i] !in {'<', '|', '>', '&', ';', '(', ')', '\0'} {
      assert w[i] == s[k.q + i];
      Chars(w[i]);
    }
  }

  lemma {:induction false} RedirsRead(s: Line, p: nat) returns (items: seq<Item>)
    requires p <= |s| && ParseRedirs(s, p).ROk?
    ensures GoodItems(items) && AllInto(items) && Reads(s, p, ItemsToks(items), ParseRedirs(s, p).next)
    ensures WordsIn(items) == []
    decreases |s| - p
  {
    hide GetToken, SkipSpace, Peek, Reads, PlainWord;
    Peeks(s, p);
    if !Peek(s, p, {'<', '>'}) {
      items := [];
      ReadsNone(s, p);
    } else {
      var op := NextKind(s, p);
      OneToken(s, p, Sym(op));
      var p1 := GetToken(s, p).next;
      var w := WordText(s, p1);
      OneToken(s, p1, Word(w));
      var p2 := GetToken(s, p1).next;
      var rest := RedirsRead(s, p2);
      var e := ParseRedirs(s, p).next;
      ReadsJoined(s, p1, [Word(w)], p2, ItemsToks(rest), e);
      ReadsJoined(s, p, [Sym(op)], p1, [Word(w)] + ItemsToks(rest), e);
      items := [Into(op, w)] + rest;
      assert items[1..] == rest && ItemsToks(items) == [Sym(op)] + ([Word(w)] + ItemsToks(rest));
    }
  }

  lemma ReadsNone(s: Line, p: nat)
    requires p <= |s|
    ensures Reads(s, p, [], SkipSpace(s, p))
  {
  }

  lemma {:induction false} ArgsRead(s: Line, p: nat, argc: nat) returns (items: seq<Item>)
    requires p <= |s| && ParseArgs(s, p, argc).AOk? && argc < MAXARGS
    ensures GoodItems(items) && argc + |WordsIn(items)| < MAXARGS
    ensures Reads(s, p, ItemsToks(items), ParseArgs(s, p, argc).next)
    decreases |s| - p
  {
    hide GetToken, SkipSpace, Peek, Reads, PlainWord, ParseRedirs, AllInto;
    var tok, e := GetToken(s, p), ParseArgs(s, p, argc).next;
    if Peek(s, p, {'|', ')', '&', ';'}) {
      items := [];
      ReadsNone(s, p);
    } else if tok.kind == '\0' {
      items := [];
      AtTheEnd(s, p);
      ReadsNone(s, p);
    } else {
      Advances(s, p);
      var w := WordText(s, p);
      OneToken(s, p, Word(w));
      var first := RedirsRead(s, tok.next);
      var m := ParseRedirs(s, tok.next).next;
      var rest := ArgsRead(s, m, argc + 1);
      ReadsJoined(s, tok.next, ItemsToks(first), m, ItemsToks(rest), e);
      ReadsJoined(s, p, [Word(w)], tok.next, ItemsToks(first) + ItemsToks(rest), e);
      ItemsTwo(first, rest);
      items := [Arg(w)] + (first + rest);
      assert items[1..] == first + rest;
      assert ItemsToks(items) == [Word(w)] + (ItemsToks(first) + ItemsToks(rest));
    }
  }

  lemma Advances(s: Line, p: nat)
    requires p <= |s| && NextKind(s, p) != '\0'
    ensures p < GetToken(s, p).next
  {
  }

  lemma {:induction false} StageRead(s: Line, p: nat) returns (st: Stage)
    requires p <= |s| && ParseExec(s, p).Ok?
    ensures GoodStage(st) && StageFits(st) && Reads(s, p, StageToks(st), ParseExec(s, p).next)
    decreases |s| - p, 1
  {
    hide GetToken, SkipSpace, Peek, Reads, PlainWord, ParseRedirs, ParseArgs, ParseLine, LineToks, LineFits, GoodLine;
    hide AllInto;
    var e := ParseExec(s, p).next;
    Peeks(s, p);
    if Peek(s, p, {'('}) {
      Advances(s, p);
      var p1 := GetToken(s, p).next;
      var line := LineRead(s, p1);
      var m := ParseLine(s, p1).next;
      Peeks(s, m);
      OneToken(s, p, Sym('('));
      OneToken(s, m, Sym(')'));
      var p2 := GetToken(s, m).next;
      var redirs := RedirsRead(s, p2);
      ReadsJoined(s, m, [Sym(')')], p2, ItemsToks(redirs), e);
      ReadsJoined(s, p1, LineToks(line), m, [Sym(')')] + ItemsToks(redirs), e);
      ReadsJoined(s, p, [Sym('(')], p1, LineToks(line) + ([Sym(')')] + ItemsToks(redirs)), e);
      st := Block(line, redirs);
    } else {
      var first := RedirsRead(s, p);
      var m := ParseRedirs(s, p).next;
      var rest := ArgsRead(s, m, 0);
      ReadsJoined(s, p, ItemsToks(first), m, ItemsToks(rest), e);
      ItemsTwo(first, rest);
      st := Simple(first + rest);
    }
  }

  lemma {:induction false} PipeRead(s: Line, p: nat) returns (pl: Pipeline)
    requires p <= |s| && ParsePipe(s, p).Ok?
    ensures GoodPipe(pl) && PipeFits(pl) && Reads(s, p, PipeToks(pl), ParsePipe(s, p).next)
    decreases |s| - p, 2
  {
    hide GetToken, SkipSpace, Peek, Reads, ParseExec, StageToks, StageFits, GoodStage;
    var st := StageRead(s, p);
    var m, e := ParseExec(s, p).next, ParsePipe(s, p).next;
    Peeks(s, m);
    if !Peek(s, m, {'|'}) {
      ReadsFromNext(s, p, StageToks(st), m);
      pl := Only(st);
    } else {
      Advances(s, m);
      OneToken(s, m, Sym('|'));
      var p1 := GetToken(s, m).next;
      var rest := PipeRead(s, p1);
      ReadsJoined(s, m, [Sym('|')], p1, PipeToks(rest), e);
      ReadsJoined(s, p, StageToks(st), m, [Sym('|')] + PipeToks(rest), e);
      pl := Piped(st, rest);
    }
  }

  lemma {:induction false} AmpsRead(s: Line, c: Cmd, p: nat) returns (n: nat)
    requires p <= |s|
    ensures Reads(s, p, Amps(n), ParseBacks(s, c, p).next)
    decreases |s| - p
  {
    hide GetToken, SkipSpace, Peek, Reads;
    Peeks(s, p);
    if Peek(s, p, {'&'}) {
      Advances(s, p);
      OneToken(s, p, Sym('&'));
      var p1 := GetToken(s, p).next;
      n := AmpsRead(s, Back(c), p1);
      ReadsJoined(s, p, [Sym('&')], p1, Amps(n), ParseBacks(s, c, p).next);
      n := n + 1;
    } else {
      n := 0;
      ReadsNone(s, p);
    }
  }

  /** What the parser accepts from p on is a line of the grammar that fits. */
  lemma {:induction false} LineRead(s: Line, p: nat) returns (l: CommandLine)
    requires p <= |s| && ParseLine(s, p).Ok?
    ensures GoodLine(l) && LineFits(l) && Reads(s, p, LineToks(l), ParseLine(s, p).next)
    decreases |s| - p, 3
  {
    hide GetToken, SkipSpace, Peek, Reads, ParsePipe, ParseBacks, PipeToks, PipeFits, GoodPipe, Amps;
    var pl := PipeRead(s, p);
    var first := ParsePipe(s, p);
    var n := AmpsRead(s, first.cmd, first.next);
    var k, e := ParseBacks(s, first.cmd, first.next).next, ParseLine(s, p).next;
    Peeks(s, k);
    if !Peek(s, k, {';'}) {
      ReadsFromNext(s, first.next, Amps(n), k);
      ReadsJoined(s, p, PipeToks(pl), first.next, Amps(n), k);
      l := Last(pl, n);
    } else {
      Advances(s, k);
      OneToken(s, k, Sym(';'));
      var p1 := GetToken(s, k).next;
      var rest := LineRead(s, p1);
      ReadsJoined(s, k, [Sym(';')], p1, LineToks(rest), e);
      ReadsJoined(s, first.next, Amps(n), k, [Sym(';')] + LineToks(rest), e);
      ReadsJoined(s, p, PipeToks(pl), first.next, Amps(n) + ([Sym(';')] + LineToks(rest)), e);
      l := Then(pl, n, rest);
    }
  }

  lemma TokenSpelled(s: Line, p: nat, t: Tok)
    requires p <= |s| && GoodTok(t) && GetToken(s, p).kind == Kind(t)
    requires t.Word? ==> s[GetToken(s, p).q..GetToken(s, p).eq] == t.text
    ensures var k := GetToken(s, p);
      k.q == SkipSpace(s, p) && k.next == SkipSpace(s, k.eq) && s[k.q..k.eq] == Spelling(t)
  {
    hide PlainWord, IsSpace;
  }

  /** Tokens that need a gap between them have one. */
  lemma GapThere(s: Line, p: nat, a: Tok, b: Tok)
    requires p <= |s| && GoodTok(a) && GoodTok(b) && NeedGap(a, b) && GetToken(s, p).kind == Kind(a)
    requires GetToken(s, GetToken(s, p).next).kind == Kind(b)
    ensures GetToken(s, p).eq < GetToken(s, p).next
  {
    TokenStopsAtNext(s, p);
    hide PlainWord, IsSpace;
  }

  lemma {:induction false} SpellingOf(s: Line, p: nat, toks: seq<Tok>) returns (gaps: seq<string>)
    requires p <= |s| && Reads(s, p, toks, |s|) && GoodToks(toks)
    ensures Apart(toks, gaps) && |gaps| == |toks| && s[SkipSpace(s, p)..] == Spell(toks, gaps)
    decreases |toks|
  {
    hide GetToken, SkipSpace, GoodTok, Spelling, NeedGap, IsBlank;
    if toks == [] {
      gaps := [];
    } else {
      var k := GetToken(s, p);
      TokenSpelled(s, p, toks[0]);
      TokenStopsAtNext(s, p);
      var rest := SpellingOf(s, k.next, toks[1..]);
      forall i | k.eq <= i < k.next ensures IsBlank(s[i]) {
        Chars(s[i]);
      }
      var g := s[k.eq..k.next];
      gaps := [g] + rest;
      assert gaps[1..] == rest && s[k.q..] == s[k.q..k.eq] + g + s[k.next..];
      if |toks| > 1 && NeedGap(toks[0], toks[1]) {
        GapThere(s, p, toks[0], toks[1]);
      }
      ApartFirst(toks, g, rest);
    }
  }

  lemma ApartFirst(toks: seq<Tok>, g: string, rest: seq<string>)
    requires toks != [] && Apart(toks[1..], rest) && Blank(g)
    requires |toks| > 1 && NeedGap(toks[0], toks[1]) ==> g != ""
    ensures Apart(toks, [g] + rest)
  {
    hide Blank, NeedGap;
    var gaps := [g] + rest;
    forall i | 0 <= i < |toks| - 1 && NeedGap(toks[i], toks[i + 1]) ensures gaps[i] != "" {
      if i > 0 {
        assert toks[1..][i - 1] == toks[i] && toks[1..][i] == toks[i + 1];
      }
    }
  }

  /** The spellings of the lines of the grammar whose commands have at most nine words. */
  ghost predicate Spells(s: string, l: CommandLine) {
    && GoodLine(l) && LineFits(l)
    && exists lead, gaps :: Blank(lead) && Apart(LineToks(l), gaps) && s == Spelled(l, lead, gaps)
  }

  /** The parser accepts exactly these, and gives the tree of the line that is spelled. */
  lemma Language(s: Line)
    ensures ParseCmd(s).Ok? <==> exists l :: Spells(s, l)
    ensures forall l :: Spells(s, l) ==> Read(s, ParseCmd(s).cmd) == LineTree(l)
  {
    hide LineToks, LineTree, Spelled;
    forall l | Spells(s, l) ensures ParseCmd(s).Ok? && Read(s, ParseCmd(s).cmd) == LineTree(l) {
      var lead, gaps :| Blank(lead) && Apart(LineToks(l), gaps) && s == Spelled(l, lead, gaps);
      RoundTrip(l, lead, gaps);
    }
    if ParseCmd(s).Ok? {
      var l := Accepted(s);
      assert Spells(s, l);
    }
  }

  lemma Accepted(s: Line) returns (l: CommandLine)
    requires ParseCmd(s).Ok?
    ensures Spells(s, l)
  {
    hide LineToks, GetToken, SkipSpace, GoodLine, LineFits, Spell, Apart, Reads, GoodToks, Spells, ParseLine;
    l := LineRead(s, 0);
    var toks, e := LineToks(l), ParseLine(s, 0).next;
    ReadsFromNext(s, 0, toks, e);
    LineGood(l);
    var gaps := SpellingOf(s, 0, toks);
    SpelledLine(s, l, gaps);
  }

  lemma SpelledLine(s: Line, l: CommandLine, gaps: seq<string>)
    requires GoodLine(l) && LineFits(l) && Apart(LineToks(l), gaps) && |gaps| == |LineToks(l)|
    requires s[SkipSpace(s, 0)..] == Spell(LineToks(l), gaps)
    ensures Spells(s, l)
  {
    var lead := s[..SkipSpace(s, 0)];
    forall i | 0 <= i < |lead| ensures IsBlank(lead[i]) {
      Chars(s[i]);
    }
    hide LineToks, SkipSpace, GoodLine, LineFits, Spell, Apart, IsBlank;
    assert s == lead + s[|lead|..] && s == Spelled(l, lead, gaps);
  }

  // ----- every command tree can be written -----

  /** The words and file names of a tree can be spelled, and argv has room for the words. */
  predicate Writable(t: Tree) {
    match t
    case TExec(args) => |args| <= 9 && forall i :: 0 <= i < |args| ==> PlainWord(args[i])
    case TRedir(sub, file, _) => Writable(sub) && PlainWord(file)
    case TPipe(l, r) => Writable(l) && Writable(r)
    case TList(l, r) => Writable(l) && Writable(r)
    case TBack(sub) => Writable(sub)
  }

  function ArgItems(args: seq<string>): seq<Item> {
    if args == [] then [] else [Arg(args[0])] + ArgItems(args[1..])
  }

  /** A line for a tree, with every part in parentheses. */
  function Full(t: Tree): CommandLine {
    match t
    case TExec(args) => Last(Only(Simple(ArgItems(args))), 0)
    case TRedir(sub, file, input) => Last(Only(Block(Full(sub), [Into(if input then '<' else '>', file)])), 0)
    case TPipe(l, r) => Last(Piped(Block(Full(l), []), Only(Block(Full(r), []))), 0)
    case TList(l, r) => Then(Only(Block(Full(l), [])), 0, Last(Only(Block(Full(r), [])), 0))
    case TBack(sub) => Last(Only(Block(Full(sub), [])), 1)
  }

  lemma {:induction false} ArgItemsAre(args: seq<string>, before: seq<string>)
    requires forall i :: 0 <= i < |args| ==> PlainWord(args[i])
    ensures GoodItems(ArgItems(args)) && WordsIn(ArgItems(args)) == args
    ensures AddItems(TExec(before), ArgItems(args)) == TExec(before + args)
    decreases |args|
  {
    hide PlainWord;
    if args == [] {
      assert before + args == before;
    } else {
      ArgItemsAre(args[1..], before + [args[0]]);
      assert ArgItems(args)[1..] == ArgItems(args[1..]);
      assert before + args == (before + [args[0]]) + args[1..];
    }
  }

  lemma InParentheses(l: CommandLine)
    requires GoodLine(l) && LineFits(l)
    ensures var pl := Only(Block(l, [])); GoodPipe(pl) && PipeFits(pl) && PipeTree(pl) == LineTree(l)
  {
    var st := Block(l, []);
    assert GoodStage(st) && StageFits(st) && StageTree(st) == LineTree(l);
  }

  /** Every command tree is the tree of a line. */
  lemma {:induction false} EveryTree(t: Tree)
    requires Writable(t)
    ensures GoodLine(Full(t)) && LineFits(Full(t)) && LineTree(Full(t)) == t
  {
    hide PlainWord;
    match t
    case TExec(args) =>
      ArgItemsAre(args, []);
      assert [] + args == args;
      var st := Simple(ArgItems(args));
      assert GoodStage(st) && StageFits(st) && StageTree(st) == t;
      assert GoodPipe(Only(st)) && PipeFits(Only(st)) && PipeTree(Only(st)) == t;
    case TRedir(sub, file, input) =>
      EveryTree(sub);
      var i := Into(if input then '<' else '>', file);
      assert [i][1..] == [];
      assert AddItems(LineTree(Full(sub)), [i]) == AddItem(LineTree(Full(sub)), i) == t;
      var st := Block(Full(sub), [i]);
      assert GoodItem(i) && GoodStage(st) && StageFits(st) && StageTree(st) == t;
      assert GoodPipe(Only(st)) && PipeFits(Only(st)) && PipeTree(Only(st)) == t;
    case TPipe(l, r) =>
      EveryTree(l);
      EveryTree(r);
      InParentheses(Full(l));
      InParentheses(Full(r));
      var pl := Piped(Block(Full(l), []), Only(Block(Full(r), [])));
      assert GoodPipe(pl) && PipeFits(pl) && PipeTree(pl) == t;
    case TList(l, r) =>
      EveryTree(l);
      EveryTree(r);
      InParentheses(Full(l));
      InParentheses(Full(r));
      assert LineTree(Last(Only(Block(Full(r), [])), 0)) == r;
    case TBack(sub) =>
      EveryTree(sub);
      InParentheses(Full(sub));
      assert InBackground(sub, 1) == InBackground(t, 0) == t;
  }
}
