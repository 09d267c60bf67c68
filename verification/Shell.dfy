/**
 The parser of sh.c as it works on the input buffer: it advances a position through the buffer, and
 `NulTerminate` then writes a NUL over the character after every word.

 The methods are proved against the functions of ShellSpec. The results that need no buffer are lemmas
 about those functions: what the words of a parsed command are, and what they read as after NulTerminate.
 */
module Shells {
  import opened ShellSpec
  import opened ShellRoundTrip

  // ---------- What the words of a parsed command are ----------

  predicate WholeWords(s: Line, ws: seq<(nat, nat)>) {
    forall i :: 0 <= i < |ws| ==> TokenAt(s, ws[i].0, ws[i].1)
  }

  predicate WholeFiles(s: Line, rs: seq<Redirection>) {
    forall i :: 0 <= i < |rs| ==> TokenAt(s, rs[i].file.0, rs[i].file.1)
  }

  /** Every argument and file name is one whole word of the line, and argv has room for its terminating zero. */
  predicate Sound(s: Line, c: Cmd) {
    match c
    case Exec(args) => WholeWords(s, args) && |args| < MAXARGS
    case Redir(sub, file, _) => Sound(s, sub) && TokenAt(s, file.0, file.1)
    case Pipe(l, r) => Sound(s, l) && Sound(s, r)
    case List(l, r) => Sound(s, l) && Sound(s, r)
    case Back(sub) => Sound(s, sub)
  }

  lemma {:induction false} WrapSound(s: Line, c: Cmd, rs: seq<Redirection>)
    requires Sound(s, c) && WholeFiles(s, rs)
    ensures Sound(s, Wrap(c, rs))
    decreases |rs|
  {
    if rs != [] {
      WrapSound(s, Redir(c, rs[0].file, rs[0].input), rs[1..]);
    }
  }

  lemma {:induction false} RedirsSound(s: Line, p: nat)
    requires p <= |s|
    ensures ParseRedirs(s, p).ROk? ==> WholeFiles(s, ParseRedirs(s, p).redirs)
    decreases |s| - p
  {
    hide GetToken, TokenAt;
    if ParseRedirs(s, p).ROk? && Peek(s, p, {'<', '>'}) {
      RedirsSound(s, GetToken(s, GetToken(s, p).next).next);
    }
  }

  lemma {:induction false} ArgsSound(s: Line, p: nat, argc: nat)
    requires p <= |s| && argc < MAXARGS
    ensures var r := ParseArgs(s, p, argc);
            r.AOk? ==> WholeWords(s, r.args) && WholeFiles(s, r.redirs) && argc + |r.args| < MAXARGS
    decreases |s| - p
  {
    hide GetToken, TokenAt, ParseRedirs, SkipSpace;
    if ParseArgs(s, p, argc).AOk? && !Peek(s, p, {'|', ')', '&', ';'}) {
      var tok := GetToken(s, p);
      if tok.kind != '\0' {
        RedirsSound(s, tok.next);
        ArgsSound(s, ParseRedirs(s, tok.next).next, argc + 1);
      }
    }
  }

  lemma {:induction false} ExecSound(s: Line, p: nat)
    requires p <= |s|
    ensures ParseExec(s, p).Ok? ==> Sound(s, ParseExec(s, p).cmd)
    decreases |s| - p, 1
  {
    hide GetToken, TokenAt, WholeFiles, WholeWords, ParseArgs, ParseRedirs, ParseLine, Wrap;
    if ParseExec(s, p).Ok? {
      if Peek(s, p, {'('}) {
        BlockSound(s, p);
      } else {
        RedirsSound(s, p);
        ArgsSound(s, ParseRedirs(s, p).next, 0);
        var rest := ParseArgs(s, ParseRedirs(s, p).next, 0);
        BothWhole(s, ParseRedirs(s, p).redirs, rest.redirs);
        WrapSound(s, Exec(rest.args), ParseRedirs(s, p).redirs + rest.redirs);
      }
    }
  }

  lemma {:induction false} BlockSound(s: Line, p: nat)
    requires p <= |s| && Peek(s, p, {'('}) && ParseBlock(s, p).Ok?
    ensures Sound(s, ParseBlock(s, p).cmd)
    decreases |s| - p, 0
  {
    hide GetToken, TokenAt, WholeFiles, ParseRedirs, ParseLine, Wrap;
    OpensForward(s, p);
    var inner := ParseLine(s, GetToken(s, p).next);
    assert inner.Ok?;
    var rs := ParseRedirs(s, GetToken(s, inner.next).next);
    assert rs.ROk?;
    LineSound(s, GetToken(s, p).next);
    RedirsSound(s, GetToken(s, inner.next).next);
    WrapSound(s, inner.cmd, rs.redirs);
  }

  lemma BothWhole(s: Line, a: seq<Redirection>, b: seq<Redirection>)
    requires WholeFiles(s, a) && WholeFiles(s, b)
    ensures WholeFiles(s, a + b)
  {
  }

  lemma OpensForward(s: Line, p: nat)
    requires p <= |s| && CharAt(s, SkipSpace(s, p)) != '\0'
    ensures GetToken(s, p).next > p
  {
  }

  lemma {:induction false} PipeSound(s: Line, p: nat)
    requires p <= |s|
    ensures ParsePipe(s, p).Ok? ==> Sound(s, ParsePipe(s, p).cmd)
    decreases |s| - p, 2
  {
    hide GetToken, ParseExec;
    if ParsePipe(s, p).Ok? {
      ExecSound(s, p);
      var left := ParseExec(s, p);
      if Peek(s, left.next, {'|'}) {
        OpensForward(s, left.next);
        PipeSound(s, GetToken(s, left.next).next);
      }
    }
  }

  lemma {:induction false} BacksSound(s: Line, c: Cmd, p: nat)
    requires p <= |s| && Sound(s, c)
    ensures Sound(s, ParseBacks(s, c, p).cmd)
    decreases |s| - p
  {
    hide GetToken;
    if Peek(s, p, {'&'}) {
      OpensForward(s, p);
      BacksSound(s, Back(c), GetToken(s, p).next);
    }
  }

  lemma {:induction false} LineSound(s: Line, p: nat)
    requires p <= |s|
    ensures ParseLine(s, p).Ok? ==> Sound(s, ParseLine(s, p).cmd)
    decreases |s| - p, 3
  {
    hide GetToken, ParsePipe, ParseBacks;
    if ParseLine(s, p).Ok? {
      PipeSound(s, p);
      var first := ParsePipe(s, p);
      BacksSound(s, first.cmd, first.next);
      var back := ParseBacks(s, first.cmd, first.next);
      if Peek(s, back.next, {';'}) {
        OpensForward(s, back.next);
        LineSound(s, GetToken(s, back.next).next);
      }
    }
  }

  // ---------- nulterminate ----------

  /** The words of a command, in the order nulterminate ends them. */
  function WordsOf(c: Cmd): seq<(nat, nat)> {
    match c
    case Exec(args) => args
    case Redir(sub, file, _) => WordsOf(sub) + [file]
    case Pipe(l, r) => WordsOf(l) + WordsOf(r)
    case List(l, r) => WordsOf(l) + WordsOf(r)
    case Back(sub) => WordsOf(sub)
  }

  /** The buffer with a NUL at the end of each of the words. */
  function Ended(buf: seq<char>, ws: seq<(nat, nat)>): (r: seq<char>)
    requires forall i :: 0 <= i < |ws| ==> ws[i].1 < |buf|
    ensures |r| == |buf|
    ensures forall k {:trigger r[k]} :: 0 <= k < |buf| ==> r[k] == buf[k] || r[k] == '\0'
    ensures forall k {:trigger r[k]} :: 0 <= k < |buf| && (forall i :: 0 <= i < |ws| ==> ws[i].1 != k) ==>
      r[k] == buf[k]
    ensures forall i :: 0 <= i < |ws| ==> r[ws[i].1] == '\0'
  {
    if ws == [] then buf
    else
      var before := Ended(buf, ws[..|ws| - 1]);
      before[ws[|ws| - 1].1 := '\0']
  }

  /** The C string that starts at p: the characters up to the first NUL. */
  function CString(buf: seq<char>, p: nat): string
    decreases |buf| - p
  {
    if p >= |buf| || buf[p] == '\0' then "" else [buf[p]] + CString(buf, p + 1)
  }

  lemma {:induction false} CStringTo(buf: seq<char>, p: nat, e: nat)
    requires p <= e < |buf| && buf[e] == '\0' && forall k :: p <= k < e ==> buf[k] != '\0'
    ensures CString(buf, p) == buf[p..e]
    decreases e - p
  {
    if p < e {
      CStringTo(buf, p + 1, e);
    }
  }

  lemma {:induction false} SoundWords(s: Line, c: Cmd)
    requires Sound(s, c)
    ensures WholeWords(s, WordsOf(c))
  {
    hide TokenAt;
    match c
    case Exec(_) =>
    case Redir(sub, _, _) => SoundWords(s, sub);
    case Pipe(l, r) => SoundWords(s, l); SoundWords(s, r);
    case List(l, r) => SoundWords(s, l); SoundWords(s, r);
    case Back(sub) => SoundWords(s, sub);
  }

  /** Each word reads, as a C string in the buffer, as exactly its characters in the line. */
  predicate Readable(buf: seq<char>, s: Line, ws: seq<(nat, nat)>) {
    forall i :: 0 <= i < |ws| ==> ws[i].0 < ws[i].1 <= |s| && CString(buf, ws[i].0) == s[ws[i].0..ws[i].1]
  }

  /**
   On every input: once a parsed command is NUL-terminated in place, each of its arguments and file names
   reads as exactly the characters of its token.
   */
  lemma WordsReadExactly(s: Line)
    requires ParseCmd(s).Ok?
    ensures Inside(WordsOf(ParseCmd(s).cmd), |s| + 1)
    ensures Readable(Ended(s + "\0", WordsOf(ParseCmd(s).cmd)), s, WordsOf(ParseCmd(s).cmd))
  {
    ParsedInside(s);
    var ws := WordsOf(ParseCmd(s).cmd);
    hide ParseCmd, WordsOf;
    forall i | 0 <= i < |ws|
      ensures ws[i].0 < ws[i].1 <= |s| && CString(Ended(s + "\0", ws), ws[i].0) == s[ws[i].0..ws[i].1]
    {
      EndedReads(s, ws, i);
    }
  }

  function CStrings(buf: seq<char>, ws: seq<(nat, nat)>): seq<string> {
    if ws == [] then [] else [CString(buf, ws[0].0)] + CStrings(buf, ws[1..])
  }

  /** The command tree with each word as the C string that its pointer into the buffer stands for. */
  function Stored(buf: seq<char>, c: Cmd): Tree {
    match c
    case Exec(args) => TExec(CStrings(buf, args))
    case Redir(sub, file, input) => TRedir(Stored(buf, sub), CString(buf, file.0), input)
    case Pipe(l, r) => TPipe(Stored(buf, l), Stored(buf, r))
    case List(l, r) => TList(Stored(buf, l), Stored(buf, r))
    case Back(sub) => TBack(Stored(buf, sub))
  }

  lemma {:induction false} StoredWords(buf: seq<char>, s: Line, ws: seq<(nat, nat)>)
    requires Readable(buf, s, ws)
    ensures CStrings(buf, ws) == Texts(s, ws)
    decreases |ws|
  {
    hide CString;
    if ws != [] {
      StoredWords(buf, s, ws[1..]);
    }
  }

  lemma ReadableBoth(buf: seq<char>, s: Line, a: seq<(nat, nat)>, b: seq<(nat, nat)>)
    requires Readable(buf, s, a + b)
    ensures Readable(buf, s, a) && Readable(buf, s, b)
  {
    hide CString;
    assert forall i :: 0 <= i < |a| ==> (a + b)[i] == a[i];
    assert forall i :: 0 <= i < |b| ==> (a + b)[|a| + i] == b[i];
  }

  lemma {:induction false} StoredIsRead(buf: seq<char>, s: Line, c: Cmd)
    requires Readable(buf, s, WordsOf(c))
    ensures Stored(buf, c) == Read(s, c)
  {
    hide CString, Readable;
    match c
    case Exec(args) => StoredWords(buf, s, args);
    case Redir(sub, file, _) =>
      ReadableBoth(buf, s, WordsOf(sub), [file]);
      StoredIsRead(buf, s, sub);
      StoredOne(buf, s, file);
    case Pipe(l, r) =>
      ReadableBoth(buf, s, WordsOf(l), WordsOf(r));
      StoredIsRead(buf, s, l);
      StoredIsRead(buf, s, r);
    case List(l, r) =>
      ReadableBoth(buf, s, WordsOf(l), WordsOf(r));
      StoredIsRead(buf, s, l);
      StoredIsRead(buf, s, r);
    case Back(sub) => StoredIsRead(buf, s, sub);
  }

  lemma StoredOne(buf: seq<char>, s: Line, w: (nat, nat))
    requires Readable(buf, s, [w])
    ensures CString(buf, w.0) == ShellRoundTrip.Text(s, w)
  {
    hide CString;
    assert [w][0] == w;
  }

  lemma EndedReads(s: Line, ws: seq<(nat, nat)>, i: nat)
    requires WholeWords(s, ws) && Inside(ws, |s| + 1) && i < |ws|
    ensures ws[i].0 < ws[i].1 <= |s| && CString(Ended(s + "\0", ws), ws[i].0) == s[ws[i].0..ws[i].1]
  {
    var (q, e) := ws[i];
    var buf := Ended(s + "\0", ws);
    assert TokenAt(s, q, e);
    forall k | q <= k < e ensures buf[k] == s[k] && IsWord(s[k]) {
      forall j | 0 <= j < |ws| ensures ws[j].1 != k {
        assert TokenAt(s, ws[j].0, ws[j].1);
      }
    }
    CStringTo(buf, q, e);
    assert buf[q..e] == s[q..e];
  }

  lemma {:induction false} EndedAppend(buf: seq<char>, a: seq<(nat, nat)>, b: seq<(nat, nat)>)
    requires forall i :: 0 <= i < |a| ==> a[i].1 < |buf|
    requires forall i :: 0 <= i < |b| ==> b[i].1 < |buf|
    ensures Ended(Ended(buf, a), b) == Ended(buf, a + b)
    decreases |b|
  {
    if b == [] {
      assert a + b == a;
    } else {
      assert (a + b)[..|a + b| - 1] == a + b[..|b| - 1];
      EndedAppend(buf, a, b[..|b| - 1]);
    }
  }

  lemma EndedOne(buf: seq<char>, w: (nat, nat))
    requires w.1 < |buf|
    ensures Ended(buf, [w]) == buf[w.1 := '\0']
  {
    assert Ended(buf, [w][..0]) == buf;
  }

  predicate Inside(ws: seq<(nat, nat)>, n: nat) {
    forall i :: 0 <= i < |ws| ==> ws[i].1 < n
  }

  lemma InsideBoth(a: seq<(nat, nat)>, b: seq<(nat, nat)>, n: nat)
    requires Inside(a + b, n)
    ensures Inside(a, n) && Inside(b, n)
  {
    forall i | 0 <= i < |a| ensures a[i].1 < n {
      assert (a + b)[i] == a[i];
    }
    forall i | 0 <= i < |b| ensures b[i].1 < n {
      assert (a + b)[|a| + i] == b[i];
    }
  }

  lemma ParsedInside(s: Line)
    requires ParseCmd(s).Ok?
    ensures Inside(WordsOf(ParseCmd(s).cmd), |s| + 1) && WholeWords(s, WordsOf(ParseCmd(s).cmd))
  {
    LineSound(s, 0);
    SoundWords(s, ParseCmd(s).cmd);
    hide WordsOf;
    var ws := WordsOf(ParseCmd(s).cmd);
    forall i | 0 <= i < |ws| ensures ws[i].1 < |s| + 1 {
      assert TokenAt(s, ws[i].0, ws[i].1);
    }
  }

  // ---------- The parser on its buffer ----------

  /** parseredirs and the argument loop, continued after what is already read. */
  function MoreRedirs(rs: seq<Redirection>, r: RedirResult): RedirResult {
    if r.RPanic? then RPanic else ROk(rs + r.redirs, r.next)
  }

  function MoreArgs(args: seq<(nat, nat)>, rs: seq<Redirection>, r: ArgsResult): ArgsResult {
    if r.APanic? then APanic else AOk(args + r.args, rs + r.redirs, r.next)
  }

  lemma RedirsBegin(s: Line, p: nat)
    requires p <= |s|
    ensures MoreRedirs([], ParseRedirs(s, p)) == ParseRedirs(s, p)
  {
  }

  lemma RedirsEnd(s: Line, p: nat, rs: seq<Redirection>)
    requires p <= |s| && !Peek(s, p, {'<', '>'})
    ensures MoreRedirs(rs, ParseRedirs(s, p)) == ROk(rs, SkipSpace(s, p))
  {
  }

  /** A token is the same from the blanks before it. */
  lemma TokenAfterBlanks(s: Line, p: nat)
    requires p <= |s|
    ensures GetToken(s, SkipSpace(s, p)) == GetToken(s, p)
    ensures CharAt(s, SkipSpace(s, p)) != '\0' ==> GetToken(s, p).next > p && GetToken(s, p).kind != '\0'
  {
  }

  lemma RedirStep(s: Line, p: nat, rs: seq<Redirection>)
    requires p <= |s| && Peek(s, p, {'<', '>'})
    ensures var tok := GetToken(s, SkipSpace(s, p));
            var file := GetToken(s, tok.next);
            && p < file.next
            && MoreRedirs(rs, ParseRedirs(s, p)) ==
               (if file.kind != 'a' then RPanic
                else MoreRedirs(rs + [Redirection((file.q, file.eq), tok.kind == '<')], ParseRedirs(s, file.next)))
  {
    TokenAfterBlanks(s, p);
    hide GetToken, SkipSpace;
    var tok := GetToken(s, p);
    var file := GetToken(s, tok.next);
    if file.kind == 'a' && ParseRedirs(s, file.next).ROk? {
      var one := Redirection((file.q, file.eq), tok.kind == '<');
      var rest := ParseRedirs(s, file.next).redirs;
      assert rs + ([one] + rest) == (rs + [one]) + rest;
    }
  }

  lemma ArgsBegin(s: Line, p: nat, rs: seq<Redirection>)
    requires p <= |s|
    ensures var r := ParseArgs(s, p, 0);
            MoreArgs([], rs, r) == if r.APanic? then APanic else AOk(r.args, rs + r.redirs, r.next)
  {
  }

  lemma ArgsEnd(s: Line, p: nat, argc: nat, args: seq<(nat, nat)>, rs: seq<Redirection>)
    requires p <= |s| && Peek(s, p, {'|', ')', '&', ';'})
    ensures MoreArgs(args, rs, ParseArgs(s, p, argc)) == AOk(args, rs, SkipSpace(s, p))
  {
  }

  lemma ArgStep(s: Line, p: nat, argc: nat, args: seq<(nat, nat)>, rs: seq<Redirection>)
    requires p <= |s| && !Peek(s, p, {'|', ')', '&', ';'})
    ensures var tok := GetToken(s, SkipSpace(s, p));
            var r := ParseRedirs(s, tok.next);
            && (tok.kind != '\0' ==> p < tok.next)
            && MoreArgs(args, rs, ParseArgs(s, p, argc)) ==
               (if tok.kind == '\0' then AOk(args, rs, tok.next)
                else if tok.kind != 'a' || argc + 1 >= MAXARGS || r.RPanic? then APanic
                else MoreArgs(args + [(tok.q, tok.eq)], rs + r.redirs, ParseArgs(s, r.next, argc + 1)))
  {
    hide SkipSpace, ParseRedirs, GetToken;
    TokenAfterBlanks(s, p);
    var tok := GetToken(s, p);
    var r := ParseRedirs(s, tok.next);
    if tok.kind == 'a' && argc + 1 < MAXARGS && r.ROk? && ParseArgs(s, r.next, argc + 1).AOk? {
      var rest := ParseArgs(s, r.next, argc + 1);
      assert args + ([(tok.q, tok.eq)] + rest.args) == (args + [(tok.q, tok.eq)]) + rest.args;
      assert rs + (r.redirs + rest.redirs) == (rs + r.redirs) + rest.redirs;
    }
  }

  /** parseexec when no parenthesis comes first, after its first redirections. */
  function ExecFrom(rs: seq<Redirection>, r: ArgsResult): Result {
    if r.APanic? then Panic else Ok(Wrap(Exec(r.args), rs + r.redirs), r.next)
  }

  lemma ExecBegin(s: Line, p: nat)
    requires p <= |s| && !Peek(s, p, {'('})
    ensures var rs := ParseRedirs(s, SkipSpace(s, p));
            ParseExec(s, p) == if rs.RPanic? then Panic else ExecFrom(rs.redirs, ParseArgs(s, rs.next, 0))
  {
    TokenAfterBlanks(s, p);
    assert ParseRedirs(s, SkipSpace(s, p)) == ParseRedirs(s, p);
    hide ParseRedirs, ParseArgs, Wrap;
  }

  lemma BlockStep(s: Line, p: nat)
    requires p <= |s| && Peek(s, p, {'('})
    ensures var begin := GetToken(s, SkipSpace(s, p)).next;
            var inner := ParseLine(s, begin);
            && p < begin && ParseExec(s, p) == ParseBlock(s, p)
            && (inner.Panic? || !Peek(s, inner.next, {')'}) ==> ParseBlock(s, p) == Panic)
            && (inner.Ok? && Peek(s, inner.next, {')'}) ==>
               var rs := ParseRedirs(s, GetToken(s, SkipSpace(s, inner.next)).next);
               ParseBlock(s, p) == if rs.RPanic? then Panic else Ok(Wrap(inner.cmd, rs.redirs), rs.next))
  {
    TokenAfterBlanks(s, p);
    hide ParseLine, ParseRedirs, SkipSpace, Wrap;
    var begin := GetToken(s, p).next;
    if ParseLine(s, begin).Ok? {
      TokenAfterBlanks(s, ParseLine(s, begin).next);
    }
  }

  lemma PipeStep(s: Line, p: nat)
    requires p <= |s|
    ensures var left := ParseExec(s, p);
            && (left.Panic? ==> ParsePipe(s, p) == Panic)
            && (left.Ok? && !Peek(s, left.next, {'|'}) ==> ParsePipe(s, p) == Ok(left.cmd, SkipSpace(s, left.next)))
            && (left.Ok? && Peek(s, left.next, {'|'}) ==>
               var begin := GetToken(s, SkipSpace(s, left.next)).next;
               var right := ParsePipe(s, begin);
               && p < begin
               && ParsePipe(s, p) == if right.Panic? then Panic else Ok(Pipe(left.cmd, right.cmd), right.next))
  {
    hide ParseExec, GetToken;
    if ParseExec(s, p).Ok? {
      TokenAfterBlanks(s, ParseExec(s, p).next);
    }
  }

  lemma BackStep(s: Line, c: Cmd, p: nat)
    requires p <= |s|
    ensures if !Peek(s, p, {'&'}) then ParseBacks(s, c, p) == Ok(c, SkipSpace(s, p)) else
            var begin := GetToken(s, SkipSpace(s, p)).next;
            p < begin && ParseBacks(s, c, p) == ParseBacks(s, Back(c), begin)
  {
    TokenAfterBlanks(s, p);
    hide GetToken;
  }

  lemma LineStep(s: Line, p: nat)
    requires p <= |s|
    ensures var first := ParsePipe(s, p);
            && (first.Panic? ==> ParseLine(s, p) == Panic)
            && (first.Ok? ==>
               var c := ParseBacks(s, first.cmd, first.next);
               && (!Peek(s, c.next, {';'}) ==> ParseLine(s, p) == Ok(c.cmd, SkipSpace(s, c.next)))
               && (Peek(s, c.next, {';'}) ==>
                  var begin := GetToken(s, SkipSpace(s, c.next)).next;
                  var rest := ParseLine(s, begin);
                  && p < begin
                  && ParseLine(s, p) == if rest.Panic? then Panic else Ok(List(c.cmd, rest.cmd), rest.next)))
  {
    hide ParsePipe, GetToken, ParseBacks;
    if ParsePipe(s, p).Ok? {
      var first := ParsePipe(s, p);
      TokenAfterBlanks(s, ParseBacks(s, first.cmd, first.next).next);
    }
  }

  /** The command inside the outermost n redirections. */
  function Inner(c: Cmd, n: nat): Cmd {
    if n == 0 || !c.Redir? then c else Inner(c.cmd, n - 1)
  }

  class Parser {
    const buf: array<char>
    const es: nat
    var ps: nat

    ghost predicate Valid()
      reads this, buf
    {
      buf.Length == es + 1 && buf[es] == '\0' && '\0' !in buf[..es] && ps <= es
    }

    ghost function Text(): Line
      requires Valid()
      reads this, buf
    {
      buf[..es]
    }

    constructor (line: array<char>, length: nat)
      requires line.Length == length + 1 && line[length] == '\0' && '\0' !in line[..length]
      ensures Valid() && buf == line && es == length && ps == 0
    {
      buf, es, ps := line, length, 0;
    }

    method SkipBlanks(from: nat) returns (s: nat)
      requires Valid() && from <= es
      ensures s == SkipSpace(Text(), from)
    {
      s := from;
      while s < es && IsSpace(buf[s])
        invariant from <= s <= es && SkipSpace(Text(), s) == SkipSpace(Text(), from)
      {
        s := s + 1;
      }
    }

    method SkipToWordEnd(from: nat) returns (s: nat)
      requires Valid() && from <= es
      ensures s == SkipWord(Text(), from)
    {
      s := from;
      while s < es && !IsSpace(buf[s]) && !IsSymbol(buf[s])
        invariant from <= s <= es && SkipWord(Text(), s) == SkipWord(Text(), from)
      {
        s := s + 1;
      }
    }

    method NextToken() returns (kind: char, q: nat, eq: nat)
      requires Valid()
      modifies this`ps
      ensures Valid() && GetToken(Text(), old(ps)) == Token(kind, q, eq, ps)
    {
      hide SkipSpace, SkipWord, TokenAt;
      var s := SkipBlanks(ps);
      q := s;
      kind := buf[s];
      if kind == '\0' {
      } else if kind == '|' || kind == '(' || kind == ')' || kind == ';' || kind == '&' || kind == '<' {
        s := s + 1;
      } else if kind == '>' {
        s := s + 1;
        if buf[s] == '>' {
          kind := '+';
          s := s + 1;
        }
      } else {
        kind := 'a';
        s := SkipToWordEnd(s);
      }
      eq := s;
      ps := SkipBlanks(s);
    }

    method PeekAt(toks: set<char>) returns (found: bool)
      requires Valid()
      modifies this`ps
      ensures Valid() && ps == SkipSpace(Text(), old(ps)) && found == Peek(Text(), old(ps), toks)
    {
      ps := SkipBlanks(ps);
      found := buf[ps] != '\0' && buf[ps] in toks;
    }

    method Redirs() returns (r: RedirResult)
      requires Valid()
      modifies this`ps
      ensures Valid() && r == ParseRedirs(Text(), old(ps)) && (r.ROk? ==> ps == r.next)
    {
      hide ParseRedirs, GetToken, SkipSpace, Peek, MoreRedirs;
      ghost var s, p := Text(), ps;
      var rs := [];
      RedirsBegin(s, p);
      var found := PeekAt({'<', '>'});
      while found
        invariant p <= |s| && Valid() && Text() == s && ps == SkipSpace(s, p) && found == Peek(s, p, {'<', '>'})
        invariant MoreRedirs(rs, ParseRedirs(s, p)) == ParseRedirs(s, old(ps))
        decreases es - p
      {
        RedirStep(s, p, rs);
        var tok, _, _ := NextToken();
        var kind, q, eq := NextToken();
        if kind != 'a' {
          return RPanic;
        }
        rs := rs + [Redirection((q, eq), tok == '<')];
        p := ps;
        found := PeekAt({'<', '>'});
      }
      RedirsEnd(s, p, rs);
      r := ROk(rs, ps);
    }

    /** The words and redirections of a command up to a symbol that ends it: the loop of parseexec. */
    method Args(first: seq<Redirection>) returns (r: ArgsResult)
      requires Valid()
      modifies this`ps
      ensures Valid() && r == MoreArgs([], first, ParseArgs(Text(), old(ps), 0)) && (r.AOk? ==> ps == r.next)
    {
      hide ParseArgs, ParseRedirs, GetToken, SkipSpace, Peek, MoreArgs;
      ghost var s, p0, p := Text(), ps, ps;
      var argc, args, rs := 0, [], first;
      var stop := PeekAt({'|', ')', '&', ';'});
      while !stop
        invariant p0 <= p <= |s| && Valid() && Text() == s
        invariant ps == SkipSpace(s, p) && stop == Peek(s, p, {'|', ')', '&', ';'}) && argc < MAXARGS
        invariant MoreArgs(args, rs, ParseArgs(s, p, argc)) == MoreArgs([], first, ParseArgs(s, p0, 0))
        decreases es - p
      {
        ArgStep(s, p, argc, args, rs);
        var tok, q, eq := NextToken();
        if tok == '\0' {
          return AOk(args, rs, ps);
        }
        if tok != 'a' {
          return APanic;
        }
        args := args + [(q, eq)];
        argc := argc + 1;
        if argc >= MAXARGS {
          return APanic;
        }
        var more := Redirs();
        if more.RPanic? {
          return APanic;
        }
        rs := rs + more.redirs;
        p := ps;
        stop := PeekAt({'|', ')', '&', ';'});
      }
      ArgsEnd(s, p, argc, args, rs);
      r := AOk(args, rs, ps);
    }

    /** redircmd around c for each redirection, the first one innermost. */
    method WrapAll(c: Cmd, rs: seq<Redirection>) returns (r: Cmd)
      ensures r == Wrap(c, rs)
      ensures Inner(r, |rs|) == c
      ensures forall d :: 0 <= d < |rs| ==>
        var n := Inner(r, d);
        n.Redir? && n.file == rs[|rs| - 1 - d].file && n.input == rs[|rs| - 1 - d].input
    {
      r := c;
      var i := 0;
      while i < |rs|
        invariant 0 <= i <= |rs| && Wrap(r, rs[i..]) == Wrap(c, rs) && Inner(r, i) == c
        invariant forall d :: 0 <= d < i ==>
          var n := Inner(r, d);
          n.Redir? && n.file == rs[i - 1 - d].file && n.input == rs[i - 1 - d].input
      {
        assert rs[i..][0] == rs[i] && rs[i..][1..] == rs[i + 1..];
        ghost var inside := r;
        r := Redir(r, rs[i].file, rs[i].input);
        assert forall d :: 1 <= d <= i + 1 ==> Inner(r, d) == Inner(inside, d - 1);
        i := i + 1;
      }
    }

    method ExecCommand() returns (r: Result)
      requires Valid()
      modifies this`ps
      ensures Valid() && r == ParseExec(Text(), old(ps)) && (r.Ok? ==> ps == r.next)
      decreases es - ps, 1
    {
      hide ParseExec, ParseBlock, ParseRedirs, ParseArgs, Wrap, SkipSpace, GetToken, Peek;
      ghost var s, p := Text(), ps;
      var block := PeekAt({'('});
      if block {
        BlockStep(s, p);
        r := Block(p);
        return;
      }
      ExecBegin(s, p);
      var rs := Redirs();
      if rs.RPanic? {
        return Panic;
      }
      ArgsBegin(s, ps, rs.redirs);
      var args := Args(rs.redirs);
      if args.APanic? {
        return Panic;
      }
      var c := WrapAll(Exec(args.args), args.redirs);
      r := Ok(c, ps);
    }

    /** A parenthesised line; p is where the blanks before it began. */
    method Block(ghost p: nat) returns (r: Result)
      requires Valid() && p <= ps && ps == SkipSpace(Text(), p) && Peek(Text(), p, {'('})
      modifies this`ps
      ensures Valid() && r == ParseBlock(Text(), p) && (r.Ok? ==> ps == r.next)
      decreases es - p, 0
    {
      hide ParseBlock, ParseRedirs, ParseLine, ParseExec, Wrap, SkipSpace, GetToken, Peek;
      ghost var s := Text();
      BlockStep(s, p);
      var _, _, _ := NextToken();
      var inner := CommandLine();
      if inner.Panic? {
        return Panic;
      }
      var closed := PeekAt({')'});
      if !closed {
        return Panic;
      }
      var _, _, _ := NextToken();
      var rs := Redirs();
      if rs.RPanic? {
        return Panic;
      }
      var c := WrapAll(inner.cmd, rs.redirs);
      r := Ok(c, ps);
    }

    method Pipeline() returns (r: Result)
      requires Valid()
      modifies this`ps
      ensures Valid() && r == ParsePipe(Text(), old(ps)) && (r.Ok? ==> ps == r.next)
      decreases es - ps, 2
    {
      hide ParsePipe, ParseExec, SkipSpace, GetToken, Peek;
      ghost var s, p := Text(), ps;
      PipeStep(s, p);
      var left := ExecCommand();
      if left.Panic? {
        return Panic;
      }
      var more := PeekAt({'|'});
      if !more {
        return Ok(left.cmd, ps);
      }
      var _, _, _ := NextToken();
      var right := Pipeline();
      if right.Panic? {
        return Panic;
      }
      r := Ok(Pipe(left.cmd, right.cmd), ps);
    }

    /** The "&" loop of parseline. */
    method Backs(c: Cmd) returns (r: Cmd)
      requires Valid()
      modifies this`ps
      ensures Valid() && Ok(r, ps) == ParseBacks(Text(), c, old(ps))
    {
      hide ParseBacks, GetToken, SkipSpace, Peek;
      ghost var s, p := Text(), ps;
      r := c;
      var more := PeekAt({'&'});
      while more
        invariant p <= |s| && Valid() && Text() == s && ps == SkipSpace(s, p) && more == Peek(s, p, {'&'})
        invariant ParseBacks(s, r, p) == ParseBacks(s, c, old(ps))
        decreases es - p
      {
        BackStep(s, r, p);
        var _, _, _ := NextToken();
        r := Back(r);
        p := ps;
        more := PeekAt({'&'});
      }
      BackStep(s, r, p);
    }

    method CommandLine() returns (r: Result)
      requires Valid()
      modifies this`ps
      ensures Valid() && r == ParseLine(Text(), old(ps)) && (r.Ok? ==> ps == r.next)
      decreases es - ps, 3
    {
      hide ParseLine, ParsePipe, ParseBacks, SkipSpace, GetToken, Peek;
      ghost var s, p := Text(), ps;
      LineStep(s, p);
      var first := Pipeline();
      if first.Panic? {
        return Panic;
      }
      var c := Backs(first.cmd);
      var more := PeekAt({';'});
      if !more {
        return Ok(c, ps);
      }
      var _, _, _ := NextToken();
      var rest := CommandLine();
      if rest.Panic? {
        return Panic;
      }
      r := Ok(List(c, rest.cmd), ps);
    }

    /** nulterminate: writes a NUL over the character after every word. */
    method NulTerminate(c: Cmd)
      requires Inside(WordsOf(c), buf.Length)
      modifies buf
      ensures buf[..] == Ended(old(buf[..]), WordsOf(c))
      decreases c
    {
      match c
      case Exec(args) =>
        var i := 0;
        while i < |args|
          invariant 0 <= i <= |args| && buf[..] == Ended(old(buf[..]), args[..i])
        {
          EndedAppend(old(buf[..]), args[..i], [args[i]]);
          EndedOne(buf[..], args[i]);
          assert args[..i] + [args[i]] == args[..i + 1];
          buf[args[i].1] := '\0';
          i := i + 1;
        }
        assert args[..i] == args;
      case Redir(sub, file, _) =>
        InsideBoth(WordsOf(sub), [file], buf.Length);
        NulTerminate(sub);
        EndedAppend(old(buf[..]), WordsOf(sub), [file]);
        EndedOne(buf[..], file);
        buf[file.1] := '\0';
      case Pipe(l, r) =>
        InsideBoth(WordsOf(l), WordsOf(r), buf.Length);
        NulTerminate(l);
        NulTerminate(r);
        EndedAppend(old(buf[..]), WordsOf(l), WordsOf(r));
      case List(l, r) =>
        InsideBoth(WordsOf(l), WordsOf(r), buf.Length);
        NulTerminate(l);
        NulTerminate(r);
        EndedAppend(old(buf[..]), WordsOf(l), WordsOf(r));
      case Back(sub) =>
        NulTerminate(sub);
    }

    /**
     parsecmd: it succeeds exactly on the lines of the grammar, and then the tree, each word read from the buffer
     as a C string, is the one that the line stands for. On a panic the buffer is untouched.
     */
    method Parse() returns (r: Result)
      requires Valid() && ps == 0
      modifies this`ps, buf
      ensures r == ParseCmd(old(Text()))
      ensures r.Panic? ==> buf[..] == old(buf[..])
      ensures r.Ok? ==> Readable(buf[..], old(Text()), WordsOf(r.cmd))
      ensures r.Ok? <==> exists l :: Spells(old(Text()), l)
      ensures forall l :: Spells(old(Text()), l) ==> r.Ok? && Stored(buf[..], r.cmd) == LineTree(l)
    {
      ghost var s := Text();
      assert buf[..] == s + "\0";
      Language(s);
      hide Spells, ParseLine, LineTree, Stored;
      r := CommandLine();
      if r.Panic? {
        return;
      }
      var _ := PeekAt({});
      if ps != es {
        return Panic;
      }
      ParsedInside(s);
      NulTerminate(r.cmd);
      WordsReadExactly(s);
      StoredIsRead(buf[..], s, r.cmd);
    }
  }
}
