/**
 The command parser of sh.c as functions on the input line.

 Positions stand for the pointers into the line; the terminating NUL is at position |s|, and the line
 itself contains none. A panic of the parser is the result `Panic`.
 */
module ShellSpec {

  const MAXARGS: nat := 10

  predicate IsSpace(c: char) {
    c == ' ' || c == '\t' || c == '\r' || c == '\n' || c == '\U{000b}'
  }

  predicate IsSymbol(c: char) {
    c == '<' || c == '|' || c == '>' || c == '&' || c == ';' || c == '(' || c == ')'
  }

  predicate IsWord(c: char) {
    !IsSpace(c) && !IsSymbol(c) && c != '\0'
  }

  type Line = s: string | '\0' !in s witness ""

  /** *p, with the terminating NUL. */
  function CharAt(s: Line, p: nat): char
    requires p <= |s|
  {
    if p < |s| then s[p] else '\0'
  }

  function SkipSpace(s: Line, p: nat): (r: nat)
    requires p <= |s|
    ensures p <= r <= |s|
    ensures r < |s| ==> !IsSpace(s[r])
    ensures forall i :: p <= i < r ==> IsSpace(s[i])
    decreases |s| - p
  {
    if p < |s| && IsSpace(s[p]) then SkipSpace(s, p + 1) else p
  }

  function SkipWord(s: Line, p: nat): (r: nat)
    requires p <= |s|
    ensures p <= r <= |s|
    ensures r < |s| ==> !IsWord(s[r])
    ensures forall i :: p <= i < r ==> IsWord(s[i])
    decreases |s| - p
  {
    if p < |s| && !IsSpace(s[p]) && !IsSymbol(s[p]) then SkipWord(s, p + 1) else p
  }

  /** The characters from q up to e are one whole word of the line. */
  predicate TokenAt(s: Line, q: nat, e: nat) {
    q < e <= |s| && (forall i :: q <= i < e ==> IsWord(s[i])) && (e < |s| ==> !IsWord(s[e]))
  }

  /** What gettoken returns: the kind, the token's begin and end, and the new position. */
  datatype Token = Token(kind: char, q: nat, eq: nat, next: nat)

  function TokenEnd(s: Line, q: nat): nat
    requires q <= |s|
  {
    if q == |s| then q
    else if s[q] == '>' then (if q + 1 < |s| && s[q + 1] == '>' then q + 2 else q + 1)
    else if IsSymbol(s[q]) then q + 1
    else SkipWord(s, q)
  }

  function TokenKind(s: Line, q: nat): char
    requires q <= |s|
  {
    if q == |s| then '\0'
    else if s[q] == '>' then (if q + 1 < |s| && s[q + 1] == '>' then '+' else '>')
    else if IsSymbol(s[q]) then s[q]
    else 'a'
  }

  function GetToken(s: Line, p: nat): (t: Token)
    requires p <= |s|
    ensures p <= t.q <= t.eq <= t.next <= |s|
    ensures t.kind != '\0' ==> t.q < t.eq
    ensures t.kind == 'a' ==> TokenAt(s, t.q, t.eq)
  {
    var q := SkipSpace(s, p);
    Token(TokenKind(s, q), q, TokenEnd(s, q), SkipSpace(s, TokenEnd(s, q)))
  }

  /** peek: whether the next non-blank character is one of toks. */
  predicate Peek(s: Line, p: nat, toks: set<char>)
    requires p <= |s|
  {
    CharAt(s, SkipSpace(s, p)) != '\0' && CharAt(s, SkipSpace(s, p)) in toks
  }

  /** The parsed command; a pair (q, e) is a word of the line, from argv/eargv or file/efile. */
  datatype Cmd =
    | Exec(args: seq<(nat, nat)>)
    | Redir(cmd: Cmd, file: (nat, nat), input: bool)  // input: O_RDONLY on fd 0, else O_WRONLY|O_CREATE on fd 1
    | Pipe(left: Cmd, right: Cmd)
    | List(left: Cmd, right: Cmd)
    | Back(cmd: Cmd)

  datatype Result = Ok(cmd: Cmd, next: nat) | Panic

  datatype Redirection = Redirection(file: (nat, nat), input: bool)

  datatype RedirResult = ROk(redirs: seq<Redirection>, next: nat) | RPanic

  /** redircmd applied for each redirection, the first innermost. */
  function Wrap(cmd: Cmd, rs: seq<Redirection>): Cmd
    decreases |rs|
  {
    if rs == [] then cmd else Wrap(Redir(cmd, rs[0].file, rs[0].input), rs[1..])
  }

  function ParseRedirs(s: Line, p: nat): (r: RedirResult)
    requires p <= |s|
    ensures r.ROk? ==> p <= r.next <= |s|
    decreases |s| - p
  {
    if !Peek(s, p, {'<', '>'}) then ROk([], SkipSpace(s, p)) else
      var tok := GetToken(s, p);
      var file := GetToken(s, tok.next);
      if file.kind != 'a' then RPanic else
        var rest := ParseRedirs(s, file.next);
        if rest.RPanic? then RPanic
        else ROk([Redirection((file.q, file.eq), tok.kind == '<')] + rest.redirs, rest.next)
  }

  datatype ArgsResult = AOk(args: seq<(nat, nat)>, redirs: seq<Redirection>, next: nat) | APanic

  /** The loop of parseexec with argc words already read. */
  function ParseArgs(s: Line, p: nat, argc: nat): (r: ArgsResult)
    requires p <= |s|
    ensures r.AOk? ==> p <= r.next <= |s|
    decreases |s| - p
  {
    if Peek(s, p, {'|', ')', '&', ';'}) then AOk([], [], SkipSpace(s, p)) else
      var tok := GetToken(s, p);
      if tok.kind == '\0' then AOk([], [], tok.next)
      else if tok.kind != 'a' || argc + 1 >= MAXARGS then APanic
      else
        var rs := ParseRedirs(s, tok.next);
        if rs.RPanic? then APanic else
          var rest := ParseArgs(s, rs.next, argc + 1);
          if rest.APanic? then APanic
          else AOk([(tok.q, tok.eq)] + rest.args, rs.redirs + rest.redirs, rest.next)
  }

  function ParseExec(s: Line, p: nat): (r: Result)
    requires p <= |s|
    ensures r.Ok? ==> p <= r.next <= |s|
    decreases |s| - p, 1
  {
    if Peek(s, p, {'('}) then ParseBlock(s, p) else
      var rs := ParseRedirs(s, p);
      if rs.RPanic? then Panic else
        var rest := ParseArgs(s, rs.next, 0);
        if rest.APanic? then Panic
        else Ok(Wrap(Exec(rest.args), rs.redirs + rest.redirs), rest.next)
  }

  function ParseBlock(s: Line, p: nat): (r: Result)
    requires p <= |s| && Peek(s, p, {'('})
    ensures r.Ok? ==> p <= r.next <= |s|
    decreases |s| - p, 0
  {
    var inner := ParseLine(s, GetToken(s, p).next);
    if inner.Panic? || !Peek(s, inner.next, {')'}) then Panic else
      var rs := ParseRedirs(s, GetToken(s, inner.next).next);
      if rs.RPanic? then Panic else Ok(Wrap(inner.cmd, rs.redirs), rs.next)
  }

  function ParsePipe(s: Line, p: nat): (r: Result)
    requires p <= |s|
    ensures r.Ok? ==> p <= r.next <= |s|
    decreases |s| - p, 2
  {
    var left := ParseExec(s, p);
    if left.Panic? then Panic
    else if !Peek(s, left.next, {'|'}) then Ok(left.cmd, SkipSpace(s, left.next))
    else
      var right := ParsePipe(s, GetToken(s, left.next).next);
      if right.Panic? then Panic else Ok(Pipe(left.cmd, right.cmd), right.next)
  }

  /** The "&" loop of parseline. */
  function ParseBacks(s: Line, cmd: Cmd, p: nat): (r: Result)
    requires p <= |s|
    ensures r.Ok? && p <= r.next <= |s|
    decreases |s| - p
  {
    if Peek(s, p, {'&'}) then ParseBacks(s, Back(cmd), GetToken(s, p).next) else Ok(cmd, SkipSpace(s, p))
  }

  function ParseLine(s: Line, p: nat): (r: Result)
    requires p <= |s|
    ensures r.Ok? ==> p <= r.next <= |s|
    decreases |s| - p, 3
  {
    var first := ParsePipe(s, p);
    if first.Panic? then Panic else
      var cmd := ParseBacks(s, first.cmd, first.next);
      if !Peek(s, cmd.next, {';'}) then Ok(cmd.cmd, SkipSpace(s, cmd.next))
      else
        var rest := ParseLine(s, GetToken(s, cmd.next).next);
        if rest.Panic? then Panic else Ok(List(cmd.cmd, rest.cmd), rest.next)
  }

  function ParseCmd(s: Line): (r: Result)
  {
    var r := ParseLine(s, 0);
    if r.Panic? || SkipSpace(s, r.next) != |s| then Panic else r
  }
}
