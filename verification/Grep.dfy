/**
 The pattern matcher of grep.c, proved sound and complete for the language of its patterns.

 A text or pattern pointer is a position in its string; the terminating NUL is at the end.
 */
module Grep {

  datatype Item = Lit(c: char) | Any | Star(c: char)

  /** A parsed pattern: its items, and whether a final $ ties it to the end of the text. */
  datatype Pattern = Pattern(items: seq<Item>, toEnd: bool)

  /** A character followed by * is starred; a $ that ends the pattern is an anchor; all else is one character. */
  function Parse(re: string): Pattern {
    if re == "" then Pattern([], false)
    else if |re| >= 2 && re[1] == '*' then
      var rest := Parse(re[2..]);
      Pattern([Star(re[0])] + rest.items, rest.toEnd)
    else if re == "$" then Pattern([], true)
    else
      var rest := Parse(re[1..]);
      Pattern([if re[0] == '.' then Any else Lit(re[0])] + rest.items, rest.toEnd)
  }

  /** The strings one item stands for. */
  predicate ItemMatches(item: Item, w: string) {
    match item
    case Lit(c) => w == [c]
    case Any => |w| == 1
    case Star(c) => c == '.' || forall i :: 0 <= i < |w| ==> w[i] == c
  }

  /** The language of a list of items: concatenations of one string for each. */
  predicate InLanguage(items: seq<Item>, w: string)
    decreases |items|
  {
    if items == [] then w == ""
    else exists k :: 0 <= k <= |w| && ItemMatches(items[0], w[..k]) && InLanguage(items[1..], w[k..])
  }

  /** The pattern matches text[..j], up to the end of the text if it must. */
  predicate MatchesTo(p: Pattern, text: string, j: nat) {
    j <= |text| && (p.toEnd ==> j == |text|) && InLanguage(p.items, text[..j])
  }

  /** The pattern matches at the beginning of the text. */
  predicate Here(p: Pattern, text: string) {
    exists j: nat :: j <= |text| && MatchesTo(p, text, j)
  }

  /** A string of k characters that the item stands for, and then the rest of the pattern. */
  predicate ItemThen(item: Item, p: Pattern, text: string, k: nat) {
    k <= |text| && ItemMatches(item, text[..k]) && Here(p, text[k..])
  }

  /** What grep promises: some substring is in the language, tied to the ends of the text by ^ and $. */
  predicate Found(re: string, text: string) {
    if re != "" && re[0] == '^' then Here(Parse(re[1..]), text)
    else exists i: nat :: i <= |text| && Here(Parse(re), text[i..])
  }

  lemma ConsHere(item: Item, p: Pattern, text: string)
    ensures Here(Pattern([item] + p.items, p.toEnd), text) <==>
            exists k: nat :: ItemThen(item, p, text, k)
  {
    var q := Pattern([item] + p.items, p.toEnd);
    assert q.items[1..] == p.items;
    if Here(q, text) {
      var j: nat :| j <= |text| && MatchesTo(q, text, j);
      var k :| 0 <= k <= j && ItemMatches(item, text[..j][..k]) && InLanguage(p.items, text[..j][k..]);
      assert text[..j][..k] == text[..k] && text[..j][k..] == text[k..][..j - k];
      assert MatchesTo(p, text[k..], j - k);
      assert ItemThen(item, p, text, k);
    }
    if k: nat :| ItemThen(item, p, text, k) {
      var j: nat :| j <= |text[k..]| && MatchesTo(p, text[k..], j);
      assert text[..k + j][..k] == text[..k] && text[..k + j][k..] == text[k..][..j];
      assert MatchesTo(q, text, k + j);
    }
  }

  lemma OneCharHere(item: Item, p: Pattern, text: string)
    requires !item.Star?
    ensures Here(Pattern([item] + p.items, p.toEnd), text) <==>
            text != "" && (item.Any? || item.c == text[0]) && Here(p, text[1..])
  {
    ConsHere(item, p, text);
    assert text != "" && ItemMatches(item, text[..1]) && Here(p, text[1..]) ==> ItemThen(item, p, text, 1);
  }

  lemma EndHere(toEnd: bool, text: string)
    ensures Here(Pattern([], toEnd), text) <==> !toEnd || text == ""
  {
    assert MatchesTo(Pattern([], toEnd), text, 0) <==> !toEnd || text == "";
  }

  /** Without a star the text begins with the characters of the pattern, '.' standing for any, and '$' ends it there. */
  lemma {:induction false} PlainHere(re: string, dollar: bool, text: string)
    requires forall i :: 0 <= i < |re| ==> re[i] != '*' && re[i] != '$'
    ensures Here(Parse(if dollar then re + "$" else re), text) <==>
      && |re| <= |text| && (dollar ==> |re| == |text|)
      && forall i :: 0 <= i < |re| ==> re[i] == '.' || re[i] == text[i]
    decreases |re|
  {
    var full := if dollar then re + "$" else re;
    hide Here;
    if re == "" {
      assert full == if dollar then "$" else "";
      EndHere(dollar, text);
    } else {
      var item := if re[0] == '.' then Any else Lit(re[0]);
      var tail := if dollar then re[1..] + "$" else re[1..];
      assert full[1..] == tail && full[0] == re[0];
      OneCharHere(item, Parse(tail), text);
      if text != "" {
        PlainHere(re[1..], dollar, text[1..]);
        AllFirst(re, text);
      }
    }
  }

  lemma AllFirst(re: string, text: string)
    requires re != "" && text != ""
    ensures
      |re| <= |text| && (forall i :: 0 <= i < |re| ==> re[i] == '.' || re[i] == text[i]) <==>
      && (re[0] == '.' || re[0] == text[0]) && |re[1..]| <= |text[1..]|
      && forall i :: 0 <= i < |re[1..]| ==> re[1..][i] == '.' || re[1..][i] == text[1..][i]
  {
    if |re| <= |text| && forall i :: 0 <= i < |re[1..]| ==> re[1..][i] == '.' || re[1..][i] == text[1..][i] {
      forall i | 1 <= i < |re| ensures re[i] == '.' || re[i] == text[i] {
        assert re[i] == re[1..][i - 1] && text[i] == text[1..][i - 1];
      }
    }
  }

  /** A starred character: any number of it, or of any characters for '.', and then the rest of the pattern. */
  lemma StarHere(c: char, re: string, text: string)
    ensures Here(Parse([c, '*'] + re), text) <==>
      exists k: nat ::
        k <= |text| && (forall i :: 0 <= i < k ==> c == '.' || text[i] == c) && Here(Parse(re), text[k..])
  {
    assert ([c, '*'] + re)[2..] == re;
    ConsHere(Star(c), Parse(re), text);
    hide Here, Parse;
    forall k: nat
      ensures ItemThen(Star(c), Parse(re), text, k) <==>
        k <= |text| && (forall i :: 0 <= i < k ==> c == '.' || text[i] == c) && Here(Parse(re), text[k..])
    {
    }
  }

  /** matchhere */
  method MatchHere(re: string, text: string) returns (r: bool)
    ensures r <==> Here(Parse(re), text)
    decreases |re|, |text|, 0
  {
    if re == "" {
      EndHere(false, text);
      return true;
    }
    if |re| >= 2 && re[1] == '*' {
      ConsHere(Star(re[0]), Parse(re[2..]), text);
      r := MatchStar(re[0], re[2..], text);
      assert Parse(re) == Pattern([Star(re[0])] + Parse(re[2..]).items, Parse(re[2..]).toEnd);
      return;
    }
    if re == "$" {
      assert Parse(re) == Pattern([], true);
      EndHere(true, text);
      return text == "";
    }
    OneCharHere(if re[0] == '.' then Any else Lit(re[0]), Parse(re[1..]), text);
    if text != "" && (re[0] == '.' || re[0] == text[0]) {
      r := MatchHere(re[1..], text[1..]);
      return;
    }
    r := false;
  }

  /** matchstar: the do-while loop over ever longer runs of c. */
  method MatchStar(c: char, re: string, text: string) returns (r: bool)
    ensures r <==> exists k: nat :: ItemThen(Star(c), Parse(re), text, k)
    decreases |re|, |text|, 1
  {
    var k := 0;
    while true
      invariant 0 <= k <= |text| && ItemMatches(Star(c), text[..k])
      invariant forall i: nat :: i < k ==> !Here(Parse(re), text[i..])
      decreases |text| - k
    {
      r := MatchHere(re, text[k..]);
      if r {
        assert ItemThen(Star(c), Parse(re), text, k);
        return;
      }
      if k == |text| || !(text[k] == c || c == '.') {
        break;
      }
      k := k + 1;
    }
  }

  /** match: the pattern is sought from every position, the empty end included, unless ^ ties it to the start. */
  method Match(re: string, text: string) returns (r: bool)
    ensures r <==> Found(re, text)
    ensures r <==>
      if re != "" && re[0] == '^' then Here(Parse(re[1..]), text)
      else exists i: nat :: i <= |text| && Here(Parse(re), text[i..])
  {
    if re != "" && re[0] == '^' {
      r := MatchHere(re[1..], text);
      return;
    }
    var i := 0;
    while true
      invariant 0 <= i <= |text|
      invariant forall h: nat :: h < i ==> !Here(Parse(re), text[h..])
      decreases |text| - i
    {
      r := MatchHere(re, text[i..]);
      if r || i == |text| {
        return;
      }
      i := i + 1;
    }
  }
}
