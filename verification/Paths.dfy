/** Paths as strings: splitting at slashes, and that it undoes every way of writing a path. */
module Paths {

  function WordLength(p: string): (n: nat)
    ensures n <= |p| && '/' !in p[..n]
    ensures n < |p| ==> p[n] == '/'
  {
    if p == [] || p[0] == '/' then 0 else 1 + WordLength(p[1..])
  }

  /** `path.split('/')` without the empty pieces. */
  function Components(p: string): (cs: seq<string>)
    ensures forall c :: c in cs ==> Word(c)
    decreases |p|
  {
    if p == [] then []
    else if p[0] == '/' then Components(p[1..])
    else [p[..WordLength(p)]] + Components(p[WordLength(p)..])
  }

  predicate Word(c: string) {
    c != [] && '/' !in c
  }

  // ---- every way of writing a path ------------------------------------------

  function Slashes(n: nat): (s: string)
    ensures |s| == n && forall i :: 0 <= i < n ==> s[i] == '/'
  {
    if n == 0 then [] else ['/'] + Slashes(n - 1)
  }

  /** The words in order, word `i` followed by `gaps[i]` slashes. */
  function Spelled(cs: seq<string>, gaps: seq<nat>): string
    requires |gaps| == |cs|
  {
    if cs == [] then [] else cs[0] + (Slashes(gaps[0]) + Spelled(cs[1..], gaps[1..]))
  }

  /** At least one slash between two words; any number at the end. */
  predicate Spelling(cs: seq<string>, gaps: seq<nat>) {
    && |gaps| == |cs|
    && (forall c :: c in cs ==> Word(c))
    && (forall i :: 0 <= i < |gaps| - 1 ==> gaps[i] >= 1)
  }

  lemma {:induction false} SkipSlashes(n: nat, p: string)
    ensures Components(Slashes(n) + p) == Components(p)
  {
    if n == 0 {
      assert Slashes(0) + p == p;
    } else {
      SkipSlashes(n - 1, p);
      assert (Slashes(n) + p)[1..] == Slashes(n - 1) + p;
    }
  }

  lemma {:induction false} WordLengthIs(c: string, rest: string)
    requires '/' !in c && (rest != [] ==> rest[0] == '/')
    ensures WordLength(c + rest) == |c|
  {
    if c == [] {
      assert c + rest == rest;
    } else {
      WordLengthIs(c[1..], rest);
      assert (c + rest)[1..] == c[1..] + rest && (c + rest)[0] == c[0] && c[0] in c;
    }
  }

  lemma TakeWord(c: string, rest: string)
    requires Word(c) && (rest != [] ==> rest[0] == '/')
    ensures Components(c + rest) == [c] + Components(rest)
  {
    WordLengthIs(c, rest);
    assert (c + rest)[0] == c[0] && c[0] in c;
    assert (c + rest)[..|c|] == c && (c + rest)[|c|..] == rest;
  }

  /** However the words are written, with any slashes before and after and at least one
      between, splitting gives them back in order. */
  lemma {:induction false} SpelledComponents(lead: nat, cs: seq<string>, gaps: seq<nat>)
    requires Spelling(cs, gaps)
    ensures Components(Slashes(lead) + Spelled(cs, gaps)) == cs
    decreases |cs|
  {
    SkipSlashes(lead, Spelled(cs, gaps));
    if cs != [] {
      var rest := Slashes(gaps[0]) + Spelled(cs[1..], gaps[1..]);
      SpelledComponents(gaps[0], cs[1..], gaps[1..]);
      assert cs[0] in cs;
      TakeWord(cs[0], rest);
      assert [cs[0]] + cs[1..] == cs;
    }
  }

  /** `p` is its components written with `lead` slashes before and `gaps` after the words. */
  predicate SpelledAs(p: string, lead: nat, gaps: seq<nat>) {
    && Spelling(Components(p), gaps)
    && p == Slashes(lead) + Spelled(Components(p), gaps)
    && (p != [] ==> (p[0] == '/' <==> lead >= 1))
  }

  /** Conversely every string is such a spelling of its components. */
  lemma {:induction false} EveryPathSpelled(p: string) returns (lead: nat, gaps: seq<nat>)
    ensures SpelledAs(p, lead, gaps)
    decreases |p|
  {
    if p == [] {
      lead, gaps := 0, [];
    } else if p[0] == '/' {
      lead, gaps := EveryPathSpelled(p[1..]);
      SpellSlash(p, lead, gaps);
      lead := lead + 1;
    } else {
      lead, gaps := EveryPathSpelled(p[WordLength(p)..]);
      SpellFirst(p, lead, gaps);
      lead, gaps := 0, [lead] + gaps;
    }
  }

  lemma SpellSlash(p: string, lead: nat, gaps: seq<nat>)
    requires p != [] && p[0] == '/' && SpelledAs(p[1..], lead, gaps)
    ensures SpelledAs(p, lead + 1, gaps)
  {
    OneMoreSlash(lead, Spelled(Components(p[1..]), gaps));
    assert p == ['/'] + p[1..];
  }

  lemma OneMoreSlash(n: nat, s: string)
    ensures Slashes(n + 1) + s == ['/'] + (Slashes(n) + s)
  {
    assert (['/'] + Slashes(n)) + s == ['/'] + (Slashes(n) + s);
  }

  lemma SpellFirst(p: string, after: nat, more: seq<nat>)
    requires p != [] && p[0] != '/' && SpelledAs(p[WordLength(p)..], after, more)
    ensures SpelledAs(p, 0, [after] + more)
  {
    var n := WordLength(p);
    assert n > 0 && p == p[..n] + p[n..];
    SpellWord(p[..n], p[n..], after, more);
  }

  lemma SpellWord(c: string, rest: string, after: nat, more: seq<nat>)
    requires Word(c) && Spelling(Components(rest), more)
    requires rest == Slashes(after) + Spelled(Components(rest), more)
    requires rest != [] ==> rest[0] == '/' && after >= 1
    ensures Spelling([c] + Components(rest), [after] + more)
    ensures Slashes(0) + Spelled([c] + Components(rest), [after] + more) == c + rest
  {
    var cs, gaps := [c] + Components(rest), [after] + more;
    assert cs[1..] == Components(rest) && gaps[1..] == more;
    assert Spelled(cs, gaps) == c + rest;
    assert Slashes(0) + Spelled(cs, gaps) == Spelled(cs, gaps);
  }
}
