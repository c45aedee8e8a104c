/**
 vsf_filename_passes_filter (ls.c): a greedy matcher for '*', '?' and '{a,b}' with a shared budget of
 loop turns, compared with what the patterns mean.
 */
module Filter {
  import opened Basics

  const MATCHITERS_MAX: nat := 1000

  predicate Special(c: char) { c == '*' || c == '?' || c == '{' }

  predicate Literal(s: string) { forall c | c in s :: !Special(c) }

  // ---------------------------------------------------------------- what a pattern means

  /** The text before the first c; all of it when there is none. */
  function Before(s: string, c: char): (r: string)
    ensures |r| <= |s| && c !in r && r <= s
    ensures c in s ==> |r| < |s| && s[|r|] == c
    ensures c !in s ==> r == s
  {
    if s == "" || s[0] == c then "" else [s[0]] + Before(s[1..], c)
  }

  /** The text after the first c; nothing when there is none. */
  function After(s: string, c: char): (r: string)
    ensures s == Before(s, c) + if c in s then [c] + r else r
    ensures c !in s ==> r == ""
  {
    if c in s then s[|Before(s, c)| + 1..] else ""
  }

  function Alternatives(list: string): (r: seq<string>)
    ensures forall i | 0 <= i < |r| :: |r[i]| <= |list|
    decreases |list|
  {
    if ',' in list then [Before(list, ',')] + Alternatives(After(list, ',')) else [list]
  }

  /**
   '*' is any text, '?' one character, '{' up to the first '}' any of the alternatives put in its place;
   a '{' that is never closed, like every other character, is itself.
   */
  ghost predicate Matches(f: string, n: string)
    decreases |f|
  {
    if f == "" then n == ""
    else if f[0] == '*' then exists k :: 0 <= k <= |n| && Matches(f[1..], n[k..])
    else if f[0] == '{' && '}' in f[1..] then
      var alts, rest := Alternatives(Before(f[1..], '}')), After(f[1..], '}');
      exists i :: 0 <= i < |alts| && Matches(alts[i] + rest, n)
    else n != "" && (f[0] == '?' || n[0] == f[0]) && Matches(f[1..], n[1..])
  }

  lemma {:induction false} MatchesLiteral(lit: string, g: string, n: string)
    requires Literal(lit)
    ensures Matches(lit + g, n) <==> |lit| <= |n| && n[..|lit|] == lit && Matches(g, n[|lit|..])
  {
    if lit == "" {
      assert lit + g == g && n[0..] == n;
    } else {
      assert (lit + g)[1..] == lit[1..] + g && lit[0] in lit;
      assert |lit| <= |n| ==> n[..|lit|][0] == n[0];
      if n != "" && n[0] == lit[0] {
        MatchesLiteral(lit[1..], g, n[1..]);
        if |lit| <= |n| {
          assert n[1..][|lit| - 1..] == n[|lit|..];
          assert n[1..][..|lit| - 1] == n[..|lit|][1..];
          assert n[..|lit|] == [n[0]] + n[..|lit|][1..] && lit == [lit[0]] + lit[1..];
        }
      }
    }
  }

  lemma StarMeans(g: string, n: string)
    ensures Matches("*" + g, n) <==> exists k :: 0 <= k <= |n| && Matches(g, n[k..])
  {
    assert ("*" + g)[1..] == g;
  }

  /** Whatever comes after a star matches any longer name that ends the same way. */
  lemma StarSkips(g: string, n: string, k: nat)
    requires k <= |n| && Matches("*" + g, n[k..])
    ensures Matches("*" + g, n)
  {
    hide Matches;
    StarMeans(g, n);
    StarMeans(g, n[k..]);
    var j :| 0 <= j <= |n[k..]| && Matches(g, n[k..][j..]);
    assert n[k..][j..] == n[k + j..];
  }

  /** The name holds lit at k. */
  predicate At(n: string, lit: string, k: nat) {
    k + |lit| <= |n| && n[k..k + |lit|] == lit
  }

  /** No place before k. */
  ghost predicate FirstAt(n: string, lit: string, k: nat) {
    At(n, lit, k) && forall j | 0 <= j < k :: !At(n, lit, j)
  }

  /** Matching from k on starts with finding the literal at k. */
  lemma LiteralAt(lit: string, g: string, n: string, k: nat)
    requires Literal(lit) && k <= |n|
    ensures Matches(lit + g, n[k..]) <==> At(n, lit, k) && Matches(g, n[k + |lit|..])
  {
    hide Matches;
    MatchesLiteral(lit, g, n[k..]);
    if k + |lit| <= |n| {
      assert n[k..][..|lit|] == n[k..k + |lit|];
      assert n[k..][|lit|..] == n[k + |lit|..];
    }
  }

  /** Single characters, then a star: whatever follows may begin that much later or more. */
  predicate Elastic(g: string) {
    g != "" && (g[0] == '*' || (g[0] == '?' && Elastic(g[1..])))
  }

  lemma {:induction false} Later(g: string, n: string, i: nat, j: nat)
    requires Elastic(g) && i <= j <= |n| && Matches(g, n[j..])
    ensures Matches(g, n[i..])
    decreases |g|
  {
    if g[0] == '*' {
      StarLater(g, n, i, j);
    } else {
      assert n[j..][1..] == n[j + 1..] && n[i..][1..] == n[i + 1..];
      Later(g[1..], n, i + 1, j + 1);
    }
  }

  /** A literal after a star: taking its first place is sound, and loses nothing when what follows is elastic. */
  lemma StarLiteral(lit: string, g: string, n: string, k: nat)
    requires Literal(lit) && FirstAt(n, lit, k)
    ensures Matches(g, n[k + |lit|..]) ==> Matches("*" + lit + g, n)
    ensures Elastic(g) && Matches("*" + lit + g, n) ==> Matches(g, n[k + |lit|..])
  {
    hide Matches;
    assert "*" + lit + g == "*" + (lit + g);
    StarMeans(lit + g, n);
    LiteralAt(lit, g, n, k);
    if Elastic(g) && Matches("*" + lit + g, n) {
      var j :| 0 <= j <= |n| && Matches(lit + g, n[j..]);
      LiteralAt(lit, g, n, j);
      Later(g, n, k + |lit|, j + |lit|);
    }
  }

  lemma StarLater(g: string, n: string, i: nat, j: nat)
    requires g != "" && g[0] == '*' && i <= j <= |n| && Matches(g, n[j..])
    ensures Matches(g, n[i..])
  {
    hide Matches;
    assert n[i..][j - i..] == n[j..];
    assert g == "*" + g[1..];
    StarSkips(g[1..], n[i..], j - i);
  }

  lemma StarLiteralNowhere(lit: string, g: string, n: string)
    requires Literal(lit) && forall j | 0 <= j <= |n| :: !At(n, lit, j)
    ensures !Matches("*" + lit + g, n)
  {
    hide Matches, At;
    assert "*" + lit + g == "*" + (lit + g);
    StarMeans(lit + g, n);
    forall j | 0 <= j <= |n| ensures !Matches(lit + g, n[j..]) {
      LiteralAt(lit, g, n, j);
    }
  }

  // ---------------------------------------------------------------- the pieces of the loop

  /** The text before the next wildcard. */
  function Lead(f: string): (r: string)
    ensures r <= f && Literal(r)
    ensures |r| < |f| ==> Special(f[|r|])
  {
    if f == "" || Special(f[0]) then "" else [f[0]] + Lead(f[1..])
  }

  /** What follows the next wildcard. */
  function Rest(f: string): (r: string)
    ensures f != "" ==> |r| < |f|
    ensures f == Lead(f) + (if |Lead(f)| < |f| then [f[|Lead(f)|]] else "") + r
  {
    if |Lead(f)| < |f| then f[|Lead(f)| + 1..] else ""
  }

  /** The first place of a text in a name. */
  function Find(n: string, lit: string): (k: Option<nat>)
    ensures k.Some? ==> FirstAt(n, lit, k.value)
    ensures k.None? ==> forall j | 0 <= j <= |n| :: !At(n, lit, j)
  {
    if At(n, lit, 0) then Some(0) else if n == "" then None else
    AtTail(n, lit);
    var k :- Find(n[1..], lit);
    Some(k + 1)
  }

  lemma AtTail(n: string, lit: string)
    requires n != ""
    ensures forall j | 0 < j <= |n| :: At(n, lit, j) == At(n[1..], lit, j - 1)
  {
    forall j | 0 < j <= |n| ensures At(n, lit, j) == At(n[1..], lit, j - 1) {
      if j + |lit| <= |n| {
        assert n[1..][j - 1..j - 1 + |lit|] == n[j..j + |lit|];
      }
    }
  }

  /** The literal part of one turn: what is left of the name, unless the text is not where it must be. */
  function Take(n: string, lit: string, here: bool): Option<string> {
    if lit == "" then Some(n) else
    var k :- Find(n, lit);
    if here && k > 0 then None else Some(n[k + |lit|..])
  }

  const NO_TOKEN: char := '\0'

  /** The next wildcard. */
  function Token(f: string): char {
    if |Lead(f)| < |f| then f[|Lead(f)|] else NO_TOKEN
  }

  lemma {:induction false} LeadIs(f: string, i: nat)
    requires i <= |f| && Literal(f[..i]) && (i < |f| ==> Special(f[i]))
    ensures Lead(f) == f[..i]
  {
    if i == 0 {
    } else {
      assert f[0] in f[..i] && f[1..][..i - 1] == f[..i][1..] && f[..i] == [f[0]] + f[..i][1..];
      LeadIs(f[1..], i - 1);
    }
  }

  lemma {:induction false} BeforeIs(s: string, c: char, i: nat)
    requires i <= |s| && c !in s[..i] && (i < |s| ==> s[i] == c)
    ensures Before(s, c) == s[..i] && (c in s <==> i < |s|)
  {
    assert s == s[..i] + s[i..];
    if i == 0 {
    } else {
      assert s[0] in s[..i] && s[1..][..i - 1] == s[..i][1..] && s[..i] == [s[0]] + s[..i][1..];
      BeforeIs(s[1..], c, i - 1);
    }
  }

  /** str_locate_chars and the copying that follows. */
  method NextToken(f: string) returns (lead: string, token: char, rest: string)
    requires f != ""
    ensures lead == Lead(f) && rest == Rest(f)
    ensures token == Token(f)
  {
    var i := 0;
    while i < |f| && !Special(f[i])
      invariant i <= |f| && Literal(f[..i])
    {
      assert f[..i + 1] == f[..i] + [f[i]];
      i := i + 1;
    }
    LeadIs(f, i);
    lead, token, rest := f[..i], if i < |f| then f[i] else NO_TOKEN, if i < |f| then f[i + 1..] else "";
  }

  /** str_locate_str: the first place, never found when there is nothing to look for. */
  method Locate(n: string, lit: string) returns (found: bool, k: nat)
    ensures found == (lit != "" && Find(n, lit).Some?)
    ensures found ==> Find(n, lit) == Some(k)
  {
    k := 0;
    if lit == "" || |lit| > |n| {
      return false, 0;
    }
    while k <= |n| - |lit|
      invariant k <= |n| - |lit| + 1
      invariant forall j | 0 <= j < k :: !At(n, lit, j)
    {
      if n[k..k + |lit|] == lit {
        assert At(n, lit, k);
        return true, k;
      }
      k := k + 1;
    }
    found := false;
  }

  /** str_split_char */
  method SplitChar(s: string, c: char) returns (lhs: string, rhs: string)
    ensures lhs == Before(s, c) && rhs == After(s, c)
  {
    var i := 0;
    while i < |s| && s[i] != c
      invariant i <= |s| && c !in s[..i]
    {
      i := i + 1;
    }
    BeforeIs(s, c, i);
    lhs, rhs := s[..i], if i < |s| then s[i + 1..] else "";
  }

  /** The literal part of one turn. */
  method TakeLiteral(n: string, lit: string, here: bool) returns (left: Option<string>)
    ensures left == Take(n, lit, here)
  {
    if lit == "" {
      return Some(n);
    }
    var found, k := Locate(n, lit);
    if !found || (here && k > 0) {
      return None;
    }
    left := Some(n[k + |lit|..]);
  }

  /** What is still to be matched: after a star the name may skip ahead. */
  ghost predicate Remains(free: bool, f: string, n: string) {
    Matches(if free then "*" + f else f, n)
  }

  /** Taking the literal is sound, and exact unless it follows a star and what follows it is not elastic. */
  lemma LiteralStep(free: bool, lit: string, g: string, n: string)
    requires Literal(lit)
    ensures var left := Take(n, lit, !free);
            && (left.Some? && Matches(g, left.value) ==> Remains(free, lit + g, n))
            && (!free || Elastic(g) ==> (Remains(free, lit + g, n) <==> left.Some? && Matches(g, left.value)))
  {
    hide Matches;
    assert "*" + (lit + g) == "*" + lit + g && n[0..] == n;
    if lit == "" {
      assert lit + g == g;
      if free {
        StarMeans(g, n);
        if Elastic(g) && Matches("*" + g, n) {
          var k :| 0 <= k <= |n| && Matches(g, n[k..]);
          Later(g, n, 0, k);
        }
      }
    } else if free {
      if Find(n, lit).Some? {
        StarLiteral(lit, g, n, Find(n, lit).value);
      } else {
        StarLiteralNowhere(lit, g, n);
      }
    } else {
      LiteralAt(lit, g, n, 0);
    }
  }

  // ---------------------------------------------------------------- what the greedy matcher accepts

  /**
   The names the matcher accepts when its budget lasts: after a star the first place of each text is
   taken for good.
   */
  predicate Greedy(free: bool, f: string, n: string)
    decreases |f|, 0
  {
    if f == "" then free || n == "" else
    var left := Take(n, Lead(f), !free);
    left.Some? && GreedyNext(Token(f), Rest(f), left.value)
  }

  predicate GreedyNext(token: char, rest: string, left: string)
    decreases |rest|, 1
  {
    if token == NO_TOKEN then left == ""
    else if token == '*' then Greedy(true, rest, left)
    else if token == '{' && '}' in rest then Tries(Before(rest, '}'), After(rest, '}'), left)
    else left != "" && (token == '?' || left[0] == '{') && Greedy(false, rest, left[1..])
  }

  /** The alternatives of a brace list are tried in order, up to the first empty one. */
  predicate Tries(list: string, tail: string, n: string)
    decreases |list| + |tail|, 1
  {
    var head := Before(list, ',');
    head != "" && (Greedy(false, head + tail, n) || Tries(After(list, ','), tail, n))
  }

  /** No more turns of the loop than these are spent on a filter, recursive calls included. */
  function Cost(f: string): nat
    decreases |f|, 0
  {
    if f == "" then 0
    else if Token(f) == '{' && '}' in Rest(f) then 1 + CostTries(Before(Rest(f), '}'), After(Rest(f), '}'))
    else 1 + Cost(Rest(f))
  }

  function CostTries(list: string, tail: string): nat
    decreases |list| + |tail|, 1
  {
    var head := Before(list, ',');
    if head == "" then 0 else Cost(head + tail) + CostTries(After(list, ','), tail)
  }

  // ---------------------------------------------------------------- where greed loses nothing

  /** What may follow a star: texts, each with single characters and a star after it. */
  predicate StarTail(f: string)
    decreases |f|, 1
  {
    f == "" || ElasticTail(f[|Lead(f)|..])
  }

  predicate ElasticTail(g: string)
    decreases |g|, 0
  {
    g != "" && if g[0] == '*' then StarTail(g[1..]) else g[0] == '?' && ElasticTail(g[1..])
  }

  /**
   Filters for which greed loses nothing: up to the first star anything, as long as every alternative
   of a brace list is non-empty and such a filter itself once put in place; then a tail as above.
   Among the filters without braces there are no others (`GreedyExact`).
   */
  predicate Exact(f: string)
    decreases |f|
  {
    if Token(f) == NO_TOKEN then true
    else if Token(f) == '*' then StarTail(Rest(f))
    else if Token(f) == '{' && '}' in Rest(f) then
      var alts, tail := Alternatives(Before(Rest(f), '}')), After(Rest(f), '}');
      forall i | 0 <= i < |alts| :: alts[i] != "" && Exact(alts[i] + tail)
    else Exact(Rest(f))
  }

  predicate AllExact(alts: seq<string>, tail: string) {
    forall i | 0 <= i < |alts| :: alts[i] != "" && Exact(alts[i] + tail)
  }

  /** The class of the filter still to be matched. */
  predicate StillExact(free: bool, f: string) {
    if free then StarTail(f) else Exact(f)
  }

  /** The class of what follows one turn of the loop. */
  predicate ExactNext(token: char, rest: string) {
    if token == '*' then StarTail(rest)
    else if token == '{' && '}' in rest then AllExact(Alternatives(Before(rest, '}')), After(rest, '}'))
    else Exact(rest)
  }

  lemma {:induction false} ElasticTailIs(g: string)
    requires ElasticTail(g)
    ensures Elastic(g) && Exact(g)
  {
    if g[0] == '*' {
      assert Lead(g) == "";
    } else {
      assert Lead(g) == "";
      ElasticTailIs(g[1..]);
    }
  }

  /** One turn keeps the class; what follows the text after a star is elastic. */
  lemma TailNext(f: string)
    requires StarTail(f) && f != ""
    ensures Token(f) != NO_TOKEN && Elastic([Token(f)] + Rest(f)) && ExactNext(Token(f), Rest(f))
  {
    var g := f[|Lead(f)|..];
    ElasticTailIs(g);
    assert g == [Token(f)] + Rest(f) && g[1..] == Rest(f);
    if g[0] == '?' {
      ElasticTailIs(g[1..]);
    }
  }

  /** What the rest of the loop has to achieve once a turn has taken its literal. */
  ghost predicate Needs(token: char, rest: string, left: string) {
    if token == '?' then left != "" && Matches(rest, left[1..])
    else if token == '*' then Remains(true, rest, left)
    else if token == '{' then Matches("{" + rest, left)
    else left == ""
  }

  lemma NeedsMeans(token: char, rest: string, left: string)
    requires Special(token)
    ensures Needs(token, rest, left) <==> Matches([token] + rest, left)
  {
    assert ([token] + rest)[1..] == rest && "*" + rest == ['*'] + rest && "{" + rest == ['{'] + rest;
  }

  /** One turn of the loop: sound for every filter, and exact for those of the class. */
  lemma Turn(free: bool, f: string, n: string)
    requires f != ""
    ensures var left := Take(n, Lead(f), !free);
            && (left.Some? && Needs(Token(f), Rest(f), left.value) ==> Remains(free, f, n))
            && (StillExact(free, f) ==>
                  (Remains(free, f, n) <==> left.Some? && Needs(Token(f), Rest(f), left.value)) && ExactNext(Token(f), Rest(f)))
  {
    hide Matches, Remains, Take, StillExact, ExactNext, Elastic;
    if StillExact(free, f) {
      ClassNext(free, f);
    }
    var lit, rest, t := Lead(f), Rest(f), Token(f);
    if t != NO_TOKEN {
      assert f == lit + ([t] + rest);
      LiteralStep(free, lit, [t] + rest, n);
      if Take(n, lit, !free).Some? {
        NeedsMeans(t, rest, Take(n, lit, !free).value);
      }
    } else {
      assert f == lit + "";
      LiteralStep(free, lit, "", n);
      EmptyMeans();
    }
  }

  lemma ClassNext(free: bool, f: string)
    requires f != "" && StillExact(free, f)
    ensures ExactNext(Token(f), Rest(f)) && (free ==> Token(f) != NO_TOKEN && Elastic([Token(f)] + Rest(f)))
  {
    if free {
      TailNext(f);
    }
  }

  lemma EmptyMeans()
    ensures forall n :: Matches("", n) <==> n == ""
  {
  }

  ghost predicate AnyMatches(alts: seq<string>, tail: string, n: string) {
    exists i :: 0 <= i < |alts| && Matches(alts[i] + tail, n)
  }

  lemma BraceMeans(rest: string, n: string)
    ensures Matches("{" + rest, n) <==>
            if '}' in rest then AnyMatches(Alternatives(Before(rest, '}')), After(rest, '}'), n)
            else n != "" && n[0] == '{' && Matches(rest, n[1..])
  {
    assert ("{" + rest)[1..] == rest;
  }

  lemma AnyHead(alts: seq<string>, tail: string, n: string)
    requires alts != []
    ensures AnyMatches(alts, tail, n) <==> Matches(alts[0] + tail, n) || AnyMatches(alts[1..], tail, n)
    ensures AllExact(alts, tail) ==> alts[0] != "" && Exact(alts[0] + tail) && AllExact(alts[1..], tail)
  {
    hide Matches, Exact;
    var others := alts[1..];
    if AnyMatches(others, tail, n) {
      var i :| 0 <= i < |others| && Matches(others[i] + tail, n);
      assert alts[i + 1] == others[i];
    }
    if AnyMatches(alts, tail, n) && !Matches(alts[0] + tail, n) {
      var i :| 0 <= i < |alts| && Matches(alts[i] + tail, n);
      assert alts[i] == others[i - 1];
    }
  }

  /** The first alternative, and the others. */
  lemma AlternativesMean(list: string, tail: string, n: string)
    ensures AnyMatches(Alternatives(list), tail, n) <==>
            Matches(Before(list, ',') + tail, n) || (',' in list && AnyMatches(Alternatives(After(list, ',')), tail, n))
    ensures AllExact(Alternatives(list), tail) ==>
              && Before(list, ',') != "" && Exact(Before(list, ',') + tail)
              && (',' in list ==> AllExact(Alternatives(After(list, ',')), tail))
  {
    hide Matches, Exact;
    var alts := Alternatives(list);
    AnyHead(alts, tail, n);
    assert alts[1..] == if ',' in list then Alternatives(After(list, ',')) else [];
    hide AllExact;
  }

  /** The matcher accepts only matching names, and all of them when the filter is exact. */
  lemma {:induction false} GreedyMeans(free: bool, f: string, n: string)
    ensures Greedy(free, f, n) ==> Remains(free, f, n)
    ensures StillExact(free, f) ==> (Greedy(free, f, n) <==> Remains(free, f, n))
    decreases |f|, 0
  {
    hide Matches, Remains, Take, StillExact, ExactNext, GreedyNext, Needs;
    if f == "" {
      EndMeans(free, n);
    } else {
      Turn(free, f, n);
      var left := Take(n, Lead(f), !free);
      if left.Some? {
        NextMeans(Token(f), Rest(f), left.value);
      }
    }
  }

  /** With nothing left of the filter the name must be used up, unless a star came last. */
  lemma EndMeans(free: bool, n: string)
    ensures Remains(free, "", n) <==> free || n == ""
  {
    hide Matches;
    StarMeans("", n);
    EmptyMeans();
    assert n[|n|..] == "" && "*" + "" == "*";
  }

  lemma {:induction false} NextMeans(token: char, rest: string, left: string)
    requires token == NO_TOKEN || Special(token)
    ensures GreedyNext(token, rest, left) ==> Needs(token, rest, left)
    ensures ExactNext(token, rest) ==> (GreedyNext(token, rest, left) <==> Needs(token, rest, left))
    decreases |rest|, 1
  {
    hide Matches, AllExact, AnyMatches, Tries, Greedy, Exact, StarTail;
    if token == '*' {
      GreedyMeans(true, rest, left);
    } else if token == '{' && '}' in rest {
      BraceMeans(rest, left);
      TriesMean(Before(rest, '}'), After(rest, '}'), left);
    } else if token != NO_TOKEN && left != "" {
      BraceMeans(rest, left);
      GreedyMeans(false, rest, left[1..]);
    } else {
      BraceMeans(rest, left);
    }
  }

  lemma {:induction false} TriesMean(list: string, tail: string, n: string)
    ensures Tries(list, tail, n) ==> AnyMatches(Alternatives(list), tail, n)
    ensures AllExact(Alternatives(list), tail) ==> (Tries(list, tail, n) <==> AnyMatches(Alternatives(list), tail, n))
    decreases |list| + |tail|, 1
  {
    hide Matches, AllExact, AnyMatches, Greedy, Exact, Alternatives;
    AlternativesMean(list, tail, n);
    var head, others := Before(list, ','), After(list, ',');
    if head == "" {
    } else {
      GreedyMeans(false, head + tail, n);
      if ',' in list {
        TriesMean(others, tail, n);
      } else {
        assert others == "" && Before("", ',') == "";
        assert !Tries(others, tail, n);
      }
    }
  }

  // ---------------------------------------------------------------- brace lists of any alternatives

  /** The i-th alternative comes before the first empty one. */
  predicate Tried(alts: seq<string>, i: nat) {
    i < |alts| && forall j | 0 <= j <= i :: alts[j] != ""
  }

  ghost predicate AnyTried(alts: seq<string>, tail: string, n: string) {
    exists i: nat :: Tried(alts, i) && Greedy(false, alts[i] + tail, n)
  }

  lemma AnyTriedHead(alts: seq<string>, tail: string, n: string)
    requires alts != []
    ensures AnyTried(alts, tail, n) <==>
            alts[0] != "" && (Greedy(false, alts[0] + tail, n) || AnyTried(alts[1..], tail, n))
  {
    hide Greedy;
    var others := alts[1..];
    if AnyTried(alts, tail, n) && !Greedy(false, alts[0] + tail, n) {
      var i: nat :| Tried(alts, i) && Greedy(false, alts[i] + tail, n);
      assert others[i - 1] == alts[i] && Tried(others, i - 1) by {
        assert forall j | 0 <= j <= i - 1 :: others[j] == alts[j + 1];
      }
    }
    if alts[0] != "" && AnyTried(others, tail, n) {
      var i: nat :| Tried(others, i) && Greedy(false, others[i] + tail, n);
      assert Tried(alts, i + 1) by {
        assert forall j | 0 < j <= i + 1 :: alts[j] == others[j - 1];
      }
      assert Greedy(false, alts[i + 1] + tail, n);
    }
    if alts[0] != "" && Greedy(false, alts[0] + tail, n) {
      assert Tried(alts, 0);
    }
  }

  /** A list accepts exactly what some alternative before the first empty one accepts in its place. */
  lemma {:induction false} TriesAre(list: string, tail: string, n: string)
    ensures Tries(list, tail, n) <==> AnyTried(Alternatives(list), tail, n)
    decreases |list|
  {
    hide Greedy, AnyTried;
    var alts := Alternatives(list);
    AnyTriedHead(alts, tail, n);
    if Before(list, ',') == "" {
    } else if ',' in list {
      assert alts[1..] == Alternatives(After(list, ','));
      TriesAre(After(list, ','), tail, n);
    } else {
      assert alts[1..] == [] && After(list, ',') == "" && Before("", ',') == "";
      assert !Tries("", tail, n);
      NoneTried(tail, n);
    }
  }

  lemma NoneTried(tail: string, n: string)
    ensures !AnyTried([], tail, n)
  {
  }

  /** So does a whole filter that starts with a list, after any text before it. */
  lemma BracesAccept(lit: string, list: string, tail: string, n: string)
    requires Literal(lit) && '}' !in list
    ensures Greedy(false, lit + "{" + list + "}" + tail, lit + n) <==> AnyTried(Alternatives(list), tail, n)
  {
    hide Greedy, AnyTried, GreedyNext, Take, Tries, Alternatives;
    var g, rest := "{" + list + "}" + tail, list + "}" + tail;
    assert lit + "{" + list + "}" + tail == lit + g && g == ['{'] + rest && g[1..] == rest;
    assert rest[..|list|] == list && rest[|list|] == '}' && rest[|list| + 1..] == tail;
    BeforeIs(rest, '}', |list|);
    AfterIs(rest, '}');
    LeadOf(lit, g);
    TakeFirst(lit, n, true);
    Unfold(false, lit + g, lit + n);
    NextIs('{', rest, n);
    TriesAre(list, tail, n);
  }

  // ---------------------------------------------------------------- what the budget is spent on

  function Wildcards(f: string): nat {
    if f == "" then 0 else (if f[0] == '*' || f[0] == '?' then 1 else 0) + Wildcards(f[1..])
  }

  /** Without braces the cost is one turn for each wildcard, and one for a text at the end. */
  lemma {:induction false} CostCounts(f: string)
    requires '{' !in f
    ensures Cost(f) == Wildcards(f) + if f != "" && !Special(f[|f| - 1]) then 1 else 0
    decreases |f|
  {
    hide Cost;
    if f == "" {
      Finish(false, "", "");
    } else {
      UnfoldCost(f);
      var lit, rest := Lead(f), Rest(f);
      TextHasNone(lit, f[|lit|..]);
      assert f == lit + f[|lit|..];
      if Token(f) == NO_TOKEN {
        assert f[|lit|..] == "";
        assert f[|f| - 1] in lit;
        Finish(false, "", "");
      } else {
        CostCounts(rest);
        assert f[|lit|..][1..] == rest;
        if rest != "" {
          assert f[|f| - 1] == rest[|rest| - 1];
        }
      }
    }
  }

  lemma {:induction false} TextHasNone(lit: string, g: string)
    requires Literal(lit)
    ensures Wildcards(lit + g) == Wildcards(g)
  {
    if lit == "" {
      assert lit + g == g;
    } else {
      assert (lit + g)[1..] == lit[1..] + g && lit[0] in lit;
      TextHasNone(lit[1..], g);
    }
  }

  // ---------------------------------------------------------------- where greed loses a name

  lemma LeadOf(lit: string, g: string)
    requires Literal(lit) && (g != "" ==> Special(g[0]))
    ensures Lead(lit + g) == lit
    ensures g != "" ==> Token(lit + g) == g[0] && Rest(lit + g) == g[1..]
    ensures g == "" ==> Token(lit + g) == NO_TOKEN
  {
    assert (lit + g)[..|lit|] == lit;
    LeadIs(lit + g, |lit|);
  }

  /** A text at the very start of the name is taken there, star or not. */
  lemma TakeFirst(lit: string, n: string, here: bool)
    ensures Take(lit + n, lit, here) == Some(n)
  {
    assert (lit + n)[..|lit|] == lit && (lit + n)[|lit|..] == n;
    assert At(lit + n, lit, 0);
  }

  /** A text, then a wildcard or nothing: the text is taken, and the rest goes on from there. */
  lemma GreedyText(free: bool, lit: string, g: string, n: string)
    requires Literal(lit) && (g != "" ==> Special(g[0])) && lit + g != ""
    ensures Greedy(free, lit + g, lit + n) <==> Greedy(false, g, n)
  {
    hide Greedy, Take, GreedyNext;
    Unfold(free, lit + g, lit + n);
    LeadOf(lit, g);
    TakeFirst(lit, n, !free);
    if g == "" {
      NextNone(n);
    } else {
      Unfold(false, g, n);
      assert "" + g == g && "" + n == n;
      LeadOf("", g);
      TakeFirst("", n, true);
    }
  }

  /** One turn of the matcher. */
  lemma Unfold(free: bool, f: string, n: string)
    requires f != ""
    ensures Greedy(free, f, n) <==>
            var left := Take(n, Lead(f), !free); left.Some? && GreedyNext(Token(f), Rest(f), left.value)
  {
    hide Take, GreedyNext;
  }

  lemma NextNone(n: string)
    ensures GreedyNext(NO_TOKEN, "", n) <==> Greedy(false, "", n)
  {
  }

  lemma GreedyStar(g: string, n: string)
    ensures Greedy(false, "*" + g, n) <==> Greedy(true, g, n)
  {
    assert ("*" + g)[1..] == g && "" + ("*" + g) == "*" + g && "" + n == n;
    LeadOf("", "*" + g);
    TakeFirst("", n, true);
  }

  lemma GreedyOne(g: string, c: char, n: string)
    ensures Greedy(false, "?" + g, [c] + n) <==> Greedy(false, g, n)
  {
    assert ("?" + g)[1..] == g && "" + ("?" + g) == "?" + g && "" + ([c] + n) == [c] + n && ([c] + n)[1..] == n;
    LeadOf("", "?" + g);
    TakeFirst("", [c] + n, true);
  }

  lemma MatchesOne(g: string, c: char, n: string)
    ensures Matches("?" + g, [c] + n) <==> Matches(g, n)
    ensures !Matches("?" + g, "")
  {
    assert ("?" + g)[1..] == g && ([c] + n)[1..] == n;
  }

  /** A name for a filter without braces: every star nothing, every single character an a. */
  function Instance(f: string): string {
    if f == "" then "" else if f[0] == '*' then Instance(f[1..])
    else [if f[0] == '?' then 'a' else f[0]] + Instance(f[1..])
  }

  lemma {:induction false} InstanceMatches(f: string)
    requires '{' !in f
    ensures Matches(f, Instance(f))
  {
    if f == "" {
    } else {
      InstanceMatches(f[1..]);
      var n := Instance(f);
      if f[0] == '*' {
        assert n[0..] == n;
      } else {
        assert n[1..] == Instance(f[1..]);
      }
    }
  }

  /** A text whose first character the name does not start with is not found there. */
  lemma Barred(f: string, y: char, n: string)
    requires f == "" || (!Special(f[0]) && f[0] != y)
    ensures !Greedy(false, f, [y] + n)
  {
    if f != "" {
      assert Lead(f)[0] == f[0];
      assert !At([y] + n, Lead(f), 0) by {
        assert ([y] + n)[0] == y;
      }
    }
  }

  /**
   After a text that follows a star, a remainder outside the class: either some name it matches is lost
   further on, or from n greed cannot go on, whatever `end` follows.
   */
  lemma {:induction false} LostAfter(g: string, end: string) returns (n: string, further: bool)
    requires '{' !in g && !ElasticTail(g)
    ensures further ==> Matches(g, n) && !Greedy(false, g, n)
    ensures !further ==> !Greedy(false, g, n + end)
    decreases |g|, 0
  {
    hide Matches, Greedy, StarTail;
    if g == "" {
      n, further := "a", false;
      Barred(g, 'a', end);
    } else if g[0] == '?' {
      n, further := LostAfter(g[1..], end);
      assert g == "?" + g[1..] && ['a'] + n + end == ['a'] + (n + end);
      GreedyOne(g[1..], 'a', n);
      GreedyOne(g[1..], 'a', n + end);
      MatchesOne(g[1..], 'a', n);
      n := ['a'] + n;
    } else if g[0] == '*' {
      n := LostTail(g[1..]);
      further := true;
      assert g == "*" + g[1..];
      GreedyStar(g[1..], n);
    } else {
      n, further := if g[0] == 'a' then "b" else "a", false;
      Barred(g, n[0], end);
    }
  }

  /** After a star, every remainder outside the class loses a name: one with an early place of its text. */
  lemma {:induction false} LostTail(f: string) returns (n: string)
    requires '{' !in f && !StarTail(f)
    ensures Matches("*" + f, n) && !Greedy(true, f, n)
    decreases |f|, 1
  {
    hide Matches, Greedy, ElasticTail;
    var lit, g, end := Lead(f), f[|Lead(f)|..], Instance(f);
    assert f == lit + g;
    var after, further := LostAfter(g, end);
    n := lit + after;
    StarMeans(f, n);
    if further {
      GreedyText(true, lit, g, after);
      MatchesLiteral(lit, g, n);
      assert n[0..] == n && n[..|lit|] == lit && n[|lit|..] == after;
    } else {
      GreedyText(true, lit, g, after + end);
      n := lit + (after + end);
      StarMeans(f, n);
      InstanceMatches(f);
      assert n[|lit + after|..] == end;
    }
  }

  /** Every filter without braces outside the class loses a name. */
  lemma {:induction false} LostName(f: string) returns (n: string)
    requires '{' !in f && !Exact(f)
    ensures Matches(f, n) && !Greedy(false, f, n)
    decreases |f|
  {
    hide Matches, Greedy, StarTail;
    var lit, g := Lead(f), f[|Lead(f)|..];
    assert f == lit + g && g == [Token(f)] + Rest(f) && f[|lit|] == Token(f);
    if Token(f) == '*' {
      n := LostTail(Rest(f));
      assert g == "*" + Rest(f);
      GreedyStar(Rest(f), n);
    } else {
      n := LostName(Rest(f));
      assert g == "?" + Rest(f);
      GreedyOne(Rest(f), 'a', n);
      MatchesOne(Rest(f), 'a', n);
      n := ['a'] + n;
    }
    GreedyText(false, lit, g, n);
    MatchesLiteral(lit, g, lit + n);
    assert (lit + n)[..|lit|] == lit && (lit + n)[|lit|..] == n;
    n := lit + n;
  }

  /** Without braces: the matcher decides every name right if and only if the filter is of the class. */
  lemma GreedyExact(f: string)
    requires '{' !in f
    ensures (forall n :: Greedy(false, f, n) <==> Matches(f, n)) <==> Exact(f)
  {
    hide Matches, Greedy, Exact, Remains;
    if Exact(f) {
      forall n ensures Greedy(false, f, n) <==> Matches(f, n) {
        ExactDecides(f, n);
      }
    } else {
      var n := LostName(f);
    }
  }

  /** Braces or not, the class is decided right, and no name is accepted that does not match. */
  lemma ExactDecides(f: string, n: string)
    ensures Greedy(false, f, n) ==> Matches(f, n)
    ensures Exact(f) ==> (Greedy(false, f, n) <==> Matches(f, n))
  {
    hide Matches, Greedy, Exact;
    GreedyMeans(false, f, n);
  }

  /** A name lost to the first place of a text. */
  lemma LostToFirstPlace()
    ensures Matches("*a", "aba") && !Greedy(false, "*a", "aba")
  {
    hide Matches, Greedy, Take;
    assert "*a" == "*" + "a" && "aba"[2..] == "a" && "a" + "" == "a" && "a" + "ba" == "aba" && "a"[1..] == "";
    StarMeans("a", "aba");
    MatchesLiteral("a", "", "a");
    EmptyMeans();
    GreedyStar("a", "aba");
    GreedyText(true, "a", "", "ba");
    Finish(false, "", "ba");
  }

  /** A name lost to an empty alternative, at which the list is given up. */
  lemma LostToEmptyAlternative()
    ensures Matches("{,a}", "a") && !Greedy(false, "{,a}", "a")
  {
    hide Matches, Greedy, Take, Alternatives, AnyMatches, GreedyNext;
    assert "{,a}" == "{" + ",a}" && "" + "{,a}" == "{,a}" && "" + "a" == "a" && "{,a}"[1..] == ",a}";
    EmptyFirst();
    BraceMeans(",a}", "a");
    SecondMatches();
    LeadOf("", "{,a}");
    TakeFirst("", "a", true);
    Unfold(false, "{,a}", "a");
    NextIs('{', ",a}", "a");
  }

  lemma EmptyFirst()
    ensures Before(",a}", '}') == ",a" && After(",a}", '}') == "" && '}' in ",a}"
    ensures Before(",a", ',') == "" && After(",a", ',') == "a" && Before("a", ',') == "a" && ',' in ",a"
  {
    hide Before, After;
    assert ",a}"[..2] == ",a" && ",a"[..0] == "" && "a"[..1] == "a";
    BeforeIs(",a}", '}', 2);
    BeforeIs(",a", ',', 0);
    BeforeIs("a", ',', 1);
    AfterIs(",a}", '}');
    AfterIs(",a", ',');
  }

  lemma SecondMatches()
    ensures AnyMatches(Alternatives(",a"), "", "a")
  {
    hide Matches, Alternatives, AnyMatches, AllExact, Exact, Before, After;
    EmptyFirst();
    AlternativesMean(",a", "", "a");
    AlternativesMean("a", "", "a");
    assert "a" + "" == "a" && "a"[1..] == "";
    MatchesLiteral("a", "", "a");
    EmptyMeans();
  }

  lemma AfterIs(s: string, c: char)
    requires c in s
    ensures After(s, c) == s[|Before(s, c)| + 1..]
  {
  }

  // ---------------------------------------------------------------- the matcher

  /** The brace list, tried in order up to the first empty alternative. */
  method TryAlternatives(name: string, list: string, tail: string, bound: nat, iters0: nat) returns (ret: bool, iters: nat)
    requires iters0 <= MATCHITERS_MAX && |list| + |tail| < bound
    ensures iters0 <= iters <= MATCHITERS_MAX
    ensures ret <==> Tries(list, tail, name) && iters < MATCHITERS_MAX
    ensures iters <= iters0 + CostTries(list, tail)
    decreases bound, 0
  {
    hide Matches, Greedy, Cost, Before, After;
    ghost var cur := list;
    var head, others := SplitChar(list, ',');
    iters := iters0;
    while head != ""
      invariant iters0 <= iters <= MATCHITERS_MAX && |cur| <= |list|
      invariant head == Before(cur, ',') && others == After(cur, ',')
      invariant iters < MATCHITERS_MAX ==> (Tries(list, tail, name) <==> Tries(cur, tail, name))
      invariant iters + CostTries(cur, tail) <= iters0 + CostTries(list, tail)
      decreases |cur|
    {
      ret, iters := Passes(name, head + tail, iters);
      if ret {
        return;
      }
      cur := others;
      head, others := SplitChar(others, ',');
    }
    ret := false;
  }

  /** vsf_filename_passes_filter */
  method Passes(name: string, filter: string, iters0: nat) returns (ret: bool, iters: nat)
    ensures iters0 <= iters <= iters0 + Cost(filter) && (iters0 <= MATCHITERS_MAX ==> iters <= MATCHITERS_MAX)
    ensures iters0 <= MATCHITERS_MAX ==> (ret <==> Greedy(false, filter, name) && iters < MATCHITERS_MAX)
    ensures iters0 <= 1000 && '{' !in filter ==>
              (ret <==> Greedy(false, filter, name) && iters0 + Cost(filter) < 1000)
    ensures iters0 <= MATCHITERS_MAX && ret ==> Matches(filter, name)
    ensures Exact(filter) && iters0 + Cost(filter) < 1000 ==> (ret <==> Matches(filter, name))
    ensures iters0 > MATCHITERS_MAX ==> (ret <==> name == "")
    decreases |filter|, 1
  {
    hide Matches, Greedy, GreedyNext, Cost, Before, After, Lead, Rest, Token, Take, Exact;
    ExactDecides(filter, name);
    var fr, nr := filter, name;
    var last, here := NO_TOKEN, true;
    iters := iters0;
    while fr != "" && iters < MATCHITERS_MAX
      invariant iters0 <= iters && (iters0 <= MATCHITERS_MAX ==> iters <= MATCHITERS_MAX)
      invariant iters0 > MATCHITERS_MAX ==> iters == iters0 && nr == name && last == NO_TOKEN
      invariant |fr| <= |filter| && (fr != "" ==> here == (last != '*'))
      invariant Greedy(last == '*', fr, nr) <==> Greedy(false, filter, name)
      invariant iters + Cost(fr) <= iters0 + Cost(filter)
      invariant '{' !in filter ==> '{' !in fr && iters + Cost(fr) == iters0 + Cost(filter)
      decreases |fr|
    {
      iters := iters + 1;
      var lead, token, rest := NextToken(fr);
      Unfold(!here, fr, nr);
      UnfoldCost(fr);
      var left := TakeLiteral(nr, lead, here);
      if left.None? {
        return false, iters;
      }
      NextIs(token, rest, left.value);
      nr, fr, last := left.value, rest, token;
      if token == '?' {
        if nr == "" {
          return false, iters;
        }
        nr := nr[1..];
        here := true;
      } else if token == '{' {
        here := true;
        if '}' in fr {
          var list, tail := SplitChar(fr, '}');
          ret, iters := TryAlternatives(nr, list, tail, |filter|, iters);
          return;
        } else if nr == "" || nr[0] != '{' {
          return false, iters;
        } else {
          nr := nr[1..];
        }
      } else {
        here := false;
      }
    }
    Finish(last == '*', fr, nr);
    if |nr| > 0 && last != '*' {
      return false, iters;
    }
    ret := true;
    if iters == MATCHITERS_MAX {
      ret := false;
    }
  }

  /** The cost of a filter, one turn at a time. */
  lemma UnfoldCost(f: string)
    requires f != ""
    ensures Cost(f) ==
            1 + if Token(f) == '{' && '}' in Rest(f) then CostTries(Before(Rest(f), '}'), After(Rest(f), '}'))
                else Cost(Rest(f))
    ensures Token(f) == NO_TOKEN || (Special(Token(f)) && Token(f) in f)
    ensures Token(f) == NO_TOKEN ==> Rest(f) == ""
    ensures '{' !in f ==> '{' !in Rest(f)
  {
  }

  /** Each token, as the next state of the loop. */
  lemma NextIs(token: char, rest: string, left: string)
    requires token == NO_TOKEN || Special(token)
    ensures token == NO_TOKEN && rest == "" ==> (GreedyNext(token, rest, left) <==> Greedy(false, rest, left))
    ensures token == '*' ==> (GreedyNext(token, rest, left) <==> Greedy(true, rest, left))
    ensures token == '?' ==> (GreedyNext(token, rest, left) <==> left != "" && Greedy(false, rest, left[1..]))
    ensures token == '{' && '}' !in rest ==>
              (GreedyNext(token, rest, left) <==> left != "" && left[0] == '{' && Greedy(false, rest, left[1..]))
    ensures token == '{' && '}' in rest ==>
              (GreedyNext(token, rest, left) <==> Tries(Before(rest, '}'), After(rest, '}'), left))
    ensures token == '{' && '}' in rest ==> |Before(rest, '}')| + |After(rest, '}')| < |rest|
  {
    hide Take;
  }

  lemma Finish(free: bool, f: string, n: string)
    ensures f == "" ==> (Greedy(free, f, n) <==> free || n == "")
    ensures Cost(f) == 0 <==> f == ""
  {
  }
}
