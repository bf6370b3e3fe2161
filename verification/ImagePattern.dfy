/** The image pattern of an exception, which one place reads as a regular expression and
    another as a SQL `LIKE` pattern. */
module ImagePattern {
  import opened Wrappers
  import opened Text
  import opened SqlLike

  // ---------- regular expressions ----------

  datatype Token = Lit(c: char) | Any | Star

  predicate LineEnd(c: char) {
    c == '\n' || c == '\r' || c == '\U{2028}' || c == '\U{2029}'
  }

  predicate OneLine(s: string) {
    forall c :: c in s ==> !LineEnd(c)
  }

  /** A character that a regular expression takes for itself. */
  predicate Plain(c: char) {
    !LineEnd(c) && c !in ['\\', '^', '$', '.', '|', '?', '*', '+', '(', ')', '[', ']', '{', '}']
  }

  /** Patterns of plain characters, dots and percent signs. */
  predicate Simple(pattern: string) {
    forall c :: c in pattern ==> Plain(c) || c == '%' || c == '.'
  }

  /** The regular expressions that simple patterns turn into. */
  function ParseRegex(text: string): Option<seq<Token>> {
    if text == "" then Some([])
    else if "(.*)" <= text then
      var rest :- ParseRegex(text[4..]);
      Some([Star] + rest)
    else if text[0] == '.' then
      var rest :- ParseRegex(text[1..]);
      Some([Any] + rest)
    else if Plain(text[0]) then
      var rest :- ParseRegex(text[1..]);
      Some([Lit(text[0])] + rest)
    else None
  }

  /** `s` begins with a match: what the expression means, not how it is searched for. */
  ghost predicate MatchesPrefix(tokens: seq<Token>, s: string)
    decreases |tokens|
  {
    if tokens == [] then true
    else match tokens[0]
      case Lit(c) => s != "" && s[0] == c && MatchesPrefix(tokens[1..], s[1..])
      case Any => s != "" && !LineEnd(s[0]) && MatchesPrefix(tokens[1..], s[1..])
      case Star => exists k :: 0 <= k <= |s| && OneLine(s[..k]) && MatchesPrefix(tokens[1..], s[k..])
  }

  /** `regex.test(s)`: a match anywhere. */
  ghost predicate Test(tokens: seq<Token>, s: string) {
    exists i :: 0 <= i <= |s| && MatchesPrefix(tokens, s[i..])
  }

  /** Whether the filter keeps an exception with this pattern for an image of this name. */
  ghost predicate FilterAccepts(pattern: string, name: string) {
    var tokens := ParseRegex(ReplaceAll(pattern, '%', "(.*)"));
    pattern == "" || tokens.None? || Test(tokens.value, name)
  }

  function Tokens(pattern: string): seq<Token> {
    if pattern == "" then []
    else
      var c := pattern[0];
      [if c == '%' then Star else if c == '.' then Any else Lit(c)] + Tokens(pattern[1..])
  }

  lemma {:induction false} SimpleParses(pattern: string)
    requires Simple(pattern)
    ensures ParseRegex(ReplaceAll(pattern, '%', "(.*)")) == Some(Tokens(pattern))
  {
    if pattern != "" {
      SimpleParses(pattern[1..]);
      var c, rest := pattern[0], ReplaceAll(pattern[1..], '%', "(.*)");
      var text := ReplaceAll(pattern, '%', "(.*)");
      assert c in pattern;
      if c == '%' {
        assert text == "(.*)" + rest && text[4..] == rest;
      } else {
        assert text == [c] + rest && text[0] == c && text[1..] == rest;
        assert "(.*)"[0] == '(' != text[0];
      }
    }
  }

  // ---------- LIKE ----------

  lemma {:induction false} LikePercent(s: string, q: string)
    ensures Like(s, "%" + q) <==> exists i :: 0 <= i <= |s| && Like(s[i..], q)
    decreases |s|
  {
    var p := "%" + q;
    assert p[1..] == q && s[0..] == s;
    if s != "" {
      LikePercent(s[1..], q);
      if i :| 0 <= i <= |s[1..]| && Like(s[1..][i..], q) {
        assert s[1..][i..] == s[i + 1..];
      }
      if i :| 0 < i <= |s| && Like(s[i..], q) {
        assert s[1..][i - 1..] == s[i..];
      }
    }
  }

  /** A dot as the regular expression reads it. */
  function DotsAsOne(pattern: string): string {
    ReplaceAll(pattern, '.', "_")
  }

  lemma {:induction false} MatchIsLike(pattern: string, s: string)
    requires Simple(pattern) && '_' !in pattern && OneLine(s)
    ensures MatchesPrefix(Tokens(pattern), s) <==> Like(s, DotsAsOne(pattern) + "%")
    decreases |pattern|
  {
    var q := DotsAsOne(pattern) + "%";
    if pattern == "" {
      assert q == "%" + "" && s[|s|..] == "";
      LikePercent(s, "");
    } else {
      var c, rest := pattern[0], pattern[1..];
      assert c in pattern && q[1..] == DotsAsOne(rest) + "%";
      if c == '%' {
        assert q == "%" + (DotsAsOne(rest) + "%");
        LikePercent(s, DotsAsOne(rest) + "%");
        forall k | 0 <= k <= |s|
          ensures MatchesPrefix(Tokens(rest), s[k..]) <==> Like(s[k..], DotsAsOne(rest) + "%")
        {
          MatchIsLike(rest, s[k..]);
        }
      } else if s != "" {
        assert s[0] in s;
        MatchIsLike(rest, s[1..]);
      }
    }
  }

  /** On names of one line the filter is `LIKE` with the pattern let loose at both ends and
      every dot standing for any one character. */
  lemma FilterIsLike(pattern: string, name: string)
    requires Simple(pattern) && '_' !in pattern && OneLine(name)
    ensures FilterAccepts(pattern, name) <==> Like(name, "%" + (DotsAsOne(pattern) + "%"))
  {
    SimpleParses(pattern);
    LikePercent(name, DotsAsOne(pattern) + "%");
    forall i | 0 <= i <= |name|
      ensures MatchesPrefix(Tokens(pattern), name[i..]) <==> Like(name[i..], DotsAsOne(pattern) + "%")
    {
      MatchIsLike(pattern, name[i..]);
    }
    assert pattern == "" ==> MatchesPrefix(Tokens(pattern), name[0..]);
  }

  // ---------- chunks in order ----------

  /** Each chunk is found at or after the end of the one before. */
  predicate InOrder(chunks: seq<string>, s: string)
    decreases |chunks|
  {
    if chunks == [] then true
    else
      var i := IndexOf(s, chunks[0]);
      i != -1 && InOrder(chunks[1..], s[i + |chunks[0]|..])
  }

  lemma {:induction false} InOrderLater(chunks: seq<string>, s: string, from: nat)
    requires from <= |s| && InOrder(chunks, s[from..])
    ensures InOrder(chunks, s)
    decreases |chunks|
  {
    if chunks != [] {
      var t, c, rest := s[from..], chunks[0], chunks[1..];
      var j := IndexOf(t, c);
      OccursInTail(s[..from], t, c, j);
      assert s == s[..from] + t;
      var i := IndexOf(s, c);
      var after := s[i + |c|..];
      assert t[j + |c|..] == after[from + j - i..];
      InOrderLater(rest, after, from + j - i);
    }
  }

  lemma {:induction false} LikeLiteral(s: string, c: string, q: string)
    requires '%' !in c && '_' !in c
    ensures Like(s, c + q) <==> OccursAt(s, c, 0) && Like(s[|c|..], q)
    decreases |c|
  {
    var p := c + q;
    if c == "" {
      assert p == q && s[0..] == s;
    } else {
      assert p[0] == c[0] && p[1..] == c[1..] + q && c[0] in c;
      if s != "" {
        LikeLiteral(s[1..], c[1..], q);
        OccursStep(s, c);
      }
    }
  }

  ghost predicate InOrderFrom(c: string, rest: seq<string>, s: string, i: int) {
    OccursAt(s, c, i) && InOrder(rest, s[i + |c|..])
  }

  /** The leftmost place for the first chunk is as good as any. */
  lemma InOrderAnywhere(c: string, rest: seq<string>, s: string)
    ensures InOrder([c] + rest, s) <==> exists i :: InOrderFrom(c, rest, s, i)
  {
    var chunks, first := [c] + rest, IndexOf(s, c);
    assert chunks[1..] == rest;
    assert InOrder(chunks, s) ==> InOrderFrom(c, rest, s, first);
    if i :| InOrderFrom(c, rest, s, i) {
      assert s[i + |c|..] == s[first + |c|..][i - first..];
      InOrderLater(rest, s[first + |c|..], i - first);
    }
  }

  lemma OccursFrom(s: string, c: string, i: nat)
    requires i <= |s|
    ensures OccursAt(s[i..], c, 0) <==> OccursAt(s, c, i)
    ensures OccursAt(s, c, i) ==> s[i..][|c|..] == s[i + |c|..]
  {
    OccursInTail(s[..i], s[i..], c, 0);
    assert s == s[..i] + s[i..];
  }

  /** A pattern cut at its first percent sign: the chunk before, the chunks behind, and what
      a pattern let loose at its end continues with. */
  function FirstChunk(pattern: string): (string, seq<string>, string) {
    var j := IndexOf(pattern, "%");
    if j == -1 then (pattern, [], "%")
    else (pattern[..j], Split(pattern[j + 1..], "%"), "%" + (pattern[j + 1..] + "%"))
  }

  lemma FirstChunkCuts(pattern: string)
    ensures var (c, rest, q) := FirstChunk(pattern);
      pattern + "%" == c + q && Split(pattern, "%") == [c] + rest
  {
    var j := IndexOf(pattern, "%");
    assert j != -1 ==> pattern[j] == '%' && pattern == pattern[..j] + "%" + pattern[j + 1..];
  }

  lemma {:induction false} LooseAt(pattern: string, s: string, i: nat)
    requires '_' !in pattern && i <= |s|
    ensures var (c, rest, q) := FirstChunk(pattern); Like(s[i..], c + q) <==> InOrderFrom(c, rest, s, i)
    decreases |pattern|, 0
  {
    var (c, rest, q) := FirstChunk(pattern);
    var j := IndexOf(pattern, "%");
    NoPercentBefore(pattern, c);
    LikeLiteral(s[i..], c, q);
    OccursFrom(s, c, i);
    if OccursAt(s, c, i) {
      if j == -1 {
        LikeEverything(s[i + |c|..]);
      } else {
        LooseLikeIsInOrder(pattern[j + 1..], s[i + |c|..]);
      }
    }
  }

  /** `LIKE` let loose at both ends looks for the chunks between the percent signs, in order
      and without overlap. */
  lemma {:induction false} LooseLikeIsInOrder(pattern: string, s: string)
    requires '_' !in pattern
    ensures Like(s, "%" + (pattern + "%")) <==> InOrder(Split(pattern, "%"), s)
    decreases |pattern|, 1
  {
    var (c, rest, q) := FirstChunk(pattern);
    FirstChunkCuts(pattern);
    LikePercent(s, c + q);
    InOrderAnywhere(c, rest, s);
    forall i | 0 <= i <= |s| ensures Like(s[i..], c + q) <==> InOrderFrom(c, rest, s, i) {
      LooseAt(pattern, s, i);
    }
    hide Split, FirstChunk, InOrder, Like;
    if i :| InOrderFrom(c, rest, s, i) {
      assert Like(s[i..], c + q);
    }
  }

  lemma NoPercentBefore(pattern: string, c: string)
    requires c == if IndexOf(pattern, "%") == -1 then pattern else pattern[..IndexOf(pattern, "%")]
    ensures '%' !in c && forall x :: x in c ==> x in pattern
  {
    if '%' in c {
      var i :| 0 <= i < |c| && c[i] == '%';
      assert OccursAt(pattern, "%", i);
    }
  }

  lemma LikeEverything(s: string)
    ensures Like(s, "%")
  {
    assert "%" == "%" + "" && s[|s|..] == "";
    LikePercent(s, "");
  }

  lemma {:induction false} TokensConcat(p: string, q: string)
    ensures Tokens(p + q) == Tokens(p) + Tokens(q)
  {
    if p == "" {
      assert p + q == q;
    } else {
      TokensConcat(p[1..], q);
      assert (p + q)[1..] == p[1..] + q;
    }
  }

  lemma {:induction false} MatchLiteral(c: string, rest: seq<Token>, s: string)
    requires '%' !in c && '.' !in c
    ensures MatchesPrefix(Tokens(c) + rest, s) <==> OccursAt(s, c, 0) && MatchesPrefix(rest, s[|c|..])
    decreases |c|
  {
    if c == "" {
      assert Tokens(c) + rest == rest && s[0..] == s;
    } else {
      var tokens := Tokens(c) + rest;
      assert c[0] in c && tokens[0] == Lit(c[0]) && tokens[1..] == Tokens(c[1..]) + rest;
      if s != "" {
        MatchLiteral(c[1..], rest, s[1..]);
        OccursStep(s, c);
      }
    }
  }

  lemma OccursStep(s: string, c: string)
    requires s != "" && c != ""
    ensures OccursAt(s, c, 0) <==> s[0] == c[0] && OccursAt(s[1..], c[1..], 0)
    ensures OccursAt(s, c, 0) ==> s[1..][|c[1..]|..] == s[|c|..]
  {
    if s[0] == c[0] && OccursAt(s[1..], c[1..], 0) {
      forall x | 0 <= x < |c| ensures s[x] == c[x] {
        assert x > 0 ==> s[1..][x - 1] == c[1..][x - 1];
      }
    }
    if OccursAt(s, c, 0) {
      forall x | 0 <= x < |c[1..]| ensures s[1..][x] == c[1..][x] {
        assert s[x + 1] == c[x + 1];
      }
    }
  }

  /** The tokens of a pattern, cut at its first percent sign. */
  lemma TokensCut(pattern: string)
    ensures var j := IndexOf(pattern, "%");
      Tokens(pattern) == if j == -1 then Tokens(pattern) + []
                         else Tokens(pattern[..j]) + ([Star] + Tokens(pattern[j + 1..]))
  {
    var j := IndexOf(pattern, "%");
    if j != -1 {
      assert pattern[j] == '%';
      TokensConcat(pattern[..j], pattern[j..]);
      assert pattern == pattern[..j] + pattern[j..] && pattern[j..][0] == '%' && pattern[j..][1..] == pattern[j + 1..];
    }
  }

  lemma {:induction false} MatchAt(pattern: string, s: string, i: nat)
    requires '.' !in pattern && i <= |s| && OneLine(s)
    ensures var (c, rest, _) := FirstChunk(pattern);
      MatchesPrefix(Tokens(pattern), s[i..]) <==> InOrderFrom(c, rest, s, i)
    decreases |pattern|, 0
  {
    var (c, rest, _) := FirstChunk(pattern);
    var j := IndexOf(pattern, "%");
    NoPercentBefore(pattern, c);
    TokensCut(pattern);
    OccursFrom(s, c, i);
    if j == -1 {
      MatchLiteral(c, [], s[i..]);
    } else {
      var more := Tokens(pattern[j + 1..]);
      MatchLiteral(c, [Star] + more, s[i..]);
      if OccursAt(s, c, i) {
        var after := s[i + |c|..];
        MatchIsInOrder(pattern[j + 1..], after);
        StarMatch(more, after);
      }
    }
  }

  lemma StarMatch(more: seq<Token>, s: string)
    requires OneLine(s)
    ensures MatchesPrefix([Star] + more, s) <==> Test(more, s)
  {
    assert ([Star] + more)[1..] == more;
    if i :| 0 <= i <= |s| && MatchesPrefix(more, s[i..]) {
      assert OneLine(s[..i]);
    }
  }

  /** A search for the pattern looks for the chunks between the percent signs, in order and
      without overlap. */
  lemma {:induction false} MatchIsInOrder(pattern: string, s: string)
    requires '.' !in pattern && OneLine(s)
    ensures Test(Tokens(pattern), s) <==> InOrder(Split(pattern, "%"), s)
    decreases |pattern|, 1
  {
    var (c, rest, q) := FirstChunk(pattern);
    FirstChunkCuts(pattern);
    InOrderAnywhere(c, rest, s);
    forall i | 0 <= i <= |s| ensures MatchesPrefix(Tokens(pattern), s[i..]) <==> InOrderFrom(c, rest, s, i) {
      MatchAt(pattern, s, i);
    }
    hide Split, FirstChunk, InOrder, MatchesPrefix;
    if i :| InOrderFrom(c, rest, s, i) {
      assert MatchesPrefix(Tokens(pattern), s[i..]);
    }
  }

  /** Without dots the filter accepts a name iff the literal chunks occur in it in order. */
  lemma FilterIsInOrder(pattern: string, name: string)
    requires Simple(pattern) && '.' !in pattern && OneLine(name)
    ensures FilterAccepts(pattern, name) <==> InOrder(Split(pattern, "%"), name)
  {
    SimpleParses(pattern);
    MatchIsInOrder(pattern, name);
    assert pattern == "" ==> OccursAt(name, "", 0) && Split(pattern, "%") == [""];
  }

  // ---------- the anchored LIKE against the filter ----------

  lemma {:induction false} LikeMatches(pattern: string, s: string)
    requires Simple(pattern) && '_' !in pattern && OneLine(s) && Like(s, pattern)
    ensures MatchesPrefix(Tokens(pattern), s)
    decreases |pattern|
  {
    if pattern != "" {
      var c, rest := pattern[0], pattern[1..];
      assert c in pattern;
      if c == '%' {
        assert pattern == "%" + rest;
        LikePercent(s, rest);
        var i :| 0 <= i <= |s| && Like(s[i..], rest);
        LikeMatches(rest, s[i..]);
      } else {
        assert s[0] in s;
        LikeMatches(rest, s[1..]);
      }
    }
  }

  /** A name that the pattern accepts with every `_` standing for an `a`. */
  function Witness(pattern: string): string {
    if pattern == "" then ""
    else (if pattern[0] == '%' then "" else if pattern[0] == '_' then "a" else [pattern[0]]) + Witness(pattern[1..])
  }

  lemma {:induction false} WitnessIsLike(pattern: string)
    requires Simple(pattern)
    ensures Like(Witness(pattern), pattern) && '_' !in Witness(pattern) && OneLine(Witness(pattern))
  {
    if pattern != "" {
      assert pattern[0] in pattern;
      WitnessIsLike(pattern[1..]);
      assert pattern[0] == '%' ==> Witness(pattern) == Witness(pattern[1..]);
      assert pattern[0] != '%' ==> Witness(pattern)[1..] == Witness(pattern[1..]);
    }
  }

  lemma {:induction false} LiteralsAreThere(pattern: string, c: char, s: string)
    requires MatchesPrefix(Tokens(pattern), s) && c in pattern && c != '%' && c != '.'
    ensures c in s
    decreases |pattern|
  {
    var rest := pattern[1..];
    assert pattern == [pattern[0]] + rest;
    if pattern[0] == '%' {
      var k :| 0 <= k <= |s| && OneLine(s[..k]) && MatchesPrefix(Tokens(rest), s[k..]);
      LiteralsAreThere(rest, c, s[k..]);
    } else if pattern[0] != c {
      LiteralsAreThere(rest, c, s[1..]);
    }
  }

  /** Every name that the anchored `LIKE` of the duplicate check accepts is accepted by the
      filter as well, exactly when the pattern has no underscore. */
  lemma LikeImpliesFilter(pattern: string)
    requires Simple(pattern)
    ensures (forall name :: OneLine(name) && Like(name, pattern) ==> FilterAccepts(pattern, name))
      <==> '_' !in pattern
  {
    SimpleParses(pattern);
    if '_' !in pattern {
      forall name | OneLine(name) && Like(name, pattern) ensures FilterAccepts(pattern, name) {
        LikeMatches(pattern, name);
        assert name[0..] == name;
      }
    } else {
      var name := Witness(pattern);
      WitnessIsLike(pattern);
      if FilterAccepts(pattern, name) {
        var i :| 0 <= i <= |name| && MatchesPrefix(Tokens(pattern), name[i..]);
        LiteralsAreThere(pattern, '_', name[i..]);
      }
    }
  }

  // ---------- the loose LIKE against the filter ----------

  lemma {:induction false} LikeOpenEnd(s: string, p: string)
    requires Like(s, p)
    ensures Like(s, p + "%")
    decreases |p|, |s|
  {
    if p == "" {
      assert p + "%" == "%";
      LikeEverything(s);
    } else {
      assert (p + "%")[0] == p[0] && (p + "%")[1..] == p[1..] + "%";
      if p[0] == '%' {
        if Like(s, p[1..]) {
          LikeOpenEnd(s, p[1..]);
        } else {
          LikeOpenEnd(s[1..], p);
        }
      } else {
        LikeOpenEnd(s[1..], p[1..]);
      }
    }
  }

  lemma LikeIsLoose(s: string, p: string)
    requires Like(s, p)
    ensures Like(s, "%" + (p + "%"))
  {
    LikeOpenEnd(s, p);
    LikePercent(s, p + "%");
    assert s[0..] == s;
  }

  lemma {:induction false} LikeLiteralsAreThere(pattern: string, c: char, s: string)
    requires Like(s, pattern) && c in pattern && c != '%' && c != '_'
    ensures c in s
    decreases |pattern|, |s|
  {
    var rest := pattern[1..];
    assert pattern == [pattern[0]] + rest;
    if pattern[0] == '%' {
      if Like(s, rest) {
        LikeLiteralsAreThere(rest, c, s);
      } else {
        LikeLiteralsAreThere(pattern, c, s[1..]);
      }
    } else if pattern[0] != c {
      LikeLiteralsAreThere(rest, c, s[1..]);
    }
  }

  lemma {:induction false} DotsAreGone(pattern: string)
    requires Simple(pattern)
    ensures Simple(DotsAsOne(pattern)) && '.' !in DotsAsOne(pattern) && '.' !in Witness(DotsAsOne(pattern))
  {
    if pattern != "" {
      assert pattern[0] in pattern && forall c :: c in pattern[1..] ==> c in pattern;
      DotsAreGone(pattern[1..]);
      var first := if pattern[0] == '.' then "_" else [pattern[0]];
      assert DotsAsOne(pattern) == first + DotsAsOne(pattern[1..]) && first != "";
      assert DotsAsOne(pattern)[1..] == DotsAsOne(pattern[1..]);
    }
  }

  lemma {:induction false} NoDots(pattern: string)
    requires '.' !in pattern
    ensures DotsAsOne(pattern) == pattern
  {
    if pattern != "" {
      NoDots(pattern[1..]);
    }
  }

  ghost predicate Agree(pattern: string, name: string) {
    FilterAccepts(pattern, name) <==> Like(name, "%" + (pattern + "%"))
  }

  /** With an underscore: the name with an `a` in its place is for `LIKE` alone. */
  lemma UnderscoreDisagrees(pattern: string)
    requires Simple(pattern) && '_' in pattern
    ensures OneLine(Witness(pattern)) && !Agree(pattern, Witness(pattern))
  {
    var name := Witness(pattern);
    SimpleParses(pattern);
    WitnessIsLike(pattern);
    LikeIsLoose(name, pattern);
    if FilterAccepts(pattern, name) {
      var i :| 0 <= i <= |name| && MatchesPrefix(Tokens(pattern), name[i..]);
      LiteralsAreThere(pattern, '_', name[i..]);
    }
  }

  /** With a dot and no underscore: the name with an `a` in its place is for the filter alone. */
  lemma DotDisagrees(pattern: string)
    requires Simple(pattern) && '_' !in pattern && '.' in pattern
    ensures var name := Witness(DotsAsOne(pattern)); OneLine(name) && !Agree(pattern, name)
  {
    var name := Witness(DotsAsOne(pattern));
    DotsAreGone(pattern);
    WitnessIsLike(DotsAsOne(pattern));
    LikeIsLoose(name, DotsAsOne(pattern));
    FilterIsLike(pattern, name);
    if Like(name, "%" + (pattern + "%")) {
      assert ("%" + (pattern + "%"))[1..] == pattern + "%";
      LikeLiteralsAreThere("%" + (pattern + "%"), '.', name);
    }
  }

  /** The filter and `LIKE` let loose at both ends accept the same names exactly when the pattern
      has neither dots nor underscores. */
  lemma FilterAgreesExactly(pattern: string)
    requires Simple(pattern)
    ensures (forall name :: OneLine(name) ==> Agree(pattern, name)) <==> '.' !in pattern && '_' !in pattern
  {
    if '_' in pattern {
      UnderscoreDisagrees(pattern);
    } else if '.' in pattern {
      DotDisagrees(pattern);
    } else {
      NoDots(pattern);
      forall name | OneLine(name) ensures Agree(pattern, name) {
        FilterIsLike(pattern, name);
      }
    }
  }
}
