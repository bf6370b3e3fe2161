/** Escaping text for HTML by chained replacements. */
module HtmlEscape {
  import opened Text

  const SPECIALS := ['&', '<', '>', '"', '\'']

  function Entity(c: char): string
    requires c in SPECIALS
  {
    if c == '&' then "&amp;"
    else if c == '<' then "&lt;"
    else if c == '>' then "&gt;"
    else if c == '"' then "&quot;"
    else "&#039;"
  }

  /** The replacements of `order`, one whole pass over the text after the other. */
  function Chain(order: seq<char>, s: string): string
    requires forall c :: c in order ==> c in SPECIALS
  {
    if order == [] then s else Chain(order[1..], ReplaceAll(s, order[0], Entity(order[0])))
  }

  function EscapeHtml(unsafe: string): string {
    Chain(SPECIALS, unsafe)
  }

  function Shown(c: char): string {
    if c in SPECIALS then Entity(c) else [c]
  }

  /** Every character of the text replaced once. */
  function OnePass(s: string): string {
    if s == "" then "" else Shown(s[0]) + OnePass(s[1..])
  }

  predicate StartsWith(s: string, m: string) {
    |m| <= |s| && s[..|m|] == m
  }

  /** Reads the five entities back, from left to right. */
  function Unescape(s: string): string {
    if s == "" then ""
    else if StartsWith(s, "&amp;") then "&" + Unescape(s[5..])
    else if StartsWith(s, "&lt;") then "<" + Unescape(s[4..])
    else if StartsWith(s, "&gt;") then ">" + Unescape(s[4..])
    else if StartsWith(s, "&quot;") then "\"" + Unescape(s[6..])
    else if StartsWith(s, "&#039;") then "'" + Unescape(s[6..])
    else [s[0]] + Unescape(s[1..])
  }

  // ---- Chained replacements -----------------------------------------------------------

  lemma {:induction false} ReplaceAllConcat(s: string, t: string, c: char, r: string)
    ensures ReplaceAll(s + t, c, r) == ReplaceAll(s, c, r) + ReplaceAll(t, c, r)
  {
    if s == "" {
      assert s + t == t;
    } else {
      ReplaceAllConcat(s[1..], t, c, r);
      assert (s + t)[1..] == s[1..] + t;
    }
  }

  lemma {:induction false} ReplaceAllAbsent(s: string, c: char, r: string)
    requires c !in s
    ensures ReplaceAll(s, c, r) == s
  {
    if s != "" {
      ReplaceAllAbsent(s[1..], c, r);
    }
  }

  lemma {:induction false} ChainConcat(order: seq<char>, s: string, t: string)
    requires forall c :: c in order ==> c in SPECIALS
    ensures Chain(order, s + t) == Chain(order, s) + Chain(order, t)
    decreases |order|
  {
    if order != [] {
      var c := order[0];
      ReplaceAllConcat(s, t, c, Entity(c));
      ChainConcat(order[1..], ReplaceAll(s, c, Entity(c)), ReplaceAll(t, c, Entity(c)));
    }
  }

  lemma {:induction false} ChainAbsent(order: seq<char>, s: string)
    requires forall c :: c in order ==> c in SPECIALS && c !in s
    ensures Chain(order, s) == s
    decreases |order|
  {
    if order != [] {
      ReplaceAllAbsent(s, order[0], Entity(order[0]));
      ChainAbsent(order[1..], s);
    }
  }

  /** An order of the five replacements, each done once. */
  ghost predicate IsOrder(order: seq<char>) {
    && (forall c :: c in order <==> c in SPECIALS)
    && (forall i, j :: 0 <= i < j < |order| ==> order[i] != order[j])
  }

  /** `&` is replaced before `c` is. */
  ghost predicate AmpFirst(order: seq<char>, c: char) {
    forall i, j :: 0 <= i < j < |order| && order[j] == '&' ==> order[i] != c
  }

  lemma ReplaceOne(c: char, r: string)
    ensures ReplaceAll([c], c, r) == r
  {
    assert ReplaceAll([c][1..], c, r) == "";
  }

  /** Apart from its leading `&`, an entity holds nothing that is replaced. */
  lemma EntityTail(c: char)
    requires c in SPECIALS
    ensures Entity(c)[0] == '&'
    ensures forall d :: d in SPECIALS ==> d !in Entity(c)[1..]
  {
  }

  lemma {:induction false} ChainOfEntity(order: seq<char>, c: char)
    requires c in SPECIALS && forall d :: d in order ==> d in SPECIALS
    requires forall i, j :: 0 <= i < j < |order| ==> order[i] != order[j]
    ensures Chain(order, Entity(c)) == (if '&' in order then "&amp;" else "&") + Entity(c)[1..]
    decreases |order|
  {
    EntityTail(c);
    ChainConcat(order, "&", Entity(c)[1..]);
    assert Entity(c) == "&" + Entity(c)[1..];
    ChainAbsent(order, Entity(c)[1..]);
    ChainOfAmp(order);
  }

  lemma {:induction false} ChainOfAmp(order: seq<char>)
    requires forall d :: d in order ==> d in SPECIALS
    requires forall i, j :: 0 <= i < j < |order| ==> order[i] != order[j]
    ensures Chain(order, "&") == if '&' in order then "&amp;" else "&"
    decreases |order|
  {
    if order != [] {
      if order[0] == '&' {
        ReplaceOne('&', "&amp;");
        ChainConcat(order[1..], "&", "amp;");
        assert "&amp;" == "&" + "amp;";
        ChainAbsent(order[1..], "amp;");
        ChainOfAmp(order[1..]);
      } else {
        ReplaceAllAbsent("&", order[0], Entity(order[0]));
        ChainOfAmp(order[1..]);
      }
    }
  }

  lemma {:induction false} ChainOfChar(order: seq<char>, c: char)
    requires forall d :: d in order ==> d in SPECIALS
    requires forall i, j :: 0 <= i < j < |order| ==> order[i] != order[j]
    ensures Chain(order, [c]) ==
            if c !in order then [c]
            else if AmpFirst(order, c) then Entity(c)
            else "&amp;" + Entity(c)[1..]
    decreases |order|
  {
    if c !in order {
      ChainAbsent(order, [c]);
    } else {
      var rest := order[1..];
      if order[0] == c {
        ReplaceOne(c, Entity(c));
        ChainOfEntity(rest, c);
        EntityTail(c);
        if '&' in rest {
          var j :| 0 <= j < |rest| && rest[j] == '&';
          assert order[0] == c && order[j + 1] == '&';
        }
      } else {
        ReplaceAllAbsent([c], order[0], Entity(order[0]));
        ChainOfChar(rest, c);
        forall i, j | 0 <= i < j < |rest| && rest[j] == '&' && rest[i] == c
          ensures !AmpFirst(order, c) {
          assert order[i + 1] == c && order[j + 1] == '&';
        }
      }
    }
  }

  /** In whatever order the five replacements are chained, they equal the single pass on
      exactly the texts that hold none of the characters replaced before `&` is. */
  lemma {:induction false} ChainIsOnePass(order: seq<char>, s: string)
    requires IsOrder(order)
    ensures |Chain(order, s)| >= |OnePass(s)|
    ensures Chain(order, s) == OnePass(s) <==> forall c :: c in s && c in SPECIALS ==> AmpFirst(order, c)
    decreases |s|
  {
    if s == "" {
      ChainAbsent(order, s);
    } else {
      var c, t := s[0], s[1..];
      assert s == [c] + t;
      ChainConcat(order, [c], t);
      ChainOfChar(order, c);
      ChainIsOnePass(order, t);
      if c in SPECIALS {
        EntityTail(c);
      }
      var one := Shown(c);
      var head := Chain(order, [c]);
      assert OnePass(s) == one + OnePass(t) && Chain(order, s) == head + Chain(order, t);
      if Chain(order, s) == OnePass(s) {
        assert |head| == |one|;
        assert head == (head + Chain(order, t))[..|one|] == one;
        assert Chain(order, t) == (head + Chain(order, t))[|one|..] == OnePass(t);
      }
    }
  }

  /** So the program's order, with `&` in front, always equals the single pass, and only
      orders with `&` in front do. */
  lemma EscapeIsOnePass(s: string)
    ensures EscapeHtml(s) == OnePass(s)
  {
    ChainIsOnePass(SPECIALS, s);
  }

  lemma AmpMustBeFirst(order: seq<char>)
    requires IsOrder(order)
    ensures (forall s :: Chain(order, s) == OnePass(s)) <==> order != [] && order[0] == '&'
  {
    assert '&' in SPECIALS;
    assert order != [];
    if order[0] == '&' {
      forall s ensures Chain(order, s) == OnePass(s) {
        ChainIsOnePass(order, s);
      }
    } else {
      var s := [order[0]];
      ChainIsOnePass(order, s);
      var j :| 0 <= j < |order| && order[j] == '&';
      assert !AmpFirst(order, s[0]);
      assert s[0] in s;
      assert Chain(order, s) != OnePass(s);
    }
  }

  // ---- Reading back -------------------------------------------------------------------

  lemma SecondChar(s: string, d: char)
    requires d in SPECIALS
    ensures StartsWith(s, Entity(d)) ==> |s| > 1 && s[1] == Entity(d)[1]
  {
    if StartsWith(s, Entity(d)) {
      assert s[1] == s[..|Entity(d)|][1];
    }
  }

  lemma StartsApart(s: string, c: char, d: char)
    requires c in SPECIALS && d in SPECIALS && c != d && StartsWith(s, Entity(c))
    ensures !StartsWith(s, Entity(d))
  {
    SecondChar(s, c);
    SecondChar(s, d);
  }

  lemma UnescapeEntity(c: char, t: string)
    requires c in SPECIALS
    ensures Unescape(Entity(c) + t) == [c] + Unescape(t)
  {
    var s := Entity(c) + t;
    assert s[..|Entity(c)|] == Entity(c) && s[|Entity(c)|..] == t;
    forall d | d in SPECIALS && d != c ensures !StartsWith(s, Entity(d)) {
      StartsApart(s, c, d);
    }
    assert forall d :: d in SPECIALS && d != c ==> !StartsWith(s, Entity(d));
    assert '&' in SPECIALS && '<' in SPECIALS && '>' in SPECIALS && '"' in SPECIALS;
  }

  lemma EntityStartsWithAmp(s: string, d: char)
    requires d in SPECIALS
    ensures StartsWith(s, Entity(d)) ==> s != "" && s[0] == '&'
  {
    if StartsWith(s, Entity(d)) {
      assert s[0] == s[..|Entity(d)|][0];
    }
  }

  lemma UnescapeOther(c: char, t: string)
    requires c !in SPECIALS
    ensures Unescape([c] + t) == [c] + Unescape(t)
  {
    var s := [c] + t;
    assert s[1..] == t;
    forall d | d in SPECIALS ensures !StartsWith(s, Entity(d)) {
      EntityStartsWithAmp(s, d);
    }
    assert '&' in SPECIALS && '<' in SPECIALS && '>' in SPECIALS && '"' in SPECIALS && '\'' in SPECIALS;
  }

  lemma {:induction false} OnePassReadsBack(s: string)
    ensures Unescape(OnePass(s)) == s
  {
    if s != "" {
      hide Unescape, Entity;
      OnePassReadsBack(s[1..]);
      if s[0] in SPECIALS {
        ShownEntity(s[0]);
        UnescapeEntity(s[0], OnePass(s[1..]));
      } else {
        UnescapeOther(s[0], OnePass(s[1..]));
      }
    }
  }

  /** Escaping is undone by reading the entities back, for every text. */
  lemma EscapeReadsBack(s: string)
    ensures Unescape(EscapeHtml(s)) == s
  {
    EscapeIsOnePass(s);
    OnePassReadsBack(s);
  }

  predicate OpensEntity(s: string) {
    exists c :: c in SPECIALS && StartsWith(s, Entity(c))
  }

  lemma ShownIsInert(c: char)
    ensures Shown(c) != ""
    ensures forall i :: 0 <= i < |Shown(c)| ==> Shown(c)[i] !in "<>\"'" && (Shown(c)[i] == '&' ==> i == 0)
    ensures Shown(c)[0] == '&' ==> c in SPECIALS
  {
    if c in SPECIALS {
      EntityTail(c);
      forall i | 0 < i < |Entity(c)| ensures Entity(c)[i] !in SPECIALS {
        assert Entity(c)[i] == Entity(c)[1..][i - 1];
      }
    }
  }

  lemma {:induction false} OnePassIsInert(s: string)
    ensures forall i :: 0 <= i < |OnePass(s)| ==> OnePass(s)[i] !in "<>\"'"
    ensures forall i :: 0 <= i < |OnePass(s)| && OnePass(s)[i] == '&' ==> OpensEntity(OnePass(s)[i..])
  {
    hide Shown, Entity;
    if s != "" {
      OnePassIsInert(s[1..]);
      ShownIsInert(s[0]);
      var e, f, head := OnePass(s), OnePass(s[1..]), Shown(s[0]);
      assert e == head + f;
      forall i | 0 <= i < |e| && e[i] == '&' ensures OpensEntity(e[i..]) {
        if i >= |head| {
          assert e[i..] == f[i - |head|..];
        } else {
          assert i == 0 && e[..|head|] == head && e[0..] == e;
          ShownEntity(s[0]);
          assert StartsWith(e, Entity(s[0]));
        }
      }
    }
  }

  lemma ShownEntity(c: char)
    requires c in SPECIALS
    ensures Shown(c) == Entity(c)
  {
  }

  /** An escaped text has no markup character, and each `&` in it opens an entity. */
  lemma EscapedIsInert(s: string)
    ensures forall c :: c in EscapeHtml(s) ==> c !in "<>\"'"
    ensures forall i :: 0 <= i < |EscapeHtml(s)| && EscapeHtml(s)[i] == '&' ==> OpensEntity(EscapeHtml(s)[i..])
  {
    EscapeIsOnePass(s);
    OnePassIsInert(s);
  }
}
