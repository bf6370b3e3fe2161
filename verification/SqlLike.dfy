/** The SQL `LIKE` operator for patterns without a backslash. */
module SqlLike {
  /** `%` stands for any text, `_` for any one character, all else for itself. */
  predicate Like(s: string, pattern: string)
    decreases |s| + |pattern|
  {
    if pattern == "" then s == ""
    else if pattern[0] == '%' then Like(s, pattern[1..]) || (s != "" && Like(s[1..], pattern))
    else s != "" && (pattern[0] == '_' || s[0] == pattern[0]) && Like(s[1..], pattern[1..])
  }

  /** A pattern without wildcards is for one text alone. */
  lemma {:induction false} LikeItself(s: string, pattern: string)
    requires '%' !in pattern && '_' !in pattern
    ensures Like(s, pattern) <==> s == pattern
    decreases |pattern|
  {
    if pattern != "" && s != "" {
      assert pattern[0] in pattern;
      LikeItself(s[1..], pattern[1..]);
      assert s == [s[0]] + s[1..] && pattern == [pattern[0]] + pattern[1..];
    }
  }

  /** An underscore is for any one character, whatever stands around it. */
  lemma {:induction false} LikeUnderscores(s: string, pattern: string)
    requires forall c :: c in pattern ==> c == '_'
    ensures Like(s, pattern) <==> |s| == |pattern|
    decreases |pattern|
  {
    if pattern != "" {
      assert pattern[0] in pattern && forall c :: c in pattern[1..] ==> c in pattern;
      if s != "" {
        LikeUnderscores(s[1..], pattern[1..]);
      }
    }
  }
}
