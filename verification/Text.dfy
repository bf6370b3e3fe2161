/** The string operations of the JavaScript library that the program relies on:
    `indexOf`, `split`, `join` and `replace`. */
module Text {
  /** `m` stands at position `i` of `s`. */
  predicate OccursAt(s: string, m: string, i: int) {
    0 <= i <= |s| - |m| && forall x {:trigger s[x]} :: i <= x < i + |m| ==> s[x] == m[x - i]
  }

  ghost predicate Contains(s: string, m: string) {
    exists i :: OccursAt(s, m, i)
  }

  predicate EndsWith(s: string, m: string) {
    |m| <= |s| && s[|s| - |m|..] == m
  }

  /** Position of the leftmost occurrence of `m` at or after `from`, or -1. */
  function IndexFrom(s: string, m: string, from: nat): (i: int)
    ensures i == -1 || (from <= i && OccursAt(s, m, i))
    ensures forall j :: from <= j && OccursAt(s, m, j) ==> 0 <= i <= j
    decreases |s| - from
  {
    if from + |m| > |s| then -1
    else if OccursAt(s, m, from) then from
    else IndexFrom(s, m, from + 1)
  }

  function IndexOf(s: string, m: string): (i: int)
    ensures i == -1 || OccursAt(s, m, i)
    ensures forall j :: OccursAt(s, m, j) ==> 0 <= i <= j
  {
    IndexFrom(s, m, 0)
  }

  /** `s.split(sep)`: cut at the leftmost occurrences that do not overlap. */
  function Split(s: string, sep: string): (parts: seq<string>)
    requires sep != ""
    ensures parts != []
    decreases |s|
  {
    var i := IndexOf(s, sep);
    if i == -1 then [s] else [s[..i]] + Split(s[i + |sep|..], sep)
  }

  /** `parts.join(sep)`. */
  function Join(parts: seq<string>, sep: string): string {
    if parts == [] then ""
    else if |parts| == 1 then parts[0]
    else parts[0] + sep + Join(parts[1..], sep)
  }

  /** `s.replace(/c/g, r)`. */
  function ReplaceAll(s: string, c: char, r: string): string {
    if s == "" then "" else (if s[0] == c then r else [s[0]]) + ReplaceAll(s[1..], c, r)
  }

  /** A number as text. */
  function Decimal(n: nat): string {
    (if n < 10 then "" else Decimal(n / 10)) + [('0' as int + n % 10) as char]
  }

  /** White space and line ends, which `trim` takes off. */
  predicate IsSpace(c: char) {
    || '\t' <= c <= '\r' || c == ' ' || c == '\U{A0}' || c == '\U{1680}' || '\U{2000}' <= c <= '\U{200A}'
    || c in ['\U{2028}', '\U{2029}', '\U{202F}', '\U{205F}', '\U{3000}', '\U{FEFF}']
  }

  /** `s.trim()`. */
  function Trim(s: string): string
    decreases |s|
  {
    if s == "" then ""
    else if IsSpace(s[0]) then Trim(s[1..])
    else if IsSpace(s[|s| - 1]) then Trim(s[..|s| - 1])
    else s
  }

  function Last<T>(xs: seq<T>): T
    requires xs != []
  {
    xs[|xs| - 1]
  }

  /** Trimming takes white space off both ends, and no more. */
  lemma {:induction false} TrimExactly(s: string) returns (from: nat, to: nat)
    ensures from <= to <= |s| && Trim(s) == s[from..to]
    ensures forall i :: 0 <= i < from || to <= i < |s| ==> IsSpace(s[i])
    ensures from < to ==> !IsSpace(s[from]) && !IsSpace(s[to - 1])
    decreases |s|
  {
    hide IsSpace;
    if s == "" {
      from, to := 0, 0;
    } else if IsSpace(s[0]) {
      from, to := TrimExactly(s[1..]);
      from, to := from + 1, to + 1;
      assert forall i :: 0 < i < |s| ==> s[i] == s[1..][i - 1];
    } else if IsSpace(s[|s| - 1]) {
      from, to := TrimExactly(s[..|s| - 1]);
    } else {
      from, to := 0, |s|;
    }
  }

  lemma LastOfConcat<T>(xs: seq<T>, ys: seq<T>)
    requires ys != []
    ensures Last(xs + ys) == Last(ys)
  {
  }

  lemma OccursInTail(p: string, s: string, m: string, i: nat)
    ensures OccursAt(p + s, m, |p| + i) <==> OccursAt(s, m, i)
  {
    var t := p + s;
    assert forall x :: |p| <= x < |t| ==> t[x] == s[x - |p|];
    if OccursAt(t, m, |p| + i) {
      forall x | i <= x < i + |m| ensures s[x] == m[x - i] {
        assert s[x] == t[|p| + x];
      }
    }
  }

  /** An occurrence in a concatenation lies in the first text, in the second, or across. */
  lemma OccursInConcat(s: string, t: string, m: string, j: nat)
    requires OccursAt(s + t, m, j)
    ensures || (j + |m| <= |s| && OccursAt(s, m, j))
            || (|s| <= j && OccursAt(t, m, j - |s|))
            || (j < |s| < j + |m| && s[|s| - 1] == m[|s| - 1 - j] && t[0] == m[|s| - j])
  {
    var st := s + t;
    assert forall x :: 0 <= x < |s| ==> s[x] == st[x];
    assert forall x :: 0 <= x < |t| ==> t[x] == st[|s| + x];
    if |s| <= j {
      OccursInTail(s, t, m, j - |s|);
    }
  }

  /** An occurrence is the slice it covers. */
  lemma OccursCuts(s: string, m: string, i: nat)
    requires OccursAt(s, m, i)
    ensures s[i..i + |m|] == m && s == s[..i] + m + s[i + |m|..]
  {
    assert s[i..i + |m|] == m;
  }

  /** Splitting and joining with the same separator gives the text back. */
  lemma {:induction false} JoinSplit(s: string, sep: string)
    requires sep != ""
    ensures Join(Split(s, sep), sep) == s
    decreases |s|
  {
    var i := IndexOf(s, sep);
    if i != -1 {
      var rest := s[i + |sep|..];
      JoinSplit(rest, sep);
      assert Split(s, sep)[1..] == Split(rest, sep);
      assert s == s[..i] + sep + rest;
    }
  }

  lemma OccursInSlice(s: string, m: string, i: int, from: nat, to: nat)
    requires from <= to <= |s|
    ensures OccursAt(s[from..to], m, i) <==> 0 <= i && from + i + |m| <= to && OccursAt(s, m, from + i)
  {
    var a := s[from..to];
    if OccursAt(a, m, i) {
      forall x | from + i <= x < from + i + |m| ensures s[x] == m[x - (from + i)] {
        assert s[x] == a[x - from];
      }
    }
  }

  /** The last part is what stands behind the last separator. */
  lemma {:induction false} LastPart(s: string, sep: string) returns (before: string)
    requires sep != ""
    ensures s == before + Last(Split(s, sep))
    decreases |s|
  {
    var i := IndexOf(s, sep);
    if i == -1 {
      before := "";
    } else {
      var rest := s[i + |sep|..];
      var p := LastPart(rest, sep);
      LastOfConcat([s[..i]], Split(rest, sep));
      before := s[..i + |sep|] + p;
    }
  }

  lemma {:induction false} JoinAppend(xs: seq<string>, p: string)
    requires xs != []
    ensures Join(xs[..|xs| - 1] + [Last(xs) + p], "") == Join(xs, "") + p
  {
    if |xs| > 1 {
      JoinAppend(xs[1..], p);
      assert (xs[..|xs| - 1] + [Last(xs) + p])[1..] == xs[1..][..|xs| - 2] + [Last(xs[1..]) + p];
    }
  }

  /** A text that ends where no separator reaches across only lengthens the last part. */
  lemma {:induction false} SplitAppend(s: string, p: string, sep: string)
    requires sep != ""
    requires forall i :: OccursAt(s + p, sep, i) ==> i + |sep| <= |s|
    ensures var parts := Split(s, sep);
            Split(s + p, sep) == parts[..|parts| - 1] + [Last(parts) + p]
    decreases |s|
  {
    var t := s + p;
    assert t[0..|s|] == s;
    forall i {
      OccursInSlice(t, sep, i, 0, |s|);
    }
    assert forall i :: OccursAt(t, sep, i) <==> OccursAt(s, sep, i);
    var i := IndexOf(s, sep);
    assert IndexOf(t, sep) == i;
    if i != -1 {
      var from := i + |sep|;
      var rest := s[from..];
      assert t[from..|t|] == t[from..] == rest + p;
      forall j | OccursAt(rest + p, sep, j) ensures j + |sep| <= |rest| {
        OccursInSlice(t, sep, j, from, |t|);
      }
      SplitAppend(rest, p, sep);
      assert t[..i] == s[..i];
      assert Split(t, sep) == [s[..i]] + Split(rest + p, sep);
      assert Split(s, sep) == [s[..i]] + Split(rest, sep);
    }
  }

  /** The leftmost separator cuts off the first part. */
  lemma SplitFirst(a: string, sep: string, b: string)
    requires sep != ""
    requires forall i :: OccursAt(a + sep + b, sep, i) ==> |a| <= i
    ensures Split(a + sep + b, sep) == [a] + Split(b, sep)
  {
    var s := a + sep + b;
    assert s[|a|..|a| + |sep|] == sep;
    assert OccursAt(s, sep, |a|);
    assert s[..|a|] == a && s[|a| + |sep|..] == b;
  }
}
