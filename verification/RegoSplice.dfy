/** Writing exception blocks between the markers of a Rego template. */
module RegoSplice {
  import opened Text
  import opened Shared

  const START_1 := "# START M9S EXCEPTION BLOCK 1#"
  const END_1 := "# END M9S EXCEPTION BLOCK 1#"
  const START_2 := "# START M9S EXCEPTION BLOCK 2#"
  const END_2 := "# END M9S EXCEPTION BLOCK 2#"
  const MARKERS_1 := Markers(START_1, END_1)
  const MARKERS_2 := Markers(START_2, END_2)
  const INDENT := "\n  "

  datatype Markers = Markers(start: string, end: string)

  /** The two texts written on a sync, one per pair of markers. */
  datatype Blocks = Blocks(plain: string, withImage: string)

  /** The text behind the start marker, without what stands before its first end marker. */
  function Keep(text: string, end: string): string
    requires end != ""
  {
    var parts := Split(text, end);
    if |parts| > 1 then Join([end] + parts[1..], "") else Join(parts, "")
  }

  /** Replaces the text between one pair of markers, as the source does with `split`,
      `splice` and `join`. */
  function Splice(text: string, start: string, end: string, block: string): string
    requires start != "" && end != ""
  {
    var parts := Split(text, start);
    var spliced := [parts[0], block] + parts[1..];
    spliced[0] + (start + INDENT) + spliced[1] + Keep(Last(spliced), end)
  }

  function Save(rego: string, b: Blocks): string {
    SaveBetween(rego, MARKERS_1, MARKERS_2, b)
  }

  class TemplateObj {
    var rego: string

    constructor (rego: string)
      ensures this.rego == rego
    {
      this.rego := rego;
    }

    method SaveExceptionBlock(b: Blocks)
      modifies this
      ensures rego == Save(old(rego), b)
    {
      var modifiedRego := ReplaceBlock(rego, START_1, END_1, b.plain);
      modifiedRego := ReplaceBlock(modifiedRego, START_2, END_2, b.withImage);
      rego := modifiedRego;
    }

    static method ReplaceBlock(text: string, start: string, end: string, block: string) returns (modified: string)
      requires start != "" && end != ""
      ensures modified == Splice(text, start, end, block)
    {
      var rego := Split(text, start);
      rego := [rego[0], block] + rego[1..];
      modified := Join([rego[0], rego[1]], start + INDENT);
      assert modified == rego[0] + (start + INDENT) + Join([rego[1]], start + INDENT);
      var existingCode := Split(rego[|rego| - 1], end);
      if |existingCode| > 1 {
        existingCode := existingCode[0 := end];
      }
      assert Join(existingCode, "") == Keep(Last(rego), end);
      modified := modified + Join(existingCode, "");
    }
  }

  // ---------- markers ----------

  /** What all four markers have in common: they begin and end with a hash sign, have no
      other one, and fit on a line. */
  ghost predicate IsMarker(m: string) {
    && |m| >= 2 && m[0] == '#' && m[|m| - 1] == '#'
    && forall i :: 0 <= i < |m| ==> m[i] != '\n' && (0 < i < |m| - 1 ==> m[i] != '#')
  }

  lemma StartsAreMarkers()
    ensures IsMarker(START_1) && IsMarker(START_2)
  {
  }

  lemma EndsAreMarkers()
    ensures IsMarker(END_1) && IsMarker(END_2)
  {
  }

  lemma MarkersAreMarkers()
    ensures IsMarker(START_1) && IsMarker(END_1) && IsMarker(START_2) && IsMarker(END_2)
  {
    StartsAreMarkers();
    EndsAreMarkers();
  }

  /** A block that cannot make or complete the marker `m` where it is inserted. */
  ghost predicate Safe(block: string, m: string)
    requires m != ""
  {
    !Contains(block, m) && !EndsWith(block, m[..|m| - 1])
  }

  ghost predicate SafeBlocks(b: Blocks) {
    MarkersAreMarkers();
    SafeFor(b, MARKERS_1, MARKERS_2)
  }

  // ---------- regions ----------

  /** Where the two markers of one block stand. */
  datatype Region = Region(start: nat, end: nat)

  ghost predicate Once(text: string, m: string, i: nat) {
    OccursAt(text, m, i) && forall j :: OccursAt(text, m, j) ==> j == i
  }

  /** The text has exactly one start marker, and one end marker somewhere after it. */
  ghost predicate HasRegion(text: string, start: string, end: string, r: Region) {
    && Once(text, start, r.start) && Once(text, end, r.end)
    && r.start + |start| <= r.end
  }

  /** The text with the region's content replaced by an indented block. */
  function Put(text: string, start: string, r: Region, block: string): string
    requires r.start + |start| <= r.end <= |text|
  {
    text[..r.start + |start|] + INDENT + block + text[r.end..]
  }

  /** Where the end marker stands after `Put`. */
  function PutEnd(start: string, r: Region, block: string): nat {
    r.start + |start| + |INDENT| + |block|
  }

  /** A marker found after `Put` was there before, outside the region, unless the block
      brought it along or ends with all of it but the last hash sign. */
  lemma PutMarkers(text: string, start: string, end: string, r: Region, block: string, m: string, j: nat)
    requires IsMarker(start) && IsMarker(end) && HasRegion(text, start, end, r) && IsMarker(m)
    requires OccursAt(Put(text, start, r, block), m, j)
    ensures var right := r.start + |start| + |INDENT| + |block|;
      || (j + |m| <= r.start + |start| && OccursAt(text, m, j))
      || (right <= j && OccursAt(text, m, j - right + r.end))
      || !Safe(block, m)
  {
    var put := Put(text, start, r, block);
    var left := r.start + |start|;
    var right := left + |INDENT| + |block|;
    assert put[left] == '\n' && put[left + 1] == ' ' && put[left + 2] == ' ';
    assert put[right] == text[r.end] == '#';
    assert j + |m| <= left || left + |INDENT| <= j;
    if j + |m| <= left {
      assert forall x :: 0 <= x < left ==> text[x] == put[x];
    } else if right <= j {
      var i := j - right + r.end;
      assert forall x :: r.end <= x < |text| ==> text[x] == put[x - r.end + right];
      assert OccursAt(text, m, i);
    } else {
      var i := j - left - |INDENT|;
      assert j + |m| <= right + 1;
      assert forall x :: 0 <= x < |block| ==> block[x] == put[x + left + |INDENT|];
      if j + |m| <= right {
        assert OccursAt(block, m, i);
      } else {
        assert block[i..] == m[..|m| - 1];
        assert EndsWith(block, m[..|m| - 1]);
      }
    }
  }

  lemma PutKeepsOutside(text: string, start: string, r: Region, block: string, m: string, i: nat)
    requires r.start + |start| <= r.end <= |text|
    requires OccursAt(text, m, i)
    ensures i + |m| <= r.start + |start| ==> OccursAt(Put(text, start, r, block), m, i)
    ensures r.end <= i ==> OccursAt(Put(text, start, r, block), m, i - r.end + PutEnd(start, r, block))
  {
    var put := Put(text, start, r, block);
    if i + |m| <= r.start + |start| {
      assert put[i..i + |m|] == text[i..i + |m|];
    }
    if r.end <= i {
      var j := i - r.end + PutEnd(start, r, block);
      assert put[j..j + |m|] == text[i..i + |m|];
    }
  }

  lemma SpliceParts(text: string, start: string, end: string, block: string, parts: seq<string>)
    requires start != "" && end != "" && |parts| > 1 && Split(text, start) == parts
    ensures Splice(text, start, end, block) == parts[0] + (start + INDENT) + block + Keep(Last(parts), end)
  {
    assert Last([parts[0], block] + parts[1..]) == Last(parts);
  }

  lemma KeepFromFirst(mid: string, end: string, post: string)
    requires end != ""
    requires forall i :: OccursAt(mid + end + post, end, i) ==> i == |mid|
    ensures Keep(mid + end + post, end) == end + post
  {
    var whole := mid + end + post;
    SplitFirst(mid, end, post);
    OnlyOnce(mid, end, post);
    var parts := Split(whole, end);
    assert parts[1..] == [post];
    JoinCons(end, [post]);
  }

  lemma OnlyOnce(mid: string, end: string, post: string)
    requires end != ""
    requires forall i :: OccursAt(mid + end + post, end, i) ==> i == |mid|
    ensures Split(post, end) == [post]
  {
    var whole := mid + end + post;
    assert whole[|mid| + |end|..|whole|] == post;
    forall i | OccursAt(post, end, i) ensures false {
      OccursInSlice(whole, end, i, |mid| + |end|, |whole|);
    }
  }

  /** A text with a region, cut at its markers. */
  lemma Cut(text: string, start: string, end: string, r: Region)
    requires HasRegion(text, start, end, r)
    ensures var after := text[r.start + |start|..r.end] + end + text[r.end + |end|..];
      && text == text[..r.start] + start + after
      && text[..r.start + |start|] == text[..r.start] + start
      && text[r.start + |start|..] == after
      && text[r.end..] == end + text[r.end + |end|..]
  {
    assert text[r.end..] == text[r.end..r.end + |end|] + text[r.end + |end|..];
    assert text[..r.start + |start|] == text[..r.start] + text[r.start..r.start + |start|];
    assert text == text[..r.start + |start|] + text[r.start + |start|..r.end] + text[r.end..];
  }

  lemma RegionSplits(text: string, start: string, end: string, r: Region)
    requires start != "" && HasRegion(text, start, end, r)
    ensures Split(text, start) == [text[..r.start], text[r.start + |start|..]]
  {
    var left := r.start + |start|;
    var before, after := text[..r.start], text[left..];
    OccursCuts(text, start, r.start);
    SplitFirst(before, start, after);
    assert after == text[left..|text|];
    forall i | OccursAt(after, start, i) ensures false {
      OccursInSlice(text, start, i, left, |text|);
    }
  }

  lemma RegionKept(text: string, start: string, end: string, r: Region)
    requires end != "" && HasRegion(text, start, end, r)
    ensures Keep(text[r.start + |start|..], end) == text[r.end..]
  {
    Cut(text, start, end, r);
    var left := r.start + |start|;
    var after := text[left..|text|];
    forall i | OccursAt(after, end, i) ensures i == r.end - left {
      OccursInSlice(text, end, i, left, |text|);
    }
    assert text[left..] == after;
    KeepFromFirst(text[left..r.end], end, text[r.end + |end|..]);
  }

  /** `Put` spelled out around its block. */
  lemma PutPieces(text: string, start: string, r: Region, block: string)
    requires OccursAt(text, start, r.start) && r.start + |start| <= r.end <= |text|
    ensures Put(text, start, r, block) == text[..r.start] + (start + INDENT) + block + text[r.end..]
  {
    assert text[..r.start + |start|] == text[..r.start] + text[r.start..r.start + |start|];
  }

  lemma SpliceIsPut(text: string, start: string, end: string, r: Region, block: string)
    requires start != "" && end != "" && HasRegion(text, start, end, r)
    ensures Splice(text, start, end, block) == Put(text, start, r, block)
  {
    RegionSplits(text, start, end, r);
    RegionKept(text, start, end, r);
    SpliceParts(text, start, end, block, [text[..r.start], text[r.start + |start|..]]);
    PutPieces(text, start, r, block);
  }

  lemma OnceAfterPut(text: string, start: string, end: string, r: Region, block: string, m: string, i: nat)
    requires IsMarker(start) && IsMarker(end) && HasRegion(text, start, end, r)
    requires IsMarker(m) && Safe(block, m) && Once(text, m, i)
    ensures i + |m| <= r.start + |start| ==> Once(Put(text, start, r, block), m, i)
    ensures r.end <= i ==> Once(Put(text, start, r, block), m, i - r.end + PutEnd(start, r, block))
  {
    PutKeepsOutside(text, start, r, block, m, i);
    forall j | OccursAt(Put(text, start, r, block), m, j)
      ensures j == i || j == i - r.end + PutEnd(start, r, block)
      ensures i + |m| <= r.start + |start| ==> j == i
      ensures r.end <= i ==> j == i - r.end + PutEnd(start, r, block)
    {
      PutMarkers(text, start, end, r, block, m, j);
    }
  }

  // ---------- one pair of markers: exactly when a block can be overwritten ----------

  /** Reading the tail of a written block the way the next sync does: the part after the
      last start marker must hold an end marker and nothing but end markers after it. */
  predicate Absorbed(block: string, start: string, end: string)
    requires start != "" && end != ""
  {
    var parts := Split(Last(Split(INDENT + block + end, start)), end);
    |parts| > 1 && Join(parts[1..], "") == ""
  }

  /** No marker reaches from the written block and its end marker into the text behind. */
  lemma NothingStraddles(text: string, start: string, end: string, r: Region, block: string, m: string, j: nat)
    requires IsMarker(start) && IsMarker(end) && HasRegion(text, start, end, r) && m in {start, end}
    requires start != end
    requires OccursAt(INDENT + block + text[r.end..], m, j)
    ensures j + |m| <= |INDENT + block + end|
  {
    var u := INDENT + block;
    var t := u + text[r.end..];
    assert forall x :: |u| <= x < |t| ==> t[x] == text[x - |u| + r.end];
    assert t[|u|] == text[r.end] == '#';
    if |u| <= j {
      var i := j - |u| + r.end;
      assert forall x :: r.end <= x < |text| ==> text[x] == t[x - r.end + |u|];
      assert OccursAt(text, m, i);
    }
  }

  /** What the next sync cuts a written text into, at the start markers ... */
  lemma RereadStarts(text: string, start: string, end: string, r: Region, a: string)
    requires IsMarker(start) && IsMarker(end) && start != end && HasRegion(text, start, end, r)
    ensures var parts := Split(INDENT + a + end, start);
      Split(Put(text, start, r, a), start) ==
        [text[..r.start]] + (parts[..|parts| - 1] + [Last(parts) + text[r.end + |end|..]])
  {
    var before, post := text[..r.start], text[r.end + |end|..];
    var u := INDENT + a + end;
    PutAround(text, start, end, r, a);
    forall i | OccursAt(before + start + (u + post), start, i) ensures |before| <= i {
      NoEarlierStart(text, start, end, r, a, i);
    }
    SplitFirst(before, start, u + post);
    Behind(text, end, r, a);
    forall i | OccursAt(u + post, start, i) ensures i + |start| <= |u| {
      NothingStraddles(text, start, end, r, a, start, i);
    }
    SplitAppend(u, post, start);
  }

  lemma Behind(text: string, end: string, r: Region, a: string)
    requires OccursAt(text, end, r.end)
    ensures INDENT + a + text[r.end..] == INDENT + a + end + text[r.end + |end|..]
  {
    EndPieces(text, end, r.end);
    Assoc(INDENT + a, end, text[r.end + |end|..]);
  }

  lemma PutAround(text: string, start: string, end: string, r: Region, a: string)
    requires HasRegion(text, start, end, r)
    ensures Put(text, start, r, a) == text[..r.start] + start + (INDENT + a + end + text[r.end + |end|..])
  {
    PutPieces(text, start, r, a);
    EndPieces(text, end, r.end);
  }

  lemma NoEarlierStart(text: string, start: string, end: string, r: Region, a: string, i: nat)
    requires HasRegion(text, start, end, r) && OccursAt(Put(text, start, r, a), start, i)
    ensures r.start <= i
  {
    var put, left := Put(text, start, r, a), r.start + |start|;
    if i < r.start {
      assert text[0..left] == put[0..left];
      OccursInSlice(put, start, i, 0, left);
      OccursInSlice(text, start, i, 0, left);
    }
  }

  lemma NoEndStraddles(text: string, start: string, end: string, r: Region, a: string,
      p: string, t: string, i: nat)
    requires IsMarker(start) && IsMarker(end) && start != end && HasRegion(text, start, end, r)
    requires INDENT + a + end == p + t && OccursAt(t + text[r.end + |end|..], end, i)
    ensures i + |end| <= |t|
  {
    var post := text[r.end + |end|..];
    OccursInTail(p, t + post, end, i);
    Assoc(p, t, post);
    Behind(text, end, r, a);
    NothingStraddles(text, start, end, r, a, end, |p| + i);
  }

  /** ... and, in the last of these parts, at the end markers. */
  lemma RereadEnds(text: string, start: string, end: string, r: Region, a: string)
    requires IsMarker(start) && IsMarker(end) && start != end && HasRegion(text, start, end, r)
    ensures var t := Last(Split(INDENT + a + end, start));
            var tail := Split(t, end);
            var post := text[r.end + |end|..];
            Split(t + post, end) == tail[..|tail| - 1] + [Last(tail) + post]
  {
    var u, post := INDENT + a + end, text[r.end + |end|..];
    var t := Last(Split(u, start));
    var p := LastPart(u, start);
    forall i | OccursAt(t + post, end, i) ensures i + |end| <= |t| {
      NoEndStraddles(text, start, end, r, a, p, t, i);
    }
    SplitAppend(t, post, end);
  }

  lemma TailOfAppended(xs: seq<string>, p: string)
    requires |xs| > 1
    ensures (xs[..|xs| - 1] + [Last(xs) + p])[1..] == xs[1..][..|xs[1..]| - 1] + [Last(xs[1..]) + p]
  {
  }

  lemma KeepAppended(t: string, end: string, post: string)
    requires end != ""
    requires var tail := Split(t, end); Split(t + post, end) == tail[..|tail| - 1] + [Last(tail) + post]
    ensures var tail := Split(t, end);
      Keep(t + post, end) == (if |tail| > 1 then end + Join(tail[1..], "") else t) + post
  {
    var tail, full := Split(t, end), Split(t + post, end);
    if |tail| > 1 {
      TailOfAppended(tail, post);
      JoinAppend(tail[1..], post);
      JoinCons(end, full[1..]);
    }
  }

  lemma JoinCons(x: string, xs: seq<string>)
    ensures Join([x] + xs, "") == x + Join(xs, "")
  {
    assert ([x] + xs)[1..] == xs;
  }

  /** What of the earlier block `a` the next write keeps in place of the end marker. */
  function Kept(a: string, start: string, end: string): string
    requires start != "" && end != ""
  {
    var t := Last(Split(INDENT + a + end, start));
    var tail := Split(t, end);
    if |tail| > 1 then end + Join(tail[1..], "") else t
  }

  lemma Rewrite(text: string, start: string, end: string, r: Region, a: string, b: string)
    requires IsMarker(start) && IsMarker(end) && start != end && HasRegion(text, start, end, r)
    ensures Splice(Splice(text, start, end, a), start, end, b) ==
      text[..r.start] + (start + INDENT) + b + (Kept(a, start, end) + text[r.end + |end|..])
  {
    SpliceIsPut(text, start, end, r, a);
    RereadStarts(text, start, end, r, a);
    RereadEnds(text, start, end, r, a);
    var put := Put(text, start, r, a);
    SpliceParts(put, start, end, b, Split(put, start));
    KeepAppended(Last(Split(INDENT + a + end, start)), end, text[r.end + |end|..]);
  }

  lemma SpliceSpelled(text: string, start: string, end: string, r: Region, b: string)
    requires start != "" && end != "" && HasRegion(text, start, end, r)
    ensures Splice(text, start, end, b) ==
      text[..r.start] + (start + INDENT) + b + (end + text[r.end + |end|..])
  {
    SpliceIsPut(text, start, end, r, b);
    PutPieces(text, start, r, b);
    EndPieces(text, end, r.end);
  }

  /** The next write to the same region ignores an earlier one iff that one is absorbed. */
  lemma OverwriteExactly(text: string, start: string, end: string, r: Region, a: string, b: string)
    requires IsMarker(start) && IsMarker(end) && start != end && HasRegion(text, start, end, r)
    ensures Splice(Splice(text, start, end, a), start, end, b) == Splice(text, start, end, b)
      <==> Absorbed(a, start, end)
  {
    Rewrite(text, start, end, r, a, b);
    SpliceSpelled(text, start, end, r, b);
    Cancel(text[..r.start] + (start + INDENT) + b, Kept(a, start, end), end, text[r.end + |end|..]);
    KeptIsEnd(Last(Split(INDENT + a + end, start)), end);
  }

  lemma EndPieces(text: string, end: string, i: nat)
    requires OccursAt(text, end, i)
    ensures text[i..] == end + text[i + |end|..]
  {
    assert text[i..] == text[i..i + |end|] + text[i + |end|..];
  }

  lemma KeptIsEnd(t: string, end: string)
    requires end != ""
    ensures var tail := Split(t, end);
      (if |tail| > 1 then end + Join(tail[1..], "") else t) == end <==> |tail| > 1 && Join(tail[1..], "") == ""
  {
    assert OccursAt(end, end, 0);
    Cancel(end, Join(Split(t, end)[1..], ""), "", "");
  }

  lemma Cancel(x: string, y: string, y': string, z: string)
    ensures x + (y + z) == x + (y' + z) <==> y == y'
  {
    if x + (y + z) == x + (y' + z) {
      assert |y| == |y'|;
      assert y == (x + (y + z))[|x|..|x| + |y|] == y';
    }
  }

  // ---------- both pairs of markers ----------

  /** Block 1 and block 2 each have their region, in either order and apart. */
  ghost predicate HasRegions(text: string, m: Markers, n: Markers, p: Region, q: Region) {
    && HasRegion(text, m.start, m.end, p) && HasRegion(text, n.start, n.end, q)
    && (p.end + |m.end| <= q.start || q.end + |n.end| <= p.start)
  }

  ghost predicate WellFormed(text: string) {
    exists p, q :: HasRegions(text, MARKERS_1, MARKERS_2, p, q)
  }

  ghost predicate AreMarkers(m: Markers, n: Markers) {
    IsMarker(m.start) && IsMarker(m.end) && IsMarker(n.start) && IsMarker(n.end)
  }

  ghost predicate SafeFor(b: Blocks, m: Markers, n: Markers)
    requires AreMarkers(m, n)
  {
    && Safe(b.plain, m.start) && Safe(b.plain, m.end) && Safe(b.plain, n.start) && Safe(b.plain, n.end)
    && Safe(b.withImage, m.start) && Safe(b.withImage, m.end)
    && Safe(b.withImage, n.start) && Safe(b.withImage, n.end)
  }

  function SaveBetween(text: string, m: Markers, n: Markers, b: Blocks): string
    requires m.start != "" && m.end != "" && n.start != "" && n.end != ""
  {
    Splice(Splice(text, m.start, m.end, b.plain), n.start, n.end, b.withImage)
  }

  /** The text with `[i..j]` replaced by `x` and `[k..l]` by `y`. */
  function Fill(text: string, i: nat, j: nat, x: string, k: nat, l: nat, y: string): string
    requires i <= j <= k <= l <= |text|
  {
    text[..i] + x + text[j..k] + y + text[l..]
  }

  /** Both regions replaced, everything outside them as it was. */
  ghost function Filled(text: string, m: Markers, n: Markers, p: Region, q: Region, b: Blocks): string
    requires HasRegions(text, m, n, p, q)
  {
    var x, y := INDENT + b.plain, INDENT + b.withImage;
    if p.end + |m.end| <= q.start then
      Fill(text, p.start + |m.start|, p.end, x, q.start + |n.start|, q.end, y)
    else
      Fill(text, q.start + |n.start|, q.end, y, p.start + |m.start|, p.end, x)
  }

  function Later(q: Region, start: string, r: Region, block: string): Region
    requires r.end <= q.start && r.end <= q.end
  {
    Region(q.start - r.end + PutEnd(start, r, block), q.end - r.end + PutEnd(start, r, block))
  }

  lemma OwnRegion(text: string, start: string, end: string, r: Region, block: string)
    requires IsMarker(start) && IsMarker(end) && HasRegion(text, start, end, r)
    requires Safe(block, start) && Safe(block, end)
    ensures HasRegion(Put(text, start, r, block), start, end, Region(r.start, PutEnd(start, r, block)))
  {
    OnceAfterPut(text, start, end, r, block, start, r.start);
    OnceAfterPut(text, start, end, r, block, end, r.end);
  }

  lemma OtherRegion(text: string, start: string, end: string, r: Region, block: string,
      start': string, end': string, q: Region)
    requires IsMarker(start) && IsMarker(end) && HasRegion(text, start, end, r)
    requires IsMarker(start') && IsMarker(end') && HasRegion(text, start', end', q)
    requires Safe(block, start') && Safe(block, end')
    ensures q.end + |end'| <= r.start ==> HasRegion(Put(text, start, r, block), start', end', q)
    ensures r.end <= q.start ==> HasRegion(Put(text, start, r, block), start', end', Later(q, start, r, block))
  {
    OnceAfterPut(text, start, end, r, block, start', q.start);
    OnceAfterPut(text, start, end, r, block, end', q.end);
  }

  /** Two regions can be written in either order. */
  lemma PutFirst(text: string, s: string, f: Region, x: string, s': string, g: Region, y: string)
    requires f.start + |s| <= f.end <= g.start && g.start + |s'| <= g.end <= |text|
    ensures Put(Put(text, s, f, x), s', Later(g, s, f, x), y) ==
      Fill(text, f.start + |s|, f.end, INDENT + x, g.start + |s'|, g.end, INDENT + y)
  {
    var first, g' := Put(text, s, f, x), Later(g, s, f, x);
    assert first[..g'.start + |s'|] == text[..f.start + |s|] + (INDENT + x) + text[f.end..g.start + |s'|];
    assert first[g'.end..] == text[g.end..];
  }

  lemma PutSecond(text: string, s: string, f: Region, x: string, s': string, g: Region, y: string)
    requires f.start + |s| <= f.end <= g.start && g.start + |s'| <= g.end <= |text|
    ensures Put(Put(text, s', g, y), s, f, x) ==
      Fill(text, f.start + |s|, f.end, INDENT + x, g.start + |s'|, g.end, INDENT + y)
  {
    var second := Put(text, s', g, y);
    assert second[..f.start + |s|] == text[..f.start + |s|];
    assert second[f.end..] == text[f.end..g.start + |s'|] + (INDENT + y) + text[g.end..];
  }

  /** Where the regions stand after a sync. */
  ghost function SavedRegions(text: string, m: Markers, n: Markers, p: Region, q: Region, b: Blocks): (Region, Region)
    requires HasRegions(text, m, n, p, q)
  {
    var p', q' := Region(p.start, PutEnd(m.start, p, b.plain)), Region(q.start, PutEnd(n.start, q, b.withImage));
    if p.end + |m.end| <= q.start then (p', Later(q', m.start, p, b.plain)) else (Later(p', n.start, q, b.withImage), q')
  }

  /** The first of the two writes, and where both regions stand after it. */
  ghost function Middle(m: Markers, n: Markers, p: Region, q: Region, b: Blocks): (Region, Region)
    requires p.end <= q.start ==> q.start <= q.end
  {
    (Region(p.start, PutEnd(m.start, p, b.plain)), if p.end <= q.start then Later(q, m.start, p, b.plain) else q)
  }

  lemma AfterFirstWrite(text: string, m: Markers, n: Markers, p: Region, q: Region, b: Blocks)
    requires HasRegions(text, m, n, p, q) && AreMarkers(m, n) && SafeFor(b, m, n)
    ensures var once, mid := Put(text, m.start, p, b.plain), Middle(m, n, p, q, b);
      && HasRegion(once, m.start, m.end, mid.0) && HasRegion(once, n.start, n.end, mid.1)
      && SaveBetween(text, m, n, b) == Put(once, n.start, mid.1, b.withImage)
  {
    SpliceIsPut(text, m.start, m.end, p, b.plain);
    OwnRegion(text, m.start, m.end, p, b.plain);
    OtherRegion(text, m.start, m.end, p, b.plain, n.start, n.end, q);
    SpliceIsPut(Put(text, m.start, p, b.plain), n.start, n.end, Middle(m, n, p, q, b).1, b.withImage);
  }

  /** A sync replaces exactly the content of the two regions ... */
  lemma SaveFills(text: string, m: Markers, n: Markers, p: Region, q: Region, b: Blocks)
    requires HasRegions(text, m, n, p, q) && AreMarkers(m, n) && SafeFor(b, m, n)
    ensures SaveBetween(text, m, n, b) == Filled(text, m, n, p, q, b)
  {
    hide Put, Fill, Splice, SaveBetween, Safe, IsMarker;
    AfterFirstWrite(text, m, n, p, q, b);
    if p.end + |m.end| <= q.start {
      PutFirst(text, m.start, p, b.plain, n.start, q, b.withImage);
    } else {
      PutSecond(text, n.start, q, b.withImage, m.start, p, b.plain);
    }
  }

  /** ... and leaves both regions writable. */
  lemma SaveKeepsRegions(text: string, m: Markers, n: Markers, p: Region, q: Region, b: Blocks)
    requires HasRegions(text, m, n, p, q) && AreMarkers(m, n) && SafeFor(b, m, n)
    ensures var r := SavedRegions(text, m, n, p, q, b);
            HasRegions(SaveBetween(text, m, n, b), m, n, r.0, r.1)
  {
    hide Put, Splice, SaveBetween, Safe, IsMarker;
    AfterFirstWrite(text, m, n, p, q, b);
    var once, mid := Put(text, m.start, p, b.plain), Middle(m, n, p, q, b);
    OwnRegion(once, n.start, n.end, mid.1, b.withImage);
    OtherRegion(once, n.start, n.end, mid.1, b.withImage, m.start, m.end, mid.0);
  }

  /** The places `i..j` and `k..l`, after they are filled with `x` and `y`. */
  predicate IsFilledAt(i: nat, j: nat, x: string, k: nat, y: string, i': nat, j': nat, k': nat, l': nat) {
    j <= k && i' == i && j' == i + |x| && k' == j' + (k - j) && l' == k' + |y|
  }

  lemma FillAgain(text: string, i: nat, j: nat, x: string, k: nat, l: nat, y: string,
      i': nat, j': nat, x': string, k': nat, l': nat, y': string)
    requires i <= j <= k <= l <= |text| && IsFilledAt(i, j, x, k, y, i', j', k', l')
    ensures l' <= |Fill(text, i, j, x, k, l, y)|
    ensures Fill(Fill(text, i, j, x, k, l, y), i', j', x', k', l', y') == Fill(text, i, j, x', k, l, y')
  {
    var once := Fill(text, i, j, x, k, l, y);
    assert once[..i] == text[..i];
    assert once[j'..k'] == text[j..k];
    assert once[l'..] == text[l..];
  }

  lemma SaveAgain(text: string, m: Markers, n: Markers, p: Region, q: Region, a: Blocks, b: Blocks)
    requires HasRegions(text, m, n, p, q) && AreMarkers(m, n) && SafeFor(a, m, n) && SafeFor(b, m, n)
    ensures SaveBetween(SaveBetween(text, m, n, a), m, n, b) == SaveBetween(text, m, n, b)
  {
    var r := SavedRegions(text, m, n, p, q, a);
    SaveFills(text, m, n, p, q, a);
    SaveFills(text, m, n, p, q, b);
    SaveKeepsRegions(text, m, n, p, q, a);
    SaveFills(SaveBetween(text, m, n, a), m, n, r.0, r.1, b);
    FilledAgain(text, m, n, p, q, a, b);
  }

  lemma Bounds(text: string, m: Markers, n: Markers, p: Region, q: Region)
    requires HasRegions(text, m, n, p, q)
    ensures p.start + |m.start| <= p.end && p.end + |m.end| <= |text|
    ensures q.start + |n.start| <= q.end && q.end + |n.end| <= |text|
    ensures p.end + |m.end| <= q.start || q.end + |n.end| <= p.start
  {
  }

  lemma FilledAgain(text: string, m: Markers, n: Markers, p: Region, q: Region, a: Blocks, b: Blocks)
    requires HasRegions(text, m, n, p, q)
    requires var r := SavedRegions(text, m, n, p, q, a); HasRegions(Filled(text, m, n, p, q, a), m, n, r.0, r.1)
    ensures var r := SavedRegions(text, m, n, p, q, a);
            Filled(Filled(text, m, n, p, q, a), m, n, r.0, r.1, b) == Filled(text, m, n, p, q, b)
  {
    var r := SavedRegions(text, m, n, p, q, a);
    hide *;
    if p.end + |m.end| <= q.start {
      FilledAgainFirst(text, m, n, p, q, a, b, Filled(text, m, n, p, q, a), r.0, r.1);
    } else {
      FilledAgainSecond(text, m, n, p, q, a, b, Filled(text, m, n, p, q, a), r.0, r.1);
    }
  }

  lemma FilledFirst(text: string, m: Markers, n: Markers, p: Region, q: Region, b: Blocks)
    requires HasRegions(text, m, n, p, q) && p.end + |m.end| <= q.start
    ensures p.start + |m.start| <= p.end <= q.start + |n.start| <= q.end <= |text|
    ensures Filled(text, m, n, p, q, b) ==
      Fill(text, p.start + |m.start|, p.end, INDENT + b.plain, q.start + |n.start|, q.end, INDENT + b.withImage)
  {
    hide Fill;
  }

  lemma SavedPlacesFirst(text: string, m: Markers, n: Markers, p: Region, q: Region, b: Blocks)
    requires HasRegions(text, m, n, p, q) && p.end + |m.end| <= q.start
    ensures var r := SavedRegions(text, m, n, p, q, b);
      && IsFilledAt(p.start + |m.start|, p.end, INDENT + b.plain, q.start + |n.start|, INDENT + b.withImage,
           r.0.start + |m.start|, r.0.end, r.1.start + |n.start|, r.1.end)
      && r.0.end + |m.end| <= r.1.start
  {
    Bounds(text, m, n, p, q);
    hide HasRegions, HasRegion, Once, OccursAt;
  }

  lemma FilledAgainFirst(text: string, m: Markers, n: Markers, p: Region, q: Region, a: Blocks, b: Blocks,
      once: string, p2: Region, q2: Region)
    requires HasRegions(text, m, n, p, q) && p.end + |m.end| <= q.start
    requires (p2, q2) == SavedRegions(text, m, n, p, q, a) && once == Filled(text, m, n, p, q, a)
    requires HasRegions(once, m, n, p2, q2)
    ensures Filled(once, m, n, p2, q2, b) == Filled(text, m, n, p, q, b)
  {
    hide *;
    FilledFirst(text, m, n, p, q, a);
    FilledFirst(text, m, n, p, q, b);
    SavedPlacesFirst(text, m, n, p, q, a);
    FilledFirst(once, m, n, p2, q2, b);
    FillAgain(text, p.start + |m.start|, p.end, INDENT + a.plain, q.start + |n.start|, q.end, INDENT + a.withImage,
      p2.start + |m.start|, p2.end, INDENT + b.plain, q2.start + |n.start|, q2.end, INDENT + b.withImage);
  }

  lemma FilledSecond(text: string, m: Markers, n: Markers, p: Region, q: Region, b: Blocks)
    requires HasRegions(text, m, n, p, q) && p.end + |m.end| > q.start
    ensures q.start + |n.start| <= q.end <= p.start + |m.start| <= p.end <= |text|
    ensures Filled(text, m, n, p, q, b) ==
      Fill(text, q.start + |n.start|, q.end, INDENT + b.withImage, p.start + |m.start|, p.end, INDENT + b.plain)
  {
    hide Fill;
  }

  lemma SavedPlacesSecond(text: string, m: Markers, n: Markers, p: Region, q: Region, b: Blocks)
    requires HasRegions(text, m, n, p, q) && p.end + |m.end| > q.start
    ensures var r := SavedRegions(text, m, n, p, q, b);
      && IsFilledAt(q.start + |n.start|, q.end, INDENT + b.withImage, p.start + |m.start|, INDENT + b.plain,
           r.1.start + |n.start|, r.1.end, r.0.start + |m.start|, r.0.end)
      && r.0.end + |m.end| > r.1.start
  {
    Bounds(text, m, n, p, q);
    hide HasRegions, HasRegion, Once, OccursAt;
  }

  lemma FilledAgainSecond(text: string, m: Markers, n: Markers, p: Region, q: Region, a: Blocks, b: Blocks,
      once: string, p2: Region, q2: Region)
    requires HasRegions(text, m, n, p, q) && p.end + |m.end| > q.start
    requires (p2, q2) == SavedRegions(text, m, n, p, q, a) && once == Filled(text, m, n, p, q, a)
    requires HasRegions(once, m, n, p2, q2)
    ensures Filled(once, m, n, p2, q2, b) == Filled(text, m, n, p, q, b)
  {
    hide *;
    FilledSecond(text, m, n, p, q, a);
    FilledSecond(text, m, n, p, q, b);
    SavedPlacesSecond(text, m, n, p, q, a);
    FilledSecond(once, m, n, p2, q2, b);
    FillAgain(text, q.start + |n.start|, q.end, INDENT + a.withImage, p.start + |m.start|, p.end, INDENT + a.plain,
      q2.start + |n.start|, q2.end, INDENT + b.withImage, p2.start + |m.start|, p2.end, INDENT + b.plain);
  }

  /** The last sync wins: whatever safe blocks were written before leave no trace. */
  lemma LastSyncWins(text: string, a: Blocks, b: Blocks)
    requires WellFormed(text) && SafeBlocks(a) && SafeBlocks(b)
    ensures Save(Save(text, a), b) == Save(text, b)
    ensures WellFormed(Save(text, a))
  {
    var p, q :| HasRegions(text, MARKERS_1, MARKERS_2, p, q);
    MarkersAreMarkers();
    SaveAgain(text, MARKERS_1, MARKERS_2, p, q, a, b);
    SaveKeepsRegions(text, MARKERS_1, MARKERS_2, p, q, a);
  }

  /** What stands between the markers of a region. */
  function Content(text: string, start: string, r: Region): string
    requires r.start + |start| <= r.end <= |text|
  {
    text[r.start + |start|..r.end]
  }

  lemma FillSlices(text: string, i: nat, j: nat, x: string, k: nat, l: nat, y: string, i': nat, j': nat, k': nat, l': nat)
    requires i <= j <= k <= l <= |text| && IsFilledAt(i, j, x, k, y, i', j', k', l')
    ensures var filled := Fill(text, i, j, x, k, l, y);
      l' <= |filled| && filled[i'..j'] == x && filled[k'..l'] == y
  {
  }

  lemma FilledContentsFirst(text: string, m: Markers, n: Markers, p: Region, q: Region, b: Blocks)
    requires HasRegions(text, m, n, p, q) && p.end + |m.end| <= q.start
    ensures var s, r := Filled(text, m, n, p, q, b), SavedRegions(text, m, n, p, q, b);
      && r.0.start + |m.start| <= r.0.end <= |s| && Content(s, m.start, r.0) == INDENT + b.plain
      && r.1.start + |n.start| <= r.1.end <= |s| && Content(s, n.start, r.1) == INDENT + b.withImage
  {
    var r := SavedRegions(text, m, n, p, q, b);
    Bounds(text, m, n, p, q);
    hide Fill, Once, OccursAt;
    FillSlices(text, p.start + |m.start|, p.end, INDENT + b.plain, q.start + |n.start|, q.end, INDENT + b.withImage,
      r.0.start + |m.start|, r.0.end, r.1.start + |n.start|, r.1.end);
  }

  lemma FilledContentsSecond(text: string, m: Markers, n: Markers, p: Region, q: Region, b: Blocks)
    requires HasRegions(text, m, n, p, q) && p.end + |m.end| > q.start
    ensures var s, r := Filled(text, m, n, p, q, b), SavedRegions(text, m, n, p, q, b);
      && r.0.start + |m.start| <= r.0.end <= |s| && Content(s, m.start, r.0) == INDENT + b.plain
      && r.1.start + |n.start| <= r.1.end <= |s| && Content(s, n.start, r.1) == INDENT + b.withImage
  {
    var r := SavedRegions(text, m, n, p, q, b);
    Bounds(text, m, n, p, q);
    hide Fill, Once, OccursAt;
    FillSlices(text, q.start + |n.start|, q.end, INDENT + b.withImage, p.start + |m.start|, p.end, INDENT + b.plain,
      r.1.start + |n.start|, r.1.end, r.0.start + |m.start|, r.0.end);
  }

  /** After a sync the first block, and nothing else, stands between the first pair of markers,
      and the block with image patterns between the second. */
  lemma BlocksLand(text: string, b: Blocks) returns (p: Region, q: Region)
    requires WellFormed(text) && SafeBlocks(b)
    ensures var s := Save(text, b);
      && HasRegion(s, START_1, END_1, p) && Content(s, START_1, p) == "\n  " + b.plain
      && HasRegion(s, START_2, END_2, q) && Content(s, START_2, q) == "\n  " + b.withImage
  {
    var p0, q0 :| HasRegions(text, MARKERS_1, MARKERS_2, p0, q0);
    MarkersAreMarkers();
    var saved := SavedRegions(text, MARKERS_1, MARKERS_2, p0, q0, b);
    SaveFills(text, MARKERS_1, MARKERS_2, p0, q0, b);
    SaveKeepsRegions(text, MARKERS_1, MARKERS_2, p0, q0, b);
    if p0.end + |MARKERS_1.end| <= q0.start {
      FilledContentsFirst(text, MARKERS_1, MARKERS_2, p0, q0, b);
    } else {
      FilledContentsSecond(text, MARKERS_1, MARKERS_2, p0, q0, b);
    }
    hide SaveBetween, Filled, SavedRegions, HasRegion, Content;
    p, q := saved.0, saved.1;
  }

  /** Without a start marker nothing is replaced: the marker and the block are appended, and the
      block once more, less what stands before its first end marker. */
  lemma WithoutStart(text: string, start: string, end: string, block: string)
    requires start != "" && end != "" && !Contains(text, start)
    ensures Splice(text, start, end, block) == text + (start + INDENT) + block + Keep(block, end)
    ensures !Contains(block, end) ==> Splice(text, start, end, block) == text + (start + INDENT) + block + block
  {
    assert IndexOf(text, start) == -1;
    assert Last([text, block]) == block;
    if !Contains(block, end) {
      assert IndexOf(block, end) == -1;
    }
  }

  function SaveAll(text: string, syncs: seq<Blocks>): string
    decreases |syncs|
  {
    if syncs == [] then text else SaveAll(Save(text, syncs[0]), syncs[1..])
  }

  /** Any number of syncs leaves the text the last one alone would have left. */
  lemma {:induction false} RunOfSyncs(text: string, syncs: seq<Blocks>)
    requires WellFormed(text) && syncs != [] && forall b :: b in syncs ==> SafeBlocks(b)
    ensures SaveAll(text, syncs) == Save(text, Last(syncs)) && WellFormed(SaveAll(text, syncs))
    decreases |syncs|
  {
    LastSyncWins(text, syncs[0], Last(syncs));
    if |syncs| > 1 {
      RunOfSyncs(Save(text, syncs[0]), syncs[1..]);
    } else {
      assert SaveAll(text, syncs) == SaveAll(Save(text, syncs[0]), []);
    }
  }
}
