/** Two exceptions that print more than they should: one whose title holds a marker, and one
    whose pattern is blank. */
module ExceptionBlockFlaws {
  import opened Wrappers
  import opened Shared
  import opened Text
  import opened RegoSplice
  import opened ExceptionBlocks
  import opened ExceptionBlockLaws

  // ---------- a title that breaks the template ----------

  lemma {:induction false} SplitKeepsChar(s: string, sep: string, c: char)
    requires sep != "" && c in s && c !in sep
    ensures c in Join(Split(s, sep), "")
    decreases |s|
  {
    var i := IndexOf(s, sep);
    if i != -1 {
      var rest := s[i + |sep|..];
      JoinCons(s[..i], Split(rest, sep));
      if c !in s[..i] {
        OccursCuts(s, sep, i);
        SplitKeepsChar(rest, sep, c);
      }
    }
  }

  /** What the next sync reads back has no start marker. */
  lemma NoStartInReread(e: Entry)
    requires MarkerFree(e, START_1) && e.namespaces != [] && e.imageMatch.Some?
    ensures !Contains(INDENT + PlainText(e) + END_1, START_1)
  {
    ExceptionMarkers();
    EntryIsHarmless(e, START_1);
    var m, text := START_1, PlainText(e);
    assert BlockOf(e).value.plain == text;
    StartsWithHash(e);
    hide PlainText, IsExceptionMarker;
    forall j | OccursAt(INDENT + text + END_1, m, j) ensures false {
      MarkerInReread(text, m, j);
    }
  }

  lemma MarkerInReread(text: string, m: string, j: int)
    requires m == START_1 && text != "" && text[|text| - 1] == ' '
    requires OccursAt(INDENT + text + END_1, m, j)
    ensures Contains(text, m)
  {
    ExceptionMarkers();
    var s := INDENT + text;
    assert |m| > |END_1|;
    OccursInConcat(s, END_1, m, j);
    assert s[|s| - 1] == ' ' && END_1[0] == '#';
    assert OccursAt(s, m, j);
    assert s[j] == '#' && s[0] != '#' && s[1] != '#' && s[2] != '#';
    OccursInTail(INDENT, text, m, j - |INDENT|);
  }

  /** A title that holds the end marker: the next sync does not get rid of the block. */
  lemma EndMarkerInTitle(e: Entry)
    requires MarkerFree(e, START_1) && e.namespaces != [] && e.imageMatch.Some? && Contains(e.title, END_1)
    ensures !Absorbed(PlainText(e), START_1, END_1)
  {
    var u := INDENT + PlainText(e) + END_1;
    NoStartInReread(e);
    assert IndexOf(u, START_1) == -1;
    var i := BeforeTheBreak(e);
    var rest := u[i + |END_1|..];
    EndsAreMarkers();
    SplitKeepsChar(rest, END_1, '\n');
    assert Split(u, END_1)[1..] == Split(rest, END_1);
  }

  /** The first of several markers ends before anything that follows one of them. */
  lemma FirstMarker(head: string, tail: string, m: string, t: int, c: char) returns (i: nat)
    requires m != "" && OccursAt(head, m, t) && c in tail
    ensures i == IndexOf(head + tail, m) && i + |m| <= |head + tail| && c in (head + tail)[i + |m|..]
  {
    var u := head + tail;
    assert u[0..|head|] == head;
    OccursInSlice(u, m, t, 0, |head|);
    i := IndexOf(u, m);
    var k :| 0 <= k < |tail| && tail[k] == c;
    assert u[i + |m|..][|head| + k - (i + |m|)] == c;
  }

  /** The first end marker is in the first line, which other text follows. */
  lemma BeforeTheBreak(e: Entry) returns (i: nat)
    requires Contains(e.title, END_1)
    ensures var u := INDENT + PlainText(e) + END_1;
      i == IndexOf(u, END_1) && i + |END_1| <= |u| && '\n' in u[i + |END_1|..]
  {
    HeadCuts(e);
    hide NamespaceRego, PlainText, Header, BeforeTitle, IndexOf;
    var tail := " #" + ("\n " + NamespaceRego(e.namespaces) + "\n  ") + END_1;
    var t :| OccursAt(e.title, END_1, t);
    OccursInTail(INDENT + BeforeTitle(e.id), e.title, END_1, t);
    assert tail[2] == '\n';
    i := FirstMarker(INDENT + BeforeTitle(e.id) + e.title, tail, END_1, |INDENT + BeforeTitle(e.id)| + t, '\n');
  }

  lemma HeadCuts(e: Entry)
    ensures var body := "\n " + NamespaceRego(e.namespaces) + "\n  ";
      INDENT + PlainText(e) + END_1 == INDENT + BeforeTitle(e.id) + e.title + (" #" + body + END_1)
  {
    HeaderParts(e);
    hide NamespaceRego, Header, BeforeTitle;
  }

  const BREAKING := Entry(1, END_1, Some("%"), ["default"])

  lemma BreakingPrints()
    ensures TemplateBlocks([BREAKING]).Ok? && TemplateBlocks([BREAKING]).value.plain == PlainText(BREAKING)
  {
    BlocksOfOne(BREAKING);
    StartsWithHash(BREAKING);
    hide PlainText, ImageText, BlocksOf;
  }

  /** Such an exception exists, and no template that it was printed into recovers. */
  lemma ATitleBreaksTheTemplate(text: string, r: Region, next: string)
    requires HasRegion(text, START_1, END_1, r)
    ensures TemplateBlocks([BREAKING]).Ok?
    ensures var block := TemplateBlocks([BREAKING]).value.plain;
      && !Absorbed(block, START_1, END_1)
      && Splice(Splice(text, START_1, END_1, block), START_1, END_1, next) != Splice(text, START_1, END_1, next)
  {
    MarkersAreMarkers();
    assert OccursAt(END_1, END_1, 0);
    assert !Contains(END_1, START_1);
    EndMarkerInTitle(BREAKING);
    BreakingPrints();
    hide *;
    OverwriteExactly(text, START_1, END_1, r, PlainText(BREAKING), next);
  }

  // ---------- a pattern that excuses every image ----------

  predicate BlankAt(s: string, k: nat)
    requires k < |s|
  {
    s[k] == '%' || (s[k] == ' ' && (k == |s| - 1 || s[k + 1] == '%'))
  }

  /** Percent signs, and blanks that are last or followed by one. */
  predicate BlankPattern(imageMatch: string) {
    forall k :: 0 <= k < |imageMatch| ==> BlankAt(imageMatch, k)
  }

  lemma {:induction false} PartsAreBlank(s: string)
    ensures (forall part :: part in Split(s, "%") ==> part in ["", " "]) <==> BlankPattern(s)
    decreases |s|
  {
    var i := IndexOf(s, "%");
    forall k | 0 <= k < |s| && s[k] == '%' ensures 0 <= i <= k {
      assert OccursAt(s, "%", k);
    }
    if i == -1 {
      assert forall part :: part in Split(s, "%") <==> part == s;
      OnePartIsBlank(s);
    } else {
      PartsAreBlank(s[i + 1..]);
      assert forall part :: part in Split(s, "%") <==> part == s[..i] || part in Split(s[i + 1..], "%");
      assert s[i] == '%';
      FirstIsBlank(s, i);
    }
  }

  lemma OnePartIsBlank(s: string)
    requires '%' !in s
    ensures BlankPattern(s) <==> s in ["", " "]
  {
    if |s| >= 2 {
      assert s[0] in s && s[1] in s;
      assert !BlankAt(s, 0);
    } else if |s| == 1 {
      assert s[0] in s && s == [s[0]];
      assert BlankPattern(s) <==> BlankAt(s, 0);
    }
  }

  lemma FirstIsBlank(s: string, i: nat)
    requires i < |s| && s[i] == '%' && forall k :: 0 <= k < i ==> s[k] != '%'
    ensures BlankPattern(s) <==> s[..i] in ["", " "] && BlankPattern(s[i + 1..])
  {
    var rest := s[i + 1..];
    forall k | 0 <= k < |rest| ensures BlankAt(rest, k) <==> BlankAt(s, i + 1 + k) {
      assert rest[k] == s[i + 1 + k];
      assert k + 1 < |rest| ==> rest[k + 1] == s[i + 2 + k];
    }
    if BlankPattern(s) {
      assert i > 0 ==> BlankAt(s, 0);
      assert i == 1 ==> s[..1] == " ";
    }
    if s[..i] in ["", " "] && BlankPattern(rest) {
      assert i == 1 ==> s[..i][0] == s[0];
      forall k | 0 <= k < |s| ensures BlankAt(s, k) {
        assert k > i ==> BlankAt(rest, k - i - 1);
      }
    }
  }

  lemma {:induction false} JoinIsEmpty(parts: seq<string>)
    ensures Join(parts, "") == "" <==> forall part :: part in parts ==> part == ""
  {
    if parts != [] {
      JoinIsEmpty(parts[1..]);
      JoinCons(parts[0], parts[1..]);
      assert parts == [parts[0]] + parts[1..];
      var rest := Join(parts[1..], "");
      hide Join;
      assert |Join(parts, "")| == |parts[0]| + |rest|;
      assert parts[0] in parts && forall part :: part in parts <==> part == parts[0] || part in parts[1..];
    }
  }

  /** An exception with a namespace prints the line that excuses every image of every namespace
      exactly when its pattern is blank. */
  lemma AnyImageExactly(e: Entry)
    requires e.namespaces != [] && e.imageMatch.Some?
    ensures BlockOf(e).value.withImage == Header(e) + ("\n " + ANY_IMAGE + "\n  ") <==> BlankPattern(e.imageMatch.value)
    ensures ImagePattern(e.imageMatch.value) == "" <==> BlankPattern(e.imageMatch.value)
  {
    var parts := Split(e.imageMatch.value, "%");
    var kept := Filter(parts, part => part !in ["", " "]);
    JoinIsEmpty(kept);
    PartsAreBlank(e.imageMatch.value);
    assert "" !in kept;
    var pattern := ImagePattern(e.imageMatch.value);
    hide Header, ImagePattern, BlankPattern;
    if pattern != "" {
      ImageIsNotAny(e.namespaces, pattern);
      var image := ImageRego(e.namespaces, pattern);
      BodyCuts(e, image, "");
      BodyCuts(e, ANY_IMAGE, "");
      if Header(e) + ("\n " + image + "\n  ") == Header(e) + ("\n " + ANY_IMAGE + "\n  ") {
        Cancel(Header(e), "\n " + image + "\n  ", "\n " + ANY_IMAGE + "\n  ", "");
        Cancel("\n ", image, ANY_IMAGE, "\n  ");
      }
    }
  }

  lemma ImageIsNotAny(names: seq<string>, pattern: string)
    requires names != []
    ensures ImageRego(names, pattern) != ANY_IMAGE
  {
    assert ImageRego(names, pattern)[2] == IMAGE_OPEN[2] == 'p';
    assert ANY_IMAGE[2] == 't';
  }
}
