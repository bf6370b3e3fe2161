/** What the printed exception text means: it can be read back, it names only namespaces of
    the cluster, and it can be written into a template again and again. */
module ExceptionBlockLaws {
  import opened Wrappers
  import opened Text
  import opened Shared
  import opened RegoSplice
  import opened ExceptionBlocks

  // ---------- reading the text back ----------

  datatype Printed = Printed(id: nat, title: string, namespaces: seq<string>)

  function StripPrefix(p: string, s: string): Option<string> {
    if |p| <= |s| && s[..|p|] == p then Some(s[|p|..]) else None
  }

  /** The text before and after the first `c`. */
  function Until(s: string, c: char): Option<(string, string)> {
    if s == "" then None
    else if s[0] == c then Some(("", s[1..]))
    else
      var (before, after) :- Until(s[1..], c);
      Some(([s[0]] + before, after))
  }

  function ParseDecimal(s: string): Option<nat> {
    if s == "" || !('0' <= s[|s| - 1] <= '9') then None
    else
      var digit: nat := s[|s| - 1] as int - '0' as int;
      if |s| == 1 then Some(digit)
      else
        var tens :- ParseDecimal(s[..|s| - 1]);
        Some(10 * tens + digit)
  }

  function ParseNames(s: string): Option<(seq<string>, string)>
    decreases |s|
  {
    match StripPrefix(NS_OPEN, s)
    case None => Some(([], s))
    case Some(quoted) =>
      var (name, after) :- Until(quoted, '"');
      var rest :- StripPrefix(NS_CLOSE, after);
      if |rest| >= |s| then None
      else
        var (names, end) :- ParseNames(rest);
        Some(([name] + names, end))
  }

  /** The number and title of an exception, and the text behind. */
  function ParseHeader(s: string): Option<(nat, string, string)> {
    var s1 :- StripPrefix("# Exception ", s);
    var (digits, s2) :- Until(s1, ' ');
    var id :- ParseDecimal(digits);
    var s3 :- StripPrefix("- ", s2);
    var (line, s4) :- Until(s3, '\n');
    if !EndsWith(line, " #") then None
    else
      var s5 :- StripPrefix(" ", s4);
      Some((id, line[..|line| - 2], s5))
  }

  function ParseEntry(s: string): Option<(Printed, string)> {
    var (id, title, t) :- ParseHeader(s);
    var (names, end) :- ParseNames(t);
    var rest :- StripPrefix("\n  ", end);
    Some((Printed(id, title, names), rest))
  }

  function ParseEntries(s: string): Option<seq<Printed>>
    decreases |s|
  {
    if s == "" then Some([])
    else
      var (first, rest) :- ParseEntry(s);
      if |rest| >= |s| then None
      else
        var others :- ParseEntries(rest);
        Some([first] + others)
  }

  function ParseTemplateBlock(s: string): Option<seq<Printed>> {
    if s == PLAIN_FALLBACK then Some([]) else ParseEntries(s)
  }

  /** Titles and names that do not end their own line or quotation. */
  predicate Readable(e: Entry) {
    '\n' !in e.title && forall n :: n in e.namespaces ==> '"' !in n
  }

  /** The exceptions that contribute a namespace, in order. */
  function Contributions(es: seq<Entry>): seq<Printed> {
    if es == [] then []
    else
      (if es[0].namespaces == [] then [] else [Printed(es[0].id, es[0].title, es[0].namespaces)]) +
      Contributions(es[1..])
  }

  lemma StripOwnPrefix(p: string, s: string)
    ensures StripPrefix(p, p + s) == Some(s)
  {
  }

  lemma StripOtherStart(p: string, s: string)
    requires p != "" && s != "" && p[0] != s[0]
    ensures StripPrefix(p, s) == None
  {
    assert |p| <= |s| ==> s[..|p|][0] == s[0];
  }

  lemma {:induction false} UntilFirst(a: string, c: char, b: string)
    requires c !in a
    ensures Until(a + ([c] + b), c) == Some((a, b))
  {
    var s := a + ([c] + b);
    if a == "" {
      assert s == [c] + b && s[1..] == b;
    } else {
      UntilFirst(a[1..], c, b);
      assert s[0] == a[0] && a[0] in a && s[1..] == a[1..] + ([c] + b);
      assert [a[0]] + a[1..] == a;
    }
  }

  lemma {:induction false} ParseOwnDecimal(n: nat)
    ensures ParseDecimal(Decimal(n)) == Some(n) && ' ' !in Decimal(n)
  {
    var s, c := Decimal(n), ('0' as int + n % 10) as char;
    assert s[|s| - 1] == c && c as int - '0' as int == n % 10;
    if n >= 10 {
      ParseOwnDecimal(n / 10);
      assert s[..|s| - 1] == Decimal(n / 10);
    }
  }

  lemma {:induction false} ParseOwnNames(names: seq<string>, rest: string)
    requires forall n :: n in names ==> '"' !in n
    requires StripPrefix(NS_OPEN, rest) == None
    ensures ParseNames(NamespaceRego(names) + rest) == Some((names, rest))
  {
    if names == [] {
      assert "" + rest == rest;
    } else {
      var tail := NamespaceRego(names[1..]) + rest;
      ParseOwnNames(names[1..], rest);
      ParseOwnName(names[0], tail);
      Assoc(NamespaceLine(names[0]), NamespaceRego(names[1..]), rest);
      assert [names[0]] + names[1..] == names;
    }
  }

  lemma ParseOwnName(name: string, tail: string)
    requires '"' !in name
    ensures var quoted := name + (['"'] + (NS_CLOSE + tail));
      && StripPrefix(NS_OPEN, NamespaceLine(name) + tail) == Some(quoted)
      && Until(quoted, '"') == Some((name, NS_CLOSE + tail))
      && StripPrefix(NS_CLOSE, NS_CLOSE + tail) == Some(tail)
      && |tail| < |NamespaceLine(name) + tail|
  {
    Assoc(NS_OPEN, name + ("\"" + NS_CLOSE), tail);
    Assoc(name, "\"" + NS_CLOSE, tail);
    Assoc("\"", NS_CLOSE, tail);
    StripOwnPrefix(NS_OPEN, name + (['"'] + (NS_CLOSE + tail)));
    UntilFirst(name, '"', NS_CLOSE + tail);
    StripOwnPrefix(NS_CLOSE, tail);
  }

  lemma HeaderCuts(e: Entry, t: string)
    ensures Header(e) + ("\n " + t) ==
      "# Exception " + (Decimal(e.id) + ([' '] + ("- " + ((e.title + " #") + (['\n'] + (" " + t))))))
  {
    hide Decimal;
    var line, tail := e.title + " #", ['\n'] + (" " + t);
    assert "\n " + t == tail;
    Assoc("# Exception ", Decimal(e.id) + ([' '] + ("- " + line)), tail);
    Assoc(Decimal(e.id), [' '] + ("- " + line), tail);
    Assoc([' '], "- " + line, tail);
    Assoc("- ", line, tail);
  }

  lemma ParseOwnHeader(e: Entry, t: string)
    requires '\n' !in e.title
    ensures ParseHeader(Header(e) + ("\n " + t)) == Some((e.id, e.title, t))
  {
    HeaderCuts(e, t);
    hide Decimal, ParseDecimal, Until;
    var line := e.title + " #";
    var s3 := line + (['\n'] + (" " + t));
    StripOwnPrefix("# Exception ", Decimal(e.id) + ([' '] + ("- " + s3)));
    ParseOwnDecimal(e.id);
    UntilFirst(Decimal(e.id), ' ', "- " + s3);
    StripOwnPrefix("- ", s3);
    UntilFirst(line, '\n', " " + t);
    assert line[|line| - 2..] == " #" && line[..|line| - 2] == e.title;
    StripOwnPrefix(" ", t);
  }

  /** The text of one exception, cut behind its header. */
  lemma BodyCuts(e: Entry, body: string, rest: string)
    ensures Header(e) + ("\n " + body + "\n  ") + rest == Header(e) + ("\n " + (body + ("\n  " + rest)))
  {
    Assoc(Header(e), "\n " + body + "\n  ", rest);
    Assoc("\n " + body, "\n  ", rest);
    Assoc("\n ", body, "\n  " + rest);
  }

  lemma ParseOwnEntry(e: Entry, rest: string)
    requires Readable(e)
    ensures ParseEntry(PlainText(e) + rest) == Some((Printed(e.id, e.title, e.namespaces), rest))
    ensures |rest| < |PlainText(e) + rest|
  {
    var names := NamespaceRego(e.namespaces);
    BodyCuts(e, names, rest);
    ParseOwnHeader(e, names + ("\n  " + rest));
    hide Header, ParseHeader, NamespaceRego, ParseNames;
    StripOtherStart(NS_OPEN, "\n  " + rest);
    ParseOwnNames(e.namespaces, "\n  " + rest);
    StripOwnPrefix("\n  ", rest);
  }

  lemma {:induction false} ParseOwnEntries(es: seq<Entry>)
    requires BlocksOf(es).Ok? && forall e :: e in es ==> Readable(e)
    ensures ParseEntries(BlocksOf(es).value.plain) == Some(Contributions(es))
    ensures Contributions(es) == [] <==> BlocksOf(es).value.plain == ""
    ensures Contributions(es) != [] ==> BlocksOf(es).value.plain[0] == '#'
  {
    if es != [] {
      ParseOwnEntries(es[1..]);
      var rest := BlocksOf(es[1..]).value.plain;
      if es[0].namespaces == [] {
        assert "" + rest == rest;
        assert [] + Contributions(es[1..]) == Contributions(es[1..]);
      } else {
        ParseOwnEntry(es[0], rest);
        hide ParseEntry;
        StartsWithHash(es[0]);
      }
    }
  }

  lemma StartsWithHash(e: Entry)
    ensures PlainText(e) != "" && PlainText(e)[0] == '#'
  {
  }

  /** The block written into a template reads back as the exceptions that contribute a
      namespace, in order, each with its namespaces. */
  lemma TemplateBlockReadsBack(es: seq<Entry>)
    requires TemplateBlocks(es).Ok? && forall e :: e in es ==> Readable(e)
    ensures ParseTemplateBlock(TemplateBlocks(es).value.plain) == Some(Contributions(es))
  {
    ParseOwnEntries(es);
  }

  // ---------- reading the block with image patterns back ----------

  /** An exception with the image pattern for each namespace; none at all excuses every
      image of every namespace. */
  datatype PrintedImages = PrintedImages(id: nat, title: string, images: seq<(string, string)>)

  function ParseImageLine(quoted: string): Option<(string, string, string)> {
    var (name, s1) :- Until(quoted, '"');
    var s2 :- StripPrefix(IMAGE_MIDDLE, s1);
    var (pattern, s3) :- Until(s2, '"');
    var rest :- StripPrefix(IMAGE_CLOSE, s3);
    Some((name, pattern, rest))
  }

  function ParseImages(s: string): Option<(seq<(string, string)>, string)>
    decreases |s|
  {
    match StripPrefix(IMAGE_OPEN, s)
    case None => Some(([], s))
    case Some(quoted) =>
      var (name, pattern, rest) :- ParseImageLine(quoted);
      if |rest| >= |s| then None
      else
        var (images, end) :- ParseImages(rest);
        Some(([(name, pattern)] + images, end))
  }

  function ParseImageEntry(s: string): Option<(PrintedImages, string)> {
    var (id, title, t) :- ParseHeader(s);
    var any := StripPrefix(ANY_IMAGE, t);
    var (images, end) :- if any.Some? then Some(([], any.value)) else ParseImages(t);
    var rest :- StripPrefix("\n  ", end);
    Some((PrintedImages(id, title, images), rest))
  }

  function ParseImageEntries(s: string): Option<seq<PrintedImages>>
    decreases |s|
  {
    if s == "" then Some([])
    else
      var (first, rest) :- ParseImageEntry(s);
      if |rest| >= |s| then None
      else
        var others :- ParseImageEntries(rest);
        Some([first] + others)
  }

  function ParseImageBlock(s: string): Option<seq<PrintedImages>> {
    if s == IMAGE_FALLBACK then Some([]) else ParseImageEntries(s)
  }

  function Pairs(names: seq<string>, pattern: string): seq<(string, string)> {
    if names == [] then [] else [(names[0], pattern)] + Pairs(names[1..], pattern)
  }

  function ImagesOf(e: Entry): PrintedImages
    requires e.imageMatch.Some?
  {
    var pattern := ImagePattern(e.imageMatch.value);
    PrintedImages(e.id, e.title, if pattern == "" then [] else Pairs(e.namespaces, pattern))
  }

  /** The exceptions that contribute a namespace, in order, with their patterns. */
  function ImageContributions(es: seq<Entry>): seq<PrintedImages>
    requires BlocksOf(es).Ok?
  {
    if es == [] then []
    else (if es[0].namespaces == [] then [] else [ImagesOf(es[0])]) + ImageContributions(es[1..])
  }

  predicate ImageReadable(e: Entry) {
    Readable(e) && (e.imageMatch.Some? ==> '"' !in e.imageMatch.value)
  }

  lemma ParseOwnImageLine(name: string, pattern: string, tail: string)
    requires '"' !in name && '"' !in pattern
    ensures var quoted := name + (['"'] + (IMAGE_MIDDLE + (pattern + (['"'] + (IMAGE_CLOSE + tail)))));
      && StripPrefix(IMAGE_OPEN, ImageLine(name, pattern) + tail) == Some(quoted)
      && ParseImageLine(quoted) == Some((name, pattern, tail))
      && |tail| < |ImageLine(name, pattern) + tail|
  {
    var s3 := "\"" + IMAGE_CLOSE;
    var s2 := IMAGE_MIDDLE + (pattern + s3);
    Assoc(IMAGE_OPEN, name + ("\"" + s2), tail);
    Assoc(name, "\"" + s2, tail);
    Assoc("\"", s2, tail);
    Assoc(IMAGE_MIDDLE, pattern + s3, tail);
    Assoc(pattern, s3, tail);
    Assoc("\"", IMAGE_CLOSE, tail);
    hide Until;
    var t3 := IMAGE_CLOSE + tail;
    var t2 := IMAGE_MIDDLE + (pattern + (['"'] + t3));
    StripOwnPrefix(IMAGE_OPEN, name + (['"'] + t2));
    UntilFirst(name, '"', t2);
    StripOwnPrefix(IMAGE_MIDDLE, pattern + (['"'] + t3));
    UntilFirst(pattern, '"', t3);
    StripOwnPrefix(IMAGE_CLOSE, tail);
  }

  lemma {:induction false} ParseOwnImages(names: seq<string>, pattern: string, rest: string)
    requires '"' !in pattern && forall n :: n in names ==> '"' !in n
    requires StripPrefix(IMAGE_OPEN, rest) == None
    ensures ParseImages(ImageRego(names, pattern) + rest) == Some((Pairs(names, pattern), rest))
  {
    hide ParseImageLine, ImageLine;
    if names == [] {
      assert "" + rest == rest;
    } else {
      var tail := ImageRego(names[1..], pattern) + rest;
      ParseOwnImages(names[1..], pattern, rest);
      ParseOwnImageLine(names[0], pattern, tail);
      Assoc(ImageLine(names[0], pattern), ImageRego(names[1..], pattern), rest);
    }
  }

  lemma NotAnyImage(names: seq<string>, pattern: string, rest: string)
    requires names != []
    ensures StripPrefix(ANY_IMAGE, ImageRego(names, pattern) + rest) == None
  {
    var s := ImageRego(names, pattern) + rest;
    assert s[2] == IMAGE_OPEN[2] == 'p';
    assert |ANY_IMAGE| <= |s| ==> s[..|ANY_IMAGE|][2] == s[2];
  }

  lemma ParseOwnImageEntry(e: Entry, rest: string)
    requires ImageReadable(e) && e.imageMatch.Some? && e.namespaces != []
    ensures var text := ImageText(e, ImagePattern(e.imageMatch.value)) + rest;
      ParseImageEntry(text) == Some((ImagesOf(e), rest)) && |rest| < |text|
  {
    var pattern := ImagePattern(e.imageMatch.value);
    PatternIn(e.imageMatch.value, '"');
    hide ImagePattern, Header, ParseHeader, ImageRego, ParseImages;
    var body := if pattern == "" then ANY_IMAGE else ImageRego(e.namespaces, pattern);
    BodyCuts(e, body, rest);
    ParseOwnHeader(e, body + ("\n  " + rest));
    StripOwnPrefix("\n  ", rest);
    if pattern == "" {
      StripOwnPrefix(ANY_IMAGE, "\n  " + rest);
    } else {
      NotAnyImage(e.namespaces, pattern, "\n  " + rest);
      StripOtherStart(IMAGE_OPEN, "\n  " + rest);
      ParseOwnImages(e.namespaces, pattern, "\n  " + rest);
    }
  }

  lemma {:induction false} ParseOwnImageEntries(es: seq<Entry>)
    requires BlocksOf(es).Ok? && forall e :: e in es ==> ImageReadable(e)
    ensures ParseImageEntries(BlocksOf(es).value.withImage) == Some(ImageContributions(es))
    ensures BlocksOf(es).value.withImage != "" ==> BlocksOf(es).value.withImage[0] == '#'
  {
    if es != [] {
      ParseOwnImageEntries(es[1..]);
      var rest := BlocksOf(es[1..]).value.withImage;
      if es[0].namespaces == [] {
        assert "" + rest == rest;
        assert [] + ImageContributions(es[1..]) == ImageContributions(es[1..]);
      } else {
        ParseOwnImageEntry(es[0], rest);
        hide ParseImageEntry, ImagePattern, ImagesOf;
        ImageStartsWithHash(es[0], ImagePattern(es[0].imageMatch.value));
      }
    }
  }

  lemma ImageStartsWithHash(e: Entry, pattern: string)
    ensures ImageText(e, pattern) != "" && ImageText(e, pattern)[0] == '#'
  {
  }

  /** The other block of a template reads back as the same exceptions, each namespace with
      the exception's pattern. An exception without a pattern reads back without its
      namespaces: what is printed for it excuses every image of every namespace. */
  lemma ImageBlockReadsBack(es: seq<Entry>)
    requires TemplateBlocks(es).Ok? && forall e :: e in es ==> ImageReadable(e)
    ensures ParseImageBlock(TemplateBlocks(es).value.withImage) == Some(ImageContributions(es))
  {
    ParseOwnImageEntries(es);
  }

  /** Printing fails exactly when an exception with a namespace has no image pattern. */
  lemma {:induction false} PrintingFails(es: seq<Entry>)
    ensures TemplateBlocks(es).Err? <==> exists e :: e in es && e.namespaces != [] && e.imageMatch.None?
  {
    if es != [] {
      PrintingFails(es[1..]);
      assert es == [es[0]] + es[1..];
    }
  }

  /** The image block is empty with the plain one. */
  lemma {:induction false} BothEmpty(es: seq<Entry>)
    requires BlocksOf(es).Ok?
    ensures BlocksOf(es).value.plain == "" <==> Contributions(es) == []
    ensures BlocksOf(es).value.withImage == "" <==> Contributions(es) == []
    ensures Contributions(es) != [] ==> BlocksOf(es).value.plain[0] == '#' == BlocksOf(es).value.withImage[0]
  {
    if es != [] {
      BothEmpty(es[1..]);
    }
  }

  /** Both blocks take their fallback together, exactly when no exception contributes. */
  lemma FallbackTogether(es: seq<Entry>)
    requires TemplateBlocks(es).Ok?
    ensures TemplateBlocks(es).value.plain == " true,\n  " <==> Contributions(es) == []
    ensures TemplateBlocks(es).value.withImage == " {true, true},\n  " <==> Contributions(es) == []
  {
    BothEmpty(es);
  }

  /** Whatever an exception of all clusters prints in this cluster, this cluster has. */
  lemma {:induction false} CommonNamespacesExist(es: seq<Entry>, common: seq<string>, clusterNames: seq<string>)
    ensures forall p, n :: p in Contributions(ResolveAll(es, common, clusterNames)) && n in p.namespaces ==>
      n in clusterNames
  {
    if es != [] {
      CommonNamespacesExist(es[1..], common, clusterNames);
      var all := ResolveAll(es, common, clusterNames);
      assert all[1..] == ResolveAll(es[1..], common, clusterNames);
    }
  }

  // ---------- writing the text again and again ----------

  /** A title that holds no marker, and names and patterns without hash signs. */
  ghost predicate MarkerFree(e: Entry, m: string) {
    && !Contains(e.title, m)
    && (forall n :: n in e.namespaces ==> '#' !in n)
    && (e.imageMatch.Some? ==> '#' !in e.imageMatch.value)
  }

  /** What tells a marker from the hash signs that printing adds. */
  ghost predicate IsExceptionMarker(m: string) {
    IsMarker(m) && |m| > 4 && m[3] != 'x' && m[|m| - 2] != ' '
  }

  lemma ExceptionMarkers()
    ensures IsExceptionMarker(START_1) && IsExceptionMarker(END_1)
    ensures IsExceptionMarker(START_2) && IsExceptionMarker(END_2)
  {
    MarkersAreMarkers();
  }

  /** Text that a block starts or continues with: no marker inside, and a last character
      that no marker has before its closing hash sign. */
  ghost predicate Harmless(s: string, m: string) {
    !Contains(s, m) && (s != "" ==> s[|s| - 1] == ' ' && s[0] == '#')
  }

  lemma HeaderHasNoMarker(e: Entry, m: string)
    requires IsExceptionMarker(m) && !Contains(e.title, m)
    ensures !Contains(Header(e), m)
  {
    forall j | OccursAt(Header(e), m, j) ensures false {
      MarkerInTitle(e, m, j);
    }
  }

  function BeforeTitle(id: nat): string {
    "# Exception " + (Decimal(id) + " - ")
  }

  lemma HeaderParts(e: Entry)
    ensures Header(e) == BeforeTitle(e.id) + (e.title + " #")
  {
    hide Decimal;
    var d, t := Decimal(e.id), e.title + " #";
    assert d + (" " + ("- " + t)) == d + " - " + t;
    Assoc("# Exception ", d + " - ", t);
  }

  lemma MarkerInTitle(e: Entry, m: string, j: nat)
    requires IsExceptionMarker(m) && OccursAt(Header(e), m, j)
    ensures Contains(e.title, m)
  {
    HeaderParts(e);
    PrefixHashes(e.id);
    hide Header, BeforeTitle;
    var p, t := BeforeTitle(e.id), e.title + " #";
    var h := p + t;
    assert h[j] == m[0] && h[j + 3] == m[3];
    assert forall i :: 0 <= i < |p| ==> h[i] == p[i];
    assert |p| <= j;
    OccursInTail(p, t, m, j - |p|);
    MarkerBeforeClosing(e.title, m, j - |p|);
  }

  lemma MarkerBeforeClosing(title: string, m: string, i: nat)
    requires IsExceptionMarker(m) && OccursAt(title + " #", m, i)
    ensures OccursAt(title, m, i)
  {
    var t := title + " #";
    assert t[i + |m| - 1] == m[|m| - 1] && t[i + |m| - 2] == m[|m| - 2];
    assert t[|t| - 1] == '#' && t[|t| - 2] == ' ';
    assert forall x :: 0 <= x < |title| ==> title[x] == t[x];
  }

  lemma PrefixHashes(id: nat)
    ensures var p := BeforeTitle(id);
      |p| > 3 && p[0] == '#' && p[3] == 'x' && forall i :: 0 < i < |p| ==> p[i] != '#'
  {
    DecimalHasNoHash(id);
  }

  lemma {:induction false} DecimalHasNoHash(n: nat)
    ensures '#' !in Decimal(n)
  {
    if n >= 10 {
      DecimalHasNoHash(n / 10);
    }
  }

  /** Hash-free text behind adds no marker. */
  lemma HashFreeTail(s: string, t: string, m: string)
    requires IsMarker(m) && !Contains(s, m) && '#' !in t
    ensures !Contains(s + t, m)
  {
    forall j | OccursAt(s + t, m, j) ensures false {
      BeforeHashFreeTail(s, t, m, j);
    }
  }

  lemma BeforeHashFreeTail(s: string, t: string, m: string, j: nat)
    requires IsMarker(m) && OccursAt(s + t, m, j) && '#' !in t
    ensures OccursAt(s, m, j)
  {
    assert (s + t)[j + |m| - 1] == '#';
    assert forall x :: 0 <= x < |s| ==> s[x] == (s + t)[x];
    assert forall x :: |s| <= x < |s + t| ==> (s + t)[x] in t;
  }

  /** Harmless texts in a row are harmless. */
  lemma HarmlessConcat(s: string, t: string, m: string)
    requires IsExceptionMarker(m) && Harmless(s, m) && Harmless(t, m)
    ensures Harmless(s + t, m)
  {
    forall j | OccursAt(s + t, m, j) ensures false {
      OccursInConcat(s, t, m, j);
    }
  }

  lemma {:induction false} NamespacesHaveNoHash(names: seq<string>, pattern: string)
    requires '#' !in pattern && forall n :: n in names ==> '#' !in n
    ensures '#' !in NamespaceRego(names) && '#' !in ImageRego(names, pattern)
  {
    if names != [] {
      NamespacesHaveNoHash(names[1..], pattern);
      LinesHaveNoHash(names[0], pattern);
      hide NamespaceLine, ImageLine;
    }
  }

  lemma LinesHaveNoHash(name: string, pattern: string)
    requires '#' !in name && '#' !in pattern
    ensures '#' !in NamespaceLine(name) && '#' !in ImageLine(name, pattern)
  {
  }

  lemma {:induction false} FilteredIn(parts: seq<string>, c: char)
    requires forall p :: p in parts ==> c !in p
    ensures c !in Join(parts, "")
  {
    if |parts| > 1 {
      FilteredIn(parts[1..], c);
    }
  }

  lemma {:induction false} PartsIn(s: string, sep: string, c: char)
    requires sep != "" && c !in s
    ensures forall p :: p in Split(s, sep) ==> c !in p
    decreases |s|
  {
    var i := IndexOf(s, sep);
    if i != -1 {
      PartsIn(s[i + |sep|..], sep, c);
    }
  }

  lemma PatternIn(imageMatch: string, c: char)
    requires c !in imageMatch
    ensures c !in ImagePattern(imageMatch)
  {
    PartsIn(imageMatch, "%", c);
    FilteredIn(Filter(Split(imageMatch, "%"), part => part !in ["", " "]), c);
  }

  lemma EntryIsHarmless(e: Entry, m: string)
    requires IsExceptionMarker(m) && MarkerFree(e, m) && BlockOf(e).Ok?
    ensures Harmless(BlockOf(e).value.plain, m) && Harmless(BlockOf(e).value.withImage, m)
  {
    if e.namespaces != [] {
      var pattern := ImagePattern(e.imageMatch.value);
      HeaderHasNoMarker(e, m);
      PatternIn(e.imageMatch.value, '#');
      NamespacesHaveNoHash(e.namespaces, pattern);
      HashFreeTail(Header(e), "\n " + NamespaceRego(e.namespaces) + "\n  ", m);
      HashFreeTail(Header(e),
        "\n " + (if pattern == "" then ANY_IMAGE else ImageRego(e.namespaces, pattern)) + "\n  ", m);
    }
  }

  lemma {:induction false} EntriesAreHarmless(es: seq<Entry>, m: string)
    requires IsExceptionMarker(m) && BlocksOf(es).Ok? && forall e :: e in es ==> MarkerFree(e, m)
    ensures Harmless(BlocksOf(es).value.plain, m) && Harmless(BlocksOf(es).value.withImage, m)
  {
    if es != [] {
      EntryIsHarmless(es[0], m);
      EntriesAreHarmless(es[1..], m);
      HarmlessConcat(BlockOf(es[0]).value.plain, BlocksOf(es[1..]).value.plain, m);
      HarmlessConcat(BlockOf(es[0]).value.withImage, BlocksOf(es[1..]).value.withImage, m);
    }
  }

  ghost predicate AllMarkerFree(es: seq<Entry>) {
    forall e, m :: e in es && m in {START_1, END_1, START_2, END_2} ==> MarkerFree(e, m)
  }

  lemma HarmlessIsSafe(s: string, fallback: string, m: string)
    requires IsExceptionMarker(m) && Harmless(s, m)
    requires fallback != "" && '#' !in fallback && fallback[|fallback| - 1] == ' '
    ensures Safe(if s == "" then fallback else s, m)
  {
    var t := if s == "" then fallback else s;
    HashFreeTail("", fallback, m);
    assert "" + fallback == fallback;
    assert t[|t| - 1] == ' ';
    EndsWithLast(t, m[..|m| - 1]);
  }

  lemma EndsWithLast(t: string, q: string)
    requires t != "" && q != "" && t[|t| - 1] != q[|q| - 1]
    ensures !EndsWith(t, q)
  {
    assert |q| <= |t| ==> t[|t| - |q|..][|q| - 1] == t[|t| - 1];
  }

  lemma PrintedBlocksAreSafeFor(es: seq<Entry>, m: string)
    requires IsExceptionMarker(m) && TemplateBlocks(es).Ok? && forall e :: e in es ==> MarkerFree(e, m)
    ensures Safe(TemplateBlocks(es).value.plain, m) && Safe(TemplateBlocks(es).value.withImage, m)
  {
    hide BlocksOf, Safe, Harmless;
    var b := BlocksOf(es).value;
    EntriesAreHarmless(es, m);
    HarmlessIsSafe(b.plain, PLAIN_FALLBACK, m);
    HarmlessIsSafe(b.withImage, IMAGE_FALLBACK, m);
  }

  /** Text printed from exceptions whose titles hold no marker can always be overwritten. */
  lemma PrintedBlocksAreSafe(es: seq<Entry>)
    requires TemplateBlocks(es).Ok? && AllMarkerFree(es)
    ensures SafeBlocks(TemplateBlocks(es).value)
  {
    ExceptionMarkers();
    MarkersAreMarkers();
    hide TemplateBlocks, Safe, MarkerFree, IsExceptionMarker, IsMarker;
    PrintedBlocksAreSafeFor(es, START_1);
    PrintedBlocksAreSafeFor(es, END_1);
    PrintedBlocksAreSafeFor(es, START_2);
    PrintedBlocksAreSafeFor(es, END_2);
  }

  /** The template after a run of syncs, each with the exceptions of its day. */
  function SyncAll(rego: string, days: seq<seq<Entry>>): string
    decreases |days|
  {
    if days == [] then rego else SyncAll(Synced(rego, days[0]), days[1..])
  }

  /** What was printed on the days on which printing did not fail. */
  function PrintedOn(days: seq<seq<Entry>>): seq<Blocks> {
    if days == [] then []
    else (if TemplateBlocks(days[0]).Ok? then [TemplateBlocks(days[0]).value] else []) + PrintedOn(days[1..])
  }

  lemma {:induction false} SyncAllSaves(rego: string, days: seq<seq<Entry>>)
    requires forall day :: day in days ==> AllMarkerFree(day)
    ensures SyncAll(rego, days) == SaveAll(rego, PrintedOn(days))
    ensures forall b :: b in PrintedOn(days) ==> SafeBlocks(b)
    decreases |days|
  {
    hide TemplateBlocks, Save, SafeBlocks, AllMarkerFree;
    if days != [] {
      assert days[0] in days && forall day :: day in days[1..] ==> day in days;
      SyncAllSaves(Synced(rego, days[0]), days[1..]);
      if TemplateBlocks(days[0]).Ok? {
        PrintedBlocksAreSafe(days[0]);
        assert PrintedOn(days)[1..] == PrintedOn(days[1..]);
      } else {
        assert PrintedOn(days) == PrintedOn(days[1..]);
      }
    }
  }

  /** Over any run of syncs, each with the exceptions of its day, a template ends up as if
      only the last sync had happened that could print its exceptions. */
  lemma SyncsLeaveNoTrace(rego: string, days: seq<seq<Entry>>)
    requires WellFormed(rego) && forall day :: day in days ==> AllMarkerFree(day)
    ensures WellFormed(SyncAll(rego, days))
    ensures SyncAll(rego, days) == if PrintedOn(days) == [] then rego else Save(rego, Last(PrintedOn(days)))
  {
    SyncAllSaves(rego, days);
    if PrintedOn(days) != [] {
      RunOfSyncs(rego, PrintedOn(days));
    }
  }
}
