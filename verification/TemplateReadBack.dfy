/** What a synced template says, in terms of the exceptions and namespaces it was printed from. */
module TemplateReadBack {
  import opened Wrappers
  import opened Shared
  import opened Text
  import opened RegoSplice
  import opened ExceptionBlocks
  import opened ExceptionBlockLaws

  // ---------- namespaces ----------

  /** The namespaces of an exception for all clusters: those among its own, or among the common
      ones when it names none, that the cluster has. */
  ghost predicate IsForCluster(own: seq<string>, names: seq<string>, common: seq<string>, clusterNames: seq<string>) {
    Picks(names, if own != [] then own else common, n => n in clusterNames)
  }

  lemma ResolvedNames(e: Entry, common: seq<string>, clusterNames: seq<string>)
    ensures IsForCluster(e.namespaces, Resolve(e, common, clusterNames).namespaces, common, clusterNames)
    ensures Resolve(e, common, clusterNames) == e.(namespaces := Resolve(e, common, clusterNames).namespaces)
  {
    var wanted := if e.namespaces != [] then e.namespaces else common;
    var isWanted := (n: string) => n in clusterNames;
    var at := FilterPicks(wanted, n => n in clusterNames);
    var picked := Resolve(e, common, clusterNames).namespaces;
    assert PicksAt(picked, wanted, isWanted, at);
    assert Picks(picked, wanted, isWanted);
  }

  // ---------- patterns ----------

  /** The pattern without its percent signs, and without blanks that stand alone between them. */
  function Cleaned(s: string, start: bool): string {
    if s == "" then ""
    else if s[0] == '%' then Cleaned(s[1..], true)
    else if start && s[0] == ' ' && (|s| == 1 || s[1] == '%') then Cleaned(s[1..], false)
    else [s[0]] + Cleaned(s[1..], false)
  }

  /** What follows a part of a pattern: nothing, or a percent sign and more. */
  function CleanedRest(t: string): string {
    if t == "" then "" else Cleaned(t[1..], true)
  }

  lemma {:induction false} PartGoesOn(a: string, t: string)
    requires '%' !in a && (t == "" || t[0] == '%')
    ensures Cleaned(a + t, false) == a + CleanedRest(t)
  {
    if a == "" {
      assert a + t == t;
    } else {
      PartGoesOn(a[1..], t);
      assert a[0] in a && (a + t)[1..] == a[1..] + t;
    }
  }

  lemma PartStarts(a: string, t: string)
    requires '%' !in a && (t == "" || t[0] == '%')
    ensures Cleaned(a + t, true) == (if a == " " then "" else a) + CleanedRest(t)
  {
    if a == "" {
      assert a + t == t;
    } else {
      PartGoesOn(a[1..], t);
      assert a[0] in a && (a + t)[1..] == a[1..] + t;
      assert |a| > 1 ==> a[1] in a && (a + t)[1] == a[1];
    }
  }

  predicate KeepsPart(part: string) {
    part !in ["", " "]
  }

  function JoinKept(parts: seq<string>): string {
    if parts == [] then "" else (if KeepsPart(parts[0]) then parts[0] else "") + JoinKept(parts[1..])
  }

  lemma {:induction false} JoinFiltered(parts: seq<string>)
    ensures Join(Filter(parts, part => part !in ["", " "]), "") == JoinKept(parts)
  {
    if parts != [] {
      JoinFiltered(parts[1..]);
      var rest := Filter(parts[1..], part => part !in ["", " "]);
      JoinCons(parts[0], rest);
      assert [] + rest == rest;
    }
  }

  lemma {:induction false} JoinKeptIsCleaned(s: string)
    ensures JoinKept(Split(s, "%")) == Cleaned(s, true)
    decreases |s|
  {
    var i := IndexOf(s, "%");
    forall k | 0 <= k < |s| && s[k] == '%' ensures 0 <= i <= k {
      assert OccursAt(s, "%", k);
    }
    if i == -1 {
      assert s + "" == s && Split(s, "%")[1..] == [];
      PartStarts(s, "");
    } else {
      assert s == s[..i] + s[i..] && s[i..][1..] == s[i + 1..];
      PartStarts(s[..i], s[i..]);
      JoinKeptIsCleaned(s[i + 1..]);
      assert Split(s, "%")[1..] == Split(s[i + 1..], "%");
    }
  }

  lemma PatternIsCleaned(imageMatch: string)
    ensures ImagePattern(imageMatch) == Cleaned(imageMatch, true)
  {
    JoinFiltered(Split(imageMatch, "%"));
    JoinKeptIsCleaned(imageMatch);
  }

  /** The first line of an exception. */
  lemma HeaderExactly(e: Entry)
    ensures Header(e) == "# Exception " + Decimal(e.id) + " - " + e.title + " #"
  {
    hide Decimal;
    assert " - " == " " + "- ";
  }

  /** The lines for a namespace: one that compares it, and one that also matches the pattern. */
  lemma LinesExactly(name: string, pattern: string)
    ensures NamespaceLine(name) == " pod.metadata.namespace == \"" + name + "\",\n "
    ensures ImageLine(name, pattern) ==
      " {pod.metadata.namespace == \"" + name + "\",\n   regex.match(\"" + pattern + "\", container.image)},\n "
    ensures ANY_IMAGE == " {true, true},\n"
  {
    assert "\",\n " == "\"" + NS_CLOSE;
    assert "\",\n   regex.match(\"" == "\"" + IMAGE_MIDDLE;
    assert "\", container.image)},\n " == "\"" + IMAGE_CLOSE;
  }

  // ---------- reading a template back ----------

  /** Each exception with its namespaces; those without one are left out. */
  function Told(es: seq<Entry>, names: seq<seq<string>>): seq<Printed>
    requires |names| == |es|
  {
    if es == [] then []
    else (if names[0] == [] then [] else [Printed(es[0].id, es[0].title, names[0])]) + Told(es[1..], names[1..])
  }

  /** The same with the pattern for each namespace. */
  function ImagesTold(es: seq<Entry>, names: seq<seq<string>>): seq<PrintedImages>
    requires |names| == |es| && forall e :: e in es ==> e.imageMatch.Some?
  {
    if es == [] then []
    else
      var pattern := Cleaned(es[0].imageMatch.value, true);
      (if names[0] == [] then []
       else [PrintedImages(es[0].id, es[0].title, if pattern == "" then [] else Pairs(names[0], pattern))]) +
      ImagesTold(es[1..], names[1..])
  }

  lemma {:induction false} ContributionsAreTold(es: seq<Entry>, all: seq<Entry>, names: seq<seq<string>>)
    requires |es| == |all| == |names| && BlocksOf(es).Ok? && forall e :: e in all ==> e.imageMatch.Some?
    requires forall i :: 0 <= i < |es| ==> es[i] == all[i].(namespaces := names[i])
    ensures Contributions(es) == Told(all, names) && ImageContributions(es) == ImagesTold(all, names)
  {
    if es != [] {
      ContributionsAreTold(es[1..], all[1..], names[1..]);
      PatternIsCleaned(all[0].imageMatch.value);
      hide ImagePattern, Cleaned, BlockOf;
      assert all[0] in all;
    }
  }

  /** Names that do not end their own quotation and hold no hash sign. */
  predicate Tame(names: seq<string>) {
    forall n :: n in names ==> '"' !in n && '#' !in n
  }

  /** An exception that prints, on lines of its own and without a marker. */
  ghost predicate TameEntry(e: Entry) {
    && e.imageMatch.Some? && '"' !in e.imageMatch.value && '#' !in e.imageMatch.value
    && '\n' !in e.title && Tame(e.namespaces)
    && forall m :: m in {START_1, END_1, START_2, END_2} ==> !Contains(e.title, m)
  }

  lemma TameEntries(es: seq<Entry>)
    requires forall e :: e in es ==> TameEntry(e)
    ensures TemplateBlocks(es).Ok? && AllMarkerFree(es) && forall e :: e in es ==> ImageReadable(e)
  {
    PrintingFails(es);
  }

  lemma ResolvedEntries(common: seq<Entry>, forIssue: seq<Entry>, specific: seq<Entry>,
      commonNamespaces: seq<string>, clusterNames: seq<string>, i: nat)
    requires i < |common| + |forIssue| + |specific|
    ensures var all := common + forIssue + specific;
      var es := Resolved(common, forIssue, specific, commonNamespaces, clusterNames);
      && |es| == |all| && es[i] == all[i].(namespaces := es[i].namespaces)
      && (if i < |common| + |forIssue| then
            IsForCluster(all[i].namespaces, es[i].namespaces, commonNamespaces, clusterNames)
          else es[i].namespaces == if all[i].namespaces != [] then all[i].namespaces else clusterNames)
  {
    var all := common + forIssue + specific;
    if i < |common| + |forIssue| {
      ResolvedNames(all[i], commonNamespaces, clusterNames);
    }
  }

  lemma ResolvedIsTame(e: Entry, names: seq<string>)
    requires TameEntry(e) && Tame(names)
    ensures TameEntry(e.(namespaces := names))
  {
  }

  /** The namespaces of the first `forAll` exceptions, which apply to every cluster, are those
      of the cluster that are among the exception's own, or among the common ones when it has
      none. The others keep their own, or get all of the cluster when they have none. */
  ghost predicate AreTheirNames(es: seq<Entry>, forAll: nat, names: seq<seq<string>>,
      common: seq<string>, clusterNames: seq<string>) {
    && forAll <= |es| == |names|
    && (forall i :: 0 <= i < forAll ==> IsForCluster(es[i].namespaces, names[i], common, clusterNames))
    && (forall i :: forAll <= i < |es| ==> names[i] == if es[i].namespaces != [] then es[i].namespaces else clusterNames)
  }

  /** The block between the first markers reads back as these exceptions with these namespaces,
      and the block between the second markers as the same with the patterns. */
  ghost predicate Tells(rego: string, es: seq<Entry>, names: seq<seq<string>>) {
    exists p, q :: TellsAt(rego, p, q, es, names)
  }

  ghost predicate TellsAt(rego: string, p: Region, q: Region, es: seq<Entry>, names: seq<seq<string>>) {
    && |names| == |es| && (forall e :: e in es ==> e.imageMatch.Some?)
    && HasRegion(rego, START_1, END_1, p) && HasRegion(rego, START_2, END_2, q)
    && INDENT <= Content(rego, START_1, p) && INDENT <= Content(rego, START_2, q)
    && ParseTemplateBlock(Content(rego, START_1, p)[|INDENT|..]) == Some(Told(es, names))
    && ParseImageBlock(Content(rego, START_2, q)[|INDENT|..]) == Some(ImagesTold(es, names))
  }

  /** What a sync leaves in a template: exactly the exceptions, each with exactly the namespaces
      it is for. */
  lemma SyncTells(rego: string, common: seq<Entry>, forIssue: seq<Entry>, specific: seq<Entry>,
      commonNamespaces: seq<string>, clusterNames: seq<string>) returns (names: seq<seq<string>>)
    requires WellFormed(rego) && Tame(commonNamespaces) && Tame(clusterNames)
    requires forall e :: e in common + forIssue + specific ==> TameEntry(e)
    ensures AreTheirNames(common + forIssue + specific, |common| + |forIssue|, names, commonNamespaces, clusterNames)
    ensures Tells(Synced(rego, Resolved(common, forIssue, specific, commonNamespaces, clusterNames)),
      common + forIssue + specific, names)
  {
    hide *;
    var all := common + forIssue + specific;
    var es := Resolved(common, forIssue, specific, commonNamespaces, clusterNames);
    names := NamesOf(common, forIssue, specific, commonNamespaces, clusterNames);
    ResolvedAreTame(common, forIssue, specific, commonNamespaces, clusterNames);
    SyncTellsEntries(rego, es, all, names);
  }

  lemma SyncTellsEntries(rego: string, es: seq<Entry>, all: seq<Entry>, names: seq<seq<string>>)
    requires WellFormed(rego) && |es| == |all| == |names|
    requires (forall e :: e in es ==> TameEntry(e)) && forall e :: e in all ==> e.imageMatch.Some?
    requires forall i :: 0 <= i < |es| ==> es[i] == all[i].(namespaces := names[i])
    ensures Tells(Synced(rego, es), all, names)
  {
    TameEntries(es);
    TellsBlocks(es, all, names);
    PrintedBlocksAreSafe(es);
    SyncedIsSaved(rego, es);
    var b := TemplateBlocks(es).value;
    AfterIndent(b.plain);
    AfterIndent(b.withImage);
    var p, q := BlocksLand(rego, b);
    hide Save, Synced, TemplateBlocks, HasRegion, Content, ParseTemplateBlock, ParseImageBlock, Told, ImagesTold;
    assert TellsAt(Synced(rego, es), p, q, all, names);
  }

  lemma AfterIndent(s: string)
    ensures INDENT <= INDENT + s && (INDENT + s)[|INDENT|..] == s
  {
  }

  lemma SyncedIsSaved(rego: string, es: seq<Entry>)
    requires TemplateBlocks(es).Ok?
    ensures Synced(rego, es) == Save(rego, TemplateBlocks(es).value)
  {
  }

  lemma TellsBlocks(es: seq<Entry>, all: seq<Entry>, names: seq<seq<string>>)
    requires |es| == |all| == |names| && TemplateBlocks(es).Ok?
    requires forall e :: e in all ==> e.imageMatch.Some?
    requires forall e :: e in es ==> ImageReadable(e)
    requires forall i :: 0 <= i < |es| ==> es[i] == all[i].(namespaces := names[i])
    ensures ParseTemplateBlock(TemplateBlocks(es).value.plain) == Some(Told(all, names))
    ensures ParseImageBlock(TemplateBlocks(es).value.withImage) == Some(ImagesTold(all, names))
  {
    TemplateBlockReadsBack(es);
    ImageBlockReadsBack(es);
    ContributionsAreTold(es, all, names);
  }

  lemma NamesOf(common: seq<Entry>, forIssue: seq<Entry>, specific: seq<Entry>,
      commonNamespaces: seq<string>, clusterNames: seq<string>) returns (names: seq<seq<string>>)
    ensures AreTheirNames(common + forIssue + specific, |common| + |forIssue|, names, commonNamespaces, clusterNames)
    ensures var all := common + forIssue + specific;
      var es := Resolved(common, forIssue, specific, commonNamespaces, clusterNames);
      |names| == |all| == |es| && forall i :: 0 <= i < |es| ==> es[i] == all[i].(namespaces := names[i])
  {
    var all := common + forIssue + specific;
    var es := Resolved(common, forIssue, specific, commonNamespaces, clusterNames);
    names := seq(|es|, i requires 0 <= i < |es| => es[i].namespaces);
    forall i | 0 <= i < |all|
      ensures |es| == |all| && es[i] == all[i].(namespaces := es[i].namespaces)
      ensures i < |common| + |forIssue| ==>
        IsForCluster(all[i].namespaces, es[i].namespaces, commonNamespaces, clusterNames)
      ensures i >= |common| + |forIssue| ==>
        es[i].namespaces == if all[i].namespaces != [] then all[i].namespaces else clusterNames
    {
      ResolvedEntries(common, forIssue, specific, commonNamespaces, clusterNames, i);
    }
    hide IsForCluster, Resolved;
  }

  lemma ResolvedAreTame(common: seq<Entry>, forIssue: seq<Entry>, specific: seq<Entry>,
      commonNamespaces: seq<string>, clusterNames: seq<string>)
    requires Tame(commonNamespaces) && Tame(clusterNames)
    requires forall e :: e in common + forIssue + specific ==> TameEntry(e)
    ensures forall e :: e in common + forIssue + specific ==> e.imageMatch.Some?
    ensures forall e :: e in Resolved(common, forIssue, specific, commonNamespaces, clusterNames) ==> TameEntry(e)
  {
    var all := common + forIssue + specific;
    var es := Resolved(common, forIssue, specific, commonNamespaces, clusterNames);
    forall i | 0 <= i < |es| ensures TameEntry(es[i]) {
      if i < |common| + |forIssue| {
        assert all[i] in all && es[i] == Resolve(all[i], commonNamespaces, clusterNames);
      } else {
        assert all[i] in all && es[i] == ResolveSpecific(all[i], clusterNames);
      }
      ResolvedIsTame(all[i], es[i].namespaces);
    }
  }
}
