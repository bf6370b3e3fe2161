/** Printing exceptions as the Rego text that a sync writes into a template. */
module ExceptionBlocks {
  import opened Wrappers
  import opened Text
  import opened Shared
  import opened RegoSplice

  /** Reading `imageMatch.split` of a null pattern throws. */
  datatype Error = NullImageMatch

  /** What is printed of one exception. */
  datatype Entry = Entry(id: nat, title: string, imageMatch: Option<string>, namespaces: seq<string>)

  class ExceptionDto {
    const id: nat
    const title: string
    const imageMatch: Option<string>
    var namespaces: seq<string>

    constructor (e: Entry)
      ensures AsEntry() == e
    {
      id, title, imageMatch, namespaces := e.id, e.title, e.imageMatch, e.namespaces;
    }

    function AsEntry(): Entry
      reads this
    {
      Entry(id, title, imageMatch, namespaces)
    }
  }

  // ---------- text of one exception ----------

  function ImagePattern(imageMatch: string): string {
    Join(Filter(Split(imageMatch, "%"), part => part !in ["", " "]), "")
  }

  const NS_OPEN := " pod.metadata.namespace == \""
  const NS_CLOSE := ",\n "

  function NamespaceLine(name: string): (line: string)
    ensures line != ""
  {
    NS_OPEN + (name + ("\"" + NS_CLOSE))
  }

  function NamespaceRego(names: seq<string>): string {
    if names == [] then "" else NamespaceLine(names[0]) + NamespaceRego(names[1..])
  }

  const IMAGE_OPEN := " {pod.metadata.namespace == \""
  const IMAGE_MIDDLE := ",\n   regex.match(\""
  const IMAGE_CLOSE := ", container.image)},\n "
  const ANY_IMAGE := " {true, true},\n"

  function ImageLine(name: string, pattern: string): (line: string)
    ensures line != ""
  {
    IMAGE_OPEN + (name + ("\"" + (IMAGE_MIDDLE + (pattern + ("\"" + IMAGE_CLOSE)))))
  }

  function ImageRego(names: seq<string>, pattern: string): string {
    if names == [] then "" else ImageLine(names[0], pattern) + ImageRego(names[1..], pattern)
  }

  function Header(e: Entry): string {
    "# Exception " + (Decimal(e.id) + (" " + ("- " + (e.title + " #"))))
  }

  function PlainText(e: Entry): string {
    Header(e) + ("\n " + NamespaceRego(e.namespaces) + "\n  ")
  }

  function ImageText(e: Entry, pattern: string): string {
    Header(e) + ("\n " + (if pattern == "" then ANY_IMAGE else ImageRego(e.namespaces, pattern)) + "\n  ")
  }

  /** An exception without namespaces prints nothing, not even an error. */
  function BlockOf(e: Entry): Result<Blocks, Error> {
    if e.namespaces == [] then Ok(Blocks("", ""))
    else if e.imageMatch.None? then Err(NullImageMatch)
    else Ok(Blocks(PlainText(e), ImageText(e, ImagePattern(e.imageMatch.value))))
  }

  /** One result appended to another; the first error stays. */
  function Append(a: Result<Blocks, Error>, b: Result<Blocks, Error>): Result<Blocks, Error> {
    if a.Err? then a else if b.Err? then b
    else Ok(Blocks(a.value.plain + b.value.plain, a.value.withImage + b.value.withImage))
  }

  function BlocksOf(es: seq<Entry>): Result<Blocks, Error> {
    if es == [] then Ok(Blocks("", "")) else Append(BlockOf(es[0]), BlocksOf(es[1..]))
  }

  method CalculateExceptionBlock(exception: ExceptionDto) returns (r: Result<Blocks, Error>)
    ensures r == BlockOf(exception.AsEntry())
  {
    if exception.namespaces == [] {
      return Ok(Blocks("", ""));
    }
    if exception.imageMatch.None? {
      return Err(NullImageMatch);
    }
    var pattern := ImagePattern(exception.imageMatch.value);
    var namespaceRego := PrintNamespaces(exception.namespaces);
    var namespaceRegoWithImagePattern := "";
    if pattern != "" {
      namespaceRegoWithImagePattern := PrintNamespacesWithImage(exception.namespaces, pattern);
    }
    hide Header, ImagePattern, NamespaceLine, ImageLine;
    var header := Header(exception.AsEntry());
    var rego := if namespaceRego == "" then " true\n" else namespaceRego;
    var regoWithImagePattern :=
      if namespaceRegoWithImagePattern == "" then ANY_IMAGE else namespaceRegoWithImagePattern;
    r := Ok(Blocks(header + ("\n " + rego + "\n  "), header + ("\n " + regoWithImagePattern + "\n  ")));
  }

  method PrintNamespaces(names: seq<string>) returns (rego: string)
    ensures rego == NamespaceRego(names)
  {
    hide NamespaceLine;
    rego := "";
    for i := 0 to |names|
      invariant rego + NamespaceRego(names[i..]) == NamespaceRego(names)
    {
      rego := rego + NamespaceLine(names[i]);
    }
  }

  method PrintNamespacesWithImage(names: seq<string>, pattern: string) returns (rego: string)
    ensures rego == ImageRego(names, pattern)
  {
    hide ImageLine;
    rego := "";
    for i := 0 to |names|
      invariant rego + ImageRego(names[i..], pattern) == ImageRego(names, pattern)
    {
      rego := rego + ImageLine(names[i], pattern);
    }
  }

  // ---------- text of a template ----------

  /** Namespaces of an exception that applies to every cluster: those of its own that this
      cluster has, or, when it names none, the common ones that this cluster has. */
  function Resolve(e: Entry, common: seq<string>, clusterNames: seq<string>): Entry {
    var wanted := if e.namespaces != [] then e.namespaces else common;
    e.(namespaces := Filter(wanted, n => n in clusterNames))
  }

  function ResolveAll(es: seq<Entry>, common: seq<string>, clusterNames: seq<string>): (r: seq<Entry>)
    ensures |r| == |es| && forall i :: 0 <= i < |es| ==> r[i] == Resolve(es[i], common, clusterNames)
  {
    seq(|es|, i requires 0 <= i < |es| => Resolve(es[i], common, clusterNames))
  }

  /** Namespaces of an exception for one issue: its own, or all of the cluster. */
  function ResolveSpecific(e: Entry, clusterNames: seq<string>): Entry {
    if e.namespaces == [] then e.(namespaces := clusterNames) else e
  }

  function ResolveAllSpecific(es: seq<Entry>, clusterNames: seq<string>): (r: seq<Entry>)
    ensures |r| == |es| && forall i :: 0 <= i < |es| ==> r[i] == ResolveSpecific(es[i], clusterNames)
  {
    seq(|es|, i requires 0 <= i < |es| => ResolveSpecific(es[i], clusterNames))
  }

  const PLAIN_FALLBACK := " true,\n  "
  const IMAGE_FALLBACK := " {true, true},\n  "

  function WithFallback(b: Blocks): Blocks {
    Blocks(if b.plain == "" then PLAIN_FALLBACK else b.plain,
           if b.withImage == "" then IMAGE_FALLBACK else b.withImage)
  }

  function TemplateBlocks(resolved: seq<Entry>): Result<Blocks, Error> {
    var r := BlocksOf(resolved);
    if r.Ok? then Ok(WithFallback(r.value)) else r
  }

  /** What a sync does to a template: nothing when printing fails. */
  function Synced(rego: string, resolved: seq<Entry>): string {
    var b := TemplateBlocks(resolved);
    if b.Ok? then Save(rego, b.value) else rego
  }

  ghost predicate Distinct(es: seq<ExceptionDto>) {
    forall i, j :: 0 <= i < j < |es| ==> es[i] != es[j]
  }

  function Entries(es: seq<ExceptionDto>): (r: seq<Entry>)
    reads es
    ensures |r| == |es| && forall i :: 0 <= i < |es| ==> r[i] == es[i].AsEntry()
  {
    seq(|es|, i requires 0 <= i < |es| reads es => es[i].AsEntry())
  }

  lemma AppendIsMonoid(a: Result<Blocks, Error>, b: Result<Blocks, Error>, c: Result<Blocks, Error>)
    ensures Append(Append(a, b), c) == Append(a, Append(b, c))
    ensures Append(Ok(Blocks("", "")), a) == a && Append(a, Ok(Blocks("", ""))) == a
  {
    if a.Ok? {
      assert "" + a.value.plain == a.value.plain == a.value.plain + "";
      assert "" + a.value.withImage == a.value.withImage == a.value.withImage + "";
    }
    if a.Ok? && b.Ok? && c.Ok? {
      Assoc(a.value.plain, b.value.plain, c.value.plain);
      Assoc(a.value.withImage, b.value.withImage, c.value.withImage);
    }
  }

  lemma {:induction false} BlocksOfConcat(xs: seq<Entry>, ys: seq<Entry>)
    ensures BlocksOf(xs + ys) == Append(BlocksOf(xs), BlocksOf(ys))
  {
    hide BlockOf, Append;
    if xs == [] {
      assert xs + ys == ys;
      AppendIsMonoid(BlocksOf(ys), BlocksOf(ys), BlocksOf(ys));
    } else {
      BlocksOfConcat(xs[1..], ys);
      assert (xs + ys)[1..] == xs[1..] + ys;
      AppendIsMonoid(BlockOf(xs[0]), BlocksOf(xs[1..]), BlocksOf(ys));
    }
  }

  lemma BlocksOfStep(es: seq<Entry>, k: nat)
    requires k < |es|
    ensures BlocksOf(es[..k + 1]) == Append(BlocksOf(es[..k]), BlockOf(es[k]))
    ensures BlocksOf(es[..k + 1]).Err? ==> BlocksOf(es) == BlocksOf(es[..k + 1])
  {
    hide BlockOf;
    BlocksOfConcat(es[..k], [es[k]]);
    assert es[..k + 1] == es[..k] + [es[k]];
    BlocksOfOne(es[k]);
    BlocksOfConcat(es[..k + 1], es[k + 1..]);
    assert es == es[..k + 1] + es[k + 1..];
  }

  lemma BlocksOfOne(e: Entry)
    ensures BlocksOf([e]) == BlockOf(e)
  {
    hide BlockOf, Append;
    AppendIsMonoid(BlockOf(e), BlockOf(e), BlockOf(e));
    assert BlocksOf([e]) == Append(BlockOf(e), BlocksOf([]));
  }

  /** Both loops over the exceptions that apply to every cluster are this one; they differ
      only in the exceptions they read. */
  method CalculateCommonExceptionBlocks(exceptions: seq<ExceptionDto>, commonNamespaces: seq<string>,
      clusterNames: seq<string>) returns (r: Result<Blocks, Error>)
    requires Distinct(exceptions)
    modifies exceptions
    ensures r == BlocksOf(ResolveAll(old(Entries(exceptions)), commonNamespaces, clusterNames))
    ensures r.Ok? ==> Entries(exceptions) == ResolveAll(old(Entries(exceptions)), commonNamespaces, clusterNames)
  {
    var common := Filter(commonNamespaces, n => n in clusterNames);
    var block, blockWithImage := "", "";
    assert BlocksOf([]) == Ok(Blocks("", ""));
    hide BlockOf, BlocksOf;
    ghost var before := Entries(exceptions);
    ghost var resolved := ResolveAll(before, commonNamespaces, clusterNames);
    for k := 0 to |exceptions|
      invariant BlocksOf(resolved[..k]) == Ok(Blocks(block, blockWithImage))
      invariant forall i :: 0 <= i < k ==> exceptions[i].AsEntry() == resolved[i]
      invariant forall i :: k <= i < |exceptions| ==> exceptions[i].AsEntry() == before[i]
    {
      var exception := exceptions[k];
      if exception.namespaces != [] {
        exception.namespaces := Filter(exception.namespaces, n => n in clusterNames);
      } else {
        exception.namespaces := common;
      }
      var exceptionBlock := CalculateExceptionBlock(exception);
      assert exception.AsEntry() == resolved[k];
      BlocksOfStep(resolved, k);
      if exceptionBlock.Err? {
        return exceptionBlock;
      }
      block := block + exceptionBlock.value.plain;
      blockWithImage := blockWithImage + exceptionBlock.value.withImage;
    }
    assert resolved[..|exceptions|] == resolved;
    r := Ok(Blocks(block, blockWithImage));
  }

  method TemplateSpecificExceptionBlock(commonBlock: Blocks, forIssue: seq<ExceptionDto>,
      commonNamespaces: seq<string>, clusterNames: seq<string>, specific: seq<ExceptionDto>)
    returns (r: Result<Blocks, Error>)
    requires Distinct(forIssue) && Distinct(specific) && forall e :: e in forIssue ==> e !in specific
    modifies forIssue, specific
    ensures var all := Append(Ok(commonBlock),
              Append(BlocksOf(ResolveAll(old(Entries(forIssue)), commonNamespaces, clusterNames)),
                     BlocksOf(ResolveAllSpecific(old(Entries(specific)), clusterNames))));
            r == if all.Ok? then Ok(WithFallback(all.value)) else all
  {
    hide BlocksOf;
    ghost var before := Entries(specific);
    var issueBlock := CalculateCommonExceptionBlocks(forIssue, commonNamespaces, clusterNames);
    if issueBlock.Err? {
      return issueBlock;
    }
    forall i | 0 <= i < |specific| ensures specific[i].AsEntry() == before[i] {
      assert specific[i] in specific;
    }
    assert Entries(specific) == before;
    var specificBlock := CalculateSpecificExceptionBlocks(specific, clusterNames);
    if specificBlock.Err? {
      return specificBlock;
    }
    var plain := commonBlock.plain + (issueBlock.value.plain + specificBlock.value.plain);
    if plain == "" {
      plain := PLAIN_FALLBACK;
    }
    var withImage := commonBlock.withImage + (issueBlock.value.withImage + specificBlock.value.withImage);
    if withImage == "" {
      withImage := IMAGE_FALLBACK;
    }
    r := Ok(Blocks(plain, withImage));
  }

  method CalculateSpecificExceptionBlocks(exceptions: seq<ExceptionDto>, clusterNames: seq<string>)
    returns (r: Result<Blocks, Error>)
    requires Distinct(exceptions)
    modifies exceptions
    ensures r == BlocksOf(ResolveAllSpecific(old(Entries(exceptions)), clusterNames))
  {
    assert BlocksOf([]) == Ok(Blocks("", ""));
    hide BlockOf, BlocksOf;
    ghost var before := Entries(exceptions);
    ghost var resolved := ResolveAllSpecific(before, clusterNames);
    for k := 0 to |exceptions|
      invariant forall i :: 0 <= i < k ==> exceptions[i].AsEntry() == resolved[i]
      invariant forall i :: k <= i < |exceptions| ==> exceptions[i].AsEntry() == before[i]
    {
      if exceptions[k].namespaces == [] {
        exceptions[k].namespaces := clusterNames;
      }
    }
    var block, blockWithImage := "", "";
    for k := 0 to |exceptions|
      invariant BlocksOf(resolved[..k]) == Ok(Blocks(block, blockWithImage))
      invariant forall i :: 0 <= i < |exceptions| ==> exceptions[i].AsEntry() == resolved[i]
    {
      var exceptionBlock := CalculateExceptionBlock(exceptions[k]);
      assert exceptions[k].AsEntry() == resolved[k];
      BlocksOfStep(resolved, k);
      if exceptionBlock.Err? {
        return exceptionBlock;
      }
      block := block + exceptionBlock.value.plain;
      blockWithImage := blockWithImage + exceptionBlock.value.withImage;
    }
    assert resolved[..|exceptions|] == resolved;
    r := Ok(Blocks(block, blockWithImage));
  }

  /** Everything that is printed into one template of a cluster, in order. */
  function Resolved(common: seq<Entry>, forIssue: seq<Entry>, specific: seq<Entry>,
      commonNamespaces: seq<string>, clusterNames: seq<string>): seq<Entry> {
    ResolveAll(common, commonNamespaces, clusterNames) +
    (ResolveAll(forIssue, commonNamespaces, clusterNames) + ResolveAllSpecific(specific, clusterNames))
  }

  lemma TemplateOfAll(xs: seq<Entry>, ys: seq<Entry>, zs: seq<Entry>)
    ensures var all := Append(BlocksOf(xs), Append(BlocksOf(ys), BlocksOf(zs)));
      TemplateBlocks(xs + (ys + zs)) == if all.Ok? then Ok(WithFallback(all.value)) else all
  {
    BlocksOfConcat(ys, zs);
    BlocksOfConcat(xs, ys + zs);
  }

  /** The sync of one template. An error leaves the template as it is. */
  method SyncTemplate(template: TemplateObj, common: seq<ExceptionDto>, forIssue: seq<ExceptionDto>,
      commonNamespaces: seq<string>, clusterNames: seq<string>, specific: seq<ExceptionDto>)
    requires Distinct(common) && Distinct(forIssue) && Distinct(specific)
    requires forall e :: e in common ==> e !in forIssue && e !in specific
    requires forall e :: e in forIssue ==> e !in specific
    modifies template, common, forIssue, specific
    ensures template.rego == Synced(old(template.rego),
      Resolved(old(Entries(common)), old(Entries(forIssue)), old(Entries(specific)), commonNamespaces, clusterNames))
  {
    hide BlocksOf, Append;
    ghost var issueBefore, specificBefore := Entries(forIssue), Entries(specific);
    TemplateOfAll(ResolveAll(Entries(common), commonNamespaces, clusterNames),
      ResolveAll(issueBefore, commonNamespaces, clusterNames), ResolveAllSpecific(specificBefore, clusterNames));
    AppendErrors(BlocksOf(ResolveAll(Entries(common), commonNamespaces, clusterNames)),
      Append(BlocksOf(ResolveAll(issueBefore, commonNamespaces, clusterNames)),
             BlocksOf(ResolveAllSpecific(specificBefore, clusterNames))));
    var commonBlock := CalculateCommonExceptionBlocks(common, commonNamespaces, clusterNames);
    forall i | 0 <= i < |forIssue| ensures forIssue[i].AsEntry() == issueBefore[i] {
      assert forIssue[i] in forIssue;
    }
    forall i | 0 <= i < |specific| ensures specific[i].AsEntry() == specificBefore[i] {
      assert specific[i] in specific;
    }
    assert Entries(forIssue) == issueBefore && Entries(specific) == specificBefore;
    if commonBlock.Ok? {
      var blocks := TemplateSpecificExceptionBlock(commonBlock.value, forIssue, commonNamespaces, clusterNames, specific);
      if blocks.Ok? {
        template.SaveExceptionBlock(blocks.value);
      }
    }
  }

  lemma AppendErrors(a: Result<Blocks, Error>, b: Result<Blocks, Error>)
    ensures a.Err? ==> Append(a, b) == a
  {
  }
}
