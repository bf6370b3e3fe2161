/** Deciding whether a pod may run: finding its images under any alias of their registry,
    excusing unscanned ones, and checking the compliance of the rest. */
module Admission {
  import opened Wrappers
  import opened Shared
  import opened SqlLike
  import opened Text
  import R = Registries
  import E = ExceptionStore
  import Q = ExceptionQuery

  // ---------- images ----------

  datatype Image = Image(id: nat, cluster: nat, url: string, name: string, tag: string,
    dockerImageId: string, lastScanned: Option<int>)

  /** Creating an image is refused when its full name is taken, and fails after the image is
      stored when its cluster has no policy to scan it for. */
  datatype Error = ImageExists | NoPolicy

  predicate Matches(i: Image, cluster: nat, url: string, name: string, tag: string) {
    i.cluster == cluster && i.url == url && i.name == name && i.tag == tag
  }

  /** The first stored image with this url, name and tag in the cluster. */
  function GetImage(images: seq<Image>, cluster: nat, url: string, name: string, tag: string): (r: Option<Image>)
    ensures r.Some? ==> r.value in images && Matches(r.value, cluster, url, name, tag)
    ensures r.None? <==> forall i :: i in images ==> !Matches(i, cluster, url, name, tag)
  {
    if images == [] then None
    else if Matches(images[0], cluster, url, name, tag) then Some(images[0])
    else GetImage(images[1..], cluster, url, name, tag)
  }

  /** The first image found, going through the hosts in order. */
  function FirstImage(images: seq<Image>, cluster: nat, hosts: seq<string>, name: string, tag: string): Option<Image> {
    if hosts == [] then None
    else
      var found := GetImage(images, cluster, hosts[0], name, tag);
      if found.Some? then found else FirstImage(images, cluster, hosts[1..], name, tag)
  }

  function FullName(url: string, name: string, tag: string): string {
    url + "/" + name + ":" + tag
  }

  /** The image service refuses a second unscanned image of the same full name. */
  predicate NameTaken(images: seq<Image>, cluster: nat, url: string, name: string, tag: string) {
    exists i :: 0 <= i < |images| && images[i].cluster == cluster && images[i].dockerImageId == "" &&
      FullName(images[i].url, images[i].name, images[i].tag) == FullName(url, name, tag)
  }

  function TagOf(tag: string): string {
    if tag == "" then "latest" else tag
  }

  // ---------- registries ----------

  /** In which order the database lists the aliases of each registry. */
  type Listing = nat -> seq<string>

  ghost predicate Lists(t: R.Tables, listing: Listing) {
    forall id :: id in t.registries ==>
      forall a :: a in listing(id) <==> a in R.AliasesOf(t, id)
  }

  function Known(t: R.Tables, host: string): set<nat> {
    R.RegistryIds(t, "", [host], None)
  }

  /** Two hosts that lead to the same images. */
  ghost predicate SameGroup(t: R.Tables, h: string, h': string) {
    h == h' || exists id :: R.Live(t, id) && h in R.Hosts(t, id) && h' in R.Hosts(t, id)
  }

  lemma KnownAs(t: R.Tables, host: string, id: nat)
    ensures id in Known(t, host) <==> R.Live(t, id) && host in R.Hosts(t, id)
  {
    if R.Live(t, id) && host in R.Hosts(t, id) {
      R.Finds(t, "", [host], None, id, host);
    }
  }

  ghost function HostsToCheck(t: R.Tables, host: string, listing: Listing): (hosts: seq<string>)
    requires R.HostsDisjoint(t)
  {
    if id :| id in Known(t, host) then [t.registries[id].hostname] + listing(id) else [host]
  }

  lemma HostsOfKnown(t: R.Tables, host: string, listing: Listing, id: nat)
    requires R.HostsDisjoint(t) && id in Known(t, host)
    ensures HostsToCheck(t, host, listing) == [t.registries[id].hostname] + listing(id)
  {
    KnownAs(t, host, id);
    forall other | other in Known(t, host) ensures other == id {
      KnownAs(t, host, other);
    }
  }

  /** The hosts that are checked are the whole group of the given one. */
  lemma ChecksTheGroup(t: R.Tables, host: string, listing: Listing, h: string)
    requires R.HostsDisjoint(t) && Lists(t, listing)
    ensures h in HostsToCheck(t, host, listing) <==> SameGroup(t, host, h)
  {
    if id :| id in Known(t, host) {
      KnownAs(t, host, id);
      assert forall id' :: id' in Known(t, host) ==> id' == id by {
        forall id' | id' in Known(t, host) ensures id' == id {
          KnownAs(t, host, id');
        }
      }
      forall id' | R.Live(t, id') && host in R.Hosts(t, id') ensures id' == id {
        KnownAs(t, host, id');
      }
    } else {
      forall id ensures !(R.Live(t, id) && host in R.Hosts(t, id)) {
        KnownAs(t, host, id);
      }
    }
  }

  // ---------- finding or creating an image ----------

  /** What a lookup leads to: the image and whether it is new, and the images afterwards. */
  datatype Found = Found(result: Result<(Image, bool), Error>, images: seq<Image>)

  /** `policed` are the clusters that have a policy. */
  ghost function FindOrCreate(t: R.Tables, policed: set<nat>, listing: Listing, images: seq<Image>,
      cluster: nat, host: string, name: string, tag: string): Found
    requires R.HostsDisjoint(t)
  {
    var found := FirstImage(images, cluster, HostsToCheck(t, host, listing), name, TagOf(tag));
    if found.Some? then Found(Ok((found.value, false)), images)
    else if NameTaken(images, cluster, host, name, TagOf(tag)) then Found(Err(ImageExists), images)
    else
      var image := Image(|images|, cluster, host, name, TagOf(tag), "", None);
      Found(if cluster in policed then Ok((image, true)) else Err(NoPolicy), images + [image])
  }

  lemma {:induction false} FirstImageFound(images: seq<Image>, cluster: nat, hosts: seq<string>, name: string, tag: string)
    ensures var r := FirstImage(images, cluster, hosts, name, tag);
      && (r.Some? ==> r.value in images && r.value.url in hosts && Matches(r.value, cluster, r.value.url, name, tag))
      && (r.None? ==> forall i :: i in images && i.url in hosts ==> !Matches(i, cluster, i.url, name, tag))
  {
    if hosts != [] {
      FirstImageFound(images, cluster, hosts[1..], name, tag);
      assert hosts == [hosts[0]] + hosts[1..];
    }
  }

  /** What is stored when nothing is found: a new image under the host, name and tag asked for,
      not scanned, with `latest` for an empty tag. It is refused exactly when an image without
      a docker id has the same full name in the cluster. */
  lemma StoredAsAsked(t: R.Tables, policed: set<nat>, listing: Listing, images: seq<Image>,
      cluster: nat, host: string, name: string, tag: string)
    requires R.HostsDisjoint(t) && Lists(t, listing)
    requires forall i :: i in images && i.cluster == cluster && i.name == name ==>
      !SameGroup(t, host, i.url) || i.tag != if tag == "" then "latest" else tag
    ensures var theTag := if tag == "" then "latest" else tag;
      var found := FindOrCreate(t, policed, listing, images, cluster, host, name, tag);
      if exists i :: && i in images && i.cluster == cluster && i.dockerImageId == ""
                     && i.url + "/" + i.name + ":" + i.tag == host + "/" + name + ":" + theTag
      then found == Found(Err(ImageExists), images)
      else
        var image := Image(|images|, cluster, host, name, theTag, "", None);
        && found.images == images + [image]
        && found.result == if cluster in policed then Ok((image, true)) else Err(NoPolicy)
  {
    var hosts := HostsToCheck(t, host, listing);
    FirstImageFound(images, cluster, hosts, name, TagOf(tag));
    var first := FirstImage(images, cluster, hosts, name, TagOf(tag));
    if first.Some? {
      ChecksTheGroup(t, host, listing, first.value.url);
    }
    hide HostsToCheck, FirstImage;
  }

  /** Same cluster, name and tag, and urls of the same registry. */
  ghost predicate Alike(t: R.Tables, i: Image, j: Image) {
    i.cluster == j.cluster && i.name == j.name && i.tag == j.tag && SameGroup(t, i.url, j.url)
  }

  /** `later` is `images` with new images behind, none of them like an image before it. */
  ghost predicate Grown(t: R.Tables, images: seq<Image>, later: seq<Image>) {
    && images <= later
    && forall i, j :: 0 <= i < j && |images| <= j < |later| ==> !Alike(t, later[i], later[j])
  }

  ghost predicate AtMostOne(t: R.Tables, images: seq<Image>) {
    Grown(t, [], images)
  }

  lemma GroupsAreClasses(t: R.Tables, a: string, b: string, c: string)
    requires R.HostsDisjoint(t)
    ensures SameGroup(t, a, b) ==> SameGroup(t, b, a)
    ensures SameGroup(t, a, b) && SameGroup(t, b, c) ==> SameGroup(t, a, c)
  {
    if SameGroup(t, a, b) && SameGroup(t, b, c) && a != b && b != c {
      var i :| R.Live(t, i) && a in R.Hosts(t, i) && b in R.Hosts(t, i);
      var j :| R.Live(t, j) && b in R.Hosts(t, j) && c in R.Hosts(t, j);
      assert i == j;
    }
  }

  lemma GrownTransitive(t: R.Tables, a: seq<Image>, b: seq<Image>, c: seq<Image>)
    requires Grown(t, a, b) && Grown(t, b, c)
    ensures Grown(t, a, c)
  {
    assert forall i :: 0 <= i < |b| ==> b[i] == c[i];
  }

  /** A lookup adds at most one image, and none that is like a stored one. */
  lemma FindOrCreateGrows(t: R.Tables, policed: set<nat>, listing: Listing, images: seq<Image>,
      cluster: nat, host: string, name: string, tag: string)
    requires R.HostsDisjoint(t) && Lists(t, listing)
    ensures Grown(t, images, FindOrCreate(t, policed, listing, images, cluster, host, name, tag).images)
  {
    var hosts := HostsToCheck(t, host, listing);
    FirstImageFound(images, cluster, hosts, name, TagOf(tag));
    forall i | i in images && SameGroup(t, i.url, host) ensures i.url in hosts {
      GroupsAreClasses(t, i.url, host, host);
      ChecksTheGroup(t, host, listing, i.url);
    }
  }

  /** An image of the group that is found once is found ever after, under every host of the
      group, whatever the order of aliases, when at most one image of the group is stored. */
  lemma FoundAgain(t: R.Tables, policed: set<nat>, listing: Listing, images: seq<Image>, image: Image,
      cluster: nat, host: string, name: string, tag: string)
    requires R.HostsDisjoint(t) && Lists(t, listing) && AtMostOne(t, images)
    requires image in images && Matches(image, cluster, image.url, name, TagOf(tag)) && SameGroup(t, host, image.url)
    ensures FindOrCreate(t, policed, listing, images, cluster, host, name, tag) == Found(Ok((image, false)), images)
  {
    var hosts := HostsToCheck(t, host, listing);
    FirstImageFound(images, cluster, hosts, name, TagOf(tag));
    ChecksTheGroup(t, host, listing, image.url);
    var found := FirstImage(images, cluster, hosts, name, TagOf(tag)).value;
    ChecksTheGroup(t, host, listing, found.url);
    GroupsAreClasses(t, host, found.url, found.url);
    GroupsAreClasses(t, found.url, host, image.url);
    GroupsAreClasses(t, found.url, image.url, image.url);
    var i :| 0 <= i < |images| && images[i] == image;
    var j :| 0 <= j < |images| && images[j] == found;
    assert Alike(t, images[i], images[j]) && Alike(t, images[j], images[i]);
  }

  /** One lookup of a run; the database may list aliases differently every time, and policies
      may come and go. */
  datatype Call = Call(listing: Listing, policed: set<nat>, cluster: nat, host: string, name: string, tag: string)

  ghost function Answer(t: R.Tables, images: seq<Image>, c: Call): Found
    requires R.HostsDisjoint(t)
  {
    FindOrCreate(t, c.policed, c.listing, images, c.cluster, c.host, c.name, c.tag)
  }

  ghost predicate IsLookupRun(t: R.Tables, calls: seq<Call>, states: seq<seq<Image>>) {
    && R.HostsDisjoint(t) && |states| == |calls| + 1 && states[0] == []
    && forall i :: 0 <= i < |calls| ==> Lists(t, calls[i].listing) && states[i + 1] == Answer(t, states[i], calls[i]).images
  }

  lemma {:induction false} RunGrows(t: R.Tables, calls: seq<Call>, states: seq<seq<Image>>, i: nat, j: nat)
    requires IsLookupRun(t, calls, states) && i <= j < |states|
    ensures Grown(t, states[i], states[j])
  {
    if i < j {
      RunGrows(t, calls, states, i, j - 1);
      var c := calls[j - 1];
      FindOrCreateGrows(t, c.policed, c.listing, states[j - 1], c.cluster, c.host, c.name, c.tag);
      GrownTransitive(t, states[i], states[j - 1], states[j]);
    }
  }

  /** The image that a lookup finds or stores, even when it then fails. */
  ghost function ImageOfAnswer(t: R.Tables, images: seq<Image>, c: Call): Image
    requires R.HostsDisjoint(t) && Answer(t, images, c).result != Err(ImageExists)
  {
    var found := Answer(t, images, c);
    if found.result.Ok? then found.result.value.0 else found.images[|images|]
  }

  lemma AnswerMatches(t: R.Tables, images: seq<Image>, c: Call)
    requires R.HostsDisjoint(t) && Lists(t, c.listing) && Answer(t, images, c).result != Err(ImageExists)
    ensures var image := ImageOfAnswer(t, images, c);
      && image in Answer(t, images, c).images
      && Matches(image, c.cluster, image.url, c.name, TagOf(c.tag)) && SameGroup(t, c.host, image.url)
  {
    var hosts := HostsToCheck(t, c.host, c.listing);
    FirstImageFound(images, c.cluster, hosts, c.name, TagOf(c.tag));
    ChecksTheGroup(t, c.host, c.listing, ImageOfAnswer(t, images, c).url);
  }

  /** Over any run of lookups from no images: a cluster never gets two images of the same
      name and tag under hosts of the same registry, and a later call under any of these
      hosts returns the image of the first one, as not new, even if the first one failed
      after storing it. */
  lemma LookupsAgree(t: R.Tables, calls: seq<Call>, states: seq<seq<Image>>, i: nat, j: nat)
    requires IsLookupRun(t, calls, states) && i < j < |calls|
    requires Answer(t, states[i], calls[i]).result != Err(ImageExists)
    requires calls[j].cluster == calls[i].cluster && calls[j].name == calls[i].name
    requires TagOf(calls[j].tag) == TagOf(calls[i].tag) && SameGroup(t, calls[i].host, calls[j].host)
    ensures AtMostOne(t, states[j])
    ensures Answer(t, states[j], calls[j]).result == Ok((ImageOfAnswer(t, states[i], calls[i]), false))
  {
    RunGrows(t, calls, states, 0, j);
    RunGrows(t, calls, states, i + 1, j);
    AnswerMatches(t, states[i], calls[i]);
    var image := ImageOfAnswer(t, states[i], calls[i]);
    GroupsAreClasses(t, calls[i].host, calls[j].host, calls[j].host);
    GroupsAreClasses(t, calls[j].host, calls[i].host, image.url);
    assert image in states[j] by {
      var k :| 0 <= k < |states[i + 1]| && states[i + 1][k] == image;
      assert states[j][k] == image;
    }
    var c := calls[j];
    FoundAgain(t, c.policed, c.listing, states[j], image, c.cluster, c.host, c.name, c.tag);
  }

  // ---------- the decision ----------

  /** A container with its image url parsed. */
  datatype Container = Container(host: string, path: string, imageName: string, tag: string)

  datatype Request = Request(cluster: nat, enforced: bool, namespace: string, containers: seq<Container>)

  datatype Compliance = Compliance(compliant: bool, reason: string)

  datatype Reply = Reply(allowed: bool, message: Option<string>)

  /** What a decision depends on besides the stored images: the registries, the clusters that
      have a policy, the exceptions and the day, whether an image pattern accepts a name, and
      the compliance check. */
  datatype World = World(registries: R.Tables, policed: set<nat>, exceptions: E.Tables, today: int,
    accepts: (string, string) -> bool, check: seq<Image> -> Compliance)

  function NameOf(c: Container): string {
    if c.path != "" && c.imageName != "" then c.path + "/" + c.imageName
    else if c.imageName != "" then c.imageName else c.path
  }

  predicate Scanned(i: Image) {
    i.lastScanned.Some? && i.lastScanned.value != 0
  }

  /** An exception that lets an unscanned image of this name through: it applies to the
      cluster and namespace whatever the policy, and is for no issue and no scanner. */
  predicate Excuses(w: World, id: nat, name: string)
    requires id in w.exceptions.rows
  {
    var row := w.exceptions.rows[id];
    && (row.imageMatch.None? || row.imageMatch.value == "" || w.accepts(row.imageMatch.value, name))
    && row.issueIdentifier == "" && (row.scannerId.None? || row.scannerId.value == 0)
  }

  function Excuse(w: World, cluster: nat, namespace: string, name: string): set<nat> {
    var q := Q.Query("policy", cluster, None, namespace);
    set id | id in Q.Ids(Q.Selected(w.exceptions, q, w.today)) && id in w.exceptions.rows && Excuses(w, id, name)
  }

  /** The containers looked at so far: images afterwards, images to check, names of unscanned
      images, and the error that ended the scan. */
  datatype Scan = Scan(images: seq<Image>, toCheck: seq<Image>, unscanned: seq<string>, error: Option<Error>)

  /** One container after those of `s`. */
  ghost function ScanOne(w: World, listing: Listing, req: Request, s: Scan, c: Container): Scan
    requires R.HostsDisjoint(w.registries)
  {
    var found := FindOrCreate(w.registries, w.policed, listing, s.images, req.cluster, c.host, NameOf(c), c.tag);
    if found.result.Err? then Scan(found.images, s.toCheck, s.unscanned, Some(found.result.error))
    else if found.result.value.1 || !Scanned(found.result.value.0) then
      Scan(found.images, s.toCheck,
        s.unscanned + (if Excuse(w, req.cluster, req.namespace, NameOf(c)) == {} then [NameOf(c)] else []), None)
    else Scan(found.images, s.toCheck + [found.result.value.0], s.unscanned, None)
  }

  ghost function ScanAll(w: World, listing: Listing, req: Request, s: Scan, cs: seq<Container>): Scan
    requires R.HostsDisjoint(w.registries)
    decreases |cs|
  {
    if cs == [] || s.error.Some? then s else ScanAll(w, listing, req, ScanOne(w, listing, req, s, cs[0]), cs[1..])
  }

  ghost function Decide(w: World, listing: Listing, req: Request, images: seq<Image>): (Result<Reply, Error>, seq<Image>)
    requires R.HostsDisjoint(w.registries)
  {
    if !req.enforced then (Ok(Reply(true, None)), images)
    else
      var s := ScanAll(w, listing, req, Scan(images, [], [], None), req.containers);
      if s.error.Some? then (Err(s.error.value), s.images)
      else if s.unscanned != [] then
        (Ok(Reply(false, Some("Blocked by m9sweeper: pod contains unscanned image(s): " + Join(s.unscanned, ", ")))),
         s.images)
      else
        var c := w.check(s.toCheck);
        (Ok(if c.compliant then Reply(true, None)
            else Reply(false, Some("Blocked by m9sweeper: contains a non-compliant or unscanned image: " + c.reason))),
         s.images)
  }

  class ClusterValidationService {
    const registries: R.DockerRegistriesDao
    const exceptions: E.ExceptionsDao
    var images: seq<Image>

    constructor (registries: R.DockerRegistriesDao, exceptions: E.ExceptionsDao)
      ensures images == [] && this.registries == registries && this.exceptions == exceptions
    {
      this.registries, this.exceptions, images := registries, exceptions, [];
    }

    ghost predicate Ready(listing: Listing)
      reads registries
    {
      R.HostsDisjoint(registries.View()) && Lists(registries.View(), listing)
    }

    function TheWorld(policed: set<nat>, today: int, accepts: (string, string) -> bool, check: seq<Image> -> Compliance): World
      reads registries, exceptions
    {
      World(registries.View(), policed, exceptions.View(), today, accepts, check)
    }

    method FindOrCreateImage(listing: Listing, policed: set<nat>, cluster: nat, host: string, name: string, tag: string)
      returns (r: Result<(Image, bool), Error>)
      requires Ready(listing)
      modifies this`images
      ensures Found(r, images) == FindOrCreate(registries.View(), policed, listing, old(images), cluster, host, name, tag)
    {
      var hostsToCheck := HostsOf(listing, host);
      var theTag := if tag == "" then "latest" else tag;
      for k := 0 to |hostsToCheck|
        invariant images == old(images)
        invariant FirstImage(images, cluster, hostsToCheck[k..], name, theTag) ==
                  FirstImage(images, cluster, hostsToCheck, name, theTag)
      {
        var existing := GetImage(images, cluster, hostsToCheck[k], name, theTag);
        if existing.Some? {
          return Ok((existing.value, false));
        }
      }
      if NameTaken(images, cluster, host, name, theTag) {
        return Err(ImageExists);
      }
      var image := Image(|images|, cluster, host, name, theTag, "", None);
      images := images + [image];
      if cluster !in policed {
        return Err(NoPolicy); // the image stays
      }
      r := Ok((image, true));
    }

    method HostsOf(listing: Listing, host: string) returns (hosts: seq<string>)
      requires Ready(listing)
      ensures hosts == HostsToCheck(registries.View(), host, listing)
    {
      var registryIds := registries.GetDockerRegistryIds("", [host], None);
      if registryIds != {} {
        var id :| id in registryIds;
        HostsOfKnown(registries.View(), host, listing, id);
        hosts := [registries.registries[id].hostname] + listing(id);
      } else {
        hosts := [host];
      }
    }

    method ValidateRequest(listing: Listing, req: Request, policed: set<nat>, today: int,
        accepts: (string, string) -> bool, check: seq<Image> -> Compliance)
      returns (r: Result<Reply, Error>)
      requires Ready(listing)
      modifies this`images
      ensures (r, images) == Decide(TheWorld(policed, today, accepts, check), listing, req, old(images))
    {
      if !req.enforced {
        return Ok(Reply(true, None));
      }
      var w := TheWorld(policed, today, accepts, check);
      var imagesToCheckCompliance, unscannedImageNames := [], [];
      for k := 0 to |req.containers|
        invariant ScanAll(w, listing, req, Scan(images, imagesToCheckCompliance, unscannedImageNames, None), req.containers[k..])
               == ScanAll(w, listing, req, Scan(old(images), [], [], None), req.containers)
      {
        ghost var before := Scan(images, imagesToCheckCompliance, unscannedImageNames, None);
        var c := req.containers[k];
        var imageName := NameOf(c);
        var image := FindOrCreateImage(listing, policed, req.cluster, c.host, imageName, c.tag);
        assert req.containers[k..][0] == c && req.containers[k..][1..] == req.containers[k + 1..];
        ghost var after := ScanOne(w, listing, req, before, c);
        assert ScanAll(w, listing, req, before, req.containers[k..]) == ScanAll(w, listing, req, after, req.containers[k + 1..]);
        assert unscannedImageNames + [] == unscannedImageNames;
        hide ScanAll;
        if image.Err? {
          return Err(image.error);
        }
        if image.value.1 || !Scanned(image.value.0) {
          if Excuse(w, req.cluster, req.namespace, imageName) == {} {
            unscannedImageNames := unscannedImageNames + [imageName];
          }
        } else {
          imagesToCheckCompliance := imagesToCheckCompliance + [image.value.0];
        }
        assert after == Scan(images, imagesToCheckCompliance, unscannedImageNames, None);
      }
      if unscannedImageNames != [] {
        return Ok(Reply(false,
          Some("Blocked by m9sweeper: pod contains unscanned image(s): " + Join(unscannedImageNames, ", "))));
      }
      var complianceResult := check(imagesToCheckCompliance);
      if !complianceResult.compliant {
        return Ok(Reply(false,
          Some("Blocked by m9sweeper: contains a non-compliant or unscanned image: " + complianceResult.reason)));
      }
      r := Ok(Reply(true, None));
    }
  }

  // ---------- what the decision means ----------

  /** The database's order of aliases does not matter for these images. */
  ghost predicate OrderFree(t: R.Tables, images: seq<Image>, l1: Listing, l2: Listing)
    requires R.HostsDisjoint(t)
  {
    forall cluster, host, name, tag ::
      FirstImage(images, cluster, HostsToCheck(t, host, l1), name, tag) ==
      FirstImage(images, cluster, HostsToCheck(t, host, l2), name, tag)
  }

  lemma FoundInGroup(t: R.Tables, l: Listing, images: seq<Image>, cluster: nat, host: string, name: string, tag: string)
    requires R.HostsDisjoint(t) && Lists(t, l)
    ensures var r := FirstImage(images, cluster, HostsToCheck(t, host, l), name, tag);
      && (r.Some? ==> r.value in images && SameGroup(t, host, r.value.url) && Matches(r.value, cluster, r.value.url, name, tag))
      && (r.None? ==> forall i :: i in images && SameGroup(t, host, i.url) ==> !Matches(i, cluster, i.url, name, tag))
  {
    var hosts := HostsToCheck(t, host, l);
    FirstImageFound(images, cluster, hosts, name, tag);
    forall h ensures h in hosts <==> SameGroup(t, host, h) {
      ChecksTheGroup(t, host, l, h);
    }
  }

  /** Two images found under the same host are alike. */
  lemma FoundAreAlike(t: R.Tables, host: string, i: Image, j: Image)
    requires R.HostsDisjoint(t) && SameGroup(t, host, i.url) && SameGroup(t, host, j.url)
    requires i.cluster == j.cluster && i.name == j.name && i.tag == j.tag
    ensures Alike(t, i, j)
  {
    GroupsAreClasses(t, host, i.url, i.url);
    GroupsAreClasses(t, i.url, host, j.url);
  }

  lemma AtMostOneIsOrderFree(t: R.Tables, images: seq<Image>, l1: Listing, l2: Listing)
    requires R.HostsDisjoint(t) && Lists(t, l1) && Lists(t, l2) && AtMostOne(t, images)
    ensures OrderFree(t, images, l1, l2)
  {
    forall cluster, host, name, tag
      ensures FirstImage(images, cluster, HostsToCheck(t, host, l1), name, tag) ==
              FirstImage(images, cluster, HostsToCheck(t, host, l2), name, tag)
    {
      FoundInGroup(t, l1, images, cluster, host, name, tag);
      FoundInGroup(t, l2, images, cluster, host, name, tag);
      var a := FirstImage(images, cluster, HostsToCheck(t, host, l1), name, tag);
      var b := FirstImage(images, cluster, HostsToCheck(t, host, l2), name, tag);
      if a.Some? && b.Some? {
        FoundAreAlike(t, host, a.value, b.value);
        FoundAreAlike(t, host, b.value, a.value);
        var i :| 0 <= i < |images| && images[i] == a.value;
        var j :| 0 <= j < |images| && images[j] == b.value;
      }
    }
  }

  lemma {:induction false} GetImageAppend(images: seq<Image>, later: seq<Image>, cluster: nat, url: string, name: string, tag: string)
    requires images <= later
    requires forall j :: |images| <= j < |later| ==> !Matches(later[j], cluster, url, name, tag)
    ensures GetImage(later, cluster, url, name, tag) == GetImage(images, cluster, url, name, tag)
  {
    if images != [] {
      GetImageAppend(images[1..], later[1..], cluster, url, name, tag);
    }
  }

  lemma {:induction false} FirstImageAppend(images: seq<Image>, later: seq<Image>, cluster: nat, hosts: seq<string>, name: string, tag: string)
    requires images <= later
    requires forall j, h :: |images| <= j < |later| && h in hosts ==> !Matches(later[j], cluster, h, name, tag)
    ensures FirstImage(later, cluster, hosts, name, tag) == FirstImage(images, cluster, hosts, name, tag)
  {
    if hosts != [] {
      forall j | |images| <= j < |later| ensures !Matches(later[j], cluster, hosts[0], name, tag) {
        assert hosts[0] in hosts;
      }
      GetImageAppend(images, later, cluster, hosts[0], name, tag);
      forall j, h | |images| <= j < |later| && h in hosts[1..] ensures !Matches(later[j], cluster, h, name, tag) {
        assert h in hosts;
      }
      FirstImageAppend(images, later, cluster, hosts[1..], name, tag);
    }
  }

  /** An image once found stays the one that is found. */
  lemma FoundStays(t: R.Tables, l: Listing, images: seq<Image>, later: seq<Image>, x: Image,
      cluster: nat, host: string, name: string, tag: string)
    requires R.HostsDisjoint(t) && Lists(t, l) && Grown(t, images, later)
    requires FirstImage(images, cluster, HostsToCheck(t, host, l), name, tag) == Some(x)
    ensures FirstImage(later, cluster, HostsToCheck(t, host, l), name, tag) == Some(x)
  {
    FoundInGroup(t, l, images, cluster, host, name, tag);
    var hosts := HostsToCheck(t, host, l);
    var i :| 0 <= i < |images| && images[i] == x;
    forall j, h | |images| <= j < |later| && h in hosts ensures !Matches(later[j], cluster, h, name, tag) {
      ChecksTheGroup(t, host, l, h);
      if Matches(later[j], cluster, h, name, tag) {
        FoundAreAlike(t, host, later[i], later[j]);
      }
    }
    FirstImageAppend(images, later, cluster, hosts, name, tag);
  }

  /** A newly created image is the one that is found from then on. */
  lemma CreatedStays(t: R.Tables, l: Listing, images: seq<Image>, y: Image, later: seq<Image>, host: string)
    requires R.HostsDisjoint(t) && Lists(t, l) && Grown(t, images + [y], later) && y.url == host
    requires FirstImage(images, y.cluster, HostsToCheck(t, host, l), y.name, y.tag) == None
    ensures FirstImage(later, y.cluster, HostsToCheck(t, host, l), y.name, y.tag) == Some(y)
  {
    FoundInGroup(t, l, images, y.cluster, host, y.name, y.tag);
    FoundInGroup(t, l, later, y.cluster, host, y.name, y.tag);
    assert later[|images|] == y && forall i :: 0 <= i < |images| ==> later[i] == images[i];
    var z := FirstImage(later, y.cluster, HostsToCheck(t, host, l), y.name, y.tag).value;
    var k :| 0 <= k < |later| && later[k] == z;
    FoundAreAlike(t, host, y, z);
  }

  lemma OrderFreeStays(t: R.Tables, l1: Listing, l2: Listing, images: seq<Image>, y: Image)
    requires R.HostsDisjoint(t) && Lists(t, l1) && Lists(t, l2) && OrderFree(t, images, l1, l2)
    requires Grown(t, images, images + [y])
    ensures OrderFree(t, images + [y], l1, l2)
  {
    var later := images + [y];
    forall cluster, host, name, tag
      ensures FirstImage(later, cluster, HostsToCheck(t, host, l1), name, tag) ==
              FirstImage(later, cluster, HostsToCheck(t, host, l2), name, tag)
    {
      var before := FirstImage(images, cluster, HostsToCheck(t, host, l1), name, tag);
      if before.Some? {
        FoundStays(t, l1, images, later, before.value, cluster, host, name, tag);
        FoundStays(t, l2, images, later, before.value, cluster, host, name, tag);
      } else {
        FoundInGroup(t, l1, images, cluster, host, name, tag);
        FoundInGroup(t, l1, later, cluster, host, name, tag);
        FoundInGroup(t, l2, later, cluster, host, name, tag);
      }
    }
  }

  lemma ScanOneGrows(w: World, l: Listing, req: Request, s: Scan, c: Container)
    requires R.HostsDisjoint(w.registries) && Lists(w.registries, l)
    ensures Grown(w.registries, s.images, ScanOne(w, l, req, s, c).images)
  {
    FindOrCreateGrows(w.registries, w.policed, l, s.images, req.cluster, c.host, NameOf(c), c.tag);
  }

  lemma {:induction false} ScanGrows(w: World, l: Listing, req: Request, s: Scan, cs: seq<Container>)
    requires R.HostsDisjoint(w.registries) && Lists(w.registries, l)
    ensures Grown(w.registries, s.images, ScanAll(w, l, req, s, cs).images)
    decreases |cs|
  {
    if cs != [] && s.error.None? {
      var s1 := ScanOne(w, l, req, s, cs[0]);
      ScanOneGrows(w, l, req, s, cs[0]);
      ScanGrows(w, l, req, s1, cs[1..]);
      GrownTransitive(w.registries, s.images, s1.images, ScanAll(w, l, req, s1, cs[1..]).images);
    }
  }

  /** Looking at a container again, with the images the whole scan has left behind. */
  lemma ScanOneAgain(w: World, l1: Listing, l2: Listing, req: Request, s: Scan, c: Container, later: seq<Image>)
    requires R.HostsDisjoint(w.registries) && Lists(w.registries, l1) && Lists(w.registries, l2)
    requires OrderFree(w.registries, s.images, l1, l2)
    requires var s1 := ScanOne(w, l1, req, s, c);
      if s1.error.Some? then s1.error == Some(ImageExists) && later == s.images
      else Grown(w.registries, s1.images, later)
    ensures var s1 := ScanOne(w, l1, req, s, c);
      && ScanOne(w, l2, req, s.(images := later), c) == s1.(images := later)
      && OrderFree(w.registries, s1.images, l1, l2)
  {
    var t, name, tag := w.registries, NameOf(c), TagOf(c.tag);
    var found := FirstImage(s.images, req.cluster, HostsToCheck(t, c.host, l1), name, tag);
    if found.Some? {
      FoundStays(t, l2, s.images, later, found.value, req.cluster, c.host, name, tag);
    } else if ScanOne(w, l1, req, s, c).error.None? {
      var y := Image(|s.images|, req.cluster, c.host, name, tag, "", None);
      ScanOneGrows(w, l1, req, s, c);
      CreatedStays(t, l2, s.images, y, later, c.host);
      OrderFreeStays(t, l1, l2, s.images, y);
    }
  }

  lemma {:induction false} ScanAgain(w: World, l1: Listing, l2: Listing, req: Request, s: Scan, cs: seq<Container>)
    requires R.HostsDisjoint(w.registries) && Lists(w.registries, l1) && Lists(w.registries, l2)
    requires OrderFree(w.registries, s.images, l1, l2) && s.error.None?
    requires ScanAll(w, l1, req, s, cs).error != Some(NoPolicy)
    ensures var p := ScanAll(w, l1, req, s, cs); ScanAll(w, l2, req, s.(images := p.images), cs) == p
    decreases |cs|
  {
    if cs != [] {
      var s1, p := ScanOne(w, l1, req, s, cs[0]), ScanAll(w, l1, req, s, cs);
      ScanGrows(w, l1, req, s1, cs[1..]);
      ScanOneAgain(w, l1, l2, req, s, cs[0], p.images);
      if s1.error.None? {
        ScanAgain(w, l1, l2, req, s1, cs[1..]);
      }
    }
  }

  /** The image of a container, once it is stored. */
  ghost function ImageOf(w: World, l: Listing, req: Request, images: seq<Image>, c: Container): Option<Image>
    requires R.HostsDisjoint(w.registries)
  {
    FirstImage(images, req.cluster, HostsToCheck(w.registries, c.host, l), NameOf(c), TagOf(c.tag))
  }

  /** The scanned images of the containers, in order. */
  ghost function Checked(w: World, l: Listing, req: Request, images: seq<Image>, cs: seq<Container>): seq<Image>
    requires R.HostsDisjoint(w.registries)
  {
    if cs == [] then []
    else
      var i := ImageOf(w, l, req, images, cs[0]);
      (if i.Some? && Scanned(i.value) then [i.value] else []) + Checked(w, l, req, images, cs[1..])
  }

  /** The names of the containers without a scanned image that no exception excuses, in order. */
  ghost function HeldUp(w: World, l: Listing, req: Request, images: seq<Image>, cs: seq<Container>): seq<string>
    requires R.HostsDisjoint(w.registries)
  {
    if cs == [] then []
    else
      var i := ImageOf(w, l, req, images, cs[0]);
      var excused := Excuse(w, req.cluster, req.namespace, NameOf(cs[0])) != {};
      (if (i.None? || !Scanned(i.value)) && !excused then [NameOf(cs[0])] else []) +
      HeldUp(w, l, req, images, cs[1..])
  }

  /** A container looked at when its image is already stored. */
  lemma SortOne(w: World, l: Listing, req: Request, s: Scan, c: Container)
    requires R.HostsDisjoint(w.registries)
    requires ScanOne(w, l, req, s, c).images == s.images && ScanOne(w, l, req, s, c).error.None?
    ensures var s1 := ScanOne(w, l, req, s, c);
      && s1.toCheck == s.toCheck + Checked(w, l, req, s.images, [c])
      && s1.unscanned == s.unscanned + HeldUp(w, l, req, s.images, [c])
  {
    assert Checked(w, l, req, s.images, []) == [] && HeldUp(w, l, req, s.images, []) == [];
    assert [c][1..] == [];
  }

  lemma SortsConcat(w: World, l: Listing, req: Request, images: seq<Image>, cs: seq<Container>)
    requires R.HostsDisjoint(w.registries) && cs != []
    ensures Checked(w, l, req, images, cs) == Checked(w, l, req, images, [cs[0]]) + Checked(w, l, req, images, cs[1..])
    ensures HeldUp(w, l, req, images, cs) == HeldUp(w, l, req, images, [cs[0]]) + HeldUp(w, l, req, images, cs[1..])
  {
    assert Checked(w, l, req, images, []) == [] && HeldUp(w, l, req, images, []) == [];
    assert [cs[0]][1..] == [];
  }

  /** One pass over the containers, creating images on the way, sorts them as the images
      stored at the end do. */
  lemma {:induction false} ScanSorts(w: World, l: Listing, req: Request, s: Scan, cs: seq<Container>)
    requires R.HostsDisjoint(w.registries) && Lists(w.registries, l) && s.error.None?
    requires ScanAll(w, l, req, s, cs).error.None?
    ensures var p := ScanAll(w, l, req, s, cs);
      && p.toCheck == s.toCheck + Checked(w, l, req, p.images, cs)
      && p.unscanned == s.unscanned + HeldUp(w, l, req, p.images, cs)
    decreases |cs|
  {
    assert cs == [] ==> Checked(w, l, req, s.images, cs) == [] && HeldUp(w, l, req, s.images, cs) == [];
    if cs != [] {
      var s1, p := ScanOne(w, l, req, s, cs[0]), ScanAll(w, l, req, s, cs);
      assert s1.error.None? && p == ScanAll(w, l, req, s1, cs[1..]);
      hide ScanOne, ScanAll, Checked, HeldUp;
      ScanGrows(w, l, req, s1, cs[1..]);
      ScanOneAgain(w, l, l, req, s, cs[0], p.images);
      SortOne(w, l, req, s.(images := p.images), cs[0]);
      SortsConcat(w, l, req, p.images, cs);
      ScanSorts(w, l, req, s1, cs[1..]);
      Assoc(s.toCheck, Checked(w, l, req, p.images, [cs[0]]), Checked(w, l, req, p.images, cs[1..]));
      Assoc(s.unscanned, HeldUp(w, l, req, p.images, [cs[0]]), HeldUp(w, l, req, p.images, cs[1..]));
    }
  }

  /** The name of a container's image: path and image name, or the one of them that is there. */
  lemma NamedByPathAndImage(c: Container)
    ensures c.path != "" && c.imageName != "" ==> NameOf(c) == c.path + "/" + c.imageName
    ensures c.imageName == "" ==> NameOf(c) == c.path
    ensures c.path == "" ==> NameOf(c) == c.imageName
  {
  }

  /** An exception that lets an unscanned image through: not deleted, active, a policy
      exception for all policies, in force on this day, for the cluster and the namespace, for
      no issue and no scanner, and without a pattern or with one that accepts the name. */
  ghost predicate LetsThrough(w: World, cluster: nat, namespace: string, name: string, id: nat) {
    id in w.exceptions.rows &&
    var row := w.exceptions.rows[id];
    && !row.deleted && row.status == "active" && row.typ == "policy" && row.allPolicies
    && (row.startDay.Some? ==> row.startDay.value <= w.today)
    && (row.endDay.Some? ==> w.today < row.endDay.value)
    && (row.allClusters || (cluster != 0 && (id, cluster) in w.exceptions.clusters))
    && (row.allNamespaces || (namespace != "" && (id, namespace) in w.exceptions.namespaces))
    && row.issueIdentifier == ""
    && (row.scannerId == None || row.scannerId == Some(0))
    && (row.imageMatch == None || row.imageMatch == Some("") || w.accepts(row.imageMatch.value, name))
  }

  lemma ExcusedExactly(w: World, cluster: nat, namespace: string, name: string)
    ensures Excuse(w, cluster, namespace, name) != {} <==> exists id :: LetsThrough(w, cluster, namespace, name, id)
  {
    var q := Q.Query("policy", cluster, None, namespace);
    forall id ensures id in Excuse(w, cluster, namespace, name) <==> LetsThrough(w, cluster, namespace, name, id) {
      Q.QuerySelectsWhatApplies(w.exceptions, q, w.today, id);
      if id in w.exceptions.rows {
        LikeItself(w.exceptions.rows[id].typ, "policy");
      }
    }
    hide Excuse, LetsThrough;
    if id :| LetsThrough(w, cluster, namespace, name, id) {
      assert id in Excuse(w, cluster, namespace, name);
    }
  }

  /** The container's image is stored, and was scanned. */
  ghost predicate HasScan(w: World, l: Listing, req: Request, images: seq<Image>, c: Container)
    requires R.HostsDisjoint(w.registries)
  {
    var i := ImageOf(w, l, req, images, c);
    i.Some? && i.value.lastScanned != None && i.value.lastScanned != Some(0)
  }

  lemma {:induction false} NoneIsHeldUp(w: World, l: Listing, req: Request, images: seq<Image>, cs: seq<Container>)
    requires R.HostsDisjoint(w.registries)
    ensures HeldUp(w, l, req, images, cs) == [] <==>
      forall c :: c in cs ==> || HasScan(w, l, req, images, c)
                              || exists id :: LetsThrough(w, req.cluster, req.namespace, NameOf(c), id)
  {
    if cs != [] {
      NoneIsHeldUp(w, l, req, images, cs[1..]);
      ExcusedExactly(w, req.cluster, req.namespace, NameOf(cs[0]));
      assert cs == [cs[0]] + cs[1..];
      assert forall c :: c in cs <==> c == cs[0] || c in cs[1..];
      hide Excuse, LetsThrough, ImageOf, NameOf;
    }
  }

  /** The images to check are those of the containers that have a scanned one, in order. */
  lemma {:induction false} CheckedExactly(w: World, l: Listing, req: Request, images: seq<Image>, cs: seq<Container>)
    requires R.HostsDisjoint(w.registries)
    ensures var scanned := Filter(cs, c => HasScan(w, l, req, images, c));
      && |Checked(w, l, req, images, cs)| == |scanned|
      && forall k :: 0 <= k < |scanned| ==> Some(Checked(w, l, req, images, cs)[k]) == ImageOf(w, l, req, images, scanned[k])
  {
    if cs != [] {
      CheckedExactly(w, l, req, images, cs[1..]);
      hide ImageOf;
    }
  }

  /** The reply allows the pod iff enforcement is off, or every container has a scanned image
      or an exception that lets it through, and the scanned images are compliant. A refusal
      names the containers that are held up, or gives the reason of the compliance check. */
  lemma AllowedExactly(w: World, l: Listing, req: Request, images: seq<Image>)
    requires R.HostsDisjoint(w.registries) && Lists(w.registries, l) && Decide(w, l, req, images).0.Ok?
    ensures var d := Decide(w, l, req, images);
      d.0.value.allowed <==>
        || !req.enforced
        || ((forall c :: c in req.containers ==> || HasScan(w, l, req, d.1, c)
                                                 || exists id :: LetsThrough(w, req.cluster, req.namespace, NameOf(c), id))
            && w.check(Checked(w, l, req, d.1, req.containers)).compliant)
    ensures var d := Decide(w, l, req, images);
      var heldUp := HeldUp(w, l, req, d.1, req.containers);
      d.0.value.message ==
        if d.0.value.allowed then None
        else if heldUp != [] then Some("Blocked by m9sweeper: pod contains unscanned image(s): " + Join(heldUp, ", "))
        else Some("Blocked by m9sweeper: contains a non-compliant or unscanned image: " +
                  w.check(Checked(w, l, req, d.1, req.containers)).reason)
  {
    if req.enforced {
      hide HeldUp, Checked, ScanAll, HostsToCheck, HasScan, LetsThrough, NameOf, Join;
      ScanSorts(w, l, req, Scan(images, [], [], None), req.containers);
      var p := ScanAll(w, l, req, Scan(images, [], [], None), req.containers);
      NoneIsHeldUp(w, l, req, p.images, req.containers);
      assert p.toCheck == Checked(w, l, req, p.images, req.containers);
      assert p.unscanned == HeldUp(w, l, req, p.images, req.containers);
    }
  }

  /** The world without the exceptions for one issue or one scanner. */
  function WithoutSpecific(w: World): World {
    var specific := set id | id in w.exceptions.rows &&
      (w.exceptions.rows[id].issueIdentifier != "" || w.exceptions.rows[id].scannerId !in {None, Some(0)});
    w.(exceptions := w.exceptions.(rows := w.exceptions.rows - specific))
  }

  lemma SpecificNeverExcuse(w: World, cluster: nat, namespace: string, name: string)
    ensures Excuse(WithoutSpecific(w), cluster, namespace, name) == Excuse(w, cluster, namespace, name)
  {
    var w', q := WithoutSpecific(w), Q.Query("policy", cluster, None, namespace);
    hide Q.Selected, Q.Ids, Like;
    forall id ensures id in Excuse(w', cluster, namespace, name) <==> id in Excuse(w, cluster, namespace, name) {
      Q.QuerySelectsWhatApplies(w.exceptions, q, w.today, id);
      Q.QuerySelectsWhatApplies(w'.exceptions, q, w.today, id);
    }
  }

  lemma {:induction false} ScansAlike(w: World, l: Listing, req: Request, s: Scan, cs: seq<Container>)
    requires R.HostsDisjoint(w.registries)
    ensures ScanAll(WithoutSpecific(w), l, req, s, cs) == ScanAll(w, l, req, s, cs)
    decreases |cs|
  {
    if cs != [] && s.error.None? {
      SpecificNeverExcuse(w, req.cluster, req.namespace, NameOf(cs[0]));
      hide Excuse;
      ScansAlike(w, l, req, ScanOne(w, l, req, s, cs[0]), cs[1..]);
    }
  }

  /** Exceptions for one issue or one scanner have no influence on any reply. */
  lemma SpecificDecideNothing(w: World, l: Listing, req: Request, images: seq<Image>)
    requires R.HostsDisjoint(w.registries)
    ensures Decide(WithoutSpecific(w), l, req, images) == Decide(w, l, req, images)
  {
    ScansAlike(w, l, req, Scan(images, [], [], None), req.containers);
  }

  // ---------- asking again ----------

  /** The first of the containers without a stored image, if any, gets one. */
  ghost predicate StoresFirst(w: World, l: Listing, req: Request, images: seq<Image>, cs: seq<Container>)
    requires R.HostsDisjoint(w.registries)
  {
    cs != [] &&
    if ImageOf(w, l, req, images, cs[0]).Some? then StoresFirst(w, l, req, images, cs[1..])
    else !NameTaken(images, req.cluster, cs[0].host, NameOf(cs[0]), TagOf(cs[0].tag))
  }

  /** A request that will store an image in a cluster that has no policy for it. */
  ghost predicate StoresInVain(w: World, l: Listing, req: Request, images: seq<Image>)
    requires R.HostsDisjoint(w.registries)
  {
    req.enforced && req.cluster !in w.policed && StoresFirst(w, l, req, images, req.containers)
  }

  lemma {:induction false} ScanFailsInVain(w: World, l: Listing, req: Request, s: Scan, cs: seq<Container>)
    requires R.HostsDisjoint(w.registries) && s.error.None?
    ensures var p := ScanAll(w, l, req, s, cs);
      && (p.error == Some(NoPolicy) <==> req.cluster !in w.policed && StoresFirst(w, l, req, s.images, cs))
      && (p.error == Some(NoPolicy) ==> p.images != s.images)
    decreases |cs|
  {
    if cs != [] {
      var s1 := ScanOne(w, l, req, s, cs[0]);
      if s1.error.None? {
        ScanFailsInVain(w, l, req, s1, cs[1..]);
      }
    }
  }

  /** A request fails for want of a policy exactly when it stores an image in vain. */
  lemma FailsInVain(w: World, l: Listing, req: Request, images: seq<Image>)
    requires R.HostsDisjoint(w.registries)
    ensures Decide(w, l, req, images).0 == Err(NoPolicy) <==> StoresInVain(w, l, req, images)
    ensures Decide(w, l, req, images).0 == Err(NoPolicy) ==> Decide(w, l, req, images).1 != images
  {
    ScanFailsInVain(w, l, req, Scan(images, [], [], None), req.containers);
  }

  /** Asking again, with no scan, policy, registry or exception changed in between, gives the
      same answer and stores no further image, in whatever order the database lists aliases,
      exactly when the first request does not store an image in vain. The answer alone is the
      same also when both do. */
  lemma AskingAgain(w: World, l1: Listing, l2: Listing, req: Request, images: seq<Image>)
    requires R.HostsDisjoint(w.registries) && Lists(w.registries, l1) && Lists(w.registries, l2)
    requires OrderFree(w.registries, images, l1, l2)
    ensures var first := Decide(w, l1, req, images);
      var second := Decide(w, l2, req, first.1);
      && (second == first <==> !StoresInVain(w, l1, req, images))
      && (second.0 == first.0 <==> (StoresInVain(w, l1, req, images) ==> StoresInVain(w, l2, req, first.1)))
  {
    var first := Decide(w, l1, req, images);
    FailsInVain(w, l1, req, images);
    FailsInVain(w, l2, req, first.1);
    if !StoresInVain(w, l1, req, images) && req.enforced {
      ScanAgain(w, l1, l2, req, Scan(images, [], [], None), req.containers);
    }
  }

  ghost function EmptyWorld(): World {
    World(R.Tables(map[], map[]), {}, E.Tables(map[], {}, {}, {}), 0, (_, _) => false, _ => Compliance(true, ""))
  }

  ghost function NoAliases(): Listing {
    _ => []
  }

  const ONE_POD := Request(1, true, "default", [Container("docker.io", "", "nginx", "")])

  /** A new image in a cluster without a policy: the first request fails, the second is
      answered with a refusal. */
  lemma SecondAnswerDiffers()
    ensures var w, none := EmptyWorld(), NoAliases();
      var first := Decide(w, none, ONE_POD, []);
      && R.HostsDisjoint(w.registries) && Lists(w.registries, none) && StoresInVain(w, none, ONE_POD, [])
      && first.0 == Err(NoPolicy)
      && first.1 == [Image(0, 1, "docker.io", "nginx", "latest", "", None)]
      && Decide(w, none, ONE_POD, first.1) ==
           (Ok(Reply(false, Some("Blocked by m9sweeper: pod contains unscanned image(s): " + "nginx"))), first.1)
  {
    var w, none := EmptyWorld(), NoAliases();
    var c, s := ONE_POD.containers[0], Scan([], [], [], None);
    var image := Image(0, 1, "docker.io", "nginx", "latest", "", None);
    KnownNowhere(w, none, c.host);
    assert ONE_POD.containers[1..] == [] && [image][..0] == [];
    assert FirstImage([], 1, [], "nginx", "latest") == None;
    assert FirstImage([], 1, ["docker.io"], "nginx", "latest") == None;
    assert FirstImage([image], 1, ["docker.io"], "nginx", "latest") == Some(image);
    hide FirstImage, HostsToCheck, Excuse;
    assert NameOf(c) == "nginx" && TagOf(c.tag) == "latest";
    assert ScanOne(w, none, ONE_POD, s, c) == Scan([image], [], [], Some(NoPolicy));
    assert ScanAll(w, none, ONE_POD, s, ONE_POD.containers) == Scan([image], [], [], Some(NoPolicy));
    assert ScanOne(w, none, ONE_POD, s.(images := [image]), c) == Scan([image], [], ["nginx"], None);
    assert ScanAll(w, none, ONE_POD, s.(images := [image]), ONE_POD.containers) == Scan([image], [], ["nginx"], None);
    FailsInVain(w, none, ONE_POD, []);
    assert Join(["nginx"], ", ") == "nginx";
  }

  lemma KnownNowhere(w: World, none: Listing, host: string)
    requires w == EmptyWorld()
    ensures HostsToCheck(w.registries, host, none) == [host]
    ensures Excuse(w, 1, "default", "nginx") == {}
  {
    assert Known(w.registries, host) == {};
  }
}
