/** Tag bookkeeping on the image server: DataManagement.addTag/addTags and
    LocalSender.sendTags, which run the same three server calls per tag and
    log instead of propagating a failure. */
module Tags {

  /** The server as tag application sees it: the tag names available to the
      user (duplicates allowed, as the server allows them), and the tag names
      linked to each image id. */
  datatype Server = Server(catalog: seq<string>, links: map<int, seq<string>>)

  /** Which server call of one tag application fails: listing the available
      tags, reading the image's tags, or linking the tag. */
  datatype Fault = NoFault | CatalogFails | ReadFails | LinkFails

  /** Linked(created): the tag was linked, through a new tag object when
      `created`; AlreadyLinked: a tag of that name was on the image; NotLinked:
      a server call failed and the failure was logged. */
  datatype TagOutcome = Linked(created: bool) | AlreadyLinked | NotLinked

  datatype Applied = Applied(server: Server, outcome: TagOutcome)

  /** One tag application: list the available tags, read the image's tags,
      and link the tag (reusing an available one with that name, or a new one)
      unless a tag of that name is already on the image. */
  function AddTag(srv: Server, image: int, tag: string, fault: Fault): (r: Applied)
    requires image in srv.links
    ensures r.server.links.Keys == srv.links.Keys
    ensures forall other :: other in srv.links && other != image ==> r.server.links[other] == srv.links[other]
    ensures r.outcome == AlreadyLinked <==> fault != CatalogFails && fault != ReadFails && tag in srv.links[image]
    ensures r.outcome == NotLinked <==>
      fault == CatalogFails || fault == ReadFails || (fault == LinkFails && tag !in srv.links[image])
    ensures !r.outcome.Linked? ==> r.server == srv
    ensures r.outcome.Linked? ==>
      && tag !in srv.links[image]
      && r.server.links[image] == srv.links[image] + [tag]
      && (r.outcome.created <==> tag !in srv.catalog)
      && r.server.catalog == (if r.outcome.created then srv.catalog + [tag] else srv.catalog)
  {
    if fault == CatalogFails || fault == ReadFails then Applied(srv, NotLinked)
    else if tag in srv.links[image] then Applied(srv, AlreadyLinked)
    else if fault == LinkFails then Applied(srv, NotLinked)
    else
      var created := tag !in srv.catalog;
      var catalog := if created then srv.catalog + [tag] else srv.catalog;
      Applied(Server(catalog, srv.links[image := srv.links[image] + [tag]]), Linked(created))
  }

  /** Applying a tag a second time changes nothing: addTag is idempotent. */
  lemma AddTagIdempotent(srv: Server, image: int, tag: string)
    requires image in srv.links
    ensures var once := AddTag(srv, image, tag, NoFault);
            AddTag(once.server, image, tag, NoFault) == Applied(once.server, AlreadyLinked)
  {
  }

  /** addTags / sendTags: every tag in list order, each with its own fault;
      a failure on one tag is logged and the next tag is still tried. */
  function AddTags(srv: Server, image: int, tags: seq<string>, faults: seq<Fault>): (r: Server)
    requires image in srv.links && |faults| == |tags|
    ensures r.links.Keys == srv.links.Keys
    ensures forall other :: other in srv.links && other != image ==> r.links[other] == srv.links[other]
    ensures |srv.links[image]| <= |r.links[image]| && r.links[image][..|srv.links[image]|] == srv.links[image]
    ensures forall k :: |srv.links[image]| <= k < |r.links[image]| ==> r.links[image][k] in tags
    ensures forall i :: 0 <= i < |tags| && faults[i] == NoFault ==> tags[i] in r.links[image]
    ensures LinkedOnce(srv.links[image], r.links[image])
    decreases |tags|
  {
    if |tags| == 0 then srv
    else
      var step := AddTag(srv, image, tags[0], faults[0]);
      var r := AddTags(step.server, image, tags[1..], faults[1..]);
      assert forall i :: 1 <= i < |tags| ==> tags[i] == tags[1..][i - 1] && faults[i] == faults[1..][i - 1];
      LinkedOnceStep(srv.links[image], step.server.links[image], r.links[image]);
      r
  }

  /** `after` extends `before`, and what was added is neither on the image
      before nor added twice: each tag is applied at most once. */
  predicate LinkedOnce(before: seq<string>, after: seq<string>) {
    && |before| <= |after|
    && (forall k :: |before| <= k < |after| ==> after[k] !in before)
    && (forall k, m :: |before| <= k < m < |after| ==> after[k] != after[m])
  }

  lemma LinkedOnceStep(a: seq<string>, b: seq<string>, c: seq<string>)
    requires |a| <= |b| && b[..|a|] == a && (b == a || (|b| == |a| + 1 && b[|a|] !in a))
    requires |b| <= |c| && c[..|b|] == b && LinkedOnce(b, c)
    ensures LinkedOnce(a, c)
  {
    forall k | |a| <= k < |c| ensures c[k] !in a {
      if k >= |b| {
        assert c[k] !in b;
        assert forall x :: x in a ==> x in b by {
          forall x | x in a ensures x in b {
            var j :| 0 <= j < |a| && a[j] == x;
            assert b[j] == x;
          }
        }
      } else {
        assert c[k] == b[k];
      }
    }
    forall k, m | |a| <= k < m < |c| ensures c[k] != c[m] {
      if k < |b| {
        assert k == |a| && c[k] == b[|a|];
        assert c[m] !in b;
      }
    }
  }

  /** With no failures, applying a list of tags twice equals applying it once. */
  lemma {:induction false} AddTagsIdempotent(srv: Server, image: int, tags: seq<string>, faults: seq<Fault>)
    requires image in srv.links && |faults| == |tags|
    requires forall i :: 0 <= i < |tags| ==> faults[i] == NoFault
    ensures var once := AddTags(srv, image, tags, faults);
            AddTags(once, image, tags, faults) == once
  {
    var once := AddTags(srv, image, tags, faults);
    AllPresentUnchanged(once, image, tags, faults);
  }

  /** Tags already on the image are left alone. */
  lemma {:induction false} AllPresentUnchanged(srv: Server, image: int, tags: seq<string>, faults: seq<Fault>)
    requires image in srv.links && |faults| == |tags|
    requires forall i :: 0 <= i < |tags| ==> faults[i] == NoFault && tags[i] in srv.links[image]
    ensures AddTags(srv, image, tags, faults) == srv
    decreases |tags|
  {
    if |tags| > 0 {
      assert AddTag(srv, image, tags[0], faults[0]).server == srv;
      assert forall i :: 1 <= i < |tags| ==> tags[i] == tags[1..][i - 1] && faults[i] == faults[1..][i - 1];
      AllPresentUnchanged(srv, image, tags[1..], faults[1..]);
    }
  }
}
