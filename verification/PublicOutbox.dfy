/** Reading a public outbox page by page: src/recommendation/activitypub-public-outbox-source-adapter.ts. */
module PublicOutbox {
  import opened Options
  import opened OutboxCursor

  // ---------------------------------------------------------------- public activities

  /** A recipient field: a name, an object with or without a text id, a list of fields, or anything else. */
  datatype Recipients = Name(text: string) | Object(id: Option<string>) | Several(items: seq<Recipients>) | Unknown

  datatype Addressing = Addressing(to: Recipients, cc: Recipients, audience: Recipients)

  /** The actor is absent where the link to it is malformed, and `about`, its object, where that is no record. */
  datatype Activity = Activity(actor: Option<string>, addressing: Addressing, about: Option<Addressing>)

  const PUBLIC_RECIPIENTS := {"https://www.w3.org/ns/activitystreams#Public", "as:Public", "Public"}

  predicate PublicRecipient(r: Recipients) {
    match r
    case Name(text) => text in PUBLIC_RECIPIENTS
    case Object(id) => id.Some? && id.value in PUBLIC_RECIPIENTS
    case Several(items) => exists i :: 0 <= i < |items| && PublicRecipient(items[i])
    case Unknown => false
  }

  predicate AddressesPublic(a: Addressing) {
    PublicRecipient(a.to) || PublicRecipient(a.cc) || PublicRecipient(a.audience)
  }

  predicate IsExplicitlyPublic(a: Activity) {
    AddressesPublic(a.addressing) || (a.about.Some? && AddressesPublic(a.about.value))
  }

  /** All names and ids in a field, at any depth. */
  ghost function NamesIn(r: Recipients): set<string> {
    match r
    case Name(text) => {text}
    case Object(id) => if id.Some? then {id.value} else {}
    case Several(items) => set i, name | 0 <= i < |items| && name in NamesIn(items[i]) :: name
    case Unknown => {}
  }

  /** A field addresses the public exactly when one of the public names occurs in it at any depth. */
  lemma {:induction false} PublicRecipientNames(r: Recipients)
    ensures PublicRecipient(r) <==> exists name :: name in PUBLIC_RECIPIENTS && name in NamesIn(r)
  {
    if r.Several? {
      forall i | 0 <= i < |r.items|
        ensures PublicRecipient(r.items[i]) <==> exists name :: name in PUBLIC_RECIPIENTS && name in NamesIn(r.items[i])
      {
        PublicRecipientNames(r.items[i]);
      }
    }
  }

  /** One of the three names of the public, of section 5.6 of ActivityPub, occurs in the field at some depth. */
  ghost predicate NamesPublic(r: Recipients) {
    || "https://www.w3.org/ns/activitystreams#Public" in NamesIn(r)
    || "as:Public" in NamesIn(r)
    || "Public" in NamesIn(r)
  }

  /** The public is named in one of the three fields of the activity, or of its object. */
  ghost predicate NamedPublic(a: Activity) {
    || NamesPublic(a.addressing.to) || NamesPublic(a.addressing.cc) || NamesPublic(a.addressing.audience)
    || (a.about.Some? &&
        (NamesPublic(a.about.value.to) || NamesPublic(a.about.value.cc) || NamesPublic(a.about.value.audience)))
  }

  lemma FieldNamesPublic(r: Recipients)
    ensures PublicRecipient(r) <==> NamesPublic(r)
  {
    PublicRecipientNames(r);
  }

  /** An activity is taken for public exactly when it, or its object, is addressed to one of the public names. */
  lemma PublicExactlyWhenNamed(a: Activity)
    ensures IsExplicitlyPublic(a) <==> NamedPublic(a)
  {
    FieldNamesPublic(a.addressing.to);
    FieldNamesPublic(a.addressing.cc);
    FieldNamesPublic(a.addressing.audience);
    if a.about.Some? {
      FieldNamesPublic(a.about.value.to);
      FieldNamesPublic(a.about.value.cc);
      FieldNamesPublic(a.about.value.audience);
    }
  }

  /** The explicitly public ones among the items from one index up to another. */
  function PublicIn(items: seq<Activity>, begin: nat, end: nat): seq<Activity>
    requires begin <= end <= |items|
    decreases end
  {
    if begin == end then []
    else PublicIn(items, begin, end - 1) + (if IsExplicitlyPublic(items[end - 1]) then [items[end - 1]] else [])
  }

  lemma {:induction false} PublicMembers(items: seq<Activity>, begin: nat, end: nat, a: Activity)
    requires begin <= end <= |items|
    ensures a in PublicIn(items, begin, end) <==> NamedPublic(a) && exists k :: begin <= k < end && items[k] == a
    decreases end
  {
    if begin < end {
      PublicMembers(items, begin, end - 1, a);
      PublicExactlyWhenNamed(items[end - 1]);
    }
  }

  /** These are the items at these places, in order, and the places are exactly those of items that are named public. */
  ghost predicate AtPlaces(items: seq<Activity>, begin: nat, end: nat, found: seq<Activity>, places: seq<nat>)
    requires begin <= end <= |items|
  {
    && |places| == |found|
    && (forall k :: 0 <= k < |places| ==> begin <= places[k] < end && found[k] == items[places[k]])
    && (forall j, k :: 0 <= j < k < |places| ==> places[j] < places[k])
    && (forall i :: begin <= i < end ==> (i in places <==> NamedPublic(items[i])))
  }

  /** Each item that is named public is there once, in its place in the order, and no other is. */
  lemma {:induction false} PublicPlaces(items: seq<Activity>, begin: nat, end: nat) returns (places: seq<nat>)
    requires begin <= end <= |items|
    ensures AtPlaces(items, begin, end, PublicIn(items, begin, end), places)
    decreases end
  {
    if begin == end {
      places := [];
    } else {
      places := PublicPlaces(items, begin, end - 1);
      PublicExactlyWhenNamed(items[end - 1]);
      OneMorePlace(items, begin, end, PublicIn(items, begin, end - 1), places);
      if NamedPublic(items[end - 1]) {
        places := places + [end - 1];
      } else {
        assert PublicIn(items, begin, end - 1) + [] == PublicIn(items, begin, end - 1);
      }
    }
  }

  lemma OneMorePlace(items: seq<Activity>, begin: nat, end: nat, before: seq<Activity>, places: seq<nat>)
    requires begin < end <= |items| && AtPlaces(items, begin, end - 1, before, places)
    ensures AtPlaces(items, begin, end, if NamedPublic(items[end - 1]) then before + [items[end - 1]] else before,
              if NamedPublic(items[end - 1]) then places + [end - 1] else places)
  {
    forall i | begin <= i < end
      ensures i in places + [end - 1] <==> i in places || i == end - 1
    {
    }
  }

  lemma {:induction false} PublicSplit(items: seq<Activity>, begin: nat, mid: nat, end: nat)
    requires begin <= mid <= end <= |items|
    ensures PublicIn(items, begin, end) == PublicIn(items, begin, mid) + PublicIn(items, mid, end)
    decreases end
  {
    if mid < end {
      PublicSplit(items, begin, mid, end - 1);
    }
  }

  /** Items in a longer list, reading its second part. */
  lemma {:induction false} PublicAcross(a: seq<Activity>, b: seq<Activity>, begin: nat, end: nat)
    requires begin <= |a| && end <= |b|
    ensures PublicIn(a + b, begin, |a| + end) == PublicIn(a, begin, |a|) + PublicIn(b, 0, end)
    decreases end
  {
    if end > 0 {
      PublicAcross(a, b, begin, end - 1);
    } else {
      PublicPrefix(a, b, begin, |a|);
    }
  }

  lemma {:induction false} PublicPrefix(a: seq<Activity>, b: seq<Activity>, begin: nat, end: nat)
    requires begin <= end <= |a|
    ensures PublicIn(a + b, begin, end) == PublicIn(a, begin, end)
    decreases end
  {
    if begin < end {
      PublicPrefix(a, b, begin, end - 1);
    }
  }

  // ---------------------------------------------------------------- the site

  datatype Kind = NotCollection | Collection | Page

  /** A link may carry a copy of what it leads to. */
  datatype Reference = Absent | Malformed | Link(url: Url, inline: Option<Body>)

  /** The items are absent where they are ambiguous or malformed. */
  datatype Body = Body(
    kind: Kind, id: Option<Url>, partOf: Option<Url>, first: Reference, items: Option<seq<Activity>>, next: Reference)

  type Site = map<Url, Body>

  datatype Config = Config(
    origin: string, actorUrl: string, outbox: Url, maxActivities: nat, maxPages: nat, maxItems: nat,
    legacy: string -> Option<Position>, other: string -> Option<Url>)

  predicate Positive(c: Config) {
    c.maxActivities >= 1 && c.maxPages >= 1 && c.maxItems >= 1
  }

  function Decode(c: Config, cursor: string): Option<Position> {
    DecodeCursor(cursor, c.origin, c.legacy, c.other)
  }

  predicate PartOfOutbox(c: Config, body: Body) {
    body.partOf.None? || body.partOf.value == c.outbox
  }

  datatype Onward = Nowhere | Wrong | To(url: Url, inline: Option<Body>)

  /** Where a link leads: on the same origin, with its copy if that is a page. */
  function Target(c: Config, r: Reference): Onward {
    match r
    case Absent => Nowhere
    case Malformed => Wrong
    case Link(url, inline) =>
      if url.host != c.origin then Wrong
      else To(url, if inline.Some? && inline.value.kind.Page? then inline else None)
  }

  datatype Result = Records(records: seq<Activity>, cursor: Option<string>) | Refused

  // ---------------------------------------------------------------- chains of pages

  function Items(site: Site, url: Url): seq<Activity> {
    if url in site && site[url].items.Some? then site[url].items.value else []
  }

  /** A link to the next page; a copy it carries is what the page itself would be. */
  ghost predicate LeadsTo(c: Config, site: Site, r: Reference, next: Option<Url>) {
    if next.None? then r.Absent?
    else
      && r.Link? && r.url == next.value && r.url.host == c.origin
      && (r.inline.Some? && r.inline.value.kind.Page? ==>
            r.url in site && site[r.url] == r.inline.value && PartOfOutbox(c, r.inline.value))
  }

  ghost predicate GoodPage(c: Config, site: Site, url: Url, next: Option<Url>) {
    url in site &&
    var body := site[url];
    && (body.id.Some? ==> body.id.value == url)
    && (if body.kind.Page? then PartOfOutbox(c, body) else body.kind.Collection? && url == c.outbox && body.first.Absent?)
    && body.items.Some? && |body.items.value| <= c.maxItems
    && (forall a :: a in body.items.value ==> a.actor == Some(c.actorUrl))
    && LeadsTo(c, site, body.next, next)
  }

  /** Every cursor into the page leads back to it. */
  ghost predicate Addressable(c: Config, url: Url) {
    && Normal(url) && !("//" <= url.path) && url.query != Some("")
    && forall offset: nat {:trigger EncodeCursor(Position(url, offset), c.origin)} ::
         offset <= c.maxItems ==> EncodeCursor(Position(url, offset), c.origin).Some?
  }

  predicate Distinct(chain: seq<Url>) {
    chain == [] || (chain[|chain| - 1] !in chain[..|chain| - 1] && Distinct(chain[..|chain| - 1]))
  }

  function Next(chain: seq<Url>, i: nat): Option<Url>
    requires i < |chain|
  {
    if i + 1 < |chain| then Some(chain[i + 1]) else None
  }

  ghost predicate GoodAt(c: Config, site: Site, chain: seq<Url>, i: nat)
    requires i < |chain|
  {
    GoodPage(c, site, chain[i], Next(chain, i)) && Addressable(c, chain[i])
  }

  /** The outbox is the first page itself, or a collection that names it. */
  ghost predicate Rooted(c: Config, site: Site, first: Url) {
    c.outbox == first ||
    (c.outbox in site &&
     var body := site[c.outbox];
     && body.kind.Collection? && (body.id.Some? ==> body.id.value == c.outbox)
     && !body.first.Absent? && LeadsTo(c, site, body.first, Some(first)))
  }

  /** From the outbox, pages without repetition, each linking to the next and the last to none. */
  ghost predicate IsChain(c: Config, site: Site, chain: seq<Url>) {
    && chain != [] && Distinct(chain)
    && c.maxItems <= MAX_SAFE_INTEGER
    && (forall i {:trigger GoodAt(c, site, chain, i)} :: 0 <= i < |chain| ==> GoodAt(c, site, chain, i))
    && Rooted(c, site, chain[0]) && (c.outbox != chain[0] ==> c.outbox !in chain)
  }

  /** The public activities from item o of page i on. */
  function Rest(site: Site, chain: seq<Url>, i: nat, o: nat): seq<Activity>
    requires i < |chain| ==> o <= |Items(site, chain[i])|
    decreases |chain| - i
  {
    if i >= |chain| then []
    else PublicIn(Items(site, chain[i]), o, |Items(site, chain[i])|) + Rest(site, chain, i + 1, 0)
  }

  ghost predicate InChain(site: Site, chain: seq<Url>, i: nat, o: nat) {
    i < |chain| && o <= |Items(site, chain[i])|
  }

  /** A read with this cursor starts at item o of page i. */
  ghost predicate StartsAt(c: Config, site: Site, chain: seq<Url>, cursor: Option<string>, i: nat, o: nat) {
    && InChain(site, chain, i, o)
    && if cursor.None? then i == 0 && o == 0 else Decode(c, cursor.value) == Some(Position(chain[i], o))
  }

  /** The cursor leads strictly on, to where exactly the records have been passed. */
  ghost predicate Continues(
      c: Config, site: Site, chain: seq<Url>, i: nat, o: nat, records: seq<Activity>, cursor: string, j: nat, p: nat)
  {
    && StartsAt(c, site, chain, Some(cursor), j, p) && InChain(site, chain, i, o)
    && (i < j || (i == j && o < p))
    && Rest(site, chain, i, o) == records + Rest(site, chain, j, p)
  }

  /** No more than the limit; all that is left if there is no cursor; with a cursor, it was the limit or the page cap. */
  ghost predicate Serves(c: Config, site: Site, chain: seq<Url>, i: nat, o: nat, limit: nat, r: Result) {
    && InChain(site, chain, i, o)
    && r.Records? && |r.records| <= limit
    && (r.cursor.None? ==> r.records == Rest(site, chain, i, o))
    && (r.cursor.Some? ==>
          exists j, p {:trigger Continues(c, site, chain, i, o, r.records, r.cursor.value, j, p)} ::
            && Continues(c, site, chain, i, o, r.records, r.cursor.value, j, p)
            && (|r.records| == limit || (j == i + c.maxPages && p == 0)))
  }

  lemma {:induction false} NotBefore(chain: seq<Url>, j: nat)
    requires Distinct(chain) && j < |chain|
    ensures chain[j] !in chain[..j]
  {
    if j < |chain| - 1 {
      NotBefore(chain[..|chain| - 1], j);
      assert chain[..|chain| - 1][..j] == chain[..j];
    }
  }

  lemma EncodedDecodes(c: Config, url: Url, offset: nat)
    requires Addressable(c, url) && offset <= c.maxItems <= MAX_SAFE_INTEGER
    ensures EncodeCursor(Position(url, offset), c.origin).Some?
    ensures Decode(c, EncodeCursor(Position(url, offset), c.origin).value) == Some(Position(url, offset))
  {
    CursorRoundTrip(Position(url, offset), c.origin, c.legacy, c.other);
  }

  lemma RestFrom(site: Site, chain: seq<Url>, j: nat, from: nat, to: nat)
    requires InChain(site, chain, j, to) && from <= to
    ensures Rest(site, chain, j, from) == PublicIn(Items(site, chain[j]), from, to) + Rest(site, chain, j, to)
    ensures to == |Items(site, chain[j])| ==> Rest(site, chain, j, to) == Rest(site, chain, j + 1, 0)
  {
    var items := Items(site, chain[j]);
    PublicSplit(items, from, to, |items|);
    var part, later, onward := PublicIn(items, from, to), PublicIn(items, to, |items|), Rest(site, chain, j + 1, 0);
    assert (part + later) + onward == part + (later + onward);
  }

  // ---------------------------------------------------------------- reading

  function Requested(c: Config, limit: Option<nat>): nat {
    if limit.Some? && limit.value < c.maxActivities then limit.value else c.maxActivities
  }

  /** The page itself, from the copy at hand or the transport, if it is a collection under its own name. */
  method Fetch(c: Config, site: Site, url: Url, inlinePage: Option<(Url, Body)>) returns (body: Option<Body>)
    ensures body.Some? ==> !body.value.kind.NotCollection? && (body.value.id.Some? ==> body.value.id.value == url)
    ensures
      url in site && (inlinePage.Some? ==> inlinePage.value == (url, site[url]))
      && !site[url].kind.NotCollection? && (site[url].id.Some? ==> site[url].id.value == url)
      ==> body == Some(site[url])
  {
    if inlinePage.Some? && inlinePage.value.0 == url {
      body := Some(inlinePage.value.1);
    } else {
      body := if url in site then Some(site[url]) else None;
    }
    if body.Some? && (body.value.kind.NotCollection? || (body.value.id.Some? && body.value.id.value != url)) {
      body := None;
    }
  }

  /** Follows a link to the next page, and checks the copy it carries. */
  method Follow(c: Config, site: Site, r: Reference, ghost next: Option<Url>)
    returns (ok: bool, pageUrl: Option<Url>, inlinePage: Option<(Url, Body)>)
    ensures inlinePage.Some? ==> pageUrl == Some(inlinePage.value.0)
    ensures pageUrl.Some? ==> pageUrl.value.host == c.origin
    ensures LeadsTo(c, site, r, next) ==> ok && pageUrl == next && CopyAgrees(site, inlinePage)
  {
    ok, pageUrl, inlinePage := true, None, None;
    match Target(c, r) {
      case Nowhere =>
      case Wrong => ok := false;
      case To(url, inline) =>
        pageUrl := Some(url);
        if inline.Some? {
          ok := PartOfOutbox(c, inline.value);
          inlinePage := Some((url, inline.value));
        }
    }
  }

  predicate CopyAgrees(site: Site, inlinePage: Option<(Url, Body)>) {
    inlinePage.Some? ==> inlinePage.value.0 in site && site[inlinePage.value.0] == inlinePage.value.1
  }

  /** Takes public activities from an offset on until there are enough; any activity of another actor is an error. */
  method TakePublic(c: Config, items: seq<Activity>, offset: nat, room: nat)
    returns (ok: bool, taken: seq<Activity>, stop: nat)
    requires offset <= |items| && room >= 1
    ensures ok ==> offset <= stop <= |items| && taken == PublicIn(items, offset, stop) && |taken| <= room
    ensures ok ==> if |taken| < room then stop == |items| else offset < stop && IsExplicitlyPublic(items[stop - 1])
    ensures ok ==> forall k :: offset <= k < stop ==> items[k].actor == Some(c.actorUrl)
    ensures !ok ==> exists k :: offset <= k < |items| && items[k].actor != Some(c.actorUrl)
  {
    taken := [];
    stop := offset;
    while stop < |items|
      invariant offset <= stop <= |items| && taken == PublicIn(items, offset, stop) && |taken| < room
      invariant forall k :: offset <= k < stop ==> items[k].actor == Some(c.actorUrl)
    {
      var activity := items[stop];
      if activity.actor != Some(c.actorUrl) {
        return false, taken, stop;
      }
      if IsExplicitlyPublic(activity) {
        taken := taken + [activity];
      }
      stop := stop + 1;
      if |taken| >= room {
        return true, taken, stop;
      }
    }
    ok := true;
  }

  /** The items of several pages in order. */
  function AllItems(bodies: seq<Body>): seq<Activity> {
    if bodies == [] then []
    else
      var last := bodies[|bodies| - 1];
      AllItems(bodies[..|bodies| - 1]) + (if last.items.Some? then last.items.value else [])
  }

  function StartOffset(c: Config, cursor: Option<string>): nat {
    if cursor.Some? && Decode(c, cursor.value).Some? then Decode(c, cursor.value).value.offset else 0
  }

  /** The records are the public items of these pages from the start up to some point. */
  ghost predicate TakenFrom(start: nat, bodies: seq<Body>, records: seq<Activity>, upTo: nat) {
    if bodies == [] then records == []
    else start <= upTo <= |AllItems(bodies)| && records == PublicIn(AllItems(bodies), start, upTo)
  }

  lemma AllItemsMore(bodies: seq<Body>, body: Body)
    requires body.items.Some?
    ensures AllItems(bodies + [body]) == AllItems(bodies) + body.items.value
  {
    assert (bodies + [body])[..|bodies|] == bodies;
  }

  lemma DistinctMore(urls: seq<Url>, url: Url)
    requires Distinct(urls) && url !in urls
    ensures Distinct(urls + [url])
  {
    assert (urls + [url])[..|urls|] == urls;
  }

  /** One more page, taken up to some item, after pages that were taken whole. */
  lemma TakenMore(start: nat, bodies: seq<Body>, records: seq<Activity>, body: Body, offset: nat, stop: nat)
    requires TakenFrom(start, bodies, records, |AllItems(bodies)|)
    requires body.items.Some? && offset <= stop <= |body.items.value| && offset == if bodies == [] then start else 0
    ensures TakenFrom(start, bodies + [body], records + PublicIn(body.items.value, offset, stop), |AllItems(bodies)| + stop)
  {
    var before, items := AllItems(bodies), body.items.value;
    AllItemsMore(bodies, body);
    if bodies == [] {
      assert AllItems([body]) == items by {
        assert [] + items == items;
      }
    } else {
      PublicAcross(before, items, start, stop);
    }
  }

  /** Where a read that started at (i, o) of a chain is now. */
  ghost predicate OnTrack(site: Site, chain: seq<Url>, i: nat, o: nat, records: seq<Activity>, j: nat, offset: nat) {
    && InChain(site, chain, i, o) && i <= j <= |chain| && (j == |chain| || InChain(site, chain, j, offset))
    && (i == j ==> offset == o && records == []) && (i < j ==> offset == 0)
    && Rest(site, chain, i, o) == records + Rest(site, chain, j, offset)
  }

  /** No page from j on has been visited. */
  ghost predicate Unvisited(chain: seq<Url>, j: nat, visited: set<Url>)
    requires j <= |chain|
  {
    forall u :: u in visited ==> u !in chain || u in chain[..j]
  }

  lemma GoodHere(c: Config, site: Site, chain: seq<Url>, j: nat)
    requires IsChain(c, site, chain) && j < |chain|
    ensures GoodPage(c, site, chain[j], Next(chain, j)) && Addressable(c, chain[j])
    ensures Items(site, chain[j]) == site[chain[j]].items.value
  {
    assert GoodAt(c, site, chain, j);
  }

  /** A page of the chain that has not been visited is taken from the offset up to some item. */
  lemma TrackTaken(c: Config, site: Site, chain: seq<Url>, i: nat, o: nat, records: seq<Activity>, j: nat, offset: nat, stop: nat)
    requires IsChain(c, site, chain) && j < |chain| && OnTrack(site, chain, i, o, records, j, offset)
    requires offset <= stop <= |Items(site, chain[j])|
    ensures var taken := records + PublicIn(Items(site, chain[j]), offset, stop);
      && Rest(site, chain, i, o) == taken + Rest(site, chain, j, stop)
      && (stop == |Items(site, chain[j])| ==> OnTrack(site, chain, i, o, taken, j + 1, 0))
  {
    RestFrom(site, chain, j, offset, stop);
    var part := PublicIn(Items(site, chain[j]), offset, stop);
    var rest := Rest(site, chain, j, stop);
    assert records + (part + rest) == records + part + rest;
  }

  lemma VisitedOneMore(c: Config, site: Site, chain: seq<Url>, j: nat, visited: set<Url>)
    requires IsChain(c, site, chain) && j < |chain| && Unvisited(chain, j, visited)
    ensures chain[j] !in visited && Unvisited(chain, j + 1, visited + {chain[j]})
  {
    NotBefore(chain, j);
    assert chain[..j + 1] == chain[..j] + [chain[j]];
  }

  /** Going on where the records end is what a cursor to there promises. */
  lemma CursorServes(c: Config, site: Site, chain: seq<Url>, i: nat, o: nat, limit: nat, records: seq<Activity>, j: nat, p: nat)
    requires IsChain(c, site, chain) && InChain(site, chain, i, o) && InChain(site, chain, j, p)
    requires i < j || (i == j && o < p)
    requires Rest(site, chain, i, o) == records + Rest(site, chain, j, p)
    requires |records| == limit || (|records| < limit && j == i + c.maxPages && p == 0)
    ensures EncodeCursor(Position(chain[j], p), c.origin).Some?
    ensures Serves(c, site, chain, i, o, limit, Records(records, EncodeCursor(Position(chain[j], p), c.origin)))
  {
    GoodHere(c, site, chain, j);
    EncodedDecodes(c, chain[j], p);
    var cursor := EncodeCursor(Position(chain[j], p), c.origin).value;
    assert Continues(c, site, chain, i, o, records, cursor, j, p);
  }

  // ---------------------------------------------------------------- the loop of a read

  /** The variables of the loop. */
  datatype Progress = Progress(
    pageUrl: Option<Url>, offset: nat, pages: nat, visited: set<Url>, records: seq<Activity>, inlinePage: Option<(Url, Body)>)

  datatype Turn = GoesOn(progress: Progress) | Ends(cursor: Option<string>, records: seq<Activity>) | Fails

  /** The pages a read has scanned. */
  datatype Trail = Trail(urls: seq<Url>, bodies: seq<Body>)

  /** The outbox or another URL of its origin. */
  predicate AtHome(c: Config, url: Option<Url>) {
    url.Some? ==> url.value == c.outbox || url.value.host == c.origin
  }

  /** A collection at home, under its own name: a page of the outbox, or the outbox where that has no first page. */
  predicate MayBeScanned(c: Config, url: Url, body: Body) {
    && (url == c.outbox || url.host == c.origin)
    && (body.id.Some? ==> body.id.value == url)
    && (if body.kind.Page? then body.partOf.None? || body.partOf.value == c.outbox
        else body.kind.Collection? && url == c.outbox && body.first.Absent?)
    && body.items.Some? && |body.items.value| <= c.maxItems
  }

  /** Only pages of the outbox were scanned, and every record is the actor's own and named public. */
  ghost predicate Clean(c: Config, t: Trail, records: seq<Activity>) {
    && |t.urls| == |t.bodies|
    && (forall k :: 0 <= k < |t.urls| ==> MayBeScanned(c, t.urls[k], t.bodies[k]))
    && (forall a :: a in records ==> a.actor == Some(c.actorUrl) && NamedPublic(a))
  }

  lemma CleanGrows(c: Config, t: Trail, records: seq<Activity>, url: Url, body: Body, offset: nat, stop: nat)
    requires Clean(c, t, records) && MayBeScanned(c, url, body) && offset <= stop <= |body.items.value|
    requires forall k :: offset <= k < stop ==> body.items.value[k].actor == Some(c.actorUrl)
    ensures Clean(c, Longer(t, url, body), records + PublicIn(body.items.value, offset, stop))
  {
    forall a | a in PublicIn(body.items.value, offset, stop)
      ensures a.actor == Some(c.actorUrl) && NamedPublic(a)
    {
      PublicMembers(body.items.value, offset, stop, a);
    }
  }

  ghost predicate Sane(c: Config, limit: nat, start: nat, t: Trail, p: Progress) {
    && |p.records| < limit
    && Distinct(t.urls) && p.pages == |t.urls| == |t.bodies| <= c.maxPages && (forall u :: u in t.urls ==> u in p.visited)
    && TakenFrom(start, t.bodies, p.records, |AllItems(t.bodies)|) && p.offset == (if t.bodies == [] then start else 0)
    && (p.inlinePage.Some? ==> p.pageUrl == Some(p.inlinePage.value.0))
  }

  /** About to fetch the outbox, which only names the first page. */
  ghost predicate AtRoot(c: Config, chain: seq<Url>, i: nat, o: nat, p: Progress)
    requires chain != []
  {
    c.outbox != chain[0] && i == o == 0 && p == Progress(Some(c.outbox), 0, 0, {}, [], None)
  }

  /** About to fetch page i + pages of the chain, or past its end. */
  ghost predicate Underway(site: Site, chain: seq<Url>, i: nat, o: nat, p: Progress) {
    var j := i + p.pages;
    && CopyAgrees(site, p.inlinePage) && OnTrack(site, chain, i, o, p.records, j, p.offset)
    && p.pageUrl == (if j < |chain| then Some(chain[j]) else None) && Unvisited(chain, j, p.visited)
  }

  ghost predicate Right(c: Config, site: Site, chain: seq<Url>, i: nat, o: nat, p: Progress) {
    IsChain(c, site, chain) && (AtRoot(c, chain, i, o, p) || Underway(site, chain, i, o, p))
  }

  function ResultOf(t: Turn): Result {
    if t.Ends? then Records(t.records, t.cursor) else Refused
  }

  /** The records end at item `stop` of page j, whose body this is. */
  ghost predicate EndsAt(c: Config, site: Site, chain: seq<Url>, i: nat, o: nat, records: seq<Activity>,
                         url: Url, body: Body, j: nat, stop: nat)
  {
    && IsChain(c, site, chain) && InChain(site, chain, i, o) && InChain(site, chain, j, stop)
    && url == chain[j] && url in site && site[url] == body
    && (i < j || (i == j && o < stop))
    && Rest(site, chain, i, o) == records + Rest(site, chain, j, stop)
  }

  /** The limit is reached: the cursor leads behind the last record, or to the next page, or there is none. */
  method Enough(c: Config, site: Site, url: Url, body: Body, stop: nat, records: seq<Activity>,
                ghost on: bool, ghost chain: seq<Url>, ghost i: nat, ghost o: nat, ghost j: nat) returns (turn: Turn)
    requires body.items.Some? && stop <= |body.items.value|
    requires on ==> EndsAt(c, site, chain, i, o, records, url, body, j, stop)
    ensures turn.Fails? || (turn.Ends? && turn.records == records)
    ensures on ==> Serves(c, site, chain, i, o, |records|, ResultOf(turn))
  {
    if on {
      GoodHere(c, site, chain, j);
    }
    if stop < |body.items.value| {
      if on {
        CursorServes(c, site, chain, i, o, |records|, records, j, stop);
      }
      var cursor := EncodeCursor(Position(url, stop), c.origin);
      return if cursor.None? then Fails else Ends(cursor, records);
    }
    if on {
      RestFrom(site, chain, j, stop, stop);
      if j + 1 < |chain| {
        CursorServes(c, site, chain, i, o, |records|, records, j + 1, 0);
      }
    }
    match Target(c, body.next) {
      case Wrong => turn := Fails;
      case Nowhere => turn := Ends(None, records);
      case To(next, _) =>
        var cursor := EncodeCursor(Position(next, 0), c.origin);
        turn := if cursor.None? then Fails else Ends(cursor, records);
    }
  }

  function Longer(t: Trail, url: Url, body: Body): Trail {
    Trail(t.urls + [url], t.bodies + [body])
  }

  /** A scanned page joins the trail. */
  lemma TrailGrows(c: Config, limit: nat, start: nat, t: Trail, p: Progress, url: Url, body: Body, stop: nat)
    requires Sane(c, limit, start, t, p) && p.pages < c.maxPages && url !in p.visited
    requires body.items.Some? && p.offset <= stop <= |body.items.value|
    ensures var longer := Longer(t, url, body);
      && Distinct(longer.urls) && |longer.urls| == |longer.bodies| == p.pages + 1
      && (forall u :: u in longer.urls ==> u in p.visited + {url})
      && TakenFrom(start, longer.bodies, p.records + PublicIn(body.items.value, p.offset, stop), |AllItems(t.bodies)| + stop)
      && |AllItems(longer.bodies)| == |AllItems(t.bodies)| + |body.items.value|
  {
    TakenMore(start, t.bodies, p.records, body, p.offset, stop);
    DistinctMore(t.urls, url);
    AllItemsMore(t.bodies, body);
  }

  /** With page i + pages taken whole, the next page is due. */
  lemma UnderwayNext(c: Config, site: Site, chain: seq<Url>, i: nat, o: nat, p: Progress, next: Progress)
    requires IsChain(c, site, chain) && Underway(site, chain, i, o, p) && i + p.pages < |chain|
    requires var j := i + p.pages;
      && next.records == p.records + PublicIn(Items(site, chain[j]), p.offset, |Items(site, chain[j])|)
      && next.pageUrl == Next(chain, j) && CopyAgrees(site, next.inlinePage)
      && next.visited == p.visited + {chain[j]} && next.pages == p.pages + 1 && next.offset == 0
    ensures Underway(site, chain, i, o, next)
  {
    var j := i + p.pages;
    assert OnTrack(site, chain, i, o, next.records, j + 1, 0) by {
      TrackTaken(c, site, chain, i, o, p.records, j, p.offset, |Items(site, chain[j])|);
    }
    assert Unvisited(chain, j + 1, next.visited) by {
      VisitedOneMore(c, site, chain, j, p.visited);
    }
  }

  /** Whatever the site, the records so far are the public items of distinct pages, up to some point. */
  ghost predicate Fair(c: Config, limit: nat, start: nat, t: Trail, records: seq<Activity>) {
    && |records| <= limit && Distinct(t.urls) && |t.urls| == |t.bodies| <= c.maxPages
    && exists upTo :: TakenFrom(start, t.bodies, records, upTo)
  }

  /** The page at hand, with its place in the chain. */
  ghost predicate OnPage(c: Config, site: Site, chain: seq<Url>, i: nat, o: nat, p: Progress, url: Url, body: Body) {
    && IsChain(c, site, chain) && Underway(site, chain, i, o, p) && i + p.pages < |chain|
    && url == chain[i + p.pages] && url in site && site[url] == body
  }

  /** The page was taken whole and the limit is not reached: on to the next page, if there is one. */
  method GoOn(c: Config, site: Site, p: Progress, url: Url, body: Body, records: seq<Activity>,
              ghost on: bool, ghost chain: seq<Url>, ghost i: nat, ghost o: nat) returns (turn: Turn)
    requires body.items.Some? && p.offset <= |body.items.value|
    requires records == p.records + PublicIn(body.items.value, p.offset, |body.items.value|)
    requires on ==> OnPage(c, site, chain, i, o, p, url, body)
    ensures turn.Fails? || turn.GoesOn?
    ensures turn.GoesOn? ==> var next := turn.progress;
      && next == Progress(next.pageUrl, 0, p.pages + 1, p.visited + {url}, records, next.inlinePage)
      && (next.inlinePage.Some? ==> next.pageUrl == Some(next.inlinePage.value.0)) && AtHome(c, next.pageUrl)
    ensures on ==> turn.GoesOn? && Underway(site, chain, i, o, turn.progress)
  {
    ghost var j := i + p.pages;
    if on {
      GoodHere(c, site, chain, j);
    }
    var ok, pageUrl, inlinePage := Follow(c, site, body.next, if on then Next(chain, j) else None);
    if !ok {
      return Fails;
    }
    var next := Progress(pageUrl, 0, p.pages + 1, p.visited + {url}, records, inlinePage);
    if on {
      UnderwayNext(c, site, chain, i, o, p, next);
    }
    turn := GoesOn(next);
  }

  lemma PageIsTaken(c: Config, site: Site, chain: seq<Url>, i: nat, o: nat, p: Progress, url: Url, body: Body)
    requires OnPage(c, site, chain, i, o, p, url, body)
    ensures body.items.Some? && |body.items.value| <= c.maxItems && p.offset <= |body.items.value|
    ensures forall a :: a in body.items.value ==> a.actor == Some(c.actorUrl)
  {
    GoodHere(c, site, chain, i + p.pages);
  }

  lemma PageEnds(c: Config, site: Site, chain: seq<Url>, i: nat, o: nat, p: Progress, url: Url, body: Body, stop: nat)
    requires OnPage(c, site, chain, i, o, p, url, body)
    requires body.items.Some? && p.offset < stop <= |body.items.value|
    ensures EndsAt(c, site, chain, i, o, p.records + PublicIn(body.items.value, p.offset, stop), url, body, i + p.pages, stop)
  {
    TrackTaken(c, site, chain, i, o, p.records, i + p.pages, p.offset, stop);
  }

  /** The public items up to `stop` were taken: that is enough, or the page is done. */
  method Conclude(c: Config, site: Site, p: Progress, url: Url, body: Body, limit: nat, stop: nat, records: seq<Activity>,
                  ghost on: bool, ghost chain: seq<Url>, ghost i: nat, ghost o: nat) returns (turn: Turn)
    requires body.items.Some? && p.offset <= stop <= |body.items.value| && |records| <= limit
    requires records == p.records + PublicIn(body.items.value, p.offset, stop)
    requires if |records| < limit then stop == |body.items.value| else p.offset < stop
    requires on ==> OnPage(c, site, chain, i, o, p, url, body)
    ensures turn.GoesOn? ==> var next := turn.progress;
      && stop == |body.items.value| && |records| < limit
      && next == Progress(next.pageUrl, 0, p.pages + 1, p.visited + {url}, records, next.inlinePage)
      && (next.inlinePage.Some? ==> next.pageUrl == Some(next.inlinePage.value.0)) && AtHome(c, next.pageUrl)
    ensures turn.Ends? ==> turn.records == records
    ensures on && turn.GoesOn? ==> Underway(site, chain, i, o, turn.progress)
    ensures on && !turn.GoesOn? ==> Serves(c, site, chain, i, o, limit, ResultOf(turn))
  {
    if |records| >= limit {
      if on {
        PageEnds(c, site, chain, i, o, p, url, body, stop);
      }
      turn := Enough(c, site, url, body, stop, records, on, chain, i, o, i + p.pages);
    } else {
      turn := GoOn(c, site, p, url, body, records, on, chain, i, o);
    }
  }

  lemma SaneNext(c: Config, limit: nat, start: nat, t: Trail, p: Progress, url: Url, body: Body, next: Progress)
    requires Sane(c, limit, start, t, p) && p.pages < c.maxPages && url !in p.visited
    requires body.items.Some? && p.offset <= |body.items.value|
    requires next.records == p.records + PublicIn(body.items.value, p.offset, |body.items.value|) && |next.records| < limit
    requires next.offset == 0 && next.pages == p.pages + 1 && next.visited == p.visited + {url}
    requires next.inlinePage.Some? ==> next.pageUrl == Some(next.inlinePage.value.0)
    ensures Sane(c, limit, start, Longer(t, url, body), next)
  {
    TrailGrows(c, limit, start, t, p, url, body, |body.items.value|);
  }

  lemma FairEnd(c: Config, limit: nat, start: nat, t: Trail, p: Progress, url: Url, body: Body, stop: nat)
    requires Sane(c, limit, start, t, p) && p.pages < c.maxPages && url !in p.visited
    requires body.items.Some? && p.offset <= stop <= |body.items.value|
    requires |p.records + PublicIn(body.items.value, p.offset, stop)| <= limit
    ensures Fair(c, limit, start, Longer(t, url, body), p.records + PublicIn(body.items.value, p.offset, stop))
  {
    TrailGrows(c, limit, start, t, p, url, body, stop);
  }

  /** Scans one page, and goes on to the next unless the limit is reached. */
  method TakePage(c: Config, site: Site, p: Progress, url: Url, body: Body, limit: nat,
                  ghost on: bool, ghost chain: seq<Url>, ghost i: nat, ghost o: nat, ghost start: nat, ghost trail: Trail)
    returns (turn: Turn)
    requires Sane(c, limit, start, trail, p) && p.pages < c.maxPages && url !in p.visited
    requires Clean(c, trail, p.records) && (body.items.Some? && |body.items.value| <= c.maxItems ==> MayBeScanned(c, url, body))
    requires on ==> OnPage(c, site, chain, i, o, p, url, body)
    ensures turn.GoesOn? ==>
      && turn.progress.pages == p.pages + 1 && turn.progress.visited == p.visited + {url}
      && Sane(c, limit, start, Longer(trail, url, body), turn.progress)
      && Clean(c, Longer(trail, url, body), turn.progress.records) && AtHome(c, turn.progress.pageUrl)
    ensures turn.Ends? ==>
      Fair(c, limit, start, Longer(trail, url, body), turn.records) && Clean(c, Longer(trail, url, body), turn.records)
    ensures on && turn.GoesOn? ==> Underway(site, chain, i, o, turn.progress)
    ensures on && !turn.GoesOn? ==> Serves(c, site, chain, i, o, limit, ResultOf(turn))
  {
    if on {
      PageIsTaken(c, site, chain, i, o, p, url, body);
    }
    if body.items.None? || |body.items.value| > c.maxItems || p.offset > |body.items.value| {
      return Fails;
    }
    var ok, taken, stop := TakePublic(c, body.items.value, p.offset, limit - |p.records|);
    if !ok {
      return Fails;
    }
    CleanGrows(c, trail, p.records, url, body, p.offset, stop);
    turn := Conclude(c, site, p, url, body, limit, stop, p.records + taken, on, chain, i, o);
    if turn.GoesOn? {
      SaneNext(c, limit, start, trail, p, url, body, turn.progress);
    } else if turn.Ends? {
      FairEnd(c, limit, start, trail, p, url, body, stop);
    }
  }

  /** The outbox only names the first page: on to that. */
  method TakeFirst(c: Config, site: Site, p: Progress, body: Body,
                   ghost on: bool, ghost chain: seq<Url>, ghost i: nat, ghost o: nat) returns (turn: Turn)
    requires on ==> IsChain(c, site, chain) && AtRoot(c, chain, i, o, p) && c.outbox in site && site[c.outbox] == body
    requires !body.first.Absent?
    ensures turn.Fails? || turn.GoesOn?
    ensures turn.GoesOn? ==> var next := turn.progress;
      && p.offset == 0 && next.pageUrl.Some?
      && next == p.(pageUrl := next.pageUrl, visited := p.visited + {c.outbox}, inlinePage := next.inlinePage)
      && (next.inlinePage.Some? ==> next.pageUrl == Some(next.inlinePage.value.0)) && AtHome(c, next.pageUrl)
    ensures on ==> turn.GoesOn? && Underway(site, chain, i, o, turn.progress)
  {
    if p.offset != 0 {
      return Fails;
    }
    var ok, pageUrl, inlinePage := Follow(c, site, body.first, if on then Some(chain[0]) else None);
    if !ok || pageUrl.None? {
      return Fails;
    }
    turn := GoesOn(p.(pageUrl := pageUrl, visited := p.visited + {c.outbox}, inlinePage := inlinePage));
    if on {
      assert Rest(site, chain, i, o) == [] + Rest(site, chain, i, o);
    }
  }

  /** On a chain, the page that is due has not been visited and is fetched. */
  lemma DueIsFetched(c: Config, site: Site, chain: seq<Url>, i: nat, o: nat, p: Progress)
    requires Right(c, site, chain, i, o, p) && p.pageUrl.Some?
    ensures var url := p.pageUrl.value;
      && url !in p.visited && url in site && CopyAgrees(site, p.inlinePage)
      && !site[url].kind.NotCollection? && (site[url].id.Some? ==> site[url].id.value == url)
    ensures var (url, body) := (p.pageUrl.value, site[p.pageUrl.value]);
      if AtRoot(c, chain, i, o, p) then url == c.outbox && body.kind.Collection? && !body.first.Absent?
      else
        && OnPage(c, site, chain, i, o, p, url, body)
        && if body.kind.Page? then PartOfOutbox(c, body) else url == c.outbox && body.first.Absent?
  {
    if !AtRoot(c, chain, i, o, p) {
      VisitedOneMore(c, site, chain, i + p.pages, p.visited);
      GoodHere(c, site, chain, i + p.pages);
    }
  }

  /** One turn of the loop. */
  method TakeTurn(c: Config, site: Site, p: Progress, limit: nat,
                  ghost on: bool, ghost chain: seq<Url>, ghost i: nat, ghost o: nat, ghost start: nat, ghost trail: Trail)
    returns (turn: Turn, ghost longer: Trail)
    requires Sane(c, limit, start, trail, p) && p.pages < c.maxPages && p.pageUrl.Some?
    requires Clean(c, trail, p.records) && AtHome(c, p.pageUrl)
    requires on ==> Right(c, site, chain, i, o, p)
    ensures turn.GoesOn? ==> var next := turn.progress;
      && Sane(c, limit, start, longer, next) && Clean(c, longer, next.records) && AtHome(c, next.pageUrl)
      && (next.pages == p.pages + 1 || (next.pages == p.pages && c.outbox !in p.visited && c.outbox in next.visited))
      && p.visited <= next.visited
      && (on ==> Right(c, site, chain, i, o, next))
    ensures turn.Ends? ==> Fair(c, limit, start, longer, turn.records) && Clean(c, longer, turn.records)
    ensures on && !turn.GoesOn? ==> Serves(c, site, chain, i, o, limit, ResultOf(turn))
  {
    longer := trail;
    var url := p.pageUrl.value;
    if on {
      DueIsFetched(c, site, chain, i, o, p);
    }
    if url in p.visited {
      return Fails, longer;
    }
    var fetched := Fetch(c, site, url, p.inlinePage);
    if fetched.None? {
      return Fails, longer;
    }
    var body := fetched.value;
    if !body.kind.Page? && url == c.outbox && !body.first.Absent? {
      turn := TakeFirst(c, site, p, body, on, chain, i, o);
      return;
    }
    if !body.kind.Page? && url != c.outbox {
      return Fails, longer;
    }
    if body.kind.Page? && !PartOfOutbox(c, body) {
      return Fails, longer;
    }
    turn := TakePage(c, site, p, url, body, limit, on, chain, i, o, start, trail);
    longer := Longer(trail, url, body);
  }

  /** A read's first page is due. */
  lemma StartIsRight(c: Config, site: Site, chain: seq<Url>, cursor: Option<string>, i: nat, o: nat, p: Progress)
    requires IsChain(c, site, chain) && StartsAt(c, site, chain, cursor, i, o)
    requires p == Progress(if cursor.None? then Some(c.outbox) else Some(chain[i]), o, 0, {}, [], None)
    ensures Right(c, site, chain, i, o, p)
  {
    if cursor.Some? || c.outbox == chain[0] {
      assert Rest(site, chain, i, o) == [] + Rest(site, chain, i, o);
      assert Underway(site, chain, i, o, p);
    }
  }

  /** Past the last page everything has been returned. */
  lemma EndServes(c: Config, site: Site, chain: seq<Url>, i: nat, o: nat, limit: nat, p: Progress)
    requires Right(c, site, chain, i, o, p) && p.pageUrl.None? && |p.records| < limit
    ensures Serves(c, site, chain, i, o, limit, Records(p.records, None))
  {
    assert Rest(site, chain, i + p.pages, p.offset) == [];
  }

  /** At the page cap the cursor leads to the next page. */
  lemma CapServes(c: Config, site: Site, chain: seq<Url>, i: nat, o: nat, limit: nat, p: Progress)
    requires Right(c, site, chain, i, o, p) && p.pageUrl.Some? && p.pages == c.maxPages > 0 && |p.records| < limit
    ensures Serves(c, site, chain, i, o, limit, Records(p.records, EncodeCursor(Position(p.pageUrl.value, p.offset), c.origin)))
    ensures EncodeCursor(Position(p.pageUrl.value, p.offset), c.origin).Some?
  {
    CursorServes(c, site, chain, i, o, limit, p.records, i + p.pages, 0);
  }

  /**
   * One read. Along a chain of pages it returns what comes next, with a cursor to what is left;
   * whatever the site, it takes pages of the outbox only, each at most once, and returns no more than the caller asked
   * for and than the cap, of the public items of those pages, all of them the actor's.
   */
  method Read(c: Config, site: Site, cursor: Option<string>, limit: Option<nat>, ghost chain: seq<Url>, ghost i: nat, ghost o: nat)
    returns (r: Result, ghost trail: Trail)
    requires Positive(c) && (limit.Some? ==> limit.value >= 1)
    ensures IsChain(c, site, chain) && StartsAt(c, site, chain, cursor, i, o) ==>
      Serves(c, site, chain, i, o, Requested(c, limit), r)
    ensures r.Records? ==> Fair(c, Requested(c, limit), StartOffset(c, cursor), trail, r.records)
    ensures r.Records? ==> Clean(c, trail, r.records)
    ensures r.Records? ==> |r.records| <= c.maxActivities && (limit.Some? ==> |r.records| <= limit.value)
  {
    ghost var on := IsChain(c, site, chain) && StartsAt(c, site, chain, cursor, i, o);
    ghost var start := StartOffset(c, cursor);
    var requestedLimit := Requested(c, limit);
    var pageUrl, offset := c.outbox, 0;
    r, trail := Refused, Trail([], []);
    if cursor.Some? {
      var position := Decode(c, cursor.value);
      if position.None? {
        return;
      }
      pageUrl, offset := position.value.page, position.value.offset;
      CursorsStayOnTheOrigin(position.value, cursor.value, c.origin, c.legacy, c.other);
    }
    var p := Progress(Some(pageUrl), offset, 0, {}, [], None);
    if on {
      StartIsRight(c, site, chain, cursor, i, o, p);
    }
    while p.pageUrl.Some? && p.pages < c.maxPages && |p.records| < requestedLimit
      invariant Sane(c, requestedLimit, start, trail, p) && Clean(c, trail, p.records) && AtHome(c, p.pageUrl)
      invariant on ==> Right(c, site, chain, i, o, p)
      decreases c.maxPages - p.pages, if c.outbox in p.visited then 0 else 1
    {
      var turn;
      turn, trail := TakeTurn(c, site, p, requestedLimit, on, chain, i, o, start, trail);
      if !turn.GoesOn? {
        r := ResultOf(turn);
        return;
      }
      p := turn.progress;
    }
    if p.pageUrl.None? {
      r := Records(p.records, None);
      if on {
        EndServes(c, site, chain, i, o, requestedLimit, p);
      }
    } else {
      var next := EncodeCursor(Position(p.pageUrl.value, p.offset), c.origin);
      r := if next.None? then Refused else Records(p.records, next);
      if on {
        CapServes(c, site, chain, i, o, requestedLimit, p);
      }
    }
  }

  // ---------------------------------------------------------------- following cursors

  function WithCaps(c: Config, maxActivities: nat, maxPages: nat): Config {
    c.(maxActivities := maxActivities, maxPages := maxPages)
  }

  /** Pages and cursors do not depend on the caps of a read. */
  lemma CapsDoNotMatter(c: Config, site: Site, chain: seq<Url>, maxActivities: nat, maxPages: nat)
    requires IsChain(c, site, chain)
    ensures IsChain(WithCaps(c, maxActivities, maxPages), site, chain)
  {
    var d := WithCaps(c, maxActivities, maxPages);
    forall i | 0 <= i < |chain|
      ensures GoodAt(d, site, chain, i)
    {
      assert GoodAt(c, site, chain, i);
    }
  }

  /** One read with its own caps and limit, and what it returned. */
  datatype Reading = Reading(maxActivities: nat, maxPages: nat, limit: Option<nat>, cursor: Option<string>, result: Result)

  /** The result is what Read promises, wherever on the chain its cursor leads. */
  ghost predicate Answered(c: Config, site: Site, chain: seq<Url>, r: Reading) {
    var d := WithCaps(c, r.maxActivities, r.maxPages);
    && r.maxPages >= 1
    && forall i, o {:trigger StartsAt(d, site, chain, r.cursor, i, o)} ::
         StartsAt(d, site, chain, r.cursor, i, o) ==> Serves(d, site, chain, i, o, Requested(d, r.limit), r.result)
  }

  /** The k-th read used the cursor that the one before returned. */
  predicate LeadsOn(readings: seq<Reading>, k: nat)
    requires 0 < k < |readings|
  {
    readings[k - 1].result.Records? && readings[k].cursor.Some? && readings[k].cursor == readings[k - 1].result.cursor
  }

  /** A first read without a cursor, and each later one with the cursor of the one before. */
  ghost predicate Followed(c: Config, site: Site, chain: seq<Url>, readings: seq<Reading>) {
    && (forall k :: 0 <= k < |readings| ==> Answered(c, site, chain, readings[k]))
    && (readings != [] ==> readings[0].cursor.None?)
    && (forall k {:trigger LeadsOn(readings, k)} :: 0 < k < |readings| ==> LeadsOn(readings, k))
  }

  function Returned(readings: seq<Reading>): seq<Activity> {
    if readings == [] then []
    else
      var last := readings[|readings| - 1].result;
      Returned(readings[..|readings| - 1]) + (if last.Records? then last.records else [])
  }

  /** How many positions there are from here to the end. */
  function Remaining(site: Site, chain: seq<Url>, i: nat, o: nat): nat
    requires i < |chain| ==> o <= |Items(site, chain[i])|
    decreases |chain| - i
  {
    if i >= |chain| then 0 else 1 + |Items(site, chain[i])| - o + Remaining(site, chain, i + 1, 0)
  }

  lemma {:induction false} LaterIsLess(site: Site, chain: seq<Url>, i: nat, o: nat, j: nat, p: nat)
    requires InChain(site, chain, i, o) && InChain(site, chain, j, p) && (i < j || (i == j && o < p))
    ensures Remaining(site, chain, j, p) < Remaining(site, chain, i, o)
    decreases j - i
  {
    if i + 1 < j || (i + 1 == j && p > 0) {
      LaterIsLess(site, chain, i + 1, 0, j, p);
    }
  }

  /** Where the cursor of a read leads. */
  lemma NextStart(c: Config, site: Site, chain: seq<Url>, r: Reading, i: nat, o: nat) returns (j: nat, p: nat)
    requires Answered(c, site, chain, r) && StartsAt(c, site, chain, r.cursor, i, o)
    requires r.result.Records? && r.result.cursor.Some?
    ensures StartsAt(c, site, chain, r.result.cursor, j, p)
    ensures Rest(site, chain, i, o) == r.result.records + Rest(site, chain, j, p)
    ensures Remaining(site, chain, j, p) < Remaining(site, chain, i, o)
  {
    var d := WithCaps(c, r.maxActivities, r.maxPages);
    assert StartsAt(d, site, chain, r.cursor, i, o);
    j, p :| Continues(d, site, chain, i, o, r.result.records, r.result.cursor.value, j, p);
    LaterIsLess(site, chain, i, o, j, p);
  }

  /** Where the k-th of the followed reads starts: everything before has been returned, nothing after. */
  lemma {:induction false} FollowedTo(c: Config, site: Site, chain: seq<Url>, readings: seq<Reading>, k: nat) returns (i: nat, o: nat)
    requires IsChain(c, site, chain) && Followed(c, site, chain, readings) && k < |readings|
    ensures StartsAt(c, site, chain, readings[k].cursor, i, o)
    ensures Rest(site, chain, 0, 0) == Returned(readings[..k]) + Rest(site, chain, i, o)
    ensures Remaining(site, chain, i, o) + k <= Remaining(site, chain, 0, 0)
  {
    if k == 0 {
      i, o := 0, 0;
      assert Rest(site, chain, 0, 0) == [] + Rest(site, chain, 0, 0);
    } else {
      var r := readings[k - 1];
      assert LeadsOn(readings, k);
      var i', o' := FollowedTo(c, site, chain, readings, k - 1);
      i, o := NextStart(c, site, chain, r, i', o');
      assert readings[..k][..k - 1] == readings[..k - 1];
      var before, rest := Returned(readings[..k - 1]), Rest(site, chain, i, o);
      assert before + (r.result.records + rest) == before + r.result.records + rest;
    }
  }

  /** Every item of the chain in order. */
  function Everything(site: Site, chain: seq<Url>, i: nat): seq<Activity>
    decreases |chain| - i
  {
    if i >= |chain| then [] else Items(site, chain[i]) + Everything(site, chain, i + 1)
  }

  lemma {:induction false} RestIsPublic(site: Site, chain: seq<Url>, i: nat)
    ensures Rest(site, chain, i, 0) == PublicIn(Everything(site, chain, i), 0, |Everything(site, chain, i)|)
    decreases |chain| - i
  {
    if i < |chain| {
      RestIsPublic(site, chain, i + 1);
      var items, later := Items(site, chain[i]), Everything(site, chain, i + 1);
      PublicAcross(items, later, 0, |later|);
    }
  }

  /** Following cursors until there is none returns every public activity of the chain once, in order, whatever the caps. */
  lemma FollowingReadsEverythingOnce(c: Config, site: Site, chain: seq<Url>, readings: seq<Reading>)
    requires IsChain(c, site, chain) && Followed(c, site, chain, readings) && readings != []
    requires var last := readings[|readings| - 1].result; last.Records? && last.cursor.None?
    ensures Returned(readings) == PublicIn(Everything(site, chain, 0), 0, |Everything(site, chain, 0)|)
    ensures forall a :: a in Returned(readings) <==> a in Everything(site, chain, 0) && NamedPublic(a)
  {
    var k := |readings| - 1;
    var i, o := FollowedTo(c, site, chain, readings, k);
    var r := readings[k];
    var d := WithCaps(c, r.maxActivities, r.maxPages);
    assert Answered(c, site, chain, r) && StartsAt(d, site, chain, r.cursor, i, o);
    RestIsPublic(site, chain, 0);
    var all := Everything(site, chain, 0);
    forall a
      ensures a in PublicIn(all, 0, |all|) <==> a in all && NamedPublic(a)
    {
      PublicMembers(all, 0, |all|, a);
    }
  }

  /** Each read advances, so only so many can follow one another. */
  lemma FollowingEnds(c: Config, site: Site, chain: seq<Url>, readings: seq<Reading>)
    requires IsChain(c, site, chain) && Followed(c, site, chain, readings)
    ensures |readings| <= Remaining(site, chain, 0, 0)
  {
    if readings != [] {
      var i, o := FollowedTo(c, site, chain, readings, |readings| - 1);
    }
  }
}
