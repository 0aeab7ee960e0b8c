/** Paging over a list of canonical events: src/recommendation/canonical-source-adapter.ts. */
module CanonicalSource {
  import opened Options
  import Decimal

  const MAX_SAFE_INTEGER := 0x1F_FFFF_FFFF_FFFF

  /** A valid event; `rest` stands for the fields that paging does not look at. */
  datatype Event = Event(
    canonicalEventId: Option<string>, canonicalIntentId: Option<string>,
    protocol: string, sourceEventId: string, kind: string,
    observedAt: int, mirrored: bool, rest: nat)

  datatype Request = Request(includeMirrored: bool, since: Option<int>)

  datatype Result = Items(items: seq<Event>, cursor: Option<string>) | Refused

  function Identity(e: Event): string {
    if e.canonicalEventId.Some? then e.canonicalEventId.value
    else if e.canonicalIntentId.Some? then e.canonicalIntentId.value
    else e.protocol + ":" + e.sourceEventId + ":" + e.kind
  }

  predicate Wanted(q: Request, e: Event) {
    (q.since.None? || e.observedAt >= q.since.value) && (q.includeMirrored || !e.mirrored)
  }

  function Identities(events: seq<Event>): set<string> {
    set i | 0 <= i < |events| :: Identity(events[i])
  }

  /** The wanted events, of each identity only the first. */
  function Accepted(q: Request, events: seq<Event>): seq<Event> {
    if events == [] then []
    else
      var before, last := Accepted(q, events[..|events| - 1]), events[|events| - 1];
      if Wanted(q, last) && Identity(last) !in Identities(before) then before + [last] else before
  }

  lemma IdentitiesMore(events: seq<Event>, e: Event)
    ensures Identities(events + [e]) == Identities(events) + {Identity(e)}
  {
    var more := events + [e];
    assert more[|events|] == e;
    forall i | 0 <= i < |events|
      ensures Identity(events[i]) in Identities(more)
    {
      assert more[i] == events[i];
    }
  }

  /** What is accepted is wanted, no two share an identity, and no wanted identity is missing. */
  lemma {:induction false} AcceptedIsOnePerIdentity(q: Request, events: seq<Event>)
    ensures var accepted := Accepted(q, events);
      && (forall i :: 0 <= i < |accepted| ==> Wanted(q, accepted[i]) && accepted[i] in events)
      && (forall i, j :: 0 <= i < j < |accepted| ==> Identity(accepted[i]) != Identity(accepted[j]))
      && (forall e :: e in events && Wanted(q, e) ==> Identity(e) in Identities(accepted))
  {
    if events != [] {
      var front, last := events[..|events| - 1], events[|events| - 1];
      AcceptedIsOnePerIdentity(q, front);
      IdentitiesMore(Accepted(q, front), last);
      assert events == front + [last];
    }
  }

  /** Observed late enough, and mirrored only if mirrored events are asked for. */
  predicate AskedFor(q: Request, e: Event) {
    (q.since.Some? ==> e.observedAt >= q.since.value) && (e.mirrored ==> q.includeMirrored)
  }

  /** The same canonical event; or, of events without that id, the same intent; or, without both, the same source event and kind. */
  predicate SameEvent(a: Event, b: Event) {
    || (a.canonicalEventId.Some? && b.canonicalEventId == a.canonicalEventId)
    || (a.canonicalEventId.None? && b.canonicalEventId.None? && a.canonicalIntentId.Some? && b.canonicalIntentId == a.canonicalIntentId)
    || (a.canonicalEventId.None? && b.canonicalEventId.None? && a.canonicalIntentId.None? && b.canonicalIntentId.None?
        && a.protocol == b.protocol && a.sourceEventId == b.sourceEventId && a.kind == b.kind)
  }

  ghost predicate NothingTwice(events: seq<Event>) {
    forall i, j :: 0 <= i < j < |events| ==> !SameEvent(events[i], events[j])
  }

  /** No event is accepted twice under any of its ids, and all were asked for. */
  lemma AcceptedOnce(q: Request, events: seq<Event>)
    ensures var accepted := Accepted(q, events);
      && (forall e :: e in accepted ==> e in events && AskedFor(q, e))
      && NothingTwice(accepted)
      && (forall e :: e in events && AskedFor(q, e) ==> exists i :: 0 <= i < |accepted| && Identity(accepted[i]) == Identity(e))
  {
    AcceptedIsOnePerIdentity(q, events);
    var accepted := Accepted(q, events);
    forall i, j | 0 <= i < j < |accepted|
      ensures !SameEvent(accepted[i], accepted[j])
    {
      assert Identity(accepted[i]) != Identity(accepted[j]);
    }
    forall e | e in events && AskedFor(q, e)
      ensures exists i :: 0 <= i < |accepted| && Identity(accepted[i]) == Identity(e)
    {
      assert Wanted(q, e) && Identity(e) in Identities(accepted);
    }
  }

  /** Accepted events come in source order, each before all later events of its identity. */
  lemma {:induction false} AcceptedPrefix(q: Request, events: seq<Event>, n: nat)
    requires n <= |events|
    ensures Accepted(q, events[..n]) <= Accepted(q, events)
  {
    if n < |events| {
      AcceptedPrefix(q, events[..|events| - 1], n);
      assert events[..|events| - 1][..n] == events[..n];
    } else {
      assert events[..n] == events;
    }
  }

  lemma AcceptNext(q: Request, events: seq<Event>, i: nat)
    requires i < |events|
    ensures var before := Accepted(q, events[..i]);
      Accepted(q, events[..i + 1]) ==
        if Wanted(q, events[i]) && Identity(events[i]) !in Identities(before) then before + [events[i]] else before
  {
    assert events[..i + 1][..i] == events[..i];
  }

  function Min(a: nat, b: nat): nat {
    if a < b then a else b
  }

  /** Up to `limit` of the list from `offset` on. */
  function Slice(list: seq<Event>, offset: nat, limit: nat): seq<Event> {
    if offset >= |list| then [] else list[offset..Min(offset + limit, |list|)]
  }

  /** The cursor is set exactly when more remains behind the slice. */
  function NextCursor(list: seq<Event>, offset: nat, limit: nat): Option<string> {
    if offset + limit < |list| then Some(Decimal.Print(offset + limit)) else None
  }

  lemma SliceGrows(list: seq<Event>, e: Event, offset: nat, limit: nat)
    ensures Slice(list + [e], offset, limit) ==
      if offset <= |list| < offset + limit then Slice(list, offset, limit) + [e] else Slice(list, offset, limit)
    ensures |Slice(list, offset, limit)| == if |list| <= offset then 0 else Min(|list| - offset, limit)
  {
  }

  lemma SliceOfPrefix(list: seq<Event>, all: seq<Event>, offset: nat, limit: nat)
    requires list <= all && |list| >= offset + limit
    ensures Slice(list, offset, limit) == Slice(all, offset, limit)
  {
  }

  method ReadItems(events: seq<Event>, q: Request, offset: nat, limit: nat) returns (items: seq<Event>, cursor: Option<string>)
    requires limit >= 1
    ensures items == Slice(Accepted(q, events), offset, limit)
    ensures cursor == NextCursor(Accepted(q, events), offset, limit)
  {
    var seen: set<string> := {};
    var page: seq<Event> := [];
    var acceptedCount, hasMore := 0, false;
    var i := 0;
    ghost var accepted := [];
    while i < |events|
      invariant i <= |events| && accepted == Accepted(q, events[..i])
      invariant seen == Identities(accepted) && acceptedCount == |accepted| && !hasMore
      invariant page == Slice(accepted, offset, limit) && |accepted| <= offset + limit
    {
      var event := events[i];
      AcceptNext(q, events, i);
      i := i + 1;
      if q.since.Some? && event.observedAt < q.since.value {
        continue;
      }
      if !(q.includeMirrored || !event.mirrored) {
        continue;
      }
      var id := Identity(event);
      if id in seen {
        continue;
      }
      seen := seen + {id};
      IdentitiesMore(accepted, event);
      SliceGrows(accepted, event, offset, limit);
      accepted := accepted + [event];
      if acceptedCount < offset {
        acceptedCount := acceptedCount + 1;
        continue;
      }
      if |page| >= limit {
        hasMore := true;
        break;
      }
      page := page + [event];
      acceptedCount := acceptedCount + 1;
    }
    AcceptedPrefix(q, events, i);
    assert events[..|events|] == events;
    if hasMore {
      SliceOfPrefix(accepted, Accepted(q, events), offset, limit);
    }
    items := page;
    cursor := if hasMore then Some(Decimal.Print(offset + |page|)) else None;
  }

  // ---------------------------------------------------------------- cursors

  /** Leading zeros are taken. */
  function ParseCursor(cursor: Option<string>): Option<nat> {
    if cursor.None? then Some(0)
    else if cursor.value == "" || !Decimal.AllDigits(cursor.value) then None
    else if Decimal.Number(cursor.value) > MAX_SAFE_INTEGER then None
    else Some(Decimal.Number(cursor.value))
  }

  const DEFAULT_LIMIT := 100

  method Read(events: seq<Event>, q: Request, cursor: Option<string>, limit: Option<nat>) returns (r: Result)
    requires limit.Some? ==> limit.value >= 1
    ensures r == Page(Accepted(q, events), cursor, if limit.Some? then limit.value else DEFAULT_LIMIT)
    ensures r.Items? ==> |r.items| <= (if limit.Some? then limit.value else 100)
    ensures r.Items? ==> forall e :: e in r.items ==> e in events && AskedFor(q, e)
    ensures r.Items? ==> NothingTwice(r.items)
  {
    var offset := ParseCursor(cursor);
    if offset.None? {
      return Refused;
    }
    var items, next := ReadItems(events, q, offset.value, if limit.Some? then limit.value else DEFAULT_LIMIT);
    r := Items(items, next);
    SliceIsFair(q, events, offset.value, if limit.Some? then limit.value else DEFAULT_LIMIT);
  }

  lemma SliceKeeps(list: seq<Event>, offset: nat, limit: nat)
    ensures var items := Slice(list, offset, limit);
      && |items| <= limit && (forall e :: e in items ==> e in list) && (NothingTwice(list) ==> NothingTwice(items))
  {
    var items := Slice(list, offset, limit);
    if offset < |list| {
      assert forall i :: 0 <= i < |items| ==> items[i] == list[offset + i];
    }
  }

  /** A part of what is accepted has no more than was asked for, and nothing twice. */
  lemma SliceIsFair(q: Request, events: seq<Event>, offset: nat, limit: nat)
    ensures var items := Slice(Accepted(q, events), offset, limit);
      && |items| <= limit && (forall e :: e in items ==> e in events && AskedFor(q, e)) && NothingTwice(items)
  {
    AcceptedOnce(q, events);
    SliceKeeps(Accepted(q, events), offset, limit);
  }

  /** What a read of a deduplicated list returns. */
  function Page(list: seq<Event>, cursor: Option<string>, limit: nat): Result {
    var offset := ParseCursor(cursor);
    if offset.None? then Refused
    else Items(Slice(list, offset.value, limit), NextCursor(list, offset.value, limit))
  }

  /** Each read uses the cursor of the one before, with a limit of its own. */
  ghost predicate Followed(list: seq<Event>, limits: seq<nat>, cursors: seq<Option<string>>) {
    && |cursors| == |limits| && (cursors != [] ==> cursors[0] == None)
    && forall k {:trigger FollowsOn(list, limits, cursors, k)} :: 0 < k < |cursors| ==> FollowsOn(list, limits, cursors, k)
  }

  predicate FollowsOn(list: seq<Event>, limits: seq<nat>, cursors: seq<Option<string>>, k: nat)
    requires 0 < k < |cursors| == |limits|
  {
    var before := Page(list, cursors[k - 1], limits[k - 1]);
    limits[k - 1] >= 1 && before.Items? && before.cursor.Some? && cursors[k] == before.cursor
  }

  function Collected(list: seq<Event>, limits: seq<nat>, cursors: seq<Option<string>>): seq<Event>
    requires |limits| == |cursors|
  {
    if limits == [] then []
    else
      var n := |limits| - 1;
      var page := Page(list, cursors[n], limits[n]);
      Collected(list, limits[..n], cursors[..n]) + (if page.Items? then page.items else [])
  }

  /** A printed cursor is read back, up to the integers that are safe. */
  lemma CursorRoundTrip(offset: nat)
    ensures ParseCursor(Some(Decimal.Print(offset))) == if offset <= MAX_SAFE_INTEGER then Some(offset) else None
  {
    Decimal.ParsePrint(offset);
  }

  lemma SlicesJoin(list: seq<Event>, offset: nat, limit: nat)
    requires offset <= |list|
    ensures list[..offset] + Slice(list, offset, limit) == list[..Min(offset + limit, |list|)]
  {
  }

  /** The k-th read starts where exactly the list up to there has been returned, and at least k items in. */
  lemma {:induction false} FollowedTo(list: seq<Event>, limits: seq<nat>, cursors: seq<Option<string>>, k: nat) returns (offset: nat)
    requires |list| <= MAX_SAFE_INTEGER && Followed(list, limits, cursors) && k < |cursors|
    ensures ParseCursor(cursors[k]) == Some(offset) && k <= offset <= |list|
    ensures Collected(list, limits[..k], cursors[..k]) == list[..offset]
  {
    if k == 0 {
      offset := 0;
    } else {
      var before := FollowedTo(list, limits, cursors, k - 1);
      assert FollowsOn(list, limits, cursors, k);
      offset := before + limits[k - 1];
      CursorRoundTrip(offset);
      SlicesJoin(list, before, limits[k - 1]);
      assert limits[..k][..k - 1] == limits[..k - 1] && cursors[..k][..k - 1] == cursors[..k - 1];
    }
  }

  /** Following cursors until there is none returns the whole list once, in order, in at most as many reads as it has items. */
  lemma FollowingCoversOnce(list: seq<Event>, limits: seq<nat>, cursors: seq<Option<string>>)
    requires |list| <= MAX_SAFE_INTEGER && Followed(list, limits, cursors) && limits != []
    ensures var last := Page(list, cursors[|cursors| - 1], limits[|limits| - 1]);
      last.Items? && |limits| <= |list| + 1 && (last.cursor.None? ==> Collected(list, limits, cursors) == list)
  {
    var n := |limits| - 1;
    var offset := FollowedTo(list, limits, cursors, n);
    SlicesJoin(list, offset, limits[n]);
    assert list[..|list|] == list;
  }
}
