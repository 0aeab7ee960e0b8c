// Entity lookups, by scanning the catalog and through the index:
// src/recommendation/catalog-entity-resolution.ts and src/recommendation/catalog-index.ts.
module CatalogEntities {
  import opened Options
  import opened Catalogs
  import opened CatalogIndexes

  datatype Lookup = Lookup(source: Source, id: string)

  function SourceName(s: Source): string {
    if s.Wikidata? then "wikidata" else "dbpedia"
  }

  function Key(source: Source, id: string): string {
    SourceName(source) + ":" + id
  }

  /** Keys tell entities apart although ids may contain colons. */
  lemma KeysTellEntitiesApart(s: Source, a: string, t: Source, b: string)
    ensures Key(s, a) == Key(t, b) <==> s == t && a == b
  {
    var k, l := Key(s, a), Key(t, b);
    assert k[0] == SourceName(s)[0] && l[0] == SourceName(t)[0];
    assert k[|SourceName(s)| + 1..] == a && l[|SourceName(t)| + 1..] == b;
  }

  /** One reference in the catalog, with the topics and the tags it counts for. */
  datatype Mention = Mention(ref: Ref, topicIds: set<Id>, tagIds: set<Id>)

  function MentionsOf(refs: seq<Ref>, topicIds: set<Id>, tagIds: set<Id>): seq<Mention> {
    if refs == [] then []
    else MentionsOf(refs[..|refs| - 1], topicIds, tagIds) + [Mention(refs[|refs| - 1], topicIds, tagIds)]
  }

  function TopicMentions(topics: seq<Topic>): seq<Mention> {
    if topics == [] then []
    else
      var t := topics[|topics| - 1];
      TopicMentions(topics[..|topics| - 1]) + MentionsOf(t.entityRefs, {t.id}, {})
  }

  /** A reference of a tag counts for the tag's parent topics as well. */
  function TagMentions(tags: seq<Tag>): seq<Mention> {
    if tags == [] then []
    else
      var t := tags[|tags| - 1];
      TagMentions(tags[..|tags| - 1]) + MentionsOf(t.entityRefs, Elements(t.parentTopicIds), {t.id})
  }

  /** All references, those of the topics first. */
  function Mentions(c: Catalog): seq<Mention> {
    TopicMentions(c.topics) + TagMentions(c.tags)
  }

  predicate Mentioned(m: Mention, key: string) {
    Key(m.ref.source, m.ref.id) == key
  }

  /** What is known of one entity. */
  datatype Facts = Facts(ref: Option<Ref>, topicIds: set<Id>, tagIds: set<Id>)

  const NOTHING := Facts(None, {}, {})

  function Learn(k: Facts, m: Mention): Facts {
    Facts(if k.ref.None? then Some(m.ref) else k.ref, k.topicIds + m.topicIds, k.tagIds + m.tagIds)
  }

  /** The first reference to the entity, and all topics and tags its references count for. */
  function FactsFrom(mentions: seq<Mention>, key: string): Facts {
    if mentions == [] then NOTHING
    else
      var before, last := FactsFrom(mentions[..|mentions| - 1], key), mentions[|mentions| - 1];
      if Mentioned(last, key) then Learn(before, last) else before
  }

  lemma FactsNext(mentions: seq<Mention>, m: Mention, key: string)
    ensures FactsFrom(mentions + [m], key) == if Mentioned(m, key) then Learn(FactsFrom(mentions, key), m) else FactsFrom(mentions, key)
  {
    assert (mentions + [m])[..|mentions|] == mentions;
  }

  // ---------------------------------------------------------------- the index

  datatype EntityIndex = EntityIndex(
    refByKey: map<string, Ref>, topicIdsByKey: map<string, set<Id>>, tagIdsByKey: map<string, set<Id>>)

  function IdsAt(m: map<string, set<Id>>, key: string): set<Id> {
    if key in m then m[key] else {}
  }

  function Held(index: EntityIndex, key: string): Facts {
    Facts(if key in index.refByKey then Some(index.refByKey[key]) else None,
          IdsAt(index.topicIdsByKey, key), IdsAt(index.tagIdsByKey, key))
  }

  ghost predicate Holds(index: EntityIndex, mentions: seq<Mention>) {
    forall key :: Held(index, key) == FactsFrom(mentions, key)
  }

  /** addToStringSetMap for each id; without ids the key is left as it is. */
  function AddIds(m: map<string, set<Id>>, key: string, ids: set<Id>): map<string, set<Id>> {
    if ids == {} then m else m[key := IdsAt(m, key) + ids]
  }

  function AddMention(index: EntityIndex, m: Mention): EntityIndex {
    var key := Key(m.ref.source, m.ref.id);
    EntityIndex(
      index.refByKey[key := if key in index.refByKey then index.refByKey[key] else m.ref],
      AddIds(index.topicIdsByKey, key, m.topicIds),
      AddIds(index.tagIdsByKey, key, m.tagIds))
  }

  lemma AddMentionHolds(index: EntityIndex, mentions: seq<Mention>, m: Mention)
    requires Holds(index, mentions)
    ensures Holds(AddMention(index, m), mentions + [m])
  {
    forall key
      ensures Held(AddMention(index, m), key) == FactsFrom(mentions + [m], key)
    {
      FactsNext(mentions, m, key);
      assert Held(index, key) == FactsFrom(mentions, key);
    }
  }

  lemma MentionsNext(refs: seq<Ref>, topicIds: set<Id>, tagIds: set<Id>, i: nat)
    requires i < |refs|
    ensures MentionsOf(refs[..i + 1], topicIds, tagIds) == MentionsOf(refs[..i], topicIds, tagIds) + [Mention(refs[i], topicIds, tagIds)]
  {
    assert refs[..i + 1][..i] == refs[..i];
  }

  lemma MentionsRegroup(a: seq<Mention>, b: seq<Mention>, m: Mention)
    ensures a + (b + [m]) == a + b + [m]
  {
  }

  /** Adds the references of one topic or tag. */
  method AddRefs(index: EntityIndex, refs: seq<Ref>, topicIds: set<Id>, tagIds: set<Id>, ghost mentions: seq<Mention>)
    returns (more: EntityIndex)
    requires Holds(index, mentions)
    ensures Holds(more, mentions + MentionsOf(refs, topicIds, tagIds))
  {
    more := index;
    assert mentions + [] == mentions;
    for i := 0 to |refs|
      invariant Holds(more, mentions + MentionsOf(refs[..i], topicIds, tagIds))
    {
      var m := Mention(refs[i], topicIds, tagIds);
      MentionsNext(refs, topicIds, tagIds, i);
      AddMentionHolds(more, mentions + MentionsOf(refs[..i], topicIds, tagIds), m);
      MentionsRegroup(mentions, MentionsOf(refs[..i], topicIds, tagIds), m);
      more := AddMention(more, m);
    }
    assert refs[..|refs|] == refs;
  }

  /** The part of the catalog index that entity lookups use. */
  method CreateEntityIndex(c: Catalog) returns (index: EntityIndex)
    ensures Holds(index, Mentions(c))
  {
    index := EntityIndex(map[], map[], map[]);
    for i := 0 to |c.topics|
      invariant Holds(index, TopicMentions(c.topics[..i]))
    {
      var topic := c.topics[i];
      TopicMentionsNext(c.topics, i);
      index := AddRefs(index, topic.entityRefs, {topic.id}, {}, TopicMentions(c.topics[..i]));
    }
    assert c.topics[..|c.topics|] == c.topics;
    ghost var fromTopics := TopicMentions(c.topics);
    assert fromTopics + [] == fromTopics;
    for i := 0 to |c.tags|
      invariant Holds(index, fromTopics + TagMentions(c.tags[..i]))
    {
      var tag := c.tags[i];
      TagMentionsNext(fromTopics, c.tags, i);
      index := AddRefs(index, tag.entityRefs, Elements(tag.parentTopicIds), {tag.id}, fromTopics + TagMentions(c.tags[..i]));
    }
    assert c.tags[..|c.tags|] == c.tags;
  }

  /** A resolved entity; the ids are listed in ascending order. */
  datatype Resolution = Resolution(ref: Ref, topicIds: seq<Id>, tagIds: seq<Id>)

  /** These are the known reference, topics and tags, in this order. */
  ghost predicate Resolves(order: Order, k: Facts, r: Option<Resolution>) {
    && (r.None? <==> k.ref.None?)
    && (r.Some? ==>
          && Some(r.value.ref) == k.ref
          && Ascends(order, r.value.topicIds) && (forall id :: id in r.value.topicIds <==> id in k.topicIds)
          && Ascends(order, r.value.tagIds) && (forall id :: id in r.value.tagIds <==> id in k.tagIds))
  }

  method ResolveFromIndex(order: Order, index: EntityIndex, lookup: Lookup) returns (r: Option<Resolution>)
    requires Total(order)
    ensures Resolves(order, Held(index, Key(lookup.source, lookup.id)), r)
  {
    var key := Key(lookup.source, lookup.id);
    if key !in index.refByKey {
      return None;
    }
    var topicIds := SortIds(order, IdsAt(index.topicIdsByKey, key));
    var tagIds := SortIds(order, IdsAt(index.tagIdsByKey, key));
    r := Some(Resolution(index.refByKey[key], topicIds, tagIds));
  }

  // ---------------------------------------------------------------- the scan

  predicate SameEntity(ref: Ref, lookup: Lookup) {
    ref.source == lookup.source && ref.id == lookup.id
  }

  function Find(refs: seq<Ref>, lookup: Lookup): Option<Ref> {
    if refs == [] then None
    else if SameEntity(refs[0], lookup) then Some(refs[0])
    else Find(refs[1..], lookup)
  }

  /** Of several references to one entity only the first counts. */
  lemma {:induction false} FindThenLearn(mentions: seq<Mention>, refs: seq<Ref>, topicIds: set<Id>, tagIds: set<Id>, lookup: Lookup)
    ensures var key := Key(lookup.source, lookup.id);
      var found := Find(refs, lookup);
      FactsFrom(mentions + MentionsOf(refs, topicIds, tagIds), key) ==
        if found.None? then FactsFrom(mentions, key) else Learn(FactsFrom(mentions, key), Mention(found.value, topicIds, tagIds))
  {
    var key := Key(lookup.source, lookup.id);
    if refs == [] {
      assert mentions + [] == mentions;
    } else {
      var n := |refs| - 1;
      FindThenLearn(mentions, refs[..n], topicIds, tagIds, lookup);
      FindNext(refs, lookup);
      var before := mentions + MentionsOf(refs[..n], topicIds, tagIds);
      assert mentions + MentionsOf(refs, topicIds, tagIds) == before + [Mention(refs[n], topicIds, tagIds)];
      FactsNext(before, Mention(refs[n], topicIds, tagIds), key);
      KeysTellEntitiesApart(refs[n].source, refs[n].id, lookup.source, lookup.id);
    }
  }

  lemma {:induction false} FindNext(refs: seq<Ref>, lookup: Lookup)
    requires refs != []
    ensures var n := |refs| - 1;
      Find(refs, lookup) ==
        if Find(refs[..n], lookup).Some? then Find(refs[..n], lookup)
        else if SameEntity(refs[n], lookup) then Some(refs[n]) else None
  {
    if |refs| > 1 {
      FindNext(refs[1..], lookup);
      assert refs[1..][..|refs| - 2] == refs[..|refs| - 1][1..];
    }
  }

  method ScanTopics(topics: seq<Topic>, lookup: Lookup) returns (facts: Facts)
    ensures facts == FactsFrom(TopicMentions(topics), Key(lookup.source, lookup.id))
  {
    facts := NOTHING;
    for i := 0 to |topics|
      invariant facts == FactsFrom(TopicMentions(topics[..i]), Key(lookup.source, lookup.id))
    {
      var topic := topics[i];
      TopicMentionsNext(topics, i);
      FindThenLearn(TopicMentions(topics[..i]), topic.entityRefs, {topic.id}, {}, lookup);
      var ref := Find(topic.entityRefs, lookup);
      if ref.Some? {
        facts := Learn(facts, Mention(ref.value, {topic.id}, {}));
      }
    }
    assert topics[..|topics|] == topics;
  }

  method ScanTags(byLocale: Order, c: Catalog, lookup: Lookup, before: Facts) returns (facts: Facts)
    requires Normalized(byLocale, c) && before == FactsFrom(TopicMentions(c.topics), Key(lookup.source, lookup.id))
    ensures facts == FactsFrom(Mentions(c), Key(lookup.source, lookup.id))
  {
    facts := before;
    ghost var fromTopics := TopicMentions(c.topics);
    assert fromTopics + [] == fromTopics;
    for i := 0 to |c.tags|
      invariant facts == FactsFrom(fromTopics + TagMentions(c.tags[..i]), Key(lookup.source, lookup.id))
    {
      var tag := c.tags[i];
      FindThenLearn(fromTopics + TagMentions(c.tags[..i]), tag.entityRefs, Elements(tag.parentTopicIds), {tag.id}, lookup);
      TagMentionsNext(fromTopics, c.tags, i);
      var ref := Find(tag.entityRefs, lookup);
      if ref.Some? {
        facts := Learn(facts, Mention(ref.value, KnownParents(c, byLocale, tag), {tag.id}));
      }
    }
    assert c.tags[..|c.tags|] == c.tags;
  }

  method ResolveCatalogEntity(byLocale: Order, c: Catalog, lookup: Lookup) returns (r: Option<Resolution>)
    requires Total(byLocale) && Normalized(byLocale, c)
    ensures Resolves(byLocale, FactsFrom(Mentions(c), Key(lookup.source, lookup.id)), r)
  {
    var facts := ScanTopics(c.topics, lookup);
    facts := ScanTags(byLocale, c, lookup, facts);
    if facts.ref.None? {
      return None;
    }
    var topicIds := SortIds(byLocale, facts.topicIds);
    var tagIds := SortIds(byLocale, facts.tagIds);
    r := Some(Resolution(facts.ref.value, topicIds, tagIds));
  }

  lemma TopicMentionsNext(topics: seq<Topic>, i: nat)
    requires i < |topics|
    ensures TopicMentions(topics[..i + 1]) == TopicMentions(topics[..i]) + MentionsOf(topics[i].entityRefs, {topics[i].id}, {})
  {
    assert topics[..i + 1][..i] == topics[..i];
  }

  lemma TagMentionsNext(before: seq<Mention>, tags: seq<Tag>, i: nat)
    requires i < |tags|
    ensures before + TagMentions(tags[..i + 1]) ==
      before + TagMentions(tags[..i]) + MentionsOf(tags[i].entityRefs, Elements(tags[i].parentTopicIds), {tags[i].id})
  {
    assert tags[..i + 1][..i] == tags[..i];
  }

  /** The scan skips parents that are no topics; in a normalized catalog there are none. */
  function KnownParents(c: Catalog, ghost byLocale: Order, tag: Tag): (ids: set<Id>)
    requires Normalized(byLocale, c) && tag in c.tags
    ensures ids == Elements(tag.parentTopicIds)
  {
    assert TagLinked(c.topics, tag);
    set i | 0 <= i < |tag.parentTopicIds| && tag.parentTopicIds[i] in TopicMap(c.topics) :: tag.parentTopicIds[i]
  }

  // ---------------------------------------------------------------- agreement

  /**
   * Scan and index resolve the same entities, to the same reference and to the same topics and tags;
   * with one order of ids they also list these alike.
   */
  lemma EntityIndexAgreesWithScan(c: Catalog, index: EntityIndex, lookup: Lookup, byLocale: Order, byCode: Order,
                                  scanned: Option<Resolution>, indexed: Option<Resolution>)
    requires Holds(index, Mentions(c)) && Total(byCode)
    requires Resolves(byLocale, FactsFrom(Mentions(c), Key(lookup.source, lookup.id)), scanned)
    requires Resolves(byCode, Held(index, Key(lookup.source, lookup.id)), indexed)
    ensures scanned.Some? <==> indexed.Some?
    ensures scanned.Some? ==>
      && scanned.value.ref == indexed.value.ref
      && (forall id :: id in scanned.value.topicIds <==> id in indexed.value.topicIds)
      && (forall id :: id in scanned.value.tagIds <==> id in indexed.value.tagIds)
    ensures byLocale == byCode ==> scanned == indexed
  {
    assert Held(index, Key(lookup.source, lookup.id)) == FactsFrom(Mentions(c), Key(lookup.source, lookup.id));
    if scanned.Some? && byLocale == byCode {
      SortedOnce(byCode, scanned.value.topicIds, indexed.value.topicIds);
      SortedOnce(byCode, scanned.value.tagIds, indexed.value.tagIds);
    }
  }

  lemma AfterFirst(order: Order, a: seq<Id>, id: Id)
    requires Total(order) && Ascends(order, a) && a != []
    ensures id in a[1..] <==> id in a && id != a[0]
    ensures id in a ==> NotAfter(order, a[0], id)
  {
    assert a == [a[0]] + a[1..];
    if id in a[1..] {
      var i :| 0 <= i < |a[1..]| && a[1..][i] == id;
      assert a[i + 1] == id && order(a[0], a[i + 1]);
    }
  }

  lemma {:induction false} SortedOnce(order: Order, a: seq<Id>, b: seq<Id>)
    requires Total(order) && Ascends(order, a) && Ascends(order, b) && forall id :: id in a <==> id in b
    ensures a == b
  {
    assert a != [] ==> a[0] in a;
    assert b != [] ==> b[0] in b;
    if a != [] && b != [] {
      AfterFirst(order, a, b[0]);
      AfterFirst(order, b, a[0]);
      assert a[0] == b[0];
      forall id
        ensures id in a[1..] <==> id in b[1..]
      {
        AfterFirst(order, a, id);
        AfterFirst(order, b, id);
      }
      SortedOnce(order, a[1..], b[1..]);
      assert a == [a[0]] + a[1..] && b == [b[0]] + b[1..];
    }
  }
}
