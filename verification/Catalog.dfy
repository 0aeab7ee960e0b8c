/** The catalog and its linear scans: src/recommendation/catalog.ts and src/recommendation/catalog-entity-resolution.ts. */
module Catalogs {
  import opened Options

  type Id = string
  type Token = string

  datatype Kind = Primary | Subtopic

  datatype Source = Wikidata | DBpedia

  datatype Ref = Ref(source: Source, id: string, title: string)

  datatype Topic = Topic(id: Id, kind: Kind, subtopicIds: seq<Id>, canonicalTagIds: seq<Id>, entityRefs: seq<Ref>)

  datatype Tag = Tag(id: Id, hashtags: seq<Token>, variants: seq<Token>, parentTopicIds: seq<Id>, entityRefs: seq<Ref>)

  datatype Catalog = Catalog(topics: seq<Topic>, tags: seq<Tag>)

  /** Whether one id comes before another in an order of all ids, such as that of localeCompare or that of code units. */
  type Order = (Id, Id) -> bool

  ghost predicate Total(order: Order) {
    && (forall a :: !order(a, a))
    && (forall a, b :: a == b || order(a, b) || order(b, a))
    && (forall a, b, c :: order(a, b) && order(b, c) ==> order(a, c))
  }

  predicate InOrder(order: Order, a: Id, b: Id) {
    order(a, b)
  }

  predicate NotAfter(order: Order, a: Id, b: Id) {
    a == b || order(a, b)
  }

  ghost predicate TagsAscend(order: Order, tags: seq<Tag>) {
    forall i, j {:trigger InOrder(order, tags[i].id, tags[j].id)} ::
      0 <= i < j < |tags| ==> InOrder(order, tags[i].id, tags[j].id)
  }

  ghost predicate TopicsAscend(order: Order, topics: seq<Topic>) {
    forall i, j {:trigger InOrder(order, topics[i].id, topics[j].id)} ::
      0 <= i < j < |topics| ==> InOrder(order, topics[i].id, topics[j].id)
  }

  predicate Known(topics: seq<Topic>, id: Id) {
    exists i :: 0 <= i < |topics| && topics[i].id == id
  }

  /** Topics by id, the later one if there were two. */
  function TopicMap(topics: seq<Topic>): (m: map<Id, Topic>)
    ensures forall id :: id in m <==> Known(topics, id)
    ensures forall id :: id in m ==> m[id] in topics && m[id].id == id
  {
    if topics == [] then map[]
    else
      var n := |topics| - 1;
      assert forall id :: Known(topics[..n], id) ==> Known(topics, id);
      assert topics == topics[..n] + [topics[n]];
      TopicMap(topics[..n])[topics[n].id := topics[n]]
  }

  /** The parents of a tag are topics. */
  predicate TagLinked(topics: seq<Topic>, t: Tag) {
    forall id :: id in t.parentTopicIds ==> Known(topics, id)
  }

  /** Only a primary topic lists subtopics, and what it lists are subtopics. */
  predicate TopicLinked(topics: seq<Topic>, t: Topic) {
    forall id :: id in t.subtopicIds ==> Known(topics, id) && t.kind.Primary? && TopicMap(topics)[id].kind.Subtopic?
  }

  /** What assertCatalogLinks and the sorting of a normalized catalog leave. */
  ghost predicate Normalized(order: Order, c: Catalog) {
    && TopicsAscend(order, c.topics) && TagsAscend(order, c.tags)
    && (forall t {:trigger TagLinked(c.topics, t)} :: t in c.tags ==> TagLinked(c.topics, t))
    && (forall t {:trigger TopicLinked(c.topics, t)} :: t in c.topics ==> TopicLinked(c.topics, t))
  }

  // ---------------------------------------------------------------- tags by token

  predicate Carries(t: Tag, token: Token) {
    token in t.hashtags || token in t.variants
  }

  predicate HasParent(m: map<Id, Topic>, t: Tag, kind: Kind) {
    exists i :: 0 <= i < |t.parentTopicIds| && t.parentTopicIds[i] in m && m[t.parentTopicIds[i]].kind == kind
  }

  /** A tag under a subtopic is more specific than one under a primary topic, and that more than one under none. */
  function Specificity(m: map<Id, Topic>, t: Tag): nat {
    if HasParent(m, t, Subtopic) then 2 else if HasParent(m, t, Primary) then 1 else 0
  }

  /** Some parent of the tag is a topic of this kind. */
  ghost predicate Under(m: map<Id, Topic>, t: Tag, kind: Kind) {
    exists id :: id in t.parentTopicIds && id in m && m[id].kind == kind
  }

  /** t is under a subtopic and u is not, or t is at least under a primary topic and u under none. */
  ghost predicate MoreSpecific(m: map<Id, Topic>, t: Tag, u: Tag) {
    || (Under(m, t, Subtopic) && !Under(m, u, Subtopic))
    || (Under(m, t, Primary) && !Under(m, u, Primary) && !Under(m, u, Subtopic))
  }

  lemma ParentsInList(m: map<Id, Topic>, t: Tag, kind: Kind)
    ensures HasParent(m, t, kind) <==> Under(m, t, kind)
  {
    if Under(m, t, kind) {
      var id :| id in t.parentTopicIds && id in m && m[id].kind == kind;
      var i :| 0 <= i < |t.parentTopicIds| && t.parentTopicIds[i] == id;
    }
  }

  /** Subtopics rank above primary topics, and these above no topic. */
  lemma SpecificityRanks(m: map<Id, Topic>, t: Tag, u: Tag)
    ensures Specificity(m, t) > Specificity(m, u) <==> MoreSpecific(m, t, u)
  {
    ParentsInList(m, t, Subtopic);
    ParentsInList(m, t, Primary);
    ParentsInList(m, u, Subtopic);
    ParentsInList(m, u, Primary);
  }

  method TagSpecificity(m: map<Id, Topic>, t: Tag) returns (specificity: nat)
    ensures specificity == Specificity(m, t)
  {
    specificity := 0;
    for i := 0 to |t.parentTopicIds|
      invariant specificity ==
        if exists k :: 0 <= k < i && t.parentTopicIds[k] in m && m[t.parentTopicIds[k]].kind.Subtopic? then 2
        else if exists k :: 0 <= k < i && t.parentTopicIds[k] in m && m[t.parentTopicIds[k]].kind.Primary? then 1
        else 0
    {
      var id := t.parentTopicIds[i];
      if id in m && m[id].kind.Subtopic? {
        specificity := 2;
      } else if id in m && m[id].kind.Primary? {
        specificity := if specificity < 1 then 1 else specificity;
      }
    }
  }

  /** Nothing in the list is more specific. */
  ghost predicate Most(m: map<Id, Topic>, tags: seq<Tag>, t: Tag) {
    t in tags && forall u :: u in tags ==> Specificity(m, u) <= Specificity(m, t)
  }

  /** The most specific tag that comes first in the order. */
  ghost predicate FirstMost(order: Order, m: map<Id, Topic>, tags: seq<Tag>, t: Tag) {
    Most(m, tags, t) && forall u :: Most(m, tags, u) ==> NotAfter(order, t.id, u.id)
  }

  /** The list's tags that carry the token, in order. */
  function Carriers(tags: seq<Tag>, token: Token): (r: seq<Tag>)
    ensures forall t :: t in r <==> t in tags && Carries(t, token)
  {
    if tags == [] then []
    else
      var n := |tags| - 1;
      assert tags == tags[..n] + [tags[n]];
      Carriers(tags[..n], token) + (if Carries(tags[n], token) then [tags[n]] else [])
  }

  lemma EarlierCarriers(order: Order, tags: seq<Tag>, i: nat, token: Token)
    requires TagsAscend(order, tags) && i < |tags|
    ensures forall u :: u in Carriers(tags[..i], token) ==> order(u.id, tags[i].id)
  {
    forall u | u in Carriers(tags[..i], token)
      ensures order(u.id, tags[i].id)
    {
      assert u in tags[..i];
      var k :| 0 <= k < i && tags[..i][k] == u;
      assert tags[k] == u && InOrder(order, tags[k].id, tags[i].id);
    }
  }

  /** The scan: the first of the most specific tags that carry the token. */
  method ResolveCanonicalTagForHashtag(order: Order, c: Catalog, token: Token) returns (best: Option<Tag>)
    requires Total(order) && TagsAscend(order, c.tags)
    ensures best.None? <==> Carriers(c.tags, token) == []
    ensures best.Some? ==> FirstMost(order, TopicMap(c.topics), Carriers(c.tags, token), best.value)
    ensures best.None? <==> forall t :: t in c.tags ==> token !in t.hashtags && token !in t.variants
    ensures best.Some? ==> best.value in c.tags && (token in best.value.hashtags || token in best.value.variants)
    ensures best.Some? ==> Beats(order, c, token, best.value)
  {
    var m := TopicMap(c.topics);
    var bestSpecificity := 0;
    best := None;
    for i := 0 to |c.tags|
      invariant best.None? <==> Carriers(c.tags[..i], token) == []
      invariant best.Some? ==> bestSpecificity == Specificity(m, best.value)
      invariant best.Some? ==> FirstMost(order, m, Carriers(c.tags[..i], token), best.value)
    {
      var tag := c.tags[i];
      assert c.tags[..i + 1][..i] == c.tags[..i];
      ghost var before := Carriers(c.tags[..i], token);
      if Carries(tag, token) {
        var specificity := TagSpecificity(m, tag);
        EarlierCarriers(order, c.tags, i, token);
        FirstMostNext(order, m, before, best, tag);
        if best.None? || specificity > bestSpecificity {
          best, bestSpecificity := Some(tag), specificity;
        }
      }
    }
    assert c.tags[..|c.tags|] == c.tags;
    if best.Some? {
      FirstMostBeats(order, c, token, best.value);
    } else {
      assert forall t :: t in c.tags && Carries(t, token) ==> t in Carriers(c.tags, token);
    }
  }

  /** No tag that carries the token is more specific than t, and none of those that are not less specific comes before it. */
  ghost predicate Beats(order: Order, c: Catalog, token: Token, t: Tag) {
    var m := TopicMap(c.topics);
    forall u :: u in c.tags && (token in u.hashtags || token in u.variants) ==>
      !MoreSpecific(m, u, t) && (!MoreSpecific(m, t, u) ==> NotAfter(order, t.id, u.id))
  }

  lemma FirstMostBeats(order: Order, c: Catalog, token: Token, t: Tag)
    requires FirstMost(order, TopicMap(c.topics), Carriers(c.tags, token), t)
    ensures Beats(order, c, token, t)
  {
    var m := TopicMap(c.topics);
    forall u | u in c.tags && (token in u.hashtags || token in u.variants)
      ensures !MoreSpecific(m, u, t) && (!MoreSpecific(m, t, u) ==> NotAfter(order, t.id, u.id))
    {
      assert u in Carriers(c.tags, token);
      SpecificityRanks(m, u, t);
      SpecificityRanks(m, t, u);
      assert !MoreSpecific(m, t, u) ==> Most(m, Carriers(c.tags, token), u);
    }
  }

  /** A later tag replaces the first best one only if it is more specific. */
  lemma FirstMostNext(order: Order, m: map<Id, Topic>, before: seq<Tag>, best: Option<Tag>, tag: Tag)
    requires best.None? ==> before == []
    requires Total(order) && (best.Some? ==> FirstMost(order, m, before, best.value))
    requires forall u :: u in before ==> order(u.id, tag.id)
    ensures FirstMost(order, m, before + [tag],
      if best.None? || Specificity(m, tag) > Specificity(m, best.value) then tag else best.value)
  {
  }

  // ---------------------------------------------------------------- tags of selected topics

  function Elements(ids: seq<Id>): set<Id> {
    set i | 0 <= i < |ids| :: ids[i]
  }

  /** The tags that these topics list. */
  function TagIdsOf(m: map<Id, Topic>, ids: set<Id>): set<Id> {
    set id, tagId | id in ids && id in m && tagId in m[id].canonicalTagIds :: tagId
  }

  /** The selected topics and their subtopics. */
  ghost predicate Covered(m: map<Id, Topic>, selected: seq<Id>, id: Id) {
    id in selected || exists p :: p in selected && p in m && id in m[p].subtopicIds
  }

  lemma {:induction false} AddTopicTags(m: map<Id, Topic>, ids: set<Id>, id: Id)
    requires id in m
    ensures TagIdsOf(m, ids + {id}) == TagIdsOf(m, ids) + Elements(m[id].canonicalTagIds)
  {
    forall tagId | tagId in Elements(m[id].canonicalTagIds)
      ensures tagId in TagIdsOf(m, ids + {id})
    {
      assert tagId in m[id].canonicalTagIds;
    }
  }

  /** The topics before `index` of the queue are done: their tags are in, and their subtopics are queued. */
  ghost predicate QueueSound(m: map<Id, Topic>, selected: seq<Id>, queue: seq<Id>, index: nat, visited: set<Id>) {
    && index <= |queue| && |selected| <= |queue| && queue[..|selected|] == selected
    && visited <= m.Keys && (forall id :: id in visited <==> id in queue[..index])
    && (forall id :: id in queue ==> Covered(m, selected, id))
    && (forall p, id :: p in visited && id in m[p].subtopicIds ==> id in queue)
  }

  /** What this topic lists are topics that list none themselves. */
  predicate SubtopicsEnd(m: map<Id, Topic>, p: Id)
    requires p in m
  {
    forall id :: id in m[p].subtopicIds ==> id in m && m[id].subtopicIds == []
  }

  ghost predicate Linked(m: map<Id, Topic>) {
    forall p {:trigger SubtopicsEnd(m, p)} :: p in m ==> SubtopicsEnd(m, p)
  }

  lemma CatalogIsLinked(order: Order, c: Catalog)
    requires Normalized(order, c)
    ensures Linked(TopicMap(c.topics))
  {
    var m := TopicMap(c.topics);
    forall p | p in m
      ensures SubtopicsEnd(m, p)
    {
      assert TopicLinked(c.topics, m[p]);
      forall id | id in m[p].subtopicIds
        ensures id in m && m[id].subtopicIds == []
      {
        var own := m[id].subtopicIds;
        assert own != [] ==> own[0] in own;
        assert TopicLinked(c.topics, m[id]);
      }
    }
  }

  lemma VisitNext(m: map<Id, Topic>, selected: seq<Id>, queue: seq<Id>, index: nat, visited: set<Id>)
    requires Linked(m) && QueueSound(m, selected, queue, index, visited)
    requires index < |queue| && queue[index] in m
    ensures QueueSound(m, selected, queue + m[queue[index]].subtopicIds, index + 1, visited + {queue[index]})
  {
    var id := queue[index];
    var longer := queue + m[id].subtopicIds;
    assert longer[..index + 1] == queue[..index] + [id];
    assert longer[..|selected|] == selected;
    forall x | x in longer
      ensures Covered(m, selected, x)
    {
      if x !in queue {
        assert x in m[id].subtopicIds && id in queue && Covered(m, selected, id);
        assert forall p :: p in m ==> SubtopicsEnd(m, p);
      }
    }
  }

  /** A tag of a selected topic or of one of its subtopics. */
  ghost predicate TagCovered(m: map<Id, Topic>, selected: seq<Id>, tagId: Id) {
    exists id {:trigger Covered(m, selected, id)} :: Covered(m, selected, id) && id in m && tagId in m[id].canonicalTagIds
  }

  lemma QueueDone(m: map<Id, Topic>, selected: seq<Id>, queue: seq<Id>, visited: set<Id>, id: Id)
    requires QueueSound(m, selected, queue, |queue|, visited)
    ensures id in visited <==> Covered(m, selected, id)
  {
    assert queue[..|queue|] == queue;
    assert forall x :: x in selected ==> x in queue[..|selected|];
    assert forall x :: x in queue[..|selected|] ==> x in queue;
  }

  /** A finished queue has covered exactly the selected topics and their subtopics, all of them known. */
  lemma QueueCovered(m: map<Id, Topic>, selected: seq<Id>, queue: seq<Id>, visited: set<Id>)
    requires QueueSound(m, selected, queue, |queue|, visited)
    ensures forall id :: id in selected ==> id in m
    ensures forall tagId :: tagId in TagIdsOf(m, visited) <==> TagCovered(m, selected, tagId)
  {
    forall id
      ensures id in visited <==> Covered(m, selected, id)
    {
      QueueDone(m, selected, queue, visited, id);
    }
    assert forall id :: id in selected ==> Covered(m, selected, id);
    forall tagId
      ensures tagId in TagIdsOf(m, visited) <==> TagCovered(m, selected, tagId)
    {
      if tagId in TagIdsOf(m, visited) {
        var id :| id in visited && id in m && tagId in m[id].canonicalTagIds;
        assert Covered(m, selected, id);
      }
    }
  }

  lemma SkipVisited(m: map<Id, Topic>, selected: seq<Id>, queue: seq<Id>, index: nat, visited: set<Id>)
    requires QueueSound(m, selected, queue, index, visited) && index < |queue| && queue[index] in visited
    ensures QueueSound(m, selected, queue, index + 1, visited)
  {
    assert queue[..index + 1] == queue[..index] + [queue[index]];
  }

  /** Of what is covered only a selected topic can be unknown. */
  lemma CoveredIsKnown(m: map<Id, Topic>, selected: seq<Id>, id: Id)
    requires Linked(m) && Covered(m, selected, id) && id !in m
    ensures id in selected
  {
    assert forall p :: p in m ==> SubtopicsEnd(m, p);
  }

  /** The tag is listed by a selected topic, or by a subtopic that a selected topic lists. */
  ghost predicate Expands(topics: seq<Topic>, selected: seq<Id>, tagId: Id) {
    exists t :: t in topics && tagId in t.canonicalTagIds &&
      (t.id in selected || exists p :: p in topics && p.id in selected && t.id in p.subtopicIds)
  }

  lemma {:induction false} TopicMapHolds(order: Order, topics: seq<Topic>, t: Topic)
    requires Total(order) && TopicsAscend(order, topics) && t in topics
    ensures t.id in TopicMap(topics) && TopicMap(topics)[t.id] == t
  {
    var n := |topics| - 1;
    assert topics == topics[..n] + [topics[n]];
    if t in topics[..n] {
      TopicMapHolds(order, topics[..n], t);
      var i :| 0 <= i < n && topics[..n][i] == t;
      assert InOrder(order, topics[i].id, topics[n].id);
    }
  }

  /** What is covered in the map is what the listed topics expand to. */
  lemma CoveredExpands(order: Order, topics: seq<Topic>, selected: seq<Id>, tagId: Id)
    requires Total(order) && TopicsAscend(order, topics)
    ensures TagCovered(TopicMap(topics), selected, tagId) <==> Expands(topics, selected, tagId)
  {
    var m := TopicMap(topics);
    forall t | t in topics
      ensures t.id in m && m[t.id] == t
    {
      TopicMapHolds(order, topics, t);
    }
    if Expands(topics, selected, tagId) {
      var t :| t in topics && tagId in t.canonicalTagIds &&
        (t.id in selected || exists p :: p in topics && p.id in selected && t.id in p.subtopicIds);
      assert Covered(m, selected, t.id);
    }
    if TagCovered(m, selected, tagId) {
      var id :| Covered(m, selected, id) && id in m && tagId in m[id].canonicalTagIds;
      assert m[id] in topics;
    }
  }

  /** Every selected topic must be known; then the tags are those of the selected topics and their subtopics. */
  method ExpandedCanonicalTagsForTopics(order: Order, c: Catalog, selected: seq<Id>) returns (r: Option<set<Id>>)
    requires Total(order) && Normalized(order, c)
    ensures r.None? <==> exists id :: id in selected && forall t :: t in c.topics ==> t.id != id
    ensures r.Some? ==> forall tagId :: tagId in r.value <==> Expands(c.topics, selected, tagId)
  {
    CatalogIsLinked(order, c);
    r := ExpandTopics(TopicMap(c.topics), selected);
    forall id
      ensures id in TopicMap(c.topics) <==> exists t :: t in c.topics && t.id == id
    {
      if t :| t in c.topics && t.id == id {
        TopicMapHolds(order, c.topics, t);
      }
    }
    forall tagId
      ensures TagCovered(TopicMap(c.topics), selected, tagId) <==> Expands(c.topics, selected, tagId)
    {
      CoveredExpands(order, c.topics, selected, tagId);
    }
  }

  method ExpandTopics(m: map<Id, Topic>, selected: seq<Id>) returns (r: Option<set<Id>>)
    requires Linked(m)
    ensures r.None? <==> exists id :: id in selected && id !in m
    ensures r.Some? ==> forall tagId :: tagId in r.value <==> TagCovered(m, selected, tagId)
  {
    var expanded: set<Id> := {};
    var visited: set<Id> := {};
    var queue, index := selected, 0;
    assert forall id :: id in selected ==> Covered(m, selected, id);
    while index < |queue|
      invariant QueueSound(m, selected, queue, index, visited)
      invariant expanded == TagIdsOf(m, visited)
      decreases |m.Keys - visited|, |queue| - index
    {
      var topicId := queue[index];
      if topicId in visited {
        SkipVisited(m, selected, queue, index, visited);
        index := index + 1;
        continue;
      }
      assert topicId in queue;
      if topicId !in m {
        CoveredIsKnown(m, selected, topicId);
        return None;
      }
      VisitNext(m, selected, queue, index, visited);
      AddTopicTags(m, visited, topicId);
      assert m.Keys - visited == (m.Keys - (visited + {topicId})) + {topicId};
      visited := visited + {topicId};
      expanded := expanded + Elements(m[topicId].canonicalTagIds);
      queue := queue + m[topicId].subtopicIds;
      index := index + 1;
    }
    QueueCovered(m, selected, queue, visited);
    r := Some(expanded);
  }
}
