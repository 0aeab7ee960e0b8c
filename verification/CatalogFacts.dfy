/** What entity lookups find, in terms of the catalog itself: src/recommendation/catalog-entity-resolution.ts. */
module CatalogFacts {
  import opened Options
  import opened Catalogs
  import opened CatalogEntities

  ghost predicate Refers(refs: seq<Ref>, source: Source, id: string) {
    exists ref :: ref in refs && ref.source == source && ref.id == id
  }

  /** The first of the references to the entity. */
  ghost predicate FirstReference(refs: seq<Ref>, source: Source, id: string, ref: Ref) {
    exists j :: 0 <= j < |refs| && refs[j] == ref && ref.source == source && ref.id == id &&
      forall k :: 0 <= k < j ==> !(refs[k].source == source && refs[k].id == id)
  }

  lemma {:induction false} FindIsFirst(refs: seq<Ref>, lookup: Lookup)
    ensures Find(refs, lookup).Some? <==> Refers(refs, lookup.source, lookup.id)
    ensures Find(refs, lookup).Some? ==> FirstReference(refs, lookup.source, lookup.id, Find(refs, lookup).value)
  {
    if refs != [] {
      var n := |refs| - 1;
      assert refs == refs[..n] + [refs[n]];
      FindIsFirst(refs[..n], lookup);
      FindNext(refs, lookup);
      if Find(refs[..n], lookup).Some? {
        var j :| 0 <= j < n && refs[..n][j] == Find(refs[..n], lookup).value && forall k :: 0 <= k < j ==> !SameEntity(refs[..n][k], lookup);
        assert refs[j] == refs[..n][j] && forall k :: 0 <= k < j ==> refs[k] == refs[..n][k];
      } else {
        forall k | 0 <= k < n
          ensures !SameEntity(refs[k], lookup)
        {
          assert refs[..n][k] == refs[k] && refs[k] in refs[..n];
        }
      }
    }
  }

  /** The lists' first reference: the first in the first list that has one. */
  ghost predicate FirstListed(lists: seq<seq<Ref>>, source: Source, id: string, ref: Ref) {
    exists i :: 0 <= i < |lists| && FirstReference(lists[i], source, id, ref) && forall k :: 0 <= k < i ==> !Refers(lists[k], source, id)
  }

  function TopicRefs(topics: seq<Topic>): seq<seq<Ref>> {
    seq(|topics|, i requires 0 <= i < |topics| => topics[i].entityRefs)
  }

  function TagRefs(tags: seq<Tag>): seq<seq<Ref>> {
    seq(|tags|, i requires 0 <= i < |tags| => tags[i].entityRefs)
  }

  lemma FirstListedMore(lists: seq<seq<Ref>>, last: seq<Ref>, lookup: Lookup, known: Option<Ref>)
    requires known.None? ==> forall refs :: refs in lists ==> !Refers(refs, lookup.source, lookup.id)
    requires known.Some? ==> FirstListed(lists, lookup.source, lookup.id, known.value)
    ensures var more := if known.Some? then known else Find(last, lookup);
      && (more.None? ==> forall refs :: refs in lists + [last] ==> !Refers(refs, lookup.source, lookup.id))
      && (more.Some? ==> FirstListed(lists + [last], lookup.source, lookup.id, more.value))
  {
    FindIsFirst(last, lookup);
    var all := lists + [last];
    if known.Some? {
      var i :| 0 <= i < |lists| && FirstReference(lists[i], lookup.source, lookup.id, known.value)
        && forall k :: 0 <= k < i ==> !Refers(lists[k], lookup.source, lookup.id);
      assert all[i] == lists[i] && forall k :: 0 <= k < i ==> all[k] == lists[k];
    } else {
      assert all[|lists|] == last && forall k :: 0 <= k < |lists| ==> all[k] == lists[k] && lists[k] in lists;
    }
  }

  /** The reference is the first in the lists, or there is none. */
  ghost predicate KnowsRef(lists: seq<seq<Ref>>, lookup: Lookup, ref: Option<Ref>) {
    && (ref.None? ==> forall refs :: refs in lists ==> !Refers(refs, lookup.source, lookup.id))
    && (ref.Some? ==> FirstListed(lists, lookup.source, lookup.id, ref.value))
  }

  /** These are the topics that refer to the entity, and the parents of the tags that do. */
  ghost predicate KnowsTopics(topics: seq<Topic>, tags: seq<Tag>, lookup: Lookup, topicIds: set<Id>) {
    forall id :: id in topicIds <==>
      || (exists t :: t in topics && t.id == id && Refers(t.entityRefs, lookup.source, lookup.id))
      || (exists g :: g in tags && id in g.parentTopicIds && Refers(g.entityRefs, lookup.source, lookup.id))
  }

  /** These are the tags that refer to the entity. */
  ghost predicate KnowsTags(tags: seq<Tag>, lookup: Lookup, tagIds: set<Id>) {
    forall id :: id in tagIds <==> exists g :: g in tags && g.id == id && Refers(g.entityRefs, lookup.source, lookup.id)
  }

  lemma MoreTopics(topics: seq<Topic>, last: Topic, lookup: Lookup, ids: set<Id>)
    requires KnowsTopics(topics, [], lookup, ids)
    ensures KnowsTopics(topics + [last], [], lookup, if Refers(last.entityRefs, lookup.source, lookup.id) then ids + {last.id} else ids)
  {
    assert forall t :: t in topics + [last] <==> t in topics || t == last;
  }

  lemma MoreParents(topics: seq<Topic>, tags: seq<Tag>, last: Tag, lookup: Lookup, ids: set<Id>)
    requires KnowsTopics(topics, tags, lookup, ids)
    ensures KnowsTopics(topics, tags + [last], lookup,
              if Refers(last.entityRefs, lookup.source, lookup.id) then ids + Elements(last.parentTopicIds) else ids)
  {
    assert forall g :: g in tags + [last] <==> g in tags || g == last;
    assert forall id :: id in Elements(last.parentTopicIds) <==> id in last.parentTopicIds;
  }

  lemma MoreTags(tags: seq<Tag>, last: Tag, lookup: Lookup, ids: set<Id>)
    requires KnowsTags(tags, lookup, ids)
    ensures KnowsTags(tags + [last], lookup, if Refers(last.entityRefs, lookup.source, lookup.id) then ids + {last.id} else ids)
  {
    assert forall g :: g in tags + [last] <==> g in tags || g == last;
  }

  /** The facts once one more topic counts. */
  lemma TopicCounts(topics: seq<Topic>, last: Topic, lookup: Lookup)
    ensures var key := Key(lookup.source, lookup.id);
      var before := FactsFrom(TopicMentions(topics), key);
      var found := Find(last.entityRefs, lookup);
      FactsFrom(TopicMentions(topics + [last]), key) ==
        if found.None? then before else Learn(before, Mention(found.value, {last.id}, {}))
  {
    var all := topics + [last];
    assert all[..|topics|] == topics && all[..|topics| + 1] == all;
    TopicMentionsNext(all, |topics|);
    FindThenLearn(TopicMentions(topics), last.entityRefs, {last.id}, {}, lookup);
  }

  lemma {:induction false} RefKnownFromTopics(topics: seq<Topic>, lookup: Lookup)
    ensures KnowsRef(TopicRefs(topics), lookup, FactsFrom(TopicMentions(topics), Key(lookup.source, lookup.id)).ref)
  {
    if topics != [] {
      var before, last := topics[..|topics| - 1], topics[|topics| - 1];
      assert topics == before + [last];
      RefKnownFromTopics(before, lookup);
      TopicCounts(before, last, lookup);
      assert TopicRefs(before + [last]) == TopicRefs(before) + [last.entityRefs];
      FirstListedMore(TopicRefs(before), last.entityRefs, lookup, FactsFrom(TopicMentions(before), Key(lookup.source, lookup.id)).ref);
    }
  }

  lemma {:induction false} IdsKnownFromTopics(topics: seq<Topic>, lookup: Lookup)
    ensures var k := FactsFrom(TopicMentions(topics), Key(lookup.source, lookup.id));
      KnowsTopics(topics, [], lookup, k.topicIds) && k.tagIds == {}
  {
    if topics != [] {
      var before, last := topics[..|topics| - 1], topics[|topics| - 1];
      assert topics == before + [last];
      IdsKnownFromTopics(before, lookup);
      TopicCounts(before, last, lookup);
      FindIsFirst(last.entityRefs, lookup);
      MoreTopics(before, last, lookup, FactsFrom(TopicMentions(before), Key(lookup.source, lookup.id)).topicIds);
    }
  }

  /** The facts once one more tag counts. */
  lemma TagCounts(topics: seq<Topic>, tags: seq<Tag>, last: Tag, lookup: Lookup)
    ensures var key := Key(lookup.source, lookup.id);
      var before := FactsFrom(TopicMentions(topics) + TagMentions(tags), key);
      var found := Find(last.entityRefs, lookup);
      FactsFrom(TopicMentions(topics) + TagMentions(tags + [last]), key) ==
        if found.None? then before else Learn(before, Mention(found.value, Elements(last.parentTopicIds), {last.id}))
  {
    var all := tags + [last];
    assert all[..|tags|] == tags && all[..|tags| + 1] == all;
    TagMentionsNext(TopicMentions(topics), all, |tags|);
    FindThenLearn(TopicMentions(topics) + TagMentions(tags), last.entityRefs, Elements(last.parentTopicIds), {last.id}, lookup);
  }

  lemma MoreRefs(topics: seq<Topic>, tags: seq<Tag>, last: Tag)
    ensures TopicRefs(topics) + TagRefs(tags + [last]) == TopicRefs(topics) + TagRefs(tags) + [last.entityRefs]
  {
    assert TagRefs(tags + [last]) == TagRefs(tags) + [last.entityRefs];
  }

  lemma {:induction false} RefKnown(topics: seq<Topic>, tags: seq<Tag>, lookup: Lookup)
    ensures KnowsRef(TopicRefs(topics) + TagRefs(tags), lookup,
              FactsFrom(TopicMentions(topics) + TagMentions(tags), Key(lookup.source, lookup.id)).ref)
  {
    if tags == [] {
      RefKnownFromTopics(topics, lookup);
      assert TopicMentions(topics) + [] == TopicMentions(topics) && TopicRefs(topics) + TagRefs([]) == TopicRefs(topics);
    } else {
      var before, last := tags[..|tags| - 1], tags[|tags| - 1];
      assert tags == before + [last];
      RefKnown(topics, before, lookup);
      TagCounts(topics, before, last, lookup);
      MoreRefs(topics, before, last);
      FirstListedMore(TopicRefs(topics) + TagRefs(before), last.entityRefs, lookup,
        FactsFrom(TopicMentions(topics) + TagMentions(before), Key(lookup.source, lookup.id)).ref);
    }
  }

  lemma {:induction false} IdsKnown(topics: seq<Topic>, tags: seq<Tag>, lookup: Lookup)
    ensures var k := FactsFrom(TopicMentions(topics) + TagMentions(tags), Key(lookup.source, lookup.id));
      KnowsTopics(topics, tags, lookup, k.topicIds) && KnowsTags(tags, lookup, k.tagIds)
  {
    if tags == [] {
      IdsKnownFromTopics(topics, lookup);
      assert TopicMentions(topics) + [] == TopicMentions(topics);
    } else {
      var before, last := tags[..|tags| - 1], tags[|tags| - 1];
      assert tags == before + [last];
      IdsKnown(topics, before, lookup);
      TagCounts(topics, before, last, lookup);
      FindIsFirst(last.entityRefs, lookup);
      var k := FactsFrom(TopicMentions(topics) + TagMentions(before), Key(lookup.source, lookup.id));
      MoreParents(topics, before, last, lookup, k.topicIds);
      MoreTags(before, last, lookup, k.tagIds);
    }
  }

  /**
   * What is found for an entity: its first reference, topics before tags, if there is one; the topics that refer to it
   * and the parents of the tags that do; and these tags.
   */
  lemma FactsOfTheCatalog(c: Catalog, lookup: Lookup)
    ensures var k := FactsFrom(Mentions(c), Key(lookup.source, lookup.id));
      && KnowsRef(TopicRefs(c.topics) + TagRefs(c.tags), lookup, k.ref)
      && KnowsTopics(c.topics, c.tags, lookup, k.topicIds)
      && KnowsTags(c.tags, lookup, k.tagIds)
  {
    RefKnown(c.topics, c.tags, lookup);
    IdsKnown(c.topics, c.tags, lookup);
  }
}
