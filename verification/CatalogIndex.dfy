/** The catalog index and its agreement with the scans: src/recommendation/catalog-index.ts. */
module CatalogIndexes {
  import opened Options
  import opened Catalogs
  import JsonText

  // ---------------------------------------------------------------- tags by token

  function Tokens(t: Tag): (r: set<Token>)
    ensures forall token :: token in r <==> Carries(t, token)
  {
    (set i | 0 <= i < |t.hashtags| :: t.hashtags[i]) + (set i | 0 <= i < |t.variants| :: t.variants[i])
  }

  function Ids(tags: seq<Tag>): set<Id> {
    set i | 0 <= i < |tags| :: tags[i].id
  }

  function TagMap(tags: seq<Tag>): (m: map<Id, Tag>)
    ensures forall t :: t in tags ==> t.id in m
    ensures forall id :: id in m ==> m[id] in tags && m[id].id == id
  {
    if tags == [] then map[]
    else
      var n := |tags| - 1;
      assert tags == tags[..n] + [tags[n]];
      TagMap(tags[..n])[tags[n].id := tags[n]]
  }

  lemma Earlier(order: Order, tags: seq<Tag>, i: nat)
    requires TagsAscend(order, tags) && i < |tags|
    ensures forall u :: u in tags[..i] ==> order(u.id, tags[i].id)
  {
    forall u | u in tags[..i]
      ensures order(u.id, tags[i].id)
    {
      var k :| 0 <= k < i && tags[..i][k] == u;
      assert tags[k] == u && InOrder(order, tags[k].id, tags[i].id);
    }
  }

  lemma {:induction false} TagOfId(order: Order, tags: seq<Tag>, t: Tag)
    requires Total(order) && TagsAscend(order, tags) && t in tags
    ensures TagMap(tags)[t.id] == t
  {
    var n := |tags| - 1;
    assert tags == tags[..n] + [tags[n]];
    if t != tags[n] {
      Earlier(order, tags, n);
      forall i, j | 0 <= i < j < n
        ensures InOrder(order, tags[..n][i].id, tags[..n][j].id)
      {
        assert InOrder(order, tags[i].id, tags[j].id);
      }
      TagOfId(order, tags[..n], t);
    }
  }

  lemma DifferentTags(order: Order, tags: seq<Tag>, t: Tag, u: Tag)
    requires Total(order) && TagsAscend(order, tags) && t in tags && u in tags && t != u
    ensures t.id != u.id
  {
    var i :| 0 <= i < |tags| && tags[i] == t;
    var j :| 0 <= j < |tags| && tags[j] == u;
    assert i < j ==> InOrder(order, tags[i].id, tags[j].id);
    assert j < i ==> InOrder(order, tags[j].id, tags[i].id);
  }

  /** The ids in ascending order. */
  ghost predicate Ascends(order: Order, ids: seq<Id>) {
    forall i, j :: 0 <= i < j < |ids| ==> order(ids[i], ids[j])
  }

  predicate Least(order: Order, ids: set<Id>, x: Id) {
    x in ids && forall y :: y in ids ==> NotAfter(order, x, y)
  }

  lemma {:induction false} LeastExists(order: Order, ids: set<Id>) returns (x: Id)
    requires Total(order) && ids != {}
    ensures Least(order, ids, x)
    decreases ids
  {
    x :| x in ids;
    if ids != {x} {
      var y := LeastExists(order, ids - {x});
      assert ids == (ids - {x}) + {x};
      x := if NotAfter(order, x, y) then x else y;
    }
  }

  lemma LeastIsStrict(order: Order, ids: set<Id>, x: Id)
    requires Total(order) && Least(order, ids, x)
    ensures forall y :: y in ids - {x} ==> order(x, y)
  {
  }

  method SortIds(order: Order, ids: set<Id>) returns (sorted: seq<Id>)
    requires Total(order)
    ensures Ascends(order, sorted) && |sorted| == |ids| && forall x :: x in sorted <==> x in ids
  {
    sorted := [];
    var left := ids;
    while left != {}
      invariant left <= ids && Ascends(order, sorted) && |sorted| + |left| == |ids|
      invariant forall x :: x in sorted <==> x in ids && x !in left
      invariant forall i, y :: 0 <= i < |sorted| && y in left ==> order(sorted[i], y)
      decreases |left|
    {
      ghost var least := LeastExists(order, left);
      var x :| x in left && Least(order, left, x);
      LeastIsStrict(order, left, x);
      sorted := sorted + [x];
      left := left - {x};
    }
  }

  /** More than one tag is most specific. */
  ghost predicate Ambiguous(m: map<Id, Topic>, tags: seq<Tag>) {
    exists t, u :: t != u && Most(m, tags, t) && Most(m, tags, u)
  }

  method BestTagForToken(order: Order, m: map<Id, Topic>, tags: seq<Tag>) returns (tag: Tag, maxSpecificity: nat, ambiguous: bool)
    requires Total(order) && tags != [] && TagsAscend(order, tags)
    ensures FirstMost(order, m, tags, tag) && maxSpecificity == Specificity(m, tag)
    ensures ambiguous <==> Ambiguous(m, tags)
  {
    tag := tags[0];
    maxSpecificity := TagSpecificity(m, tag);
    var matches := 1;
    FirstAlone(order, m, tags);
    for i := 1 to |tags|
      invariant FirstMost(order, m, tags[..i], tag) && maxSpecificity == Specificity(m, tag)
      invariant matches >= 1 && (matches > 1 <==> Ambiguous(m, tags[..i]))
    {
      var specificity := TagSpecificity(m, tags[i]);
      BestNext(order, m, tags, i, tag);
      if specificity > maxSpecificity {
        tag, maxSpecificity, matches := tags[i], specificity, 1;
      } else if specificity == maxSpecificity {
        matches := matches + 1;
      }
    }
    ambiguous := matches > 1;
    assert tags[..|tags|] == tags;
  }

  lemma FirstAlone(order: Order, m: map<Id, Topic>, tags: seq<Tag>)
    requires tags != []
    ensures FirstMost(order, m, tags[..1], tags[0]) && !Ambiguous(m, tags[..1])
  {
    assert tags[..1] == [tags[0]];
  }

  lemma BestNext(order: Order, m: map<Id, Topic>, tags: seq<Tag>, i: nat, best: Tag)
    requires Total(order) && TagsAscend(order, tags) && i < |tags| && FirstMost(order, m, tags[..i], best)
    ensures FirstMost(order, m, tags[..i + 1], if Specificity(m, tags[i]) > Specificity(m, best) then tags[i] else best)
    ensures Ambiguous(m, tags[..i + 1]) <==>
      Specificity(m, tags[i]) == Specificity(m, best)
      || (Specificity(m, tags[i]) < Specificity(m, best) && Ambiguous(m, tags[..i]))
  {
    assert tags[..i + 1] == tags[..i] + [tags[i]];
    Earlier(order, tags, i);
    FirstMostNext(order, m, tags[..i], Some(best), tags[i]);
    AmbiguousNext(m, tags[..i], best, tags[i]);
  }

  lemma AmbiguousNext(m: map<Id, Topic>, before: seq<Tag>, best: Tag, tag: Tag)
    requires Most(m, before, best) && tag !in before
    ensures Ambiguous(m, before + [tag]) <==>
      Specificity(m, tag) == Specificity(m, best) || (Specificity(m, tag) < Specificity(m, best) && Ambiguous(m, before))
  {
    var more := before + [tag];
    assert forall u :: u in more <==> u in before || u == tag;
    if Specificity(m, tag) == Specificity(m, best) {
      assert Most(m, more, tag) && Most(m, more, best);
    } else if Specificity(m, tag) < Specificity(m, best) {
      forall u
        ensures Most(m, more, u) <==> Most(m, before, u)
      {
      }
    } else {
      forall u
        ensures Most(m, more, u) ==> u == tag
      {
      }
    }
  }

  datatype Collision = Collision(tagIds: seq<Id>, resolved: Id, maxSpecificity: nat, ambiguous: bool)

  datatype TokenIndex = TokenIndex(tagByToken: map<Token, Tag>, collisions: map<Token, Collision>)

  /** The ids of the tags that carry each token. */
  ghost predicate IdsByToken(tags: seq<Tag>, ids: map<Token, set<Id>>) {
    forall token ::
      && (token in ids <==> Carriers(tags, token) != [])
      && (token in ids ==> ids[token] == Ids(Carriers(tags, token)))
  }

  /** The ids by token once the first tags are in, and of the next one all tokens but those left. */
  ghost predicate IdsWhile(tags: seq<Tag>, i: nat, left: set<Token>, ids: map<Token, set<Id>>)
    requires i < |tags|
  {
    forall token ::
      var carriers := if token in left then Carriers(tags[..i], token) else Carriers(tags[..i + 1], token);
      && (token in ids <==> carriers != [])
      && (token in ids ==> ids[token] == Ids(carriers))
  }

  function Added(ids: map<Token, set<Id>>, token: Token, id: Id): map<Token, set<Id>> {
    ids[token := (if token in ids then ids[token] else {}) + {id}]
  }

  lemma CarriersNext(tags: seq<Tag>, i: nat, token: Token)
    requires i < |tags|
    ensures Carriers(tags[..i + 1], token) ==
      Carriers(tags[..i], token) + (if Carries(tags[i], token) then [tags[i]] else [])
    ensures Ids(Carriers(tags[..i + 1], token)) ==
      Ids(Carriers(tags[..i], token)) + (if Carries(tags[i], token) then {tags[i].id} else {})
  {
    assert tags[..i + 1][..i] == tags[..i];
    IdsMore(Carriers(tags[..i], token), tags[i]);
    assert Carriers(tags[..i], token) + [] == Carriers(tags[..i], token);
  }

  lemma IdsMore(tags: seq<Tag>, t: Tag)
    ensures Ids(tags + [t]) == Ids(tags) + {t.id}
  {
    var more := tags + [t];
    assert more[|tags|] == t;
    forall i | 0 <= i < |tags|
      ensures tags[i].id in Ids(more)
    {
      assert more[i] == tags[i];
    }
  }

  lemma AddToken(tags: seq<Tag>, i: nat, left: set<Token>, ids: map<Token, set<Id>>, token: Token)
    requires i < |tags| && IdsWhile(tags, i, left, ids) && token in left && Carries(tags[i], token)
    ensures IdsWhile(tags, i, left - {token}, Added(ids, token, tags[i].id))
  {
    CarriersNext(tags, i, token);
  }

  lemma NoTokenLeft(tags: seq<Tag>, i: nat, ids: map<Token, set<Id>>)
    requires i < |tags| && IdsWhile(tags, i, {}, ids)
    ensures IdsByToken(tags[..i + 1], ids)
  {
    forall token
      ensures token in ids <==> Carriers(tags[..i + 1], token) != []
      ensures token in ids ==> ids[token] == Ids(Carriers(tags[..i + 1], token))
    {
    }
  }

  lemma AllTokensLeft(tags: seq<Tag>, i: nat, ids: map<Token, set<Id>>)
    requires i < |tags| && IdsByToken(tags[..i], ids)
    ensures IdsWhile(tags, i, Tokens(tags[i]), ids)
  {
    forall token
      ensures token !in Tokens(tags[i]) ==> Carriers(tags[..i + 1], token) == Carriers(tags[..i], token)
    {
      CarriersNext(tags, i, token);
    }
  }

  method CollectTokens(tags: seq<Tag>) returns (ids: map<Token, set<Id>>)
    ensures IdsByToken(tags, ids)
  {
    ids := map[];
    for i := 0 to |tags|
      invariant IdsByToken(tags[..i], ids)
    {
      var left := Tokens(tags[i]);
      AllTokensLeft(tags, i, ids);
      while left != {}
        invariant left <= Tokens(tags[i]) && IdsWhile(tags, i, left, ids)
        decreases |left|
      {
        var token :| token in left;
        AddToken(tags, i, left, ids, token);
        ids := Added(ids, token, tags[i].id);
        left := left - {token};
      }
      NoTokenLeft(tags, i, ids);
    }
    assert tags[..|tags|] == tags;
  }

  /** The tags of some ids, in the order of the ids. */
  function TagsOf(m: map<Id, Tag>, ids: seq<Id>): (r: seq<Tag>)
    requires forall x :: x in ids ==> x in m && m[x].id == x
    ensures |r| == |ids| && forall i :: 0 <= i < |r| ==> r[i] == m[ids[i]]
  {
    if ids == [] then [] else [m[ids[0]]] + TagsOf(m, ids[1..])
  }

  ghost predicate SomeAmbiguous(c: Catalog) {
    exists token :: Ambiguous(TopicMap(c.topics), Carriers(c.tags, token))
  }

  /** Carriers sorted by id are still the carriers. */
  lemma SortedCarriers(byLocale: Order, byCode: Order, c: Catalog, token: Token, ids: seq<Id>)
    requires Total(byLocale) && TagsAscend(byLocale, c.tags) && Ascends(byCode, ids)
    requires forall x :: x in ids <==> x in Ids(Carriers(c.tags, token))
    ensures forall x :: x in ids ==> x in TagMap(c.tags) && TagMap(c.tags)[x].id == x
    ensures var tags := TagsOf(TagMap(c.tags), ids);
      TagsAscend(byCode, tags) && forall t :: t in tags <==> t in Carriers(c.tags, token)
  {
    var m, carriers := TagMap(c.tags), Carriers(c.tags, token);
    forall x | x in ids
      ensures x in m && m[x].id == x && m[x] in carriers
    {
      var i :| 0 <= i < |carriers| && carriers[i].id == x;
      TagOfId(byLocale, c.tags, carriers[i]);
    }
    var tags := TagsOf(m, ids);
    forall t | t in carriers
      ensures t in tags
    {
      TagOfId(byLocale, c.tags, t);
      assert t.id in ids;
      var i :| 0 <= i < |ids| && ids[i] == t.id;
      assert tags[i] == t;
    }
  }

  lemma SameMembersSameBest(order: Order, m: map<Id, Topic>, a: seq<Tag>, b: seq<Tag>)
    requires forall t :: t in a <==> t in b
    ensures forall t :: Most(m, a, t) <==> Most(m, b, t)
    ensures forall t :: FirstMost(order, m, a, t) <==> FirstMost(order, m, b, t)
    ensures Ambiguous(m, a) <==> Ambiguous(m, b)
  {
    forall t
      ensures Most(m, a, t) <==> Most(m, b, t)
    {
    }
  }

  /** What the index is to hold of one token that some tag carries. */
  ghost predicate Indexed(order: Order, c: Catalog, token: Token, tag: Tag, collision: Option<Collision>) {
    var m, carriers := TopicMap(c.topics), Carriers(c.tags, token);
    && FirstMost(order, m, carriers, tag)
    && (collision.Some? <==> |Ids(carriers)| > 1)
    && (collision.Some? ==>
          var x := collision.value;
          && Ascends(order, x.tagIds) && (forall id :: id in x.tagIds <==> id in Ids(carriers))
          && x.resolved == tag.id && x.maxSpecificity == Specificity(m, tag))
    && (collision.Some? && collision.value.ambiguous <==> Ambiguous(m, carriers))
  }

  lemma AmbiguousCarriersHaveTwoIds(byLocale: Order, c: Catalog, token: Token)
    requires Total(byLocale) && TagsAscend(byLocale, c.tags) && Ambiguous(TopicMap(c.topics), Carriers(c.tags, token))
    ensures |Ids(Carriers(c.tags, token))| > 1
  {
    var m, carriers := TopicMap(c.topics), Carriers(c.tags, token);
    var t, u :| t != u && Most(m, carriers, t) && Most(m, carriers, u);
    DifferentTags(byLocale, c.tags, t, u);
    TwoIds(carriers, t, u);
  }

  lemma TwoIds(tags: seq<Tag>, t: Tag, u: Tag)
    requires t in tags && u in tags && t.id != u.id
    ensures |Ids(tags)| > 1
  {
    var ids := Ids(tags);
    var rest := ids - {t.id};
    assert t.id in ids && u.id in rest;
    assert |rest| == |ids| - 1 && rest != {};
  }

  method IndexToken(byLocale: Order, byCode: Order, c: Catalog, token: Token, ids: set<Id>)
    returns (tag: Tag, collision: Option<Collision>)
    requires Total(byLocale) && TagsAscend(byLocale, c.tags) && Total(byCode)
    requires ids == Ids(Carriers(c.tags, token)) && Carriers(c.tags, token) != []
    ensures Indexed(byCode, c, token, tag, collision)
  {
    var m := TopicMap(c.topics);
    ghost var carriers := Carriers(c.tags, token);
    var sorted := SortIds(byCode, ids);
    SortedCarriers(byLocale, byCode, c, token, sorted);
    var tags := TagsOf(TagMap(c.tags), sorted);
    assert carriers[0] in tags;
    SameMembersSameBest(byCode, m, tags, carriers);
    var maxSpecificity, ambiguous;
    tag, maxSpecificity, ambiguous := BestTagForToken(byCode, m, tags);
    collision := if |tags| > 1 then Some(Collision(sorted, tag.id, maxSpecificity, ambiguous)) else None;
    if Ambiguous(m, carriers) {
      AmbiguousCarriersHaveTwoIds(byLocale, c, token);
    }
  }

  /** The index of all tokens, or a refusal of ambiguous ones where that is asked for. */
  method CreateTagTokenIndexes(byLocale: Order, byCode: Order, c: Catalog, rejectAmbiguous: bool)
    returns (r: Option<TokenIndex>)
    requires Total(byLocale) && TagsAscend(byLocale, c.tags) && Total(byCode)
    ensures r.None? <==> rejectAmbiguous && SomeAmbiguous(c)
    ensures r.Some? ==> forall token :: IndexHolds(byCode, c, r.value, token)
  {
    var ids := CollectTokens(c.tags);
    var tagByToken: map<Token, Tag> := map[];
    var collisions: map<Token, Collision> := map[];
    var left := ids.Keys;
    while left != {}
      invariant left <= ids.Keys && tagByToken.Keys == ids.Keys - left && collisions.Keys <= tagByToken.Keys
      invariant forall token :: token in tagByToken ==>
        Indexed(byCode, c, token, tagByToken[token], CollisionOf(collisions, token))
      invariant rejectAmbiguous ==>
        forall token :: token in tagByToken ==> !Ambiguous(TopicMap(c.topics), Carriers(c.tags, token))
      decreases |left|
    {
      var token :| token in left;
      var tag, collision := IndexToken(byLocale, byCode, c, token, ids[token]);
      if rejectAmbiguous && collision.Some? && collision.value.ambiguous {
        return None;
      }
      tagByToken := tagByToken[token := tag];
      collisions := if collision.Some? then collisions[token := collision.value] else collisions;
      left := left - {token};
    }
    r := Some(TokenIndex(tagByToken, collisions));
    forall token
      ensures IndexHolds(byCode, c, r.value, token)
    {
    }
  }

  function CollisionOf(collisions: map<Token, Collision>, token: Token): Option<Collision> {
    if token in collisions then Some(collisions[token]) else None
  }

  ghost predicate IndexHolds(order: Order, c: Catalog, index: TokenIndex, token: Token) {
    && (token in index.tagByToken <==> Carriers(c.tags, token) != [])
    && (token in index.tagByToken ==>
          Indexed(order, c, token, index.tagByToken[token], CollisionOf(index.collisions, token)))
    && (token !in index.tagByToken ==> token !in index.collisions)
  }

  // ---------------------------------------------------------------- agreement

  /** The tag found by the scan and the tag found in the index, for one token. */
  ghost predicate Found(byLocale: Order, byCode: Order, c: Catalog, token: Token, scanned: Option<Tag>, indexed: Option<Tag>) {
    var m, carriers := TopicMap(c.topics), Carriers(c.tags, token);
    && (scanned.None? <==> carriers == []) && (scanned.Some? ==> FirstMost(byLocale, m, carriers, scanned.value))
    && (indexed.None? <==> carriers == []) && (indexed.Some? ==> FirstMost(byCode, m, carriers, indexed.value))
  }

  /** Some tag comes first in both orders among the most specific ones. */
  ghost predicate OneComesFirst(byLocale: Order, byCode: Order, m: map<Id, Topic>, tags: seq<Tag>) {
    exists t :: FirstMost(byLocale, m, tags, t) && FirstMost(byCode, m, tags, t)
  }

  ghost predicate OrdersAgree(byLocale: Order, byCode: Order, m: map<Id, Topic>, tags: seq<Tag>) {
    forall t, u :: Most(m, tags, t) && Most(m, tags, u) ==> (byLocale(t.id, u.id) <==> byCode(t.id, u.id))
  }

  /**
   * Index and scan find a tag for the same tokens, and tags of the same specificity.
   * They find the same tag exactly when one tag comes first in both orders among the most specific carriers:
   * always if the token is not ambiguous, and if the two orders agree on these carriers.
   */
  lemma IndexAgreesWithScan(byLocale: Order, byCode: Order, c: Catalog, token: Token, scanned: Option<Tag>, indexed: Option<Tag>)
    requires Total(byLocale) && TagsAscend(byLocale, c.tags) && Total(byCode)
    requires Found(byLocale, byCode, c, token, scanned, indexed)
    ensures scanned.Some? <==> indexed.Some?
    ensures var m, carriers := TopicMap(c.topics), Carriers(c.tags, token);
      scanned.Some? ==>
        && Specificity(m, scanned.value) == Specificity(m, indexed.value)
        && (scanned == indexed <==> OneComesFirst(byLocale, byCode, m, carriers))
        && (!Ambiguous(m, carriers) ==> scanned == indexed)
        && (OrdersAgree(byLocale, byCode, m, carriers) ==> scanned == indexed)
  {
    var m, carriers := TopicMap(c.topics), Carriers(c.tags, token);
    if scanned.Some? && scanned != indexed {
      OnlyFirst(byLocale, c, token, scanned.value, indexed.value);
      forall t | FirstMost(byLocale, m, carriers, t) && FirstMost(byCode, m, carriers, t)
        ensures t == scanned.value && t == indexed.value
      {
        FirstIsUnique(byLocale, byLocale, c, token, t, scanned.value);
        FirstIsUnique(byLocale, byCode, c, token, t, indexed.value);
      }
    }
  }

  lemma OnlyFirst(byLocale: Order, c: Catalog, token: Token, t: Tag, u: Tag)
    requires Total(byLocale) && TagsAscend(byLocale, c.tags) && t != u
    requires FirstMost(byLocale, TopicMap(c.topics), Carriers(c.tags, token), t) && Most(TopicMap(c.topics), Carriers(c.tags, token), u)
    ensures byLocale(t.id, u.id)
  {
    DifferentTags(byLocale, c.tags, t, u);
  }

  lemma FirstIsUnique(byLocale: Order, order: Order, c: Catalog, token: Token, t: Tag, u: Tag)
    requires Total(byLocale) && TagsAscend(byLocale, c.tags) && Total(order)
    requires FirstMost(order, TopicMap(c.topics), Carriers(c.tags, token), t)
    requires FirstMost(order, TopicMap(c.topics), Carriers(c.tags, token), u)
    ensures t == u
  {
    if t != u {
      DifferentTags(byLocale, c.tags, t, u);
    }
  }

  // ---------------------------------------------------------------- where they differ

  const HYPHEN := Tag("a-b", ["x"], [], [], [])
  const LOW_LINE := Tag("a_b", ["x"], [], [], [])

  /** Two tags that share a token. In code units the hyphen comes first; locales put the low line first. */
  const TWO_TAGS := Catalog([], [LOW_LINE, HYPHEN])

  lemma CodeUnitsAreTotal()
    ensures Total(JsonText.Before)
  {
    forall a, b
      ensures !JsonText.Before(a, a) && (a == b || JsonText.Before(a, b) || JsonText.Before(b, a))
    {
      JsonText.BeforeIsTotal(a, a);
      JsonText.BeforeIsTotal(a, b);
    }
    forall a, b, c | JsonText.Before(a, b) && JsonText.Before(b, c)
      ensures JsonText.Before(a, c)
    {
      JsonText.BeforeIsTransitive(a, b, c);
    }
  }

  /** With any locale order that puts the low line first, scan and index find different tags for the shared token. */
  lemma ScanAndIndexDiffer(byLocale: Order, scanned: Option<Tag>, indexed: Option<Tag>)
    requires Total(byLocale) && byLocale("a_b", "a-b")
    requires Found(byLocale, JsonText.Before, TWO_TAGS, "x", scanned, indexed)
    ensures Normalized(byLocale, TWO_TAGS) && scanned == Some(LOW_LINE) && indexed == Some(HYPHEN)
  {
    BothCarry();
    BothMost(TopicMap([]), LOW_LINE);
    BothMost(TopicMap([]), HYPHEN);
    HyphenFirst();
  }

  lemma BothMost(m: map<Id, Topic>, t: Tag)
    ensures Most(m, [LOW_LINE, HYPHEN], t) <==> t in [LOW_LINE, HYPHEN]
  {
  }

  /** Code units with the two ids exchanged: an order as such a locale has it. */
  function Exchanged(id: Id): Id {
    if id == "a-b" then "a_b" else if id == "a_b" then "a-b" else id
  }

  lemma SuchAnOrderExists()
    ensures var byLocale: Order := (a, b) => JsonText.Before(Exchanged(a), Exchanged(b));
      Total(byLocale) && byLocale("a_b", "a-b")
  {
    CodeUnitsAreTotal();
    HyphenFirst();
    assert forall a, b :: Exchanged(a) == Exchanged(b) ==> a == b;
  }

  lemma BothCarry()
    ensures Carriers([LOW_LINE, HYPHEN], "x") == [LOW_LINE, HYPHEN]
  {
    assert [LOW_LINE, HYPHEN][..1] == [LOW_LINE] && [LOW_LINE][..0] == [];
    assert "x" in LOW_LINE.hashtags && "x" in HYPHEN.hashtags;
    assert Carriers([LOW_LINE], "x") == [LOW_LINE];
  }

  lemma HyphenFirst()
    ensures JsonText.Before("a-b", "a_b") && !JsonText.Before("a_b", "a-b")
  {
    assert "a-b"[1..][0] == '-' && "a_b"[1..][0] == '_';
  }
}
