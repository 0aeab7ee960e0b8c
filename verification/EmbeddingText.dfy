/** The canonical text of embedding metadata: stableStringify of src/recommendation/embedding-lifecycle.ts. */
module EmbeddingText {
  import opened Options
  import opened JsonText
  import opened CanonicalJson

  /** Everything stableStringify takes; it throws on anything else. */
  predicate Supported(v: Value) {
    match v
    case Undefined => false
    case NonFinite => false
    case Array(items) => forall i :: 0 <= i < |items| ==> Supported(items[i])
    case Object(fields) => forall i :: 0 <= i < |fields| ==> fields[i].1.Undefined? || Supported(fields[i].1)
    case _ => true
  }

  function Present(entries: seq<(string, Option<string>)>): seq<string> {
    if entries == [] then []
    else (if entries[0].1.None? then [] else [Entry((entries[0].0, entries[0].1.value))]) + Present(entries[1..])
  }

  /** stableStringify: keys are sorted and undefined properties dropped. */
  function StableText(v: Value): string
    requires Supported(v)
  {
    match v
    case Null => "null"
    case Bool(b) => if b then "true" else "false"
    case Number(token) => token
    case Text(text) => Quote(text)
    case Array(items) => "[" + Join(seq(|items|, i requires 0 <= i < |items| => StableText(items[i]))) + "]"
    case Object(fields) =>
      "{" + Join(Present(Sort(seq(|fields|, i requires 0 <= i < |fields| =>
        (fields[i].0, if fields[i].1.Undefined? then None else Some(StableText(fields[i].1))))))) + "}"
  }

  function StableStringify(v: Value): Option<string> {
    if Supported(v) then Some(StableText(v)) else None
  }

  // ---------------------------------------------------------------- the canonical value

  function Defined(entries: seq<(string, Value)>): (r: seq<(string, Value)>)
    ensures forall e :: e in r <==> e in entries && !e.1.Undefined?
  {
    if entries == [] then []
    else
      assert entries == [entries[0]] + entries[1..];
      (if entries[0].1.Undefined? then [] else [entries[0]]) + Defined(entries[1..])
  }

  /** The same value with keys in order and undefined properties gone, throughout. */
  function Canon(v: Value): (c: Value)
    ensures c.Undefined? <==> v.Undefined?
    ensures Supported(v) && !v.Array? && !v.Object? ==> c == v
  {
    match v
    case Array(items) => Array(seq(|items|, i requires 0 <= i < |items| => Canon(items[i])))
    case Object(fields) =>
      Object(Defined(Sort(seq(|fields|, i requires 0 <= i < |fields| => (fields[i].0, Canon(fields[i].1))))))
    case _ => v
  }

  lemma CanonObject(fields: seq<(string, Value)>)
    ensures Canon(Object(fields)) == Object(Defined(Map(Canon, Sort(fields))))
    ensures Sort(Map(Canon, fields)) == Map(Canon, Sort(fields))
  {
    assert Map(Canon, fields) == seq(|fields|, i requires 0 <= i < |fields| => (fields[i].0, Canon(fields[i].1)));
    MapSort(Canon, fields);
  }

  lemma {:induction false} DefinedAscends(entries: seq<(string, Value)>)
    requires Ascending(entries)
    ensures Ascending(Defined(entries))
  {
    if entries != [] {
      DefinedAscends(entries[1..]);
      var later := Defined(entries[1..]);
      if entries[0].1.Undefined? {
        assert Defined(entries) == later;
      } else {
        assert ([entries[0]] + later)[1..] == later;
        if later != [] {
          HeadIsFirst(entries, later[0]);
        }
      }
    }
  }

  lemma CanonAscends(fields: seq<(string, Value)>)
    requires DistinctKeys(fields)
    ensures Ascending(Canon(Object(fields)).fields)
  {
    CanonObject(fields);
    MapKeepsKeys(Canon, fields);
    SortAscends(Map(Canon, fields));
    DefinedAscends(Map(Canon, Sort(fields)));
  }

  /** No undefined, nothing infinite, keys in order. */
  predicate Canonical(v: Value) {
    match v
    case Undefined => false
    case NonFinite => false
    case Array(items) => forall i :: 0 <= i < |items| ==> Canonical(items[i])
    case Object(fields) => Ascending(fields) && forall i :: 0 <= i < |fields| ==> Canonical(fields[i].1)
    case _ => true
  }

  lemma CanonFieldsFrom(fields: seq<(string, Value)>, e: (string, Value))
    ensures e in Canon(Object(fields)).fields <==>
      exists i :: 0 <= i < |fields| && !fields[i].1.Undefined? && e == (fields[i].0, Canon(fields[i].1))
  {
    var mapped := Map(Canon, fields);
    CanonObject(fields);
    SortMember(mapped, e);
    assert e in Canon(Object(fields)).fields <==> e in mapped && !e.1.Undefined?;
    if i :| 0 <= i < |fields| && !fields[i].1.Undefined? && e == (fields[i].0, Canon(fields[i].1)) {
      assert mapped[i] == e;
    }
  }

  /** The canonical value is canonical, and as well formed as the value. */
  lemma {:induction false} CanonIsCanonical(v: Value)
    requires WellFormed(v) && Supported(v)
    ensures Canonical(Canon(v)) && WellFormed(Canon(v))
  {
    match v
    case Array(items) =>
      forall i | 0 <= i < |items|
        ensures Canonical(Canon(items[i])) && WellFormed(Canon(items[i]))
      {
        CanonIsCanonical(items[i]);
      }
    case Object(fields) =>
      var r := Canon(v).fields;
      CanonAscends(fields);
      AscendingKeysAreDistinct(r);
      forall j | 0 <= j < |r|
        ensures Canonical(r[j].1) && WellFormed(r[j].1)
      {
        CanonFieldsFrom(fields, r[j]);
        var i :| 0 <= i < |fields| && !fields[i].1.Undefined? && r[j] == (fields[i].0, Canon(fields[i].1));
        CanonIsCanonical(fields[i].1);
      }
    case _ =>
  }

  /** Canonical values are read back as they are. */
  lemma {:induction false} CanonicalReadsAsItself(v: Value)
    requires Canonical(v)
    ensures ReadsAs(v) == Some(v)
  {
    match v
    case Array(items) =>
      forall i | 0 <= i < |items|
        ensures ReadsAs(items[i]) == Some(items[i])
      {
        CanonicalReadsAsItself(items[i]);
      }
      if |items| == 1 {
        assert !items[0].Undefined?;
      }
      ReadsAsArray(items);
      assert ReadItems(items).value == items;
    case Object(fields) =>
      forall i | 0 <= i < |fields|
        ensures ReadsAs(fields[i].1) == Some(fields[i].1)
      {
        CanonicalReadsAsItself(fields[i].1);
      }
      SortOfAscending(fields);
      ReadsAsObject(fields);
      assert Map(ReadsOr, fields) == fields;
    case _ =>
  }

  // ---------------------------------------------------------------- the text is that of the canonical value

  function TextOr(v: Value): Option<string> {
    if Supported(v) then Some(StableText(v)) else None
  }

  lemma {:induction false} PresentIsDefined(entries: seq<(string, Value)>)
    requires forall i :: 0 <= i < |entries| ==>
      entries[i].1.Undefined? || (Supported(entries[i].1) && StableText(entries[i].1) == AnnText(Canon(entries[i].1)))
    ensures Present(Map(TextOr, entries)) == Entries(Map(AnnText, Defined(Map(Canon, entries))))
  {
    if entries != [] {
      PresentIsDefined(entries[1..]);
      var texts, canon := Map(TextOr, entries), Map(Canon, entries);
      assert texts[1..] == Map(TextOr, entries[1..]);
      assert canon[1..] == Map(Canon, entries[1..]);
      if !entries[0].1.Undefined? {
        EntriesCons(canon[0], Defined(canon[1..]));
      }
    }
  }

  lemma EntriesCons(e: (string, Value), later: seq<(string, Value)>)
    ensures Entries(Map(AnnText, [e] + later)) == [Entry((e.0, AnnText(e.1)))] + Entries(Map(AnnText, later))
  {
    EntriesNext([e] + later);
    assert ([e] + later)[1..] == later;
  }

  lemma StableObject(fields: seq<(string, Value)>)
    requires Supported(Object(fields))
    ensures StableText(Object(fields)) == "{" + Join(Present(Map(TextOr, Sort(fields)))) + "}"
  {
    assert Map(TextOr, fields) == seq(|fields|, i requires 0 <= i < |fields| =>
        (fields[i].0, if fields[i].1.Undefined? then None else Some(StableText(fields[i].1))));
    MapSort(TextOr, fields);
  }

  lemma {:induction false} StableTextIsCanonical(v: Value)
    requires WellFormed(v) && Supported(v)
    ensures StableText(v) == AnnText(Canon(v))
  {
    match v
    case Array(items) =>
      forall i | 0 <= i < |items|
        ensures StableText(items[i]) == AnnText(Canon(items[i]))
      {
        StableTextIsCanonical(items[i]);
      }
      ArrayText(Canon(v).items);
      assert Parts(Canon(v).items) == seq(|items|, i requires 0 <= i < |items| => StableText(items[i]));
    case Object(fields) =>
      var sorted := Sort(fields);
      forall i | 0 <= i < |sorted|
        ensures sorted[i].1.Undefined? || (Supported(sorted[i].1) && StableText(sorted[i].1) == AnnText(Canon(sorted[i].1)))
      {
        SortMember(fields, sorted[i]);
        var j :| 0 <= j < |fields| && fields[j] == sorted[i];
        if !fields[j].1.Undefined? {
          StableTextIsCanonical(fields[j].1);
        }
      }
      StableObject(fields);
      CanonObject(fields);
      PresentIsDefined(sorted);
      CanonAscends(fields);
      SortOfAscending(Canon(v).fields);
      ObjectText(Canon(v).fields);
    case _ =>
  }

  /** The text of a value can be read back, as its canonical value. */
  lemma StableTextReadsBack(v: Value)
    requires WellFormed(v) && Supported(v)
    ensures ParseAll(StableText(v)) == Some(Canon(v))
  {
    StableTextIsCanonical(v);
    CanonIsCanonical(v);
    CanonicalReadsAsItself(Canon(v));
    ParsesAs(Canon(v), "");
    assert AnnText(Canon(v)) + "" == AnnText(Canon(v));
  }

  // ---------------------------------------------------------------- when two values have the same text

  /** Both fields are there, under the same key. */
  predicate Matches(f: (string, Value), g: (string, Value)) {
    f.0 == g.0 && !f.1.Undefined? && !g.1.Undefined?
  }

  ghost predicate HasKey(f: (string, Value), g: seq<(string, Value)>) {
    exists j :: 0 <= j < |g| && Matches(f, g[j])
  }

  /** Some field of g is the same as f. */
  ghost predicate HasSame(f: (string, Value), g: seq<(string, Value)>)
    decreases f.1, 1
  {
    exists j :: 0 <= j < |g| && Matches(f, g[j]) && SameJson(f.1, g[j].1)
  }

  /** The same up to key order and properties that are absent or undefined. */
  ghost predicate SameJson(v: Value, w: Value)
    decreases v, 0
  {
    match v
    case Array(items) =>
      w.Array? && |w.items| == |items| && forall i :: 0 <= i < |items| ==> SameJson(items[i], w.items[i])
    case Object(fields) =>
      && w.Object?
      && (forall i :: 0 <= i < |fields| && !fields[i].1.Undefined? ==> HasSame(fields[i], w.fields))
      && (forall j :: 0 <= j < |w.fields| && !w.fields[j].1.Undefined? ==> HasKey(w.fields[j], fields))
    case _ => v == w
  }

  lemma {:induction false} KeysAreDistinct(fields: seq<(string, Value)>, i: nat, j: nat)
    requires DistinctKeys(fields) && i < j < |fields|
    ensures fields[i].0 != fields[j].0
  {
    if i > 0 {
      KeysAreDistinct(fields[1..], i - 1, j - 1);
    }
  }

  /** The canonical value keeps exactly what counts for sameness. */
  lemma {:induction false} SameExactlyWhenCanonEqual(v: Value, w: Value)
    requires WellFormed(v) && Supported(v) && WellFormed(w) && Supported(w)
    ensures SameJson(v, w) <==> Canon(v) == Canon(w)
    decreases v, 2
  {
    if v.Array? && w.Array? {
      ArraysSame(v, w);
    } else if v.Object? && w.Object? {
      ObjectsSame(v, w);
    }
  }

  lemma ArraysSame(v: Value, w: Value)
    requires v.Array? && w.Array? && WellFormed(v) && Supported(v) && WellFormed(w) && Supported(w)
    ensures SameJson(v, w) <==> Canon(v) == Canon(w)
    decreases v, 0
  {
    if |v.items| == |w.items| {
      forall i | 0 <= i < |v.items|
        ensures SameJson(v.items[i], w.items[i]) <==> Canon(v).items[i] == Canon(w).items[i]
      {
        SameExactlyWhenCanonEqual(v.items[i], w.items[i]);
      }
    }
  }

  function CanonField(f: (string, Value)): (string, Value) {
    (f.0, Canon(f.1))
  }

  /** A field has a same one exactly when the other canonical value holds its canonical form. */
  lemma HasSameExactly(v: Value, w: Value, i: nat)
    requires v.Object? && w.Object? && WellFormed(v) && Supported(v) && WellFormed(w) && Supported(w)
    requires i < |v.fields| && !v.fields[i].1.Undefined?
    ensures HasSame(v.fields[i], w.fields) <==> CanonField(v.fields[i]) in Canon(w).fields
    decreases v, 0
  {
    var f, g := v.fields[i], w.fields;
    CanonFieldsFrom(g, CanonField(f));
    if HasSame(f, g) {
      var j :| 0 <= j < |g| && Matches(f, g[j]) && SameJson(f.1, g[j].1);
      SameExactlyWhenCanonEqual(f.1, g[j].1);
    }
    if CanonField(f) in Canon(w).fields {
      var j :| 0 <= j < |g| && !g[j].1.Undefined? && CanonField(f) == (g[j].0, Canon(g[j].1));
      SameExactlyWhenCanonEqual(f.1, g[j].1);
      assert Matches(f, g[j]);
    }
  }

  lemma CanonHolds(fields: seq<(string, Value)>, i: nat)
    requires i < |fields| && !fields[i].1.Undefined?
    ensures CanonField(fields[i]) in Canon(Object(fields)).fields
  {
    CanonFieldsFrom(fields, CanonField(fields[i]));
  }

  /** With every field held by the other and every key of the other present, the other holds nothing else. */
  lemma NothingElse(v: Value, w: Value, j: nat)
    requires v.Object? && w.Object? && DistinctKeys(w.fields)
    requires forall i :: 0 <= i < |v.fields| && !v.fields[i].1.Undefined? ==> CanonField(v.fields[i]) in Canon(w).fields
    requires j < |w.fields| && !w.fields[j].1.Undefined? && HasKey(w.fields[j], v.fields)
    ensures CanonField(w.fields[j]) in Canon(v).fields
  {
    var i :| 0 <= i < |v.fields| && Matches(w.fields[j], v.fields[i]);
    var e := CanonField(v.fields[i]);
    CanonFieldsFrom(w.fields, e);
    var k :| 0 <= k < |w.fields| && !w.fields[k].1.Undefined? && e == (w.fields[k].0, Canon(w.fields[k].1));
    if j != k {
      KeysAreDistinct(w.fields, if j < k then j else k, if j < k then k else j);
    }
    CanonHolds(v.fields, i);
  }

  lemma ObjectsSame(v: Value, w: Value)
    requires v.Object? && w.Object? && WellFormed(v) && Supported(v) && WellFormed(w) && Supported(w)
    ensures SameJson(v, w) <==> Canon(v) == Canon(w)
    decreases v, 1
  {
    forall i | 0 <= i < |v.fields| && !v.fields[i].1.Undefined?
      ensures HasSame(v.fields[i], w.fields) <==> CanonField(v.fields[i]) in Canon(w).fields
    {
      HasSameExactly(v, w, i);
    }
    if SameJson(v, w) {
      SameHeldBoth(v, w);
    }
    if Canon(v) == Canon(w) {
      CanonHeldBoth(v, w);
    }
  }

  lemma SameHeldBoth(v: Value, w: Value)
    requires v.Object? && w.Object? && DistinctKeys(v.fields) && DistinctKeys(w.fields)
    requires forall i :: 0 <= i < |v.fields| && !v.fields[i].1.Undefined? ==> CanonField(v.fields[i]) in Canon(w).fields
    requires forall j :: 0 <= j < |w.fields| && !w.fields[j].1.Undefined? ==> HasKey(w.fields[j], v.fields)
    ensures Canon(v) == Canon(w)
  {
    forall e
      ensures e in Canon(v).fields <==> e in Canon(w).fields
    {
      CanonFieldsFrom(v.fields, e);
      CanonFieldsFrom(w.fields, e);
      if j :| 0 <= j < |w.fields| && !w.fields[j].1.Undefined? && e == (w.fields[j].0, Canon(w.fields[j].1)) {
        NothingElse(v, w, j);
      }
    }
    CanonAscends(v.fields);
    CanonAscends(w.fields);
    AscendingIsUnique(Canon(v).fields, Canon(w).fields);
  }

  lemma CanonHeldBoth(v: Value, w: Value)
    requires v.Object? && w.Object? && Canon(v) == Canon(w)
    ensures forall i :: 0 <= i < |v.fields| && !v.fields[i].1.Undefined? ==> CanonField(v.fields[i]) in Canon(w).fields
    ensures forall j :: 0 <= j < |w.fields| && !w.fields[j].1.Undefined? ==> HasKey(w.fields[j], v.fields)
  {
    forall i | 0 <= i < |v.fields| && !v.fields[i].1.Undefined?
      ensures CanonField(v.fields[i]) in Canon(w).fields
    {
      CanonHolds(v.fields, i);
    }
    forall j | 0 <= j < |w.fields| && !w.fields[j].1.Undefined?
      ensures HasKey(w.fields[j], v.fields)
    {
      CanonHolds(w.fields, j);
      CanonFieldsFrom(v.fields, CanonField(w.fields[j]));
      var i :| 0 <= i < |v.fields| && !v.fields[i].1.Undefined? && CanonField(w.fields[j]) == (v.fields[i].0, Canon(v.fields[i].1));
      assert Matches(w.fields[j], v.fields[i]);
    }
  }

  /** Canonical printing tells values apart exactly up to key order and undefined properties. */
  lemma SameTextExactlyWhenSame(v: Value, w: Value)
    requires WellFormed(v) && Supported(v) && WellFormed(w) && Supported(w)
    ensures StableText(v) == StableText(w) <==> SameJson(v, w)
  {
    StableTextReadsBack(v);
    StableTextReadsBack(w);
    StableTextIsCanonical(v);
    StableTextIsCanonical(w);
    SameExactlyWhenCanonEqual(v, w);
  }
}
