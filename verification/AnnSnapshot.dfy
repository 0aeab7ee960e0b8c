/** Serialized ANN configuration snapshots: src/ann/config-lifecycle.ts. */
module AnnSnapshot {
  import opened Options
  import opened JsonText
  import opened CanonicalJson

  /** Keys in order throughout, nothing dropped. */
  function SortAll(v: Value): Value {
    match v
    case Array(items) => Array(seq(|items|, i requires 0 <= i < |items| => SortAll(items[i])))
    case Object(fields) =>
      Object(Sort(seq(|fields|, i requires 0 <= i < |fields| => (fields[i].0, SortAll(fields[i].1)))))
    case _ => v
  }

  lemma SortAllObject(fields: seq<(string, Value)>)
    ensures SortAll(Object(fields)) == Object(Map(SortAll, Sort(fields)))
  {
    assert Map(SortAll, fields) == seq(|fields|, i requires 0 <= i < |fields| => (fields[i].0, SortAll(fields[i].1)));
    MapSort(SortAll, fields);
  }

  /** Nothing in it is undefined or infinite. */
  predicate Clean(v: Value) {
    match v
    case Undefined => false
    case NonFinite => false
    case Array(items) => forall i :: 0 <= i < |items| ==> Clean(items[i])
    case Object(fields) => forall i :: 0 <= i < |fields| ==> Clean(fields[i].1)
    case _ => true
  }

  /** A value comes back from its text, keys in order, exactly when nothing in it is undefined or infinite. */
  lemma {:induction false} ReadBackExactlyWhenClean(v: Value)
    ensures ReadsAs(v) == Some(SortAll(v)) <==> Clean(v)
  {
    match v
    case Array(items) =>
      forall i | 0 <= i < |items|
        ensures ReadsAs(items[i]) == Some(SortAll(items[i])) <==> Clean(items[i])
      {
        ReadBackExactlyWhenClean(items[i]);
      }
      if items == [Undefined] {
        assert !Clean(items[0]);
      } else {
        ReadsAsArray(items);
        ItemsBack(items);
      }
    case Object(fields) =>
      forall i | 0 <= i < |fields|
        ensures ReadsAs(fields[i].1) == Some(SortAll(fields[i].1)) <==> Clean(fields[i].1)
      {
        ReadBackExactlyWhenClean(fields[i].1);
      }
      FieldsBack(fields);
    case _ =>
  }

  lemma ItemsBack(items: seq<Value>)
    ensures ReadItems(items) == Some(SortAll(Array(items)).items)
      <==> forall i :: 0 <= i < |items| ==> ReadsAs(items[i]) == Some(SortAll(items[i]))
  {
    var sorted := SortAll(Array(items)).items;
    if forall i :: 0 <= i < |items| ==> ReadsAs(items[i]) == Some(SortAll(items[i])) {
      assert ReadItems(items).value == sorted;
    }
    if ReadItems(items) == Some(sorted) {
      forall i | 0 <= i < |items|
        ensures ReadsAs(items[i]) == Some(SortAll(items[i]))
      {
        assert ReadItems(items).value[i] == sorted[i];
      }
    }
  }

  lemma FieldsBack(fields: seq<(string, Value)>)
    ensures ReadsAs(Object(fields)) == Some(SortAll(Object(fields)))
      <==> forall i :: 0 <= i < |fields| ==> ReadsAs(fields[i].1) == Some(SortAll(fields[i].1))
  {
    var sorted := Sort(fields);
    ReadsAsObject(fields);
    SortAllObject(fields);
    if forall i :: 0 <= i < |fields| ==> ReadsAs(fields[i].1) == Some(SortAll(fields[i].1)) {
      forall i | 0 <= i < |sorted|
        ensures ReadsAs(sorted[i].1) == Some(SortAll(sorted[i].1))
      {
        SortMember(fields, sorted[i]);
      }
      assert Map(ReadsOr, sorted) == Map(SortAll, sorted);
    }
    if ReadsAs(Object(fields)) == Some(SortAll(Object(fields))) {
      forall i | 0 <= i < |fields|
        ensures ReadsAs(fields[i].1) == Some(SortAll(fields[i].1))
      {
        SortMember(fields, fields[i]);
        var j :| 0 <= j < |sorted| && sorted[j] == fields[i];
        assert Map(ReadsOr, sorted)[j] == Map(SortAll, sorted)[j];
      }
    }
  }

  /** Texts of clean values tell them apart exactly up to key order. */
  lemma SameTextSameValue(v: Value, w: Value)
    requires WellFormed(v) && WellFormed(w) && Clean(v) && Clean(w)
    ensures AnnText(v) == AnnText(w) <==> SortAll(v) == SortAll(w)
  {
    ReadBackExactlyWhenClean(v);
    ReadBackExactlyWhenClean(w);
    ParsesAs(v, "");
    ParsesAs(w, "");
    assert AnnText(v) + "" == AnnText(v) && AnnText(w) + "" == AnnText(w);
    if SortAll(v) == SortAll(w) {
      TextOfSorted(v);
      TextOfSorted(w);
    }
  }

  /** Sorting keys first does not change the text. */
  lemma {:induction false} TextOfSorted(v: Value)
    requires WellFormed(v)
    ensures AnnText(SortAll(v)) == AnnText(v)
  {
    match v
    case Array(items) =>
      forall i | 0 <= i < |items|
        ensures AnnText(SortAll(items[i])) == AnnText(items[i])
      {
        TextOfSorted(items[i]);
      }
      ArrayText(items);
      ArrayText(SortAll(v).items);
      assert Parts(SortAll(v).items) == Parts(items);
    case Object(fields) =>
      forall i | 0 <= i < |fields|
        ensures AnnText(SortAll(fields[i].1)) == AnnText(fields[i].1)
      {
        TextOfSorted(fields[i].1);
      }
      ObjectText(fields);
      ObjectText(SortAll(v).fields);
      SortAllObject(fields);
      SortedObjectText(fields);
    case _ =>
  }

  lemma SortedObjectText(fields: seq<(string, Value)>)
    requires DistinctKeys(fields) && forall i :: 0 <= i < |fields| ==> AnnText(SortAll(fields[i].1)) == AnnText(fields[i].1)
    ensures Map(AnnText, Sort(Map(SortAll, Sort(fields)))) == Map(AnnText, Sort(fields))
  {
    var sorted := Sort(fields);
    SortAscends(fields);
    SortOfAscending(sorted);
    MapSort(SortAll, sorted);
    forall i | 0 <= i < |sorted|
      ensures AnnText(SortAll(sorted[i].1)) == AnnText(sorted[i].1)
    {
      SortMember(fields, sorted[i]);
    }
    assert Map(AnnText, Map(SortAll, sorted)) == Map(AnnText, sorted);
  }

  // ---------------------------------------------------------------- what comes back

  /** Whatever can be read back has its keys in order. */
  lemma {:induction false} ReadIsSorted(v: Value)
    requires WellFormed(v) && ReadsAs(v).Some?
    ensures SortAll(ReadsAs(v).value) == ReadsAs(v).value
  {
    match v
    case Array(items) =>
      if items == [Undefined] {
        assert SortAll(Array([])).items == [];
      } else {
        forall i | 0 <= i < |items|
          ensures SortAll(ReadsAs(items[i]).value) == ReadsAs(items[i]).value
        {
          ReadIsSorted(items[i]);
        }
        ReadsAsArray(items);
        assert SortAll(Array(ReadItems(items).value)).items == ReadItems(items).value;
      }
    case Object(fields) =>
      forall i | 0 <= i < |fields|
        ensures SortAll(ReadsAs(fields[i].1).value) == ReadsAs(fields[i].1).value
      {
        ReadIsSorted(fields[i].1);
      }
      ReadFieldsSorted(fields);
    case _ =>
  }

  lemma ReadFieldsSorted(fields: seq<(string, Value)>)
    requires DistinctKeys(fields) && ReadsAs(Object(fields)).Some?
    requires forall i :: 0 <= i < |fields| ==> SortAll(ReadsAs(fields[i].1).value) == ReadsAs(fields[i].1).value
    ensures SortAll(ReadsAs(Object(fields)).value) == ReadsAs(Object(fields)).value
  {
    var sorted := Sort(fields);
    var read := Map(ReadsOr, sorted);
    ReadsAsObject(fields);
    ReadKeysAscend(fields);
    SortOfAscending(read);
    SortAllObject(read);
    forall i | 0 <= i < |sorted|
      ensures SortAll(read[i].1) == read[i].1
    {
      SortMember(fields, sorted[i]);
    }
    assert Map(SortAll, read) == read;
  }

  lemma ReadKeysAscend(fields: seq<(string, Value)>)
    requires DistinctKeys(fields)
    ensures Ascending(Map(ReadsOr, Sort(fields)))
  {
    MapSort(ReadsOr, fields);
    MapKeepsKeys(ReadsOr, fields);
    SortAscends(Map(ReadsOr, fields));
  }

  /** Whatever comes back has the same text again. */
  lemma {:induction false} TextOfRead(v: Value)
    requires WellFormed(v) && ReadsAs(v).Some?
    ensures AnnText(ReadsAs(v).value) == AnnText(v)
  {
    match v
    case Array(items) =>
      ArrayText(items);
      if items == [Undefined] {
        ArrayText([]);
      } else {
        forall i | 0 <= i < |items|
          ensures Part(ReadsAs(items[i]).value) == Part(items[i])
        {
          TextOfRead(items[i]);
        }
        ReadsAsArray(items);
        ArrayText(ReadItems(items).value);
        assert Parts(ReadItems(items).value) == Parts(items);
      }
    case Object(fields) =>
      forall i | 0 <= i < |fields|
        ensures AnnText(ReadsOr(fields[i].1)) == AnnText(fields[i].1)
      {
        TextOfRead(fields[i].1);
      }
      TextOfReadFields(fields);
    case _ =>
  }

  lemma TextOfReadFields(fields: seq<(string, Value)>)
    requires DistinctKeys(fields) && ReadsAs(Object(fields)).Some?
    requires forall i :: 0 <= i < |fields| ==> AnnText(ReadsOr(fields[i].1)) == AnnText(fields[i].1)
    ensures AnnText(ReadsAs(Object(fields)).value) == AnnText(Object(fields))
  {
    var sorted := Sort(fields);
    var read := Map(ReadsOr, sorted);
    ReadsAsObject(fields);
    ReadKeysAscend(fields);
    SortOfAscending(read);
    ObjectText(fields);
    ObjectText(read);
    forall i | 0 <= i < |sorted|
      ensures AnnText(ReadsOr(sorted[i].1)) == AnnText(sorted[i].1)
    {
      SortMember(fields, sorted[i]);
    }
    SameTexts(sorted);
  }

  lemma SameTexts(entries: seq<(string, Value)>)
    requires forall i :: 0 <= i < |entries| ==> AnnText(ReadsOr(entries[i].1)) == AnnText(entries[i].1)
    ensures Map(AnnText, Map(ReadsOr, entries)) == Map(AnnText, entries)
  {
  }

  function Lookup(fields: seq<(string, Value)>, key: string): Value {
    if fields == [] then Undefined
    else if fields[0].0 == key then fields[0].1
    else Lookup(fields[1..], key)
  }

  predicate Has(fields: seq<(string, Value)>, key: string) {
    exists i :: 0 <= i < |fields| && fields[i].0 == key
  }

  lemma {:induction false} LookupFinds(fields: seq<(string, Value)>, e: (string, Value))
    requires DistinctKeys(fields) && e in fields
    ensures Lookup(fields, e.0) == e.1
  {
    if fields[0] != e {
      assert fields == [fields[0]] + fields[1..];
      var i :| 1 <= i < |fields| && fields[i] == e;
      LookupFinds(fields[1..], e);
    }
  }

  /** Looking up a key after sorting and changing the values. */
  lemma LookupThrough(fields: seq<(string, Value)>, f: Value -> Value, key: string)
    requires DistinctKeys(fields) && Has(fields, key)
    ensures Lookup(Map(f, Sort(fields)), key) == f(Lookup(fields, key))
  {
    var i :| 0 <= i < |fields| && fields[i].0 == key;
    LookupFinds(fields, fields[i]);
    var sorted := Sort(fields);
    var mapped := Map(f, sorted);
    SortMember(fields, fields[i]);
    var j :| 0 <= j < |sorted| && sorted[j] == fields[i];
    assert mapped[j] == (key, f(fields[i].1));
    MapSort(f, fields);
    MapKeepsKeys(f, fields);
    SortAscends(Map(f, fields));
    AscendingKeysAreDistinct(mapped);
    LookupFinds(mapped, mapped[j]);
  }

  // ---------------------------------------------------------------- snapshots

  const SCHEMA_VERSION := Number("1")

  datatype Snapshot = Snapshot(schemaVersion: Value, fingerprint: string, createdAt: string, config: Value)

  /** What spreading a value into a new object copies; of other things than objects nothing is left. */
  function Spread(v: Value): seq<(string, Value)> {
    if v.Object? then v.fields else []
  }

  function ConfigOf(profile: Value, requirement: Value, deployment: Value): Value {
    Object([("profile", profile), ("requirement", requirement), ("deployment", deployment)])
  }

  function CloneConfig(config: Value): Value
    requires config.Object?
  {
    ConfigOf(Lookup(config.fields, "profile"),
             Object(Spread(Lookup(config.fields, "requirement"))),
             Object(Spread(Lookup(config.fields, "deployment"))))
  }

  function SnapshotFields(s: Snapshot): seq<(string, Value)> {
    [("schemaVersion", s.schemaVersion), ("fingerprint", Text(s.fingerprint)), ("config", s.config),
     ("createdAt", Text(s.createdAt))]
  }

  predicate Valid(s: Snapshot, hash: string -> string, isDate: string -> bool) {
    s.schemaVersion == SCHEMA_VERSION && isDate(s.createdAt) && s.fingerprint == hash(AnnText(s.config))
  }

  function Serialize(s: Snapshot, hash: string -> string, isDate: string -> bool): Option<string> {
    if Valid(s, hash, isDate) then Some(AnnText(Object(SnapshotFields(s)))) else None
  }

  function Deserialize(text: string, hash: string -> string, isDate: string -> bool): Option<Snapshot> {
    var parsed := ParseAll(text);
    if parsed.None? || !parsed.value.Object? then None
    else
      var fields := parsed.value.fields;
      var config, createdAt, fingerprint := Lookup(fields, "config"), Lookup(fields, "createdAt"), Lookup(fields, "fingerprint");
      if !config.Object? || !createdAt.Text? || !fingerprint.Text? then None
      else
        var s := Snapshot(Lookup(fields, "schemaVersion"), fingerprint.text, createdAt.text, config);
        if Valid(s, hash, isDate) then Some(s.(config := CloneConfig(config))) else None
  }

  lemma KeyNext(e: (string, Value), later: seq<(string, Value)>, key: string)
    ensures Lookup([e] + later, key) == if e.0 == key then e.1 else Lookup(later, key)
  {
    assert ([e] + later)[1..] == later;
  }

  lemma FourKeys(a: (string, Value), b: (string, Value), c: (string, Value), d: (string, Value), key: string)
    requires a.0 != b.0 && a.0 != c.0 && a.0 != d.0 && b.0 != c.0 && b.0 != d.0 && c.0 != d.0
    ensures DistinctKeys([a, b, c, d])
    ensures Lookup([a, b, c, d], key) ==
      if a.0 == key then a.1 else if b.0 == key then b.1 else if c.0 == key then c.1 else if d.0 == key then d.1 else Undefined
  {
    assert [a, b, c, d] == [a] + [b, c, d] && [b, c, d] == [b] + [c, d] && [c, d] == [c] + [d] && [d] == [d] + [];
    KeyNext(d, [], key);
    KeyNext(c, [d], key);
    KeyNext(b, [c, d], key);
    KeyNext(a, [b, c, d], key);
    ThreeKeys(b, c, d);
    KeysCons(a, [b, c, d]);
  }

  function FieldOf(s: Snapshot, key: string): Value {
    if key == "schemaVersion" then s.schemaVersion else if key == "fingerprint" then Text(s.fingerprint)
    else if key == "config" then s.config else if key == "createdAt" then Text(s.createdAt) else Undefined
  }

  lemma SnapshotKeys(s: Snapshot, key: string)
    ensures var fields := SnapshotFields(s);
      && DistinctKeys(fields)
      && Lookup(fields, key) == FieldOf(s, key)
      && (key in ["schemaVersion", "fingerprint", "config", "createdAt"] ==> Has(fields, key))
  {
    var fields := SnapshotFields(s);
    FourKeys(fields[0], fields[1], fields[2], fields[3], key);
    assert fields == [fields[0], fields[1], fields[2], fields[3]];
    assert fields[0].0 == "schemaVersion" && fields[1].0 == "fingerprint" && fields[2].0 == "config" && fields[3].0 == "createdAt";
  }

  lemma SnapshotParses(s: Snapshot)
    requires s.schemaVersion == SCHEMA_VERSION && WellFormed(s.config)
    ensures ParseAll(AnnText(Object(SnapshotFields(s)))) == ReadsAs(Object(SnapshotFields(s)))
  {
    var v := Object(SnapshotFields(s));
    SnapshotKeys(s, "");
    assert WellFormed(SCHEMA_VERSION) by {
      assert IsToken("1");
    }
    ParsesAs(v, "");
    assert AnnText(v) + "" == AnnText(v);
  }

  /** Nothing but the configuration can keep a snapshot from being read, and every field comes back under its key. */
  lemma SnapshotReads(s: Snapshot, key: string)
    requires s.schemaVersion == SCHEMA_VERSION
    requires key in ["schemaVersion", "fingerprint", "config", "createdAt"]
    ensures var fields := SnapshotFields(s);
      var read := ReadsAs(Object(fields));
      && (read.Some? <==> ReadsAs(s.config).Some?)
      && (read.Some? ==> read.value.Object? && Lookup(read.value.fields, key) == ReadsOr(FieldOf(s, key)))
  {
    var fields := SnapshotFields(s);
    if ReadsAs(s.config).None? {
      assert ReadsAs(fields[2].1).None?;
    } else {
      SnapshotKeys(s, key);
      ReadsAsObject(fields);
      SnapshotIsRead(s);
      LookupThrough(fields, ReadsOr, key);
    }
  }

  lemma SnapshotIsRead(s: Snapshot)
    requires s.schemaVersion == SCHEMA_VERSION && ReadsAs(s.config).Some?
    ensures ReadFields(Sort(SnapshotFields(s))) == Some(Map(ReadsOr, Sort(SnapshotFields(s))))
  {
    var sorted := Sort(SnapshotFields(s));
    forall i | 0 <= i < |sorted|
      ensures ReadsAs(sorted[i].1).Some?
    {
      SortMember(SnapshotFields(s), sorted[i]);
    }
  }

  lemma DeserializeFields(text: string, fields: seq<(string, Value)>, s: Snapshot, hash: string -> string, isDate: string -> bool)
    requires ParseAll(text) == Some(Object(fields)) && s.config.Object? && Valid(s, hash, isDate)
    requires Lookup(fields, "schemaVersion") == s.schemaVersion && Lookup(fields, "fingerprint") == Text(s.fingerprint)
    requires Lookup(fields, "config") == s.config && Lookup(fields, "createdAt") == Text(s.createdAt)
    ensures Deserialize(text, hash, isDate) == Some(s.(config := CloneConfig(s.config)))
  {
  }

  lemma ReadSnapshotFields(s: Snapshot) returns (fields: seq<(string, Value)>)
    requires s.schemaVersion == SCHEMA_VERSION && ReadsAs(s.config).Some?
    ensures ReadsAs(Object(SnapshotFields(s))) == Some(Object(fields))
    ensures Lookup(fields, "schemaVersion") == s.schemaVersion && Lookup(fields, "fingerprint") == Text(s.fingerprint)
    ensures Lookup(fields, "config") == ReadsAs(s.config).value && Lookup(fields, "createdAt") == Text(s.createdAt)
  {
    SnapshotReads(s, "schemaVersion");
    SnapshotReads(s, "fingerprint");
    SnapshotReads(s, "config");
    SnapshotReads(s, "createdAt");
    fields := ReadsAs(Object(SnapshotFields(s))).value.fields;
  }

  /** A serialized snapshot can be read exactly when its configuration can, and then only its configuration may differ. */
  lemma DeserializeSerialized(s: Snapshot, hash: string -> string, isDate: string -> bool)
    requires Valid(s, hash, isDate) && WellFormed(s.config) && s.config.Object?
    ensures Deserialize(AnnText(Object(SnapshotFields(s))), hash, isDate) ==
      if ReadsAs(s.config).None? then None else Some(s.(config := CloneConfig(ReadsAs(s.config).value)))
  {
    SnapshotParses(s);
    if ReadsAs(s.config).Some? {
      var fields := ReadSnapshotFields(s);
      var read := s.(config := ReadsAs(s.config).value);
      TextOfRead(s.config);
      ReadsAsObject(s.config.fields);
      DeserializeFields(AnnText(Object(SnapshotFields(s))), fields, read, hash, isDate);
    } else {
      SnapshotReads(s, "config");
    }
  }

  /** A configuration as cloneConfig leaves it: these three parts, the last two objects. */
  predicate ConfigShape(config: Value) {
    config.Object? && config == CloneConfig(config)
  }

  lemma ConfigKeys(profile: Value, requirement: Value, deployment: Value, f: Value -> Value)
    ensures var fields := ConfigOf(profile, requirement, deployment).fields;
      && DistinctKeys(fields)
      && Lookup(fields, "profile") == profile && Lookup(fields, "requirement") == requirement && Lookup(fields, "deployment") == deployment
      && var mapped := Map(f, Sort(fields));
         Lookup(mapped, "profile") == f(profile) && Lookup(mapped, "requirement") == f(requirement)
         && Lookup(mapped, "deployment") == f(deployment)
  {
    var a, b, c := ("profile", profile), ("requirement", requirement), ("deployment", deployment);
    var fields := [a, b, c];
    ThreeKeys(a, b, c);
    assert fields[0] == a && fields[1] == b && fields[2] == c;
    LookupFinds(fields, a);
    LookupFinds(fields, b);
    LookupFinds(fields, c);
    LookupThrough(fields, f, "profile");
    LookupThrough(fields, f, "requirement");
    LookupThrough(fields, f, "deployment");
  }

  /** What a configuration comes back as: each part as it is read. */
  lemma ClonedParts(config: Value)
    requires ConfigShape(config) && WellFormed(config) && ReadsAs(config).Some?
    ensures var p, r, d := Lookup(config.fields, "profile"), Lookup(config.fields, "requirement"), Lookup(config.fields, "deployment");
      && config == ConfigOf(p, r, d) && r.Object? && d.Object?
      && CloneConfig(ReadsAs(config).value) == ConfigOf(ReadsOr(p), ReadsOr(r), ReadsOr(d))
      && ReadsAs(p).Some? && ReadsAs(r).Some? && ReadsAs(d).Some?
  {
    var p, r, d := Lookup(config.fields, "profile"), Lookup(config.fields, "requirement"), Lookup(config.fields, "deployment");
    ConfigKeys(p, Object(Spread(r)), Object(Spread(d)), ReadsOr);
    ReadsAsObject(config.fields);
    var fields := config.fields;
    assert ReadsAs(fields[0].1).Some? && ReadsAs(fields[1].1).Some? && ReadsAs(fields[2].1).Some?;
    assert fields[0].1 == p && fields[1].1 == Object(Spread(r)) && fields[2].1 == Object(Spread(d));
  }

  lemma SortedConfig(p: Value, r: Value, d: Value)
    ensures SortAll(ConfigOf(p, r, d)) == Object(Sort(ConfigOf(SortAll(p), SortAll(r), SortAll(d)).fields))
  {
    var fields := ConfigOf(p, r, d).fields;
    assert seq(|fields|, i requires 0 <= i < |fields| => (fields[i].0, SortAll(fields[i].1))) ==
           ConfigOf(SortAll(p), SortAll(r), SortAll(d)).fields;
  }

  lemma SortedConfigParts(p: Value, r: Value, d: Value)
    ensures var sorted := SortAll(ConfigOf(p, r, d)).fields;
      && Lookup(sorted, "profile") == SortAll(p) && Lookup(sorted, "requirement") == SortAll(r)
      && Lookup(sorted, "deployment") == SortAll(d)
  {
    ConfigKeys(p, r, d, SortAll);
    SortAllObject(ConfigOf(p, r, d).fields);
  }

  lemma SortedConfigsAgree(p: Value, r: Value, d: Value, p': Value, r': Value, d': Value)
    ensures SortAll(ConfigOf(p, r, d)) == SortAll(ConfigOf(p', r', d'))
      <==> SortAll(p) == SortAll(p') && SortAll(r) == SortAll(r') && SortAll(d) == SortAll(d')
  {
    if SortAll(ConfigOf(p, r, d)) == SortAll(ConfigOf(p', r', d')) {
      SortedConfigParts(p, r, d);
      SortedConfigParts(p', r', d');
    } else {
      SortedConfig(p, r, d);
      SortedConfig(p', r', d');
    }
  }

  lemma ReadBackToItself(v: Value)
    requires WellFormed(v) && ReadsAs(v).Some?
    ensures SortAll(ReadsOr(v)) == SortAll(v) <==> Clean(v)
  {
    ReadIsSorted(v);
    ReadBackExactlyWhenClean(v);
  }

  lemma ClonedRoundTrip(config: Value)
    requires ConfigShape(config) && WellFormed(config) && ReadsAs(config).Some?
    ensures SortAll(CloneConfig(ReadsAs(config).value)) == SortAll(config) <==> Clean(config)
  {
    ClonedParts(config);
    var fields := config.fields;
    var p, r, d := Lookup(fields, "profile"), Lookup(fields, "requirement"), Lookup(fields, "deployment");
    SortedConfigsAgree(ReadsOr(p), ReadsOr(r), ReadsOr(d), p, r, d);
    assert fields[0].1 == p && fields[1].1 == r && fields[2].1 == d;
    ReadBackToItself(p);
    ReadBackToItself(r);
    ReadBackToItself(d);
  }

  /** Deserializing a serialized snapshot gives it back, up to key order, exactly when nothing in it is undefined or infinite. */
  lemma SnapshotRoundTrip(s: Snapshot, hash: string -> string, isDate: string -> bool)
    requires Valid(s, hash, isDate) && WellFormed(s.config) && ConfigShape(s.config)
    ensures var t := Deserialize(Serialize(s, hash, isDate).value, hash, isDate);
      (t.Some? && t.value == s.(config := t.value.config) && SortAll(t.value.config) == SortAll(s.config)) <==> Clean(s.config)
  {
    DeserializeSerialized(s, hash, isDate);
    ReadBackExactlyWhenClean(s.config);
    if ReadsAs(s.config).Some? {
      ClonedRoundTrip(s.config);
    }
  }

  /**
   * What is read was checked: its version is 1, its date is one, and its fingerprint is the hash of the configuration's
   * text; of the configuration the three parts are kept. Nothing else is refused.
   */
  lemma ReadIsChecked(text: string, fields: seq<(string, Value)>, hash: string -> string, isDate: string -> bool)
    requires ParseAll(text) == Some(Object(fields))
    ensures var r := Deserialize(text, hash, isDate);
      var (config, createdAt) := (Lookup(fields, "config"), Lookup(fields, "createdAt"));
      && (r.Some? <==>
          && config.Object? && createdAt.Text? && isDate(createdAt.text) && Lookup(fields, "schemaVersion") == Number("1")
          && Lookup(fields, "fingerprint") == Text(hash(AnnText(config))))
      && (r.Some? ==>
          && r.value.schemaVersion == Number("1") && r.value.createdAt == createdAt.text
          && r.value.fingerprint == hash(AnnText(config))
          && r.value.config.Object? && Lookup(r.value.config.fields, "profile") == Lookup(config.fields, "profile"))
  {
  }

  /** A configuration that was altered under an old fingerprint is refused. */
  lemma AlteredIsRefused(s: Snapshot, text: string, fields: seq<(string, Value)>, hash: string -> string, isDate: string -> bool)
    requires CollisionFree(hash) && Valid(s, hash, isDate) && WellFormed(s.config) && Clean(s.config)
    requires ParseAll(text) == Some(Object(fields)) && Lookup(fields, "fingerprint") == Text(s.fingerprint)
    requires var config := Lookup(fields, "config");
      WellFormed(config) && Clean(config) && SortAll(config) != SortAll(s.config)
    ensures Deserialize(text, hash, isDate).None?
  {
    SameTextSameValue(Lookup(fields, "config"), s.config);
    ReadIsChecked(text, fields, hash, isDate);
  }

  ghost predicate CollisionFree(hash: string -> string) {
    forall a, b :: hash(a) == hash(b) ==> a == b
  }

  /** diffAnnConfigSnapshots compares fingerprints. */
  function Changed(previous: Option<Snapshot>, next: Snapshot): bool {
    previous.None? || previous.value.fingerprint != next.fingerprint
  }

  /** A difference is reported exactly when the configurations differ in more than key order. */
  lemma ChangedExactlyWhenDifferent(a: Snapshot, b: Snapshot, hash: string -> string, isDate: string -> bool)
    requires CollisionFree(hash) && Valid(a, hash, isDate) && Valid(b, hash, isDate)
    requires WellFormed(a.config) && WellFormed(b.config) && Clean(a.config) && Clean(b.config)
    ensures Changed(Some(a), b) <==> SortAll(a.config) != SortAll(b.config)
  {
    SameTextSameValue(a.config, b.config);
  }
}
