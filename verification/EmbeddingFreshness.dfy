/** When an embedding record is stale: src/recommendation/embedding-lifecycle.ts. */
module EmbeddingFreshness {
  import opened Options
  import opened JsonText
  import opened CanonicalJson
  import opened EmbeddingText
  import Decimal

  datatype Artifact = Artifact(artifactRef: string, sha256: string, sizeBytes: Option<nat>)

  /** The parts of a model manifest that identify the model. */
  datatype Model = Model(
    providerId: string, modelId: string, modelVersion: string, dimensions: nat, distanceMetric: string,
    artifact: Option<Artifact>)

  datatype Boundary = LocalOnly | ServerAllowed | AggregateOnly

  /** A normalized record; times are in milliseconds. */
  datatype Record = Record(
    model: Model, profileDigest: string, vectorLength: nat, privacyBoundary: Boundary,
    expiresAt: Option<int>, invalidatedAt: Option<int>)

  datatype Reason = Invalidated | Expired | ModelChanged | ProfileChanged | PrivacyBoundaryChanged | DimensionMismatch

  const STALENESS_REASONS := [Invalidated, Expired, ModelChanged, ProfileChanged, PrivacyBoundaryChanged, DimensionMismatch]

  function WholeNumber(n: nat): Value {
    Number(Decimal.Print(n))
  }

  function ArtifactParts(a: Option<Artifact>): Value {
    if a.None? then Null
    else
      Object([
        ("artifactRef", Text(a.value.artifactRef)),
        ("sha256", Text(a.value.sha256)),
        ("sizeBytes", if a.value.sizeBytes.None? then Null else WholeNumber(a.value.sizeBytes.value))])
  }

  function IdentityParts(m: Model): Value {
    Array([Text("recommendation-embedding-model-identity.v1"), Text(m.providerId), Text(m.modelId), Text(m.modelVersion),
           WholeNumber(m.dimensions), Text(m.distanceMetric), ArtifactParts(m.artifact)])
  }

  predicate SameModel(a: Model, b: Model) {
    StableStringify(IdentityParts(a)) == StableStringify(IdentityParts(b))
  }

  lemma WholeNumbersDiffer(m: nat, n: nat)
    ensures WellFormed(WholeNumber(m))
    ensures WholeNumber(m) == WholeNumber(n) <==> m == n
  {
    Decimal.ParsePrint(m);
    Decimal.ParsePrint(n);
  }

  lemma ArtifactIsSupported(a: Option<Artifact>)
    ensures WellFormed(ArtifactParts(a)) && Supported(ArtifactParts(a))
  {
    if a.Some? {
      var fields := ArtifactParts(a).fields;
      ThreeKeys(fields[0], fields[1], fields[2]);
      if a.value.sizeBytes.Some? {
        WholeNumbersDiffer(a.value.sizeBytes.value, 0);
      }
    }
  }

  lemma IdentityIsSupported(m: Model)
    ensures WellFormed(IdentityParts(m)) && Supported(IdentityParts(m))
  {
    WholeNumbersDiffer(m.dimensions, 0);
    ArtifactIsSupported(m.artifact);
  }

  lemma SameUnderKey(f: (string, Value), g: seq<(string, Value)>, k: nat)
    requires DistinctKeys(g) && HasSame(f, g) && k < |g| && g[k].0 == f.0
    ensures SameJson(f.1, g[k].1)
  {
    var j :| 0 <= j < |g| && Matches(f, g[j]) && SameJson(f.1, g[j].1);
    if j != k {
      KeysAreDistinct(g, if j < k then j else k, if j < k then k else j);
    }
  }

  lemma SameField(v: Value, w: Value, k: nat)
    requires v.Object? && w.Object? && SameJson(v, w) && DistinctKeys(w.fields)
    requires k < |v.fields| && k < |w.fields| && v.fields[k].0 == w.fields[k].0 && !v.fields[k].1.Undefined?
    ensures SameJson(v.fields[k].1, w.fields[k].1)
  {
    assert HasSame(v.fields[k], w.fields);
    SameUnderKey(v.fields[k], w.fields, k);
  }

  lemma SameSize(m: Option<nat>, n: Option<nat>)
    requires SameJson(if m.None? then Null else WholeNumber(m.value), if n.None? then Null else WholeNumber(n.value))
    ensures m == n
  {
    if m.Some? && n.Some? {
      WholeNumbersDiffer(m.value, n.value);
    }
  }

  lemma SameArtifact(a: Option<Artifact>, b: Option<Artifact>)
    requires SameJson(ArtifactParts(a), ArtifactParts(b))
    ensures a == b
  {
    if a.Some? && b.Some? {
      var v, w := ArtifactParts(a), ArtifactParts(b);
      ArtifactIsSupported(b);
      SameField(v, w, 0);
      SameField(v, w, 1);
      SameField(v, w, 2);
      SameSize(a.value.sizeBytes, b.value.sizeBytes);
    }
  }

  lemma SameItem(v: Value, w: Value, i: nat)
    requires v.Array? && i < |v.items| && SameJson(v, w)
    ensures i < |w.items| && SameJson(v.items[i], w.items[i])
  {
  }

  lemma SameIdentity(a: Model, b: Model)
    requires SameJson(IdentityParts(a), IdentityParts(b))
    ensures a == b
  {
    var v, w := IdentityParts(a), IdentityParts(b);
    SameItem(v, w, 1);
    SameItem(v, w, 2);
    SameItem(v, w, 3);
    SameItem(v, w, 4);
    SameItem(v, w, 5);
    SameItem(v, w, 6);
    WholeNumbersDiffer(a.dimensions, b.dimensions);
    SameArtifact(a.artifact, b.artifact);
  }

  /** The texts of two models' identities are the same exactly when no identifying part differs. */
  lemma SameModelExactly(a: Model, b: Model)
    ensures SameModel(a, b) <==> a == b
  {
    IdentityIsSupported(a);
    IdentityIsSupported(b);
    if SameModel(a, b) {
      SameTextExactlyWhenSame(IdentityParts(a), IdentityParts(b));
      SameIdentity(a, b);
    }
  }

  ghost predicate CollisionFree(hash: string -> string) {
    forall a, b :: hash(a) == hash(b) ==> a == b
  }

  /** Digests of two profiles differ exactly when the profiles do. */
  lemma DigestsTellProfilesApart(hash: string -> string, before: Value, after: Value)
    requires CollisionFree(hash) && WellFormed(before) && Supported(before) && WellFormed(after) && Supported(after)
    ensures hash(StableText(before)) != hash(StableText(after)) <==> !SameJson(before, after)
  {
    SameTextExactlyWhenSame(before, after);
  }

  function Keep(order: seq<Reason>, reasons: set<Reason>): seq<Reason> {
    if order == [] then [] else (if order[0] in reasons then [order[0]] else []) + Keep(order[1..], reasons)
  }

  lemma {:induction false} KeptReasons(order: seq<Reason>, reasons: set<Reason>, r: Reason)
    ensures r in Keep(order, reasons) <==> r in order && r in reasons
  {
    if order != [] {
      KeptReasons(order[1..], reasons, r);
      assert order == [order[0]] + order[1..];
    }
  }

  lemma EveryReason(r: Reason)
    ensures r in STALENESS_REASONS
  {
    match r
    case Invalidated => assert STALENESS_REASONS[0] == r;
    case Expired => assert STALENESS_REASONS[1] == r;
    case ModelChanged => assert STALENESS_REASONS[2] == r;
    case ProfileChanged => assert STALENESS_REASONS[3] == r;
    case PrivacyBoundaryChanged => assert STALENESS_REASONS[4] == r;
    case DimensionMismatch => assert STALENESS_REASONS[5] == r;
  }

  /** Lists what was found, in the fixed order. */
  method InOrder(found: set<Reason>) returns (reasons: seq<Reason>)
    ensures reasons == Keep(STALENESS_REASONS, found)
    ensures forall r :: r in reasons <==> r in found
  {
    reasons := Keep(STALENESS_REASONS, found);
    forall r
      ensures r in reasons <==> r in found
    {
      EveryReason(r);
      KeptReasons(STALENESS_REASONS, found, r);
    }
  }

  /** The reasons why a record of one profile is stale for another profile and model, in their fixed order. */
  method EvaluateFreshness(record: Record, model: Model, profile: Value, now: Option<int>, boundary: Option<Boundary>,
                           hash: string -> string, ghost recorded: Value)
    returns (stale: bool, reasons: seq<Reason>)
    requires CollisionFree(hash) && WellFormed(profile) && Supported(profile) && WellFormed(recorded) && Supported(recorded)
    requires record.profileDigest == hash(StableText(recorded)) && record.vectorLength == record.model.dimensions
    ensures ProfileChanged in reasons <==> !SameJson(recorded, profile)
    ensures ModelChanged in reasons <==> record.model != model
    ensures DimensionMismatch in reasons <==> record.model.dimensions != model.dimensions
    ensures Invalidated in reasons <==> record.invalidatedAt.Some?
    ensures Expired in reasons <==> record.expiresAt.Some? && now.Some? && record.expiresAt.value <= now.value
    ensures PrivacyBoundaryChanged in reasons <==> boundary.Some? && boundary.value != record.privacyBoundary
    ensures stale <==> reasons != []
    ensures exists found :: reasons == Keep(STALENESS_REASONS, found)
  {
    SameModelExactly(record.model, model);
    DigestsTellProfilesApart(hash, recorded, profile);
    var modelChanged := !SameModel(record.model, model);
    var profileChanged := record.profileDigest != hash(StableText(profile));
    reasons := Reasons(record, model, modelChanged, profileChanged, now, boundary);
    stale := |reasons| > 0;
  }

  method Reasons(record: Record, model: Model, modelChanged: bool, profileChanged: bool, now: Option<int>, boundary: Option<Boundary>)
    returns (reasons: seq<Reason>)
    ensures ProfileChanged in reasons <==> profileChanged
    ensures ModelChanged in reasons <==> modelChanged
    ensures DimensionMismatch in reasons <==> record.vectorLength != model.dimensions
    ensures Invalidated in reasons <==> record.invalidatedAt.Some?
    ensures Expired in reasons <==> record.expiresAt.Some? && now.Some? && record.expiresAt.value <= now.value
    ensures PrivacyBoundaryChanged in reasons <==> boundary.Some? && boundary.value != record.privacyBoundary
    ensures exists found :: reasons == Keep(STALENESS_REASONS, found)
  {
    var found := Added({}, Invalidated, record.invalidatedAt.Some?);
    found := Added(found, Expired, record.expiresAt.Some? && now.Some? && record.expiresAt.value <= now.value);
    found := Added(found, ModelChanged, modelChanged);
    found := Added(found, ProfileChanged, profileChanged);
    found := Added(found, DimensionMismatch, record.vectorLength != model.dimensions);
    found := Added(found, PrivacyBoundaryChanged, boundary.Some? && record.privacyBoundary != boundary.value);
    reasons := InOrder(found);
  }

  method Added(found: set<Reason>, r: Reason, holds: bool) returns (more: set<Reason>)
    ensures forall x :: x in more <==> x in found || (holds && x == r)
  {
    more := if holds then found + {r} else found;
  }
}
