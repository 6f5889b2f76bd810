/**
 Envoy resources, snapshots of them, and the reconciler that writes a revision's
 snapshot into the xDS cache (pkg/reconcilers/marin3r/envoyconfigrevision/cache.go,
 pkg/discoveryservice/xdss/v3/snapshot.go).
 */
module Snapshots {
  import opened Wrappers

  datatype ResourceType =
    | Endpoint | Cluster | Route | ScopedRoute | Listener | Secret | Runtime | ExtensionConfig
    | VirtualHost

  /** The types a snapshot is built from and compared by, in the order of the comparison. */
  const SERVED: seq<ResourceType> := [Endpoint, Cluster, Route, ScopedRoute, Listener, Secret, Runtime, ExtensionConfig]

  predicate Served(t: ResourceType) {
    t != VirtualHost
  }

  /** The type URL of each type, as the xDS protocol spells it. */
  type Urls = ResourceType -> string

  datatype Blueprint = TlsCertificate | TlsValidationContext

  datatype OpaqueSource = OpaqueSource(name: string, key: string, alias: string)

  datatype SliceSource = SliceSource(selector: string, clusterName: string, targetPort: string)

  datatype Resource = Resource(
    rtype: ResourceType, raw: string, tlsSecret: Option<string>, opaqueSecret: Option<OpaqueSource>,
    slices: Option<SliceSource>, blueprint: Option<Blueprint>)

  /** An envoy message; its JSON form is taken to determine it. */
  datatype Message =
    | Decoded(name: string, body: string)
    | CertificateMessage(name: string, key: string, cert: string)
    | ValidationMessage(name: string, cert: string)
    | GenericMessage(name: string, body: string)

  datatype SecretKind = Tls | Opaque | OtherKind

  datatype KubeSecret = KubeSecret(kind: SecretKind, data: map<string, string>)

  /** `Invalid` is the API status error that marks a wrong spec; every other failure is `Transient`. */
  datatype LoadError = Invalid | Transient

  type Decoder = (ResourceType, string) -> Option<Message>

  /** What lies outside: the protobuf decoder, the Kubernetes secrets and the endpoint slices. */
  datatype World = World(
    decode: Decoder,
    secret: string -> Option<KubeSecret>,
    discover: SliceSource -> Result<Message, LoadError>)

  function Datum(s: KubeSecret, key: string): (v: string) {
    if key in s.data then s.data[key] else ""
  }

  function LoadSecret(w: World, def: Resource): (r: Result<Message, LoadError>) {
    if def.tlsSecret.Some? then
      var name := def.tlsSecret.value;
      match w.secret(name)
      case None => Err(Transient)
      case Some(s) =>
        if s.kind != Tls then Err(Transient)
        else if def.blueprint == Some(TlsValidationContext) then Ok(ValidationMessage(name, Datum(s, "tls.crt")))
        else Ok(CertificateMessage(name, Datum(s, "tls.key"), Datum(s, "tls.crt")))
    else if def.opaqueSecret.Some? then
      var src := def.opaqueSecret.value;
      match w.secret(src.name)
      case None => Err(Transient)
      case Some(s) =>
        if s.kind != Opaque then Err(Transient) else Ok(GenericMessage(src.alias, Datum(s, src.key)))
    else Err(Invalid)
  }

  function Decode(w: World, def: Resource): (r: Result<Message, LoadError>) {
    match w.decode(def.rtype, def.raw) case Some(m) => Ok(m) case None => Err(Invalid)
  }

  /** One definition's message. */
  function Load(w: World, def: Resource): (r: Result<Message, LoadError>) {
    if def.rtype == Secret then LoadSecret(w, def)
    else if def.rtype == Endpoint && def.slices.Some? then w.discover(def.slices.value)
    else Decode(w, def)
  }

  /** A definition of a served type that cannot be loaded. */
  predicate Fails(w: World, def: Resource) {
    Served(def.rtype) && Load(w, def).Err?
  }

  /** The first definition that fails does so with this error. */
  ghost predicate FirstFailure(w: World, defs: seq<Resource>, e: LoadError) {
    exists i :: 0 <= i < |defs| && Fails(w, defs[i]) && Load(w, defs[i]) == Err(e)
                && forall j :: 0 <= j < i ==> !Fails(w, defs[j])
  }

  /** The messages of one type, in the order of their definitions. */
  function OfType(w: World, defs: seq<Resource>, t: ResourceType): (ms: seq<Message>) {
    if defs == [] then []
    else
      var last := defs[|defs| - 1];
      var earlier := OfType(w, defs[..|defs| - 1], t);
      if last.rtype == t && Load(w, last).Ok? then earlier + [Load(w, last).value] else earlier
  }

  ghost predicate Listed(w: World, defs: seq<Resource>, lists: map<ResourceType, seq<Message>>) {
    forall t :: Served(t) ==> t in lists && lists[t] == OfType(w, defs, t)
  }

  lemma OneMore(w: World, defs: seq<Resource>, def: Resource, lists: map<ResourceType, seq<Message>>)
    requires Served(def.rtype) && Load(w, def).Ok? && Listed(w, defs, lists)
    ensures Listed(w, defs + [def], lists[def.rtype := lists[def.rtype] + [Load(w, def).value]])
  {
  }

  lemma NoneMore(w: World, defs: seq<Resource>, def: Resource)
    requires !Served(def.rtype)
    ensures forall t :: Served(t) ==> OfType(w, defs + [def], t) == OfType(w, defs, t)
  {
  }

  /** Indexing by name, the later of two messages with one name winning. */
  function ByName(ms: seq<Message>): (m: map<string, Message>) {
    if ms == [] then map[] else ByName(ms[..|ms| - 1])[ms[|ms| - 1].name := ms[|ms| - 1]]
  }

  /** `ms[i]` is `m`, and no later message has its name. */
  ghost predicate LastNamed(ms: seq<Message>, name: string, m: Message, i: nat) {
    i < |ms| && ms[i] == m && m.name == name && forall j :: i < j < |ms| ==> ms[j].name != name
  }

  /** The index holds every name, each with the last message of that name. */
  lemma {:induction false} ByNameHolds(ms: seq<Message>, name: string, m: Message)
    ensures name in ByName(ms) && ByName(ms)[name] == m <==> exists i: nat :: LastNamed(ms, name, m, i)
  {
    if ms != [] {
      var init, last := ms[..|ms| - 1], ms[|ms| - 1];
      ByNameHolds(init, name, m);
      if last.name == name {
        assert m == last ==> LastNamed(ms, name, m, |ms| - 1);
        assert forall i: nat :: LastNamed(ms, name, m, i) ==> i == |ms| - 1;
      } else {
        assert forall i: nat :: i < |init| ==> (LastNamed(ms, name, m, i) <==> LastNamed(init, name, m, i));
        assert !LastNamed(ms, name, m, |ms| - 1);
      }
    }
  }

  /** The definition loads to a message of this type and name. */
  ghost predicate Gives(w: World, def: Resource, t: ResourceType, name: string) {
    def.rtype == t && Load(w, def).Ok? && Load(w, def).value.name == name
  }

  /** `defs[i]` is the last definition of the type that loads to a message of that name, and `m` is the message. */
  ghost predicate GivenBy(w: World, defs: seq<Resource>, t: ResourceType, name: string, m: Message, i: nat) {
    && i < |defs| && Gives(w, defs[i], t, name) && Load(w, defs[i]) == Ok(m)
    && forall j :: i < j < |defs| ==> !Gives(w, defs[j], t, name)
  }

  ghost predicate HoldsUnder(s: Snapshot, t: ResourceType, name: string, m: Message) {
    name in GetResources(s, t) && GetResources(s, t)[name] == m
  }

  /** Under each name of each served type stands what the last definition for it loads to, and nothing else. */
  ghost predicate Serves(w: World, defs: seq<Resource>, s: Snapshot) {
    forall t, name, m :: Served(t) ==> (HoldsUnder(s, t, name, m) <==> exists i: nat :: GivenBy(w, defs, t, name, m, i))
  }

  lemma {:induction false} OfTypeServes(w: World, defs: seq<Resource>, t: ResourceType, name: string, m: Message)
    ensures var all := ByName(OfType(w, defs, t));
            name in all && all[name] == m <==> exists i: nat :: GivenBy(w, defs, t, name, m, i)
  {
    if defs != [] {
      var init, last := defs[..|defs| - 1], defs[|defs| - 1];
      OfTypeServes(w, init, t, name, m);
      AppendedByName(w, defs, t);
      GivenByLast(w, defs, t, name, m);
    }
  }

  lemma GivenByLast(w: World, defs: seq<Resource>, t: ResourceType, name: string, m: Message)
    requires defs != []
    ensures var init, last := defs[..|defs| - 1], defs[|defs| - 1];
            (exists i: nat :: GivenBy(w, defs, t, name, m, i)) <==>
            if Gives(w, last, t, name) then Load(w, last) == Ok(m) else exists i: nat :: GivenBy(w, init, t, name, m, i)
  {
    var init, last := defs[..|defs| - 1], defs[|defs| - 1];
    if Gives(w, last, t, name) {
      assert Load(w, last) == Ok(m) ==> GivenBy(w, defs, t, name, m, |defs| - 1);
      assert forall i: nat :: GivenBy(w, defs, t, name, m, i) ==> i == |defs| - 1;
    } else {
      assert forall i: nat :: i < |init| ==> (GivenBy(w, defs, t, name, m, i) <==> GivenBy(w, init, t, name, m, i));
      assert !GivenBy(w, defs, t, name, m, |defs| - 1);
    }
  }

  lemma AppendedByName(w: World, defs: seq<Resource>, t: ResourceType)
    requires defs != []
    ensures var last := defs[|defs| - 1];
            var earlier := ByName(OfType(w, defs[..|defs| - 1], t));
            ByName(OfType(w, defs, t)) ==
            if last.rtype == t && Load(w, last).Ok?
            then earlier[Load(w, last).value.name := Load(w, last).value]
            else earlier
  {
    var last := defs[|defs| - 1];
    var ms := OfType(w, defs[..|defs| - 1], t);
    if last.rtype == t && Load(w, last).Ok? {
      var all := ms + [Load(w, last).value];
      assert all[..|all| - 1] == ms;
    }
  }

  lemma RepresentsServes(w: World, defs: seq<Resource>, s: Snapshot)
    requires Represents(w, defs, s)
    ensures Serves(w, defs, s)
  {
    forall t, name, m | Served(t)
      ensures HoldsUnder(s, t, name, m) <==> exists i: nat :: GivenBy(w, defs, t, name, m, i)
    {
      OfTypeServes(w, defs, t, name, m);
    }
  }

  /** What becomes of a secret's data: the key and the certificate each in their place. */
  lemma SecretContents(w: World, def: Resource, s: KubeSecret)
    requires def.rtype == Secret
    ensures def.tlsSecret.Some? && w.secret(def.tlsSecret.value) == Some(s) ==>
              match Load(w, def)
              case Err(e) => s.kind != Tls && e == Transient
              case Ok(m) =>
                && s.kind == Tls && m.name == def.tlsSecret.value
                && (def.blueprint == Some(TlsValidationContext) <==> m.ValidationMessage?)
                && (def.blueprint != Some(TlsValidationContext) <==> m.CertificateMessage?)
                && (m.CertificateMessage? && "tls.key" in s.data ==> m.key == s.data["tls.key"])
                && (m.CertificateMessage? && "tls.crt" in s.data ==> m.cert == s.data["tls.crt"])
                && (m.ValidationMessage? && "tls.crt" in s.data ==> m.cert == s.data["tls.crt"])
    ensures def.tlsSecret.None? && def.opaqueSecret.Some? && w.secret(def.opaqueSecret.value.name) == Some(s) ==>
              match Load(w, def)
              case Err(e) => s.kind != Opaque && e == Transient
              case Ok(m) =>
                && s.kind == Opaque && m.GenericMessage? && m.name == def.opaqueSecret.value.alias
                && (def.opaqueSecret.value.key in s.data ==> m.body == s.data[def.opaqueSecret.value.key])
  {
  }

  /** Every other resource is what the decoder makes of its text, and generated endpoints what discovery finds. */
  lemma OtherContents(w: World, def: Resource)
    requires def.rtype != Secret
    ensures def.rtype == Endpoint && def.slices.Some? ==> Load(w, def) == w.discover(def.slices.value)
    ensures !(def.rtype == Endpoint && def.slices.Some?) ==>
              forall m :: Load(w, def) == Ok(m) <==> w.decode(def.rtype, def.raw) == Some(m)
  {
  }

  datatype Snapshot = Snapshot(resources: map<ResourceType, map<string, Message>>, versions: map<ResourceType, string>)

  type Hasher = map<string, Message> -> string

  /** Hashes tell resource sets apart, and none is empty. */
  ghost predicate Injective(hash: Hasher) {
    && (forall a, b :: hash(a) == hash(b) ==> a == b)
    && (forall a :: hash(a) != "")
  }

  function ContentVersion(hash: Hasher, m: map<string, Message>): (v: string) {
    if |m| > 0 then hash(m) else ""
  }

  function GetVersion(s: Snapshot, t: ResourceType): (v: string) {
    if t in s.versions then s.versions[t] else ""
  }

  function GetResources(s: Snapshot, t: ResourceType): (m: map<string, Message>) {
    if t in s.resources then s.resources[t] else map[]
  }

  function SetResources(hash: Hasher, s: Snapshot, t: ResourceType, ms: seq<Message>): (r: Snapshot) {
    Snapshot(s.resources[t := ByName(ms)], s.versions[t := ContentVersion(hash, ByName(ms))])
  }

  /** Versions that were computed from the resources they stand beside. */
  ghost predicate Versioned(hash: Hasher, s: Snapshot) {
    forall t :: Served(t) ==> GetVersion(s, t) == ContentVersion(hash, GetResources(s, t))
  }

  /** Exactly the messages the definitions stand for, type by type. */
  ghost predicate Represents(w: World, defs: seq<Resource>, s: Snapshot) {
    forall t :: Served(t) ==> GetResources(s, t) == ByName(OfType(w, defs, t))
  }

  ghost predicate SameVersions(a: Snapshot, b: Snapshot) {
    forall t :: Served(t) ==> GetVersion(a, t) == GetVersion(b, t)
  }

  function Tracker(s: Snapshot): (vt: map<ResourceType, string>) {
    map t | t in SERVED :: GetVersion(s, t)
  }

  /** The snapshot of a revision's definitions. */
  ghost function SnapshotOf(hash: Hasher, w: World, defs: seq<Resource>): (s: Snapshot)
    ensures Represents(w, defs, s) && Versioned(hash, s)
  {
    assert forall t :: Served(t) ==> t in SERVED by {
      forall t | Served(t) ensures t in SERVED {
        EveryTypeListed(t);
      }
    }
    Snapshot(map t | t in SERVED :: ByName(OfType(w, defs, t)),
             map t | t in SERVED :: ContentVersion(hash, ByName(OfType(w, defs, t))))
  }

  /** Equal versions mean equal resources: what lets the reconciler skip a write. */
  lemma SameVersionsSameResources(hash: Hasher, a: Snapshot, b: Snapshot)
    requires Injective(hash) && Versioned(hash, a) && Versioned(hash, b)
    ensures SameVersions(a, b) <==> forall t :: Served(t) ==> GetResources(a, t) == GetResources(b, t)
  {
  }

  ghost predicate Filled(hash: Hasher, s: Snapshot, t: ResourceType, ms: seq<Message>) {
    GetResources(s, t) == ByName(ms) && GetVersion(s, t) == ContentVersion(hash, GetResources(s, t))
  }

  lemma FillOne(hash: Hasher, s: Snapshot, filled: set<ResourceType>, lists: map<ResourceType, seq<Message>>,
                t: ResourceType)
    requires t in lists && forall u :: u in filled ==> u in lists && Filled(hash, s, u, lists[u])
    ensures forall u :: u in filled + {t} ==> Filled(hash, SetResources(hash, s, t, lists[t]), u, lists[u])
  {
  }

  lemma FilledHolds(hash: Hasher, s: Snapshot, lists: map<ResourceType, seq<Message>>)
    requires forall t :: Served(t) ==> t in lists && Filled(hash, s, t, lists[t])
    ensures forall t, name, m :: Served(t) ==>
              (HoldsUnder(s, t, name, m) <==> exists i: nat :: LastNamed(lists[t], name, m, i))
  {
    forall t, name, m | Served(t)
      ensures HoldsUnder(s, t, name, m) <==> exists i: nat :: LastNamed(lists[t], name, m, i)
    {
      assert Filled(hash, s, t, lists[t]);
      ByNameHolds(lists[t], name, m);
    }
  }

  lemma EveryTypeListed(t: ResourceType)
    requires Served(t)
    ensures exists i :: 0 <= i < |SERVED| && SERVED[i] == t
  {
    match t
    case Endpoint => assert SERVED[0] == t;
    case Cluster => assert SERVED[1] == t;
    case Route => assert SERVED[2] == t;
    case ScopedRoute => assert SERVED[3] == t;
    case Listener => assert SERVED[4] == t;
    case Secret => assert SERVED[5] == t;
    case Runtime => assert SERVED[6] == t;
    case ExtensionConfig => assert SERVED[7] == t;
  }

  class CacheReconciler {
    const hash: Hasher
    const world: World
    var snapshots: map<string, Snapshot>

    constructor (hash: Hasher, world: World)
      ensures this.hash == hash && this.world == world && snapshots == map[]
    {
      this.hash := hash;
      this.world := world;
      snapshots := map[];
    }

    /** Every cached snapshot carries the versions of its own resources. */
    ghost predicate Valid()
      reads this
    {
      forall n :: n in snapshots ==> Versioned(hash, snapshots[n])
    }

    method LoadLists(defs: seq<Resource>) returns (r: Result<map<ResourceType, seq<Message>>, LoadError>)
      ensures r.Err? ==> FirstFailure(world, defs, r.error)
      ensures r.Ok? ==> forall i :: 0 <= i < |defs| ==> !Fails(world, defs[i])
      ensures r.Ok? ==> forall t :: Served(t) ==> t in r.value && r.value[t] == OfType(world, defs, t)
    {
      var lists: map<ResourceType, seq<Message>> := map t | t in SERVED :: [];
      forall t: ResourceType | Served(t) ensures t in lists {
        EveryTypeListed(t);
      }
      for idx := 0 to |defs|
        invariant forall j :: 0 <= j < idx ==> !Fails(world, defs[j])
        invariant Listed(world, defs[..idx], lists)
      {
        var def := defs[idx];
        assert defs[..idx + 1] == defs[..idx] + [def];
        if Served(def.rtype) {
          var loaded := Load(world, def);
          if loaded.Err? {
            return Err(loaded.error);
          }
          OneMore(world, defs[..idx], def, lists);
          lists := lists[def.rtype := lists[def.rtype] + [loaded.value]];
        } else {
          NoneMore(world, defs[..idx], def);
        }
      }
      assert defs[..|defs|] == defs;
      return Ok(lists);
    }

    /** All or nothing: the first definition that fails decides the error, otherwise every type gets its messages. */
    method GenerateSnapshot(defs: seq<Resource>) returns (r: Result<Snapshot, LoadError>)
      ensures r.Err? <==> exists i :: 0 <= i < |defs| && Fails(world, defs[i])
      ensures r.Err? ==> FirstFailure(world, defs, r.error)
      ensures r.Ok? ==> Represents(world, defs, r.value) && Versioned(hash, r.value)
      ensures r.Ok? ==> Serves(world, defs, r.value)
    {
      var loaded := LoadLists(defs);
      if loaded.Err? {
        return Err(loaded.error);
      }
      var snap := Fill(loaded.value);
      RepresentsServes(world, defs, snap);
      return Ok(snap);
    }

    method Fill(lists: map<ResourceType, seq<Message>>) returns (snap: Snapshot)
      requires forall t :: Served(t) ==> t in lists
      ensures Versioned(hash, snap)
      ensures forall t :: Served(t) ==> GetResources(snap, t) == ByName(lists[t])
      ensures forall t, name, m :: Served(t) ==>
                (HoldsUnder(snap, t, name, m) <==> exists i: nat :: LastNamed(lists[t], name, m, i))
    {
      snap := Snapshot(map[], map[]);
      ghost var filled: set<ResourceType> := {};
      for i := 0 to |SERVED|
        invariant forall j :: 0 <= j < i ==> SERVED[j] in filled
        invariant forall t :: t in filled ==> Served(t) && Filled(hash, snap, t, lists[t])
      {
        FillOne(hash, snap, filled, lists, SERVED[i]);
        snap := SetResources(hash, snap, SERVED[i], lists[SERVED[i]]);
        filled := filled + {SERVED[i]};
      }
      forall t | Served(t) ensures Filled(hash, snap, t, lists[t]) {
        EveryTypeListed(t);
      }
      FilledHolds(hash, snap, lists);
    }

    method AreDifferent(a: Snapshot, b: Snapshot) returns (different: bool)
      ensures different <==> !SameVersions(a, b)
    {
      for i := 0 to |SERVED|
        invariant forall j :: 0 <= j < i ==> GetVersion(a, SERVED[j]) == GetVersion(b, SERVED[j])
      {
        if GetVersion(a, SERVED[i]) != GetVersion(b, SERVED[i]) {
          return true;
        }
      }
      forall t | Served(t) ensures GetVersion(a, t) == GetVersion(b, t) {
        EveryTypeListed(t);
      }
      return false;
    }

    /**
     Whether the write happens or is skipped, afterwards the node's cached snapshot holds for each served type
     exactly the messages of the definitions, and the returned versions are the ones being served. On an error
     the cache is as it was; other nodes never change.
     */
    method Reconcile(defs: seq<Resource>, node: string) returns (r: Result<map<ResourceType, string>, LoadError>)
      requires Valid() && Injective(hash)
      modifies this
      ensures Valid()
      ensures forall n :: n != node ==> (n in snapshots <==> n in old(snapshots))
      ensures forall n :: n != node && n in snapshots ==> snapshots[n] == old(snapshots)[n]
      ensures r.Err? <==> exists i :: 0 <= i < |defs| && Fails(world, defs[i])
      ensures r.Err? ==> snapshots == old(snapshots)
      ensures r.Err? ==> FirstFailure(world, defs, r.error)
      ensures r.Ok? ==> node in snapshots && Represents(world, defs, snapshots[node])
      ensures r.Ok? ==> Serves(world, defs, snapshots[node])
      ensures r.Ok? ==> forall t :: Served(t) ==> t in r.value && r.value[t] == GetVersion(snapshots[node], t)
    {
      var generated := GenerateSnapshot(defs);
      if generated.Err? {
        return Err(generated.error);
      }
      var snap := generated.value;
      var different := true;
      if node in snapshots {
        different := AreDifferent(snap, snapshots[node]);
        SameVersionsSameResources(hash, snap, snapshots[node]);
      }
      if different {
        snapshots := snapshots[node := snap];
      }
      forall t | Served(t) ensures t in SERVED {
        EveryTypeListed(t);
      }
      RepresentsServes(world, defs, snapshots[node]);
      return Ok(Tracker(snap));
    }
  }
}
