/** The request validation and defaulting in front of the store's read. */
module LocalStoreReaders {
  import opened Envelopes
  import opened Traversal

  datatype ReadRequest = ReadRequest(
    sourceId: SourceId,
    startTime: int,
    endTime: int,
    limit: int,
    envelopeTypes: seq<EnvelopeType>,
    nameFilter: string,
    descending: bool)

  /** A regular expression either compiles to a predicate on names or does not compile. */
  type Compiler = string -> Option<string -> bool>

  /** The requests a reader rejects. */
  predicate Rejected(req: ReadRequest, compile: Compiler) {
    || (req.endTime != 0 && req.startTime > req.endTime)
    || req.limit > 1000
    || req.limit < 0
    || (req.nameFilter != "" && compile(req.nameFilter).None?)
  }

  /** The requested types without the wildcard; asking for nothing else means any type. */
  ghost function NamedTypes(types: seq<EnvelopeType>): seq<EnvelopeType> {
    if types == [] then [] else
    var n := |types| - 1;
    NamedTypes(types[..n]) + if types[n] != ANY then [types[n]] else []
  }

  method ToQuery(req: ReadRequest, now: int, compile: Compiler) returns (r: Result<Query>)
    ensures r.Err? <==> Rejected(req, compile)
    ensures r.Err? <==>
      || (req.endTime != 0 && req.startTime > req.endTime)
      || req.limit < 0 || req.limit > 1000
      || (req.nameFilter != "" && compile(req.nameFilter).None?)
    ensures r.Ok? ==>
      && 1 <= r.value.limit <= 1000 && r.value.limit == (if req.limit == 0 then 100 else req.limit)
      && r.value.start == req.startTime && r.value.end == (if req.endTime == 0 then now else req.endTime)
      && r.value.descending == req.descending
      && r.value.name == (if req.nameFilter == "" then None else compile(req.nameFilter))
      && r.value.types == (if NamedTypes(req.envelopeTypes) == [] then None else Some(NamedTypes(req.envelopeTypes)))
    ensures r.Ok? ==> forall e :: Wanted(e, r.value.types) <==> AskedFor(e, req.envelopeTypes)
  {
    hide NamedTypes, Wanted, AskedFor;
    if req.endTime != 0 && req.startTime > req.endTime {
      return Err("StartTime must be before EndTime");
    }
    if req.limit > 1000 {
      return Err("Limit must be 1000 or less");
    }
    if req.limit < 0 {
      return Err("Limit must be greater than zero");
    }
    var end := if req.endTime == 0 then now else req.endTime;
    var limit := if req.limit == 0 then 100 else req.limit;
    var name: Option<string -> bool> := None;
    if req.nameFilter != "" {
      name := compile(req.nameFilter);
      if name.None? {
        return Err("Name filter must be a valid regular expression");
      }
    }
    var types := [];
    NoTypes();
    for i := 0 to |req.envelopeTypes|
      invariant types == NamedTypes(req.envelopeTypes[..i])
    {
      NamedTypesMore(req.envelopeTypes, i);
      if req.envelopeTypes[i] != ANY {
        types := types + [req.envelopeTypes[i]];
      }
    }
    assert req.envelopeTypes[..|req.envelopeTypes|] == req.envelopeTypes;
    forall e ensures Wanted(e, if types == [] then None else Some(types)) <==> AskedFor(e, req.envelopeTypes) {
      WantedIff(req.envelopeTypes, e);
    }
    r := Ok(Query(req.startTime, end, if types == [] then None else Some(types), name, limit, req.descending));
  }

  /** The payload's own type is asked for, or nothing but the wildcard is. */
  ghost predicate AskedFor(e: Envelope, types: seq<EnvelopeType>) {
    || (forall t :: t in types ==> t == ANY)
    || (e.message.Log? && LOG in types) || (e.message.Counter? && COUNTER in types)
    || (e.message.Gauge? && GAUGE in types) || (e.message.Timer? && TIMER in types)
    || (e.message.Event? && EVENT in types)
  }

  lemma WantedIff(types: seq<EnvelopeType>, e: Envelope)
    ensures var named := NamedTypes(types);
      Wanted(e, if named == [] then None else Some(named)) <==> AskedFor(e, types)
  {
    hide NamedTypes;
    var named := NamedTypes(types);
    forall t ensures t in named <==> t in types && t != ANY { NamedTypesMember(types, t); }
    if named != [] { assert named[0] in types; }
  }

  lemma NoTypes()
    ensures NamedTypes([]) == []
  {
  }

  lemma NamedTypesMore(types: seq<EnvelopeType>, i: nat)
    requires i < |types|
    ensures NamedTypes(types[..i + 1]) == NamedTypes(types[..i]) + if types[i] != ANY then [types[i]] else []
  {
    assert types[..i + 1][..i] == types[..i];
  }

  lemma {:induction false} NamedTypesMember(types: seq<EnvelopeType>, t: EnvelopeType)
    ensures t in NamedTypes(types) <==> t in types && t != ANY
  {
    if types != [] {
      var n := |types| - 1;
      NamedTypesMember(types[..n], t);
      assert types == types[..n] + [types[n]];
    }
  }

  /** The type filter the store sees admits an envelope exactly when a named type does, or when none is named. */
  lemma TypesAdmitIff(types: seq<EnvelopeType>, e: Envelope)
    ensures var named := NamedTypes(types);
      ValidEnvelopeType(e, if named == [] then None else Some(named)) <==>
        (forall t :: t in types ==> t == ANY) || exists t :: t in types && t != ANY && HasType(e, t)
  {
    var named := NamedTypes(types);
    forall t ensures t in named <==> t in types && t != ANY { NamedTypesMember(types, t); }
    if named == [] {
      assert forall t :: t in types ==> t == ANY;
    } else {
      assert named[0] in named;
      if i :| 0 <= i < |named| && HasType(e, named[i]) {
        assert named[i] in named;
      }
      if t :| t in types && t != ANY && HasType(e, t) {
        var i :| 0 <= i < |named| && named[i] == t;
      }
    }
  }
}
