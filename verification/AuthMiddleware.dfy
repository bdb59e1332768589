/** The middleware that expands a query's source ids and keeps a client to the ids it may read. */
module AuthMiddleware {
  import opened Alternatives
  import opened Envelopes
  import opened SourceIdRewriting

  /** An authenticated client: an administrator, or one with the ids it is authorized for. */
  datatype Client = Client(isAdmin: bool, authorized: string -> bool)

  datatype Outcome = BadRequest | NotFound | Forwarded

  ghost function Authorized(ids: seq<string>, c: Client): seq<string> {
    if ids == [] then [] else
    var id := ids[|ids| - 1];
    Authorized(ids[..|ids| - 1], c) + if c.authorized(id) then [id] else []
  }

  method AuthorizeSourceIds(ids: seq<string>, c: Client) returns (r: seq<string>)
    ensures r == Authorized(ids, c)
  {
    r := [];
    for i := 0 to |ids|
      invariant r == Authorized(ids[..i], c)
    {
      assert ids[..i + 1][..i] == ids[..i];
      if c.authorized(ids[i]) {
        r := r + [ids[i]];
      }
    }
    assert ids[..|ids|] == ids;
  }

  /** Exactly the authorized ids of the list survive. */
  lemma {:induction false} AuthorizedMember(ids: seq<string>, c: Client, x: string)
    ensures x in Authorized(ids, c) <==> x in ids && c.authorized(x)
  {
    if ids != [] {
      var k := |ids| - 1;
      AuthorizedMember(ids[..k], c, x);
      assert ids == ids[..k] + [ids[k]];
    }
  }

  /** The ids an id stands for: its related ones and itself. */
  ghost function Related(id: string, related: Expansions): seq<string> {
    (if id in related then related[id] else []) + [id]
  }

  ghost function Granted(id: string, related: Expansions, c: Client): seq<string> {
    if c.isAdmin then Related(id, related) else Authorized(Related(id, related), c)
  }

  /** The id itself, or one that it is translated to. */
  ghost predicate StandsFor(x: string, id: string, related: Expansions) {
    x == id || (id in related && x in related[id])
  }

  /** An administrator may read every id, another client those it is authorized for. */
  ghost predicate MayRead(x: string, c: Client) {
    c.isAdmin || c.authorized(x)
  }

  lemma GrantedMember(id: string, related: Expansions, c: Client, x: string)
    ensures x in Granted(id, related, c) <==> StandsFor(x, id, related) && MayRead(x, c)
  {
    hide Authorized;
    AuthorizedMember(Related(id, related), c, x);
  }

  lemma DeniedIff(ids: set<string>, related: Expansions, c: Client)
    ensures Denied(ids, related, c) <==> exists id :: id in ids && forall x :: StandsFor(x, id, related) ==> !MayRead(x, c)
  {
    hide Granted, StandsFor, MayRead;
    forall id ensures Granted(id, related, c) == [] <==> forall x :: StandsFor(x, id, related) ==> !MayRead(x, c) {
      forall x ensures x in Granted(id, related, c) <==> StandsFor(x, id, related) && MayRead(x, c) {
        GrantedMember(id, related, c, x);
      }
      if Granted(id, related, c) != [] {
        assert Granted(id, related, c)[0] in Granted(id, related, c);
      }
    }
  }

  /** An administrator is granted everything; for another client it is cut down to the authorized ids. */
  lemma GrantedElements(id: string, related: Expansions, c: Client)
    ensures var all := (if id in related then Elements(related[id]) else {}) + {id};
      Elements(Granted(id, related, c)) == if c.isAdmin then all else set x | x in all && c.authorized(x)
  {
    hide Granted;
    var all := (if id in related then Elements(related[id]) else {}) + {id};
    forall x ensures x in Elements(Granted(id, related, c)) <==> x in all && MayRead(x, c) {
      GrantedMember(id, related, c, x);
    }
  }

  /** Nothing is granted for one of the ids. */
  ghost predicate Denied(ids: set<string>, related: Expansions, c: Client) {
    exists id :: id in ids && Granted(id, related, c) == []
  }

  /** The ids dealt with have their grants, and the others still have their related ids. */
  ghost predicate PartlyGranted(sets: Expansions, ids: set<string>, todo: set<string>, related: Expansions, c: Client) {
    && (forall id :: id in ids && id !in todo ==> id in sets && sets[id] == Granted(id, related, c) && sets[id] != [])
    && (forall id :: id in todo ==> (id in sets <==> id in related) && (id in sets ==> sets[id] == related[id]))
  }

  lemma GrantOne(sets: Expansions, ids: set<string>, todo: set<string>, related: Expansions, c: Client, id: string)
    requires PartlyGranted(sets, ids, todo, related, c) && id in todo && Granted(id, related, c) != []
    ensures PartlyGranted(sets[id := Granted(id, related, c)], ids, todo - {id}, related, c)
  {
    hide Granted;
  }

  /** The loop over the extracted ids, in any order: it gives up at the first id with nothing to read. */
  method GrantAll(ids: set<string>, related: Expansions, c: Client) returns (r: Option<Expansions>)
    ensures r.None? <==> Denied(ids, related, c)
    ensures r.Some? ==> forall id :: id in ids ==> id in r.value && r.value[id] == Granted(id, related, c)
    ensures r.Some? && c.isAdmin ==> forall id :: id in ids ==>
      Elements(r.value[id]) == (if id in related then Elements(related[id]) else {}) + {id}
    ensures r.Some? && !c.isAdmin ==> forall id :: id in ids ==>
      Elements(r.value[id]) == set x | x in (if id in related then Elements(related[id]) else {}) + {id} && c.authorized(x)
    ensures r.None? <==> exists id :: id in ids && forall x :: StandsFor(x, id, related) ==> !MayRead(x, c)
  {
    DeniedIff(ids, related, c);
    hide Authorized, StandsFor, MayRead;
    var sets, todo := related, ids;
    while todo != {}
      invariant todo <= ids && PartlyGranted(sets, ids, todo, related, c)
      decreases |todo|
    {
      var id :| id in todo;
      var idSet := (if id in sets then sets[id] else []) + [id];
      assert idSet == Related(id, related);
      if !c.isAdmin {
        idSet := AuthorizeSourceIds(idSet, c);
      }
      assert idSet == Granted(id, related, c);
      if !c.isAdmin && |idSet| == 0 {
        return None;
      }
      GrantOne(sets, ids, todo, related, c, id);
      todo := todo - {id};
      sets := sets[id := idSet];
    }
    forall id | id in ids
      ensures var all := (if id in related then Elements(related[id]) else {}) + {id};
        Elements(sets[id]) == if c.isAdmin then all else set x | x in all && c.authorized(x)
    {
      GrantedElements(id, related, c);
    }
    r := Some(sets);
  }

  /** The client is unknown, the ids cannot be translated, or one of them grants nothing. */
  ghost predicate Refused(ids: set<string>, client: Option<Client>, relate: set<string> -> Option<Expansions>) {
    client.None? || relate(ids).None? || Denied(ids, relate(ids).value, client.value)
  }

  /** One PromQL request. The query is null if it does not parse, the client absent if the token cannot be read. */
  method HandleQuery(hasToken: bool, q: ParsedQuery?, client: Option<Client>, relate: set<string> -> Option<Expansions>)
    returns (outcome: Outcome, ids: set<string>, sets: Expansions)
    requires q != null ==> q.Valid()
    modifies if q != null then {q} else {}
    ensures q != null ==> q.Valid() && (hasToken ==> ids == Ids(old(q.Current())))
    ensures outcome == BadRequest <==> hasToken && (q == null || ids == {})
    ensures outcome == NotFound <==> !hasToken || (q != null && ids != {} && Refused(ids, client, relate))
    ensures outcome == Forwarded ==>
      && q.Current() == Rewrite(old(q.Current()), sets)
      && forall id :: id in ids ==> id in sets && sets[id] == Granted(id, relate(ids).value, client.value)
    ensures q != null && outcome != Forwarded ==> q.Current() == old(q.Current())
    ensures outcome == Forwarded && AllReadable(old(q.Current()), sets) ==> forall x ::
      x in Ids(q.Current()) <==> MayRead(x, client.value) && IsAskedFor(x, ids, relate(ids).value)
  {
    hide Ids, Rewrite, Unshared, Granted, AllReadable, MayRead, IsAskedFor;
    ids, sets := {}, map[];
    if !hasToken {
      return NotFound, ids, sets;
    }
    if q == null {
      return BadRequest, ids, sets;
    }
    ids := q.Extract(q.shape, {});
    if ids == {} {
      return BadRequest, ids, sets;
    }
    if client.None? || relate(ids).None? {
      return NotFound, ids, sets;
    }
    var granted := GrantAll(ids, relate(ids).value, client.value);
    if granted.None? {
      return NotFound, ids, sets;
    }
    sets := granted.value;
    ghost var was := q.Current();
    q.Replace(q.shape, sets);
    outcome := Forwarded;
    if AllReadable(was, sets) { RewrittenNamesExactly(was, sets, relate(ids).value, client.value); }
  }

  ghost predicate IsAskedFor(x: string, ids: set<string>, related: Expansions) {
    exists id :: id in ids && StandsFor(x, id, related)
  }

  /** With readable expansions the rewritten query names exactly what the client may read of what was asked for. */
  lemma RewrittenNamesExactly(q: Query, sets: Expansions, related: Expansions, c: Client)
    requires AllReadable(q, sets)
    requires forall id :: id in Ids(q) ==> id in sets && sets[id] == Granted(id, related, c)
    ensures forall x :: x in Ids(Rewrite(q, sets)) <==> MayRead(x, c) && IsAskedFor(x, Ids(q), related)
  {
    hide Granted, MayRead, StandsFor, AllReadable, Rewrite, Ids;
    RewritingCommutes(q, sets);
    forall id, x | id in Ids(q) ensures x in ExpansionOf(id, sets) <==> MayRead(x, c) && StandsFor(x, id, related) {
      GrantedMember(id, related, c, x);
    }
  }

  /** For an administrator: exactly the ids asked for and the ones they are translated to. */
  lemma AdministratorNamesAllRelated(q: Query, sets: Expansions, related: Expansions, c: Client)
    requires c.isAdmin && AllReadable(q, sets)
    requires forall id :: id in Ids(q) ==> id in sets && sets[id] == Granted(id, related, c)
    ensures forall x :: x in Ids(Rewrite(q, sets)) <==>
      exists id :: id in Ids(q) && (x == id || (id in related && x in related[id]))
  {
    hide Granted, AllReadable, Rewrite, Ids;
    RewrittenNamesExactly(q, sets, related, c);
  }

  /**
   For every query of a client that is not an administrator whose expansions can be read back: the rewritten
   query names exactly the authorized ids among those related to an id it asked for.
   */
  lemma RewrittenNamesOnlyAuthorized(q: Query, sets: Expansions, related: Expansions, c: Client)
    requires !c.isAdmin && AllReadable(q, sets)
    requires forall id :: id in Ids(q) ==> id in sets && sets[id] == Granted(id, related, c)
    ensures forall x :: x in Ids(Rewrite(q, sets)) <==>
      c.authorized(x) && exists id :: id in Ids(q) && x in Related(id, related)
  {
    RewritingCommutes(q, sets);
    forall id, x | id in Ids(q) ensures x in ExpansionOf(id, sets) <==> c.authorized(x) && x in Related(id, related) {
      AuthorizedMember(Related(id, related), c, x);
    }
  }

  /** Expansions can be read back in particular when no authorized id contains a bar and none is empty. */
  lemma BarFreeGrantsAreReadable(q: Query, sets: Expansions, related: Expansions, c: Client)
    requires !c.isAdmin && forall x :: c.authorized(x) ==> '|' !in x
    requires forall id :: id in Ids(q) ==> id in sets && sets[id] == Granted(id, related, c) && sets[id] != []
    ensures AllReadable(q, sets)
  {
    forall id | id in Ids(q) ensures BarFree(sets[id]) {
      forall i | 0 <= i < |sets[id]| ensures '|' !in sets[id][i] {
        AuthorizedMember(Related(id, related), c, sets[id][i]);
      }
    }
    PlainIsReadable(q, sets);
  }

  // ---------- exactly when a rewritten query names only authorized ids ----------

  /** What a matcher is granted: the list that is joined into it. */
  ghost function GrantList(m: Matcher, sets: Expansions): seq<string> {
    if m.name != "source_id" then [] else
    match m.kind
    case Equal => if m.value in sets then sets[m.value] else [m.value]
    case Regexp => ExpandAll(Split(m.value), sets)
    case _ => []
  }

  /** One id is kept as it is; of several, each piece between bars has to be authorized. */
  ghost predicate Safe(xs: seq<string>, c: Client) {
    |xs| > 1 ==> forall i, p :: 0 <= i < |xs| && p in Split(xs[i]) ==> c.authorized(p)
  }

  ghost predicate AllSafe(q: Query, sets: Expansions, c: Client) {
    match q
    case Selector(_, _, ms) => forall i :: 0 <= i < |ms| ==> Safe(GrantList(ms[i], sets), c)
    case Node(_, cs) => forall i :: 0 <= i < |cs| ==> AllSafe(cs[i], sets, c)
  }

  ghost predicate AllAuthorized(ids: set<string>, c: Client) {
    forall x :: x in ids ==> c.authorized(x)
  }

  /** Every id is granted something, and only authorized ids. */
  ghost predicate WellGranted(ids: set<string>, sets: Expansions, c: Client) {
    forall id :: id in ids ==> id in sets && sets[id] != [] && AllAuthorized(Elements(sets[id]), c)
  }

  lemma {:induction false} ExpandAllGranted(ids: seq<string>, sets: Expansions, c: Client)
    requires WellGranted(Elements(ids), sets, c)
    ensures AllAuthorized(Elements(ExpandAll(ids, sets)), c) && (ids != [] ==> ExpandAll(ids, sets) != [])
  {
    if ids != [] {
      var k := |ids| - 1;
      assert ids[k] in Elements(ids);
      assert forall x :: x in Elements(ids[..k]) ==> x in Elements(ids);
      ExpandAllGranted(ids[..k], sets, c);
      assert forall x :: x in sets[ids[k]] ==> x in Elements(sets[ids[k]]);
      assert forall x :: x in ExpandAll(ids[..k], sets) ==> x in Elements(ExpandAll(ids[..k], sets));
    }
  }

  lemma JoinedAuthorizedIff(xs: seq<string>, c: Client)
    requires xs != [] && AllAuthorized(Elements(xs), c)
    ensures AllAuthorized(MatcherIds(Joined("source_id", xs)), c) <==> Safe(xs, c)
  {
    var ids := MatcherIds(Joined("source_id", xs));
    if |xs| == 1 {
      assert xs[0] in Elements(xs) && ids == {xs[0]};
    } else {
      forall p ensures p in ids <==> exists i :: 0 <= i < |xs| && p in Split(xs[i]) {
        PieceOfJoin(xs, p);
      }
    }
  }

  lemma MatcherAuthorizedIff(m: Matcher, sets: Expansions, c: Client)
    requires WellGranted(MatcherIds(m), sets, c)
    ensures AllAuthorized(MatcherIds(RewriteMatcher(m, sets)), c) <==> Safe(GrantList(m, sets), c)
  {
    hide Joined, Safe;
    if m.name == "source_id" && m.kind.Equal? {
      assert m.value in MatcherIds(m);
      JoinedAuthorizedIff(sets[m.value], c);
    } else if m.name == "source_id" && m.kind.Regexp? {
      ExpandAllGranted(Split(m.value), sets, c);
      JoinedAuthorizedIff(ExpandAll(Split(m.value), sets), c);
    } else {
      NothingIsSafe(m, sets, c);
    }
  }

  lemma NothingIsSafe(m: Matcher, sets: Expansions, c: Client)
    requires m.name != "source_id" || m.kind.NotEqual? || m.kind.NotRegexp?
    ensures Safe(GrantList(m, sets), c) && RewriteMatcher(m, sets) == m && MatcherIds(m) == {}
  {
  }

  lemma ListAuthorizedIff(ms: seq<Matcher>, sets: Expansions, c: Client)
    requires WellGranted(ListIds(ms), sets, c)
    ensures AllAuthorized(ListIds(RewriteList(ms, sets)), c) <==>
      forall i :: 0 <= i < |ms| ==> Safe(GrantList(ms[i], sets), c)
  {
    hide Safe, GrantList, RewriteMatcher;
    var rs := RewriteList(ms, sets);
    forall i | 0 <= i < |ms| ensures AllAuthorized(MatcherIds(rs[i]), c) <==> Safe(GrantList(ms[i], sets), c) {
      assert forall x :: x in MatcherIds(ms[i]) ==> x in ListIds(ms);
      MatcherAuthorizedIff(ms[i], sets, c);
    }
    assert forall i, x :: 0 <= i < |rs| && x in MatcherIds(rs[i]) ==> x in ListIds(rs);
  }

  /** For every query whose ids were granted authorized ids: the rewritten one names only such ids exactly if it is safe. */
  lemma {:induction false} NamesOnlyAuthorizedIff(q: Query, sets: Expansions, c: Client)
    requires WellGranted(Ids(q), sets, c)
    ensures AllAuthorized(Ids(Rewrite(q, sets)), c) <==> AllSafe(q, sets, c)
  {
    match q
    case Selector(_, _, ms) => ListAuthorizedIff(ms, sets, c);
    case Node(_, cs) =>
      var r := Rewrite(q, sets);
      forall i | 0 <= i < |cs| ensures AllAuthorized(Ids(r.children[i]), c) <==> AllSafe(cs[i], sets, c) {
        assert forall x :: x in Ids(cs[i]) ==> x in Ids(q);
        NamesOnlyAuthorizedIff(cs[i], sets, c);
      }
      assert forall i, x :: 0 <= i < |r.children| && x in Ids(r.children[i]) ==> x in Ids(r);
  }

  /** What the middleware's loop leaves for a client that is not an administrator. */
  lemma GrantsAreWellGranted(ids: set<string>, sets: Expansions, related: Expansions, c: Client)
    requires !c.isAdmin && !Denied(ids, related, c)
    requires forall id :: id in ids ==> id in sets && sets[id] == Granted(id, related, c)
    ensures WellGranted(ids, sets, c)
  {
    forall id, x | id in ids && x in sets[id] ensures c.authorized(x) {
      AuthorizedMember(Related(id, related), c, x);
    }
  }

  /** A client authorized for "x|y" and "z", and a query whose id expands to both: the rewritten query names x and y. */
  lemma PieceIsNamed(c: Client)
    requires !c.isAdmin && forall x :: c.authorized(x) <==> x == "x|y" || x == "z" || x == "a"
    ensures var related := map["a" := ["x|y", "z"]];
      var sets := map["a" := Granted("a", related, c)];
      var q := OneSelector(Matcher(Equal, "source_id", "a"));
      WellGranted(Ids(q), sets, c) && !AllAuthorized(Ids(Rewrite(q, sets)), c)
  {
    hide Split, Join, Authorized, Rewrite;
    var related := map["a" := ["x|y", "z"]];
    var xs := ["x|y", "z", "a"];
    var sets := map["a" := xs];
    var m := Matcher(Equal, "source_id", "a");
    assert Related("a", related) == xs;
    AllOfThem(xs, c);
    OneSelectorIds(m, sets);
    OneSelectorIds(RewriteMatcher(m, sets), sets);
    FirstPiece();
    assert "x" in Split(xs[0]);
    PieceOfJoin(xs, "x");
    assert "x" in MatcherIds(RewriteMatcher(m, sets));
  }

  lemma FirstPiece()
    ensures "x" in Split("x|y")
  {
    SplitConcat("x", "y");
    SplitPiece("x");
    assert "x" + "|" + "y" == "x|y";
  }

  lemma {:induction false} AllOfThem(xs: seq<string>, c: Client)
    requires forall i :: 0 <= i < |xs| ==> c.authorized(xs[i])
    ensures Authorized(xs, c) == xs
  {
    if xs != [] {
      var k := |xs| - 1;
      AllOfThem(xs[..k], c);
      assert Authorized(xs, c) == Authorized(xs[..k], c) + [xs[k]];
      hide Authorized;
      assert xs == xs[..k] + [xs[k]];
    }
  }

  type Meta = map<SourceId, MetaInfo>

  /** The report reduced to the sources a client may read. */
  method OnlyAuthorized(meta: Meta, isAdmin: bool, available: seq<SourceId>) returns (r: Meta)
    ensures isAdmin ==> r == meta
    ensures !isAdmin ==> forall id :: id in r <==> id in meta && id in available
    ensures forall id :: id in r ==> id in meta && r[id] == meta[id]
  {
    if isAdmin {
      return meta;
    }
    r := map[];
    for i := 0 to |available|
      invariant forall id :: id in r <==> id in meta && id in available[..i]
      invariant forall id :: id in r ==> r[id] == meta[id]
    {
      if available[i] in meta {
        r := r[available[i] := meta[available[i]]];
      }
    }
  }
}
