/** Assigning controllers to the four ports: preferences claim the best matching controller for each
    configured port, and a new controller takes a free port. Controllers are visited in the order of the
    controller map, whatever it is. */
module PortAssignment {
  const PORTS := 4

  /** What identifies a controller; 0 stands for an empty GUID or serial, or an unknown vendor or product. */
  datatype Identity = Identity(guid: nat, serial: nat, vendor: nat, product: nat)

  datatype Preference = Unset | NoController | Preferred(identity: Identity)

  datatype Match = NoMatch | Fallback | Exact

  /** `forgets` controllers lose the index the input library is given; the cached copy stands in. */
  datatype Controller = Controller(instance: nat, identity: Identity, forgets: bool, player: int, cached: int)

  predicate SerialMatches(saved: nat, current: nat) { saved != 0 && current != 0 && saved == current }

  function IdentityMatch(saved: Identity, current: Identity): Match {
    if saved.guid == 0 then NoMatch
    else if saved.guid == current.guid then
      if saved.serial == 0 || SerialMatches(saved.serial, current.serial) then Exact else NoMatch
    else if !SerialMatches(saved.serial, current.serial) then NoMatch
    else if
      && saved.vendor != 0 && saved.vendor == current.vendor
      && saved.product != 0 && saved.product == current.product
    then Fallback
    else NoMatch
  }

  /** A saved serial must be the controller's own. With the saved GUID that is an exact match; with another
      one the vendor and product must also be the saved ones, and none of the four may be blank. */
  lemma MatchExactly(saved: Identity, current: Identity)
    ensures IdentityMatch(saved, current) == Exact <==>
              saved.guid != 0 && saved.guid == current.guid && saved.serial in {0, current.serial}
    ensures IdentityMatch(saved, current) == Fallback <==>
              && current == saved.(guid := current.guid) && current.guid != saved.guid
              && 0 !in {saved.guid, saved.serial, saved.vendor, saved.product}
    ensures IdentityMatch(saved, saved) == Exact <==> saved.guid != 0
  {
  }

  function Effective(c: Controller): int { if c.player >= 0 then c.player else c.cached }

  function Assigned(c: Controller, port: int): Controller {
    c.(player := if c.forgets then -1 else port, cached := port)
  }

  predicate Configured(preferences: seq<Preference>, player: int) {
    0 <= player < |preferences| && preferences[player] != Unset
  }

  /** A controller once its index on a configured port has been taken away. */
  function Released(preferences: seq<Preference>, c: Controller): Controller {
    if Configured(preferences, Effective(c)) then Assigned(c, -1) else c
  }

  // ---- Claims ----

  /** `claims[p]` is the controller port `p` claimed, or -1. */
  type Claims = seq<int>

  predicate Free(claims: Claims, port: nat, i: nat) {
    forall p :: 0 <= p < |claims| && p < port ==> claims[p] != i
  }

  function MatchAt(before: seq<Controller>, preferences: seq<Preference>, port: nat, i: nat): Match
    requires i < |before| && port < |preferences|
  {
    match preferences[port]
    case Preferred(identity) => IdentityMatch(identity, before[i].identity)
    case _ => NoMatch
  }

  /** At its turn a port gets the first free exact match; without one, the first free fallback; and nothing
      only if no free controller matches at all. */
  predicate Best(before: seq<Controller>, preferences: seq<Preference>, claims: Claims, port: nat, i: int)
    requires port < |preferences|
  {
    if i < 0 then i == -1 && forall j :: 0 <= j < |before| && Free(claims, port, j) ==>
                               MatchAt(before, preferences, port, j) == NoMatch
    else
      && i < |before| && Free(claims, port, i)
      && (match MatchAt(before, preferences, port, i)
          case NoMatch => false
          case Exact =>
            forall j :: 0 <= j < i && Free(claims, port, j) ==> MatchAt(before, preferences, port, j) != Exact
          case Fallback =>
            && (forall j :: 0 <= j < |before| && Free(claims, port, j) ==>
                  MatchAt(before, preferences, port, j) != Exact)
            && (forall j :: 0 <= j < i && Free(claims, port, j) ==>
                  MatchAt(before, preferences, port, j) == NoMatch))
  }

  /** The controllers once some ports have claimed theirs. */
  predicate Follows(before: seq<Controller>, preferences: seq<Preference>, claims: Claims, after: seq<Controller>)
    requires |claims| <= |preferences|
  {
    && |after| == |before|
    && (forall p :: 0 <= p < |claims| ==> -1 <= claims[p] < |before|)
    && (forall p :: 0 <= p < |claims| && claims[p] >= 0 ==> after[claims[p]] == Assigned(before[claims[p]], p))
    && (forall i :: 0 <= i < |before| && Free(claims, |claims|, i) ==> after[i] == Released(preferences, before[i]))
  }

  predicate AllBest(before: seq<Controller>, preferences: seq<Preference>, claims: Claims)
    requires |claims| <= |preferences|
  {
    forall p :: 0 <= p < |claims| ==> Best(before, preferences, claims, p, claims[p])
  }

  predicate DistinctInstances(s: seq<Controller>) {
    forall i, j :: 0 <= i < j < |s| ==> s[i].instance != s[j].instance
  }

  /** No two controllers on one port. */
  predicate Injective(s: seq<Controller>) {
    forall i, j :: 0 <= i < j < |s| && Effective(s[i]) >= 0 ==> Effective(s[i]) != Effective(s[j])
  }

  /** Another controller sits on the port. */
  predicate Taken(s: seq<Controller>, n: nat, port: int) {
    exists i :: 0 <= i < |s| && i != n && Effective(s[i]) == port
  }

  /** A port this controller must not be put on: another one sits there, or it is to be left out. */
  predicate Unavailable(s: seq<Controller>, preferences: seq<Preference>, n: nat, port: int, skipConfigured: bool) {
    Taken(s, n, port) || (skipConfigured && Configured(preferences, port))
  }

  predicate LowestFree(s: seq<Controller>, preferences: seq<Preference>, n: nat, port: int, skipConfigured: bool) {
    && 0 <= port < PORTS && !Unavailable(s, preferences, n, port, skipConfigured)
    && forall lower :: 0 <= lower < port ==> Unavailable(s, preferences, n, lower, skipConfigured)
  }

  predicate NoneFree(s: seq<Controller>, preferences: seq<Preference>, n: nat, skipConfigured: bool) {
    forall port :: 0 <= port < PORTS ==> Unavailable(s, preferences, n, port, skipConfigured)
  }

  /** There is one lowest free port among the four, or there is none. */
  lemma LowestFreeExactly(s: seq<Controller>, preferences: seq<Preference>, n: nat, skipConfigured: bool)
    returns (port: int)
    ensures NoneFree(s, preferences, n, skipConfigured) <==>
              forall p :: 0 <= p < 4 ==> Unavailable(s, preferences, n, p, skipConfigured)
    ensures port < 0 <==> NoneFree(s, preferences, n, skipConfigured)
    ensures port >= 0 ==> !Unavailable(s, preferences, n, port, skipConfigured)
    ensures forall p :: LowestFree(s, preferences, n, p, skipConfigured) <==> 0 <= port < 4 && p == port
  {
    port := 0;
    while port < 4 && Unavailable(s, preferences, n, port, skipConfigured)
      invariant 0 <= port <= 4
      invariant forall p :: 0 <= p < port ==> Unavailable(s, preferences, n, p, skipConfigured)
    {
      port := port + 1;
    }
    port := if port == 4 then -1 else port;
  }

  class Input {
    const preferences: seq<Preference>
    const controllers: array<Controller>

    predicate Valid()
      reads this, controllers
    {
      |preferences| == PORTS && DistinctInstances(controllers[..])
    }

    constructor (saved: seq<Preference>, connected: array<Controller>)
      requires |saved| == PORTS && DistinctInstances(connected[..])
      ensures Valid() && preferences == saved && controllers == connected
    {
      preferences, controllers := saved, connected;
    }

    /** Takes every configured port away from whoever sits on it. */
    method ReleaseConfigured()
      requires Valid()
      modifies controllers
      ensures Follows(old(controllers[..]), preferences, [], controllers[..])
    {
      for n := 0 to controllers.Length
        invariant forall i :: 0 <= i < n ==> controllers[i] == Released(preferences, old(controllers[i]))
        invariant forall i :: n <= i < controllers.Length ==> controllers[i] == old(controllers[i])
      {
        var player := Effective(controllers[n]);
        if player >= 0 && player < PORTS && preferences[player] != Unset {
          controllers[n] := Assigned(controllers[n], -1);
        }
      }
    }

    /** The controller one port claims; -1 for none. */
    method Choose(port: nat, claimed: seq<nat>, ghost before: seq<Controller>, ghost claims: Claims)
      returns (chosen: int)
      requires Valid() && port < PORTS && preferences[port].Preferred? && |claims| == port
      requires |before| == controllers.Length
      requires forall i :: 0 <= i < |before| ==>
                 controllers[i].identity == before[i].identity && controllers[i].instance == before[i].instance
      requires Claimed(before, claims, claimed)
      ensures Best(before, preferences, claims, port, chosen)
    {
      var fallback := -1;
      for n := 0 to controllers.Length
        invariant -1 <= fallback < n
        invariant forall j :: 0 <= j < n && Free(claims, port, j) ==> MatchAt(before, preferences, port, j) != Exact
        invariant fallback < 0 ==>
                    forall j :: 0 <= j < n && Free(claims, port, j) ==> MatchAt(before, preferences, port, j) == NoMatch
        invariant fallback >= 0 ==>
                    Free(claims, port, fallback) && MatchAt(before, preferences, port, fallback) == Fallback
        invariant forall j :: 0 <= j < fallback && Free(claims, port, j) ==>
                    MatchAt(before, preferences, port, j) == NoMatch
      {
        if controllers[n].instance in claimed {
          continue;
        }
        match IdentityMatch(preferences[port].identity, controllers[n].identity) {
          case Exact =>
            return n;
          case Fallback =>
            if fallback < 0 {
              fallback := n;
            }
          case NoMatch =>
        }
      }
      return fallback;
    }

    method AnyPreference() returns (some: bool)
      ensures some <==> exists q :: 0 <= q < |preferences| && preferences[q] != Unset
    {
      some := false;
      for p := 0 to |preferences|
        invariant some <==> exists q :: 0 <= q < p && preferences[q] != Unset
      {
        some := some || preferences[p] != Unset;
      }
    }

    method ApplyPortPreferences() returns (ghost claims: Claims)
      requires Valid()
      modifies controllers
      ensures Valid()
      ensures (forall p :: 0 <= p < PORTS ==> preferences[p] == Unset) ==> controllers[..] == old(controllers[..])
      ensures |claims| == PORTS && Follows(old(controllers[..]), preferences, claims, controllers[..])
      ensures AllBest(old(controllers[..]), preferences, claims)
    {
      claims := [-1, -1, -1, -1];
      var some := AnyPreference();
      if !some {
        assert forall i :: 0 <= i < controllers.Length ==> Released(preferences, controllers[i]) == controllers[i];
        return;
      }
      ghost var before := controllers[..];
      ReleaseConfigured();
      var claimed: seq<nat> := [];
      claims := [];
      for port := 0 to PORTS
        invariant |claims| == port && Follows(before, preferences, claims, controllers[..])
        invariant AllBest(before, preferences, claims)
        invariant Claimed(before, claims, claimed)
        invariant SameControllers(before, controllers[..])
      {
        var chosen := -1;
        if preferences[port].Preferred? {
          chosen := Choose(port, claimed, before, claims);
        }
        NextClaim(before, preferences, claims, controllers[..], chosen);
        ClaimedGrows(before, claims, claimed, chosen);
        if chosen >= 0 {
          claimed := claimed + [controllers[chosen].instance];
          controllers[chosen] := Assigned(controllers[chosen], port);
        }
        claims := claims + [chosen];
      }
    }

    /** Puts a controller on the lowest free port, if there is one; configured ports may be left out. */
    method ClaimFreePort(n: nat, skipConfigured: bool) returns (claimed: bool)
      requires Valid() && n < controllers.Length
      modifies controllers
      ensures Valid() && forall i :: 0 <= i < controllers.Length && i != n ==> controllers[i] == old(controllers[i])
      ensures claimed ==>
                && LowestFree(old(controllers[..]), preferences, n, controllers[n].cached, skipConfigured)
                && controllers[n] == Assigned(old(controllers[n]), controllers[n].cached)
      ensures !claimed ==>
                && NoneFree(old(controllers[..]), preferences, n, skipConfigured)
                && controllers[..] == old(controllers[..])
    {
      for port := 0 to PORTS
        invariant forall i :: 0 <= i < controllers.Length ==> controllers[i] == old(controllers[i])
        invariant forall p :: 0 <= p < port ==> Unavailable(controllers[..], preferences, n, p, skipConfigured)
      {
        assert controllers[..] == old(controllers[..]);
        if skipConfigured && preferences[port] != Unset {
          continue;
        }
        if !Taken(controllers[..], n, port) {
          controllers[n] := Assigned(controllers[n], port);
          return true;
        }
      }
      assert controllers[..] == old(controllers[..]);
      return false;
    }

    /** Gives a controller without an index a port of its own: the lowest free one that is not configured; when
        there is none, the lowest free one at all; and none only when all four are taken. */
    method EnsurePlayerIndex(n: nat)
      requires Valid() && n < controllers.Length
      modifies controllers
      ensures Valid() && forall i :: 0 <= i < controllers.Length && i != n ==> controllers[i] == old(controllers[i])
      ensures old(Effective(controllers[n])) >= 0 ==> Effective(controllers[n]) == old(Effective(controllers[n]))
      ensures Injective(old(controllers[..])) ==> Injective(controllers[..])
      ensures old(Effective(controllers[n])) < 0 ==>
                var before, port := old(controllers[..]), Effective(controllers[n]);
                || LowestFree(before, preferences, n, port, true)
                || (NoneFree(before, preferences, n, true) && LowestFree(before, preferences, n, port, false))
                || (NoneFree(before, preferences, n, false) && controllers[n] == old(controllers[n]))
    {
      var player := controllers[n].player;
      if player >= 0 {
        controllers[n] := controllers[n].(cached := player);
        return;
      }
      if controllers[n].cached >= 0 {
        return;
      }
      var claimed := ClaimFreePort(n, true);
      if !claimed {
        claimed := ClaimFreePort(n, false);
      }
    }
  }

  /** The list of claimed instances names exactly the claimed controllers. */
  predicate Claimed(before: seq<Controller>, claims: Claims, claimed: seq<nat>) {
    forall i :: 0 <= i < |before| ==> (before[i].instance in claimed <==> !Free(claims, |claims|, i))
  }

  lemma ClaimedGrows(before: seq<Controller>, claims: Claims, claimed: seq<nat>, chosen: int)
    requires DistinctInstances(before) && Claimed(before, claims, claimed) && chosen < |before|
    ensures Claimed(before, claims + [chosen], if chosen < 0 then claimed else claimed + [before[chosen].instance])
  {
    forall i | 0 <= i < |before|
      ensures before[i].instance in (if chosen < 0 then claimed else claimed + [before[chosen].instance]) <==>
              !Free(claims + [chosen], |claims| + 1, i)
    {
      FreeMore(claims, chosen, i);
    }
  }

  predicate SameControllers(before: seq<Controller>, after: seq<Controller>) {
    && |after| == |before|
    && forall i :: 0 <= i < |before| ==>
         after[i] == before[i].(player := after[i].player, cached := after[i].cached)
  }

  lemma NextClaim(before: seq<Controller>, preferences: seq<Preference>, claims: Claims, now: seq<Controller>,
                  chosen: int)
    requires |claims| < |preferences| && Follows(before, preferences, claims, now) && SameControllers(before, now)
    requires AllBest(before, preferences, claims) && Best(before, preferences, claims, |claims|, chosen)
    ensures AllBest(before, preferences, claims + [chosen])
    ensures var after := if chosen < 0 then now else now[chosen := Assigned(now[chosen], |claims|)];
            Follows(before, preferences, claims + [chosen], after) && SameControllers(before, after)
  {
    var more := claims + [chosen];
    forall p | 0 <= p < |claims| ensures Best(before, preferences, more, p, more[p]) {
      forall i: nat { FreeSame(claims, chosen, p, i); }
      assert Best(before, preferences, claims, p, claims[p]);
    }
    forall i: nat { FreeSame(claims, chosen, |claims|, i); }
    forall i: nat { FreeMore(claims, chosen, i); }
  }

  lemma FreeSame(claims: Claims, chosen: int, port: nat, i: nat)
    requires port <= |claims|
    ensures Free(claims + [chosen], port, i) <==> Free(claims, port, i)
  {
    var more := claims + [chosen];
    assert forall p :: 0 <= p < port ==> more[p] == claims[p];
  }

  lemma FreeMore(claims: Claims, chosen: int, i: nat)
    ensures Free(claims + [chosen], |claims| + 1, i) <==> Free(claims, |claims|, i) && i != chosen
  {
    var more := claims + [chosen];
    assert forall p :: 0 <= p < |claims| ==> more[p] == claims[p];
    assert more[|claims|] == chosen;
  }

  // ---- What the assignment guarantees ----

  /** Who ends up where: on a configured port only the controller that claimed it, elsewhere only a
      controller that was there before. */
  lemma WhoSitsWhere(before: seq<Controller>, preferences: seq<Preference>, claims: Claims, after: seq<Controller>,
                     i: nat)
    requires |claims| == |preferences| && Follows(before, preferences, claims, after)
    requires AllBest(before, preferences, claims) && i < |after|
    ensures var port := Effective(after[i]);
            && (Configured(preferences, port) ==> preferences[port].Preferred? && claims[port] == i)
            && (port >= 0 && !Configured(preferences, port) ==> Effective(before[i]) == port)
  {
    if !Free(claims, |claims|, i) {
      var p :| 0 <= p < |claims| && claims[p] == i;
      assert Best(before, preferences, claims, p, claims[p]);
      assert Effective(after[i]) == p;
    }
  }

  /** A controller on a port has it by the port's preference. */
  predicate Belongs(preference: Preference, before: Controller, after: Controller) {
    match preference
    case Unset => Effective(after) == Effective(before)
    case NoController => false
    case Preferred(identity) => IdentityMatch(identity, before.identity) != NoMatch
  }

  /** The assignment keeps the ports injective. On a port without a preference sits only who was there before, on
      a "no controller" port nobody, on any other a controller that matches. Who is not claimed stays where no
      preference is, and loses any other port. */
  lemma AssignmentIsSound(before: seq<Controller>, preferences: seq<Preference>, claims: Claims, after: seq<Controller>)
    requires |claims| == |preferences| && Follows(before, preferences, claims, after)
    requires AllBest(before, preferences, claims) && Injective(before)
    ensures Injective(after)
    ensures forall i :: 0 <= i < |after| && 0 <= Effective(after[i]) < |preferences| ==>
              Belongs(preferences[Effective(after[i])], before[i], after[i])
    ensures forall i :: 0 <= i < |after| && i !in claims ==>
              if 0 <= Effective(before[i]) < |preferences| && preferences[Effective(before[i])] != Unset
              then Effective(after[i]) < 0 else after[i] == before[i]
  {
    forall i, j | 0 <= i < j < |after| && Effective(after[i]) >= 0 ensures Effective(after[i]) != Effective(after[j]) {
      WhoSitsWhere(before, preferences, claims, after, i);
      WhoSitsWhere(before, preferences, claims, after, j);
    }
    forall i | 0 <= i < |after| && 0 <= Effective(after[i]) < |preferences|
      ensures Belongs(preferences[Effective(after[i])], before[i], after[i])
    {
      WhoSitsWhere(before, preferences, claims, after, i);
      var port := Effective(after[i]);
      assert Best(before, preferences, claims, port, claims[port]);
    }
    forall i | 0 <= i < |after| && i !in claims
      ensures Free(claims, |claims|, i) && after[i] == Released(preferences, before[i])
    {
    }
  }

  lemma SameMatches(before: seq<Controller>, after: seq<Controller>, preferences: seq<Preference>, claims: Claims,
                    p: nat, x: int, y: int)
    requires p < |preferences| && |before| == |after|
    requires forall i :: 0 <= i < |before| ==> after[i].identity == before[i].identity
    requires Best(before, preferences, claims, p, x) && Best(after, preferences, claims, p, y)
    ensures x == y
  {
    assert forall i :: 0 <= i < |before| ==>
             MatchAt(after, preferences, p, i) == MatchAt(before, preferences, p, i);
  }

  /** The claims depend on nothing but the identities: two assignments that give every port its best are the
      same claim for claim, whoever held which port before. */
  lemma {:induction false} ClaimsAreUnique(before: seq<Controller>, after: seq<Controller>,
                                           preferences: seq<Preference>, c: Claims, d: Claims, n: nat)
    requires n <= |c| == |d| <= |preferences| && |before| == |after|
    requires forall i :: 0 <= i < |before| ==> after[i].identity == before[i].identity
    requires AllBest(before, preferences, c) && AllBest(after, preferences, d)
    ensures c[..n] == d[..n]
  {
    if n == 0 {
    } else {
      var p := n - 1;
      ClaimsAreUnique(before, after, preferences, c, d, p);
      assert Best(before, preferences, c, p, c[p]) && Best(after, preferences, d, p, d[p]);
      forall i: nat ensures Free(d, p, i) <==> Free(c, p, i) {
        SameFree(c, d, p, i);
      }
      assert Best(after, preferences, c, p, d[p]);
      SameMatches(before, after, preferences, c, p, c[p], d[p]);
      assert c[..n] == c[..p] + [c[p]] && d[..n] == d[..p] + [d[p]];
    }
  }

  lemma SameFree(c: Claims, d: Claims, port: nat, i: nat)
    requires port <= |c| == |d| && c[..port] == d[..port]
    ensures Free(d, port, i) <==> Free(c, port, i)
  {
    assert forall p :: 0 <= p < port ==> c[p] == c[..port][p] && d[p] == d[..port][p];
  }

  /** Applying the same preferences again changes nothing. */
  lemma ReapplyingChangesNothing(before: seq<Controller>, preferences: seq<Preference>, claims: Claims,
                                 after: seq<Controller>, again: Claims, final: seq<Controller>)
    requires |claims| == |again| == |preferences|
    requires Follows(before, preferences, claims, after) && AllBest(before, preferences, claims)
    requires Follows(after, preferences, again, final) && AllBest(after, preferences, again)
    ensures again == claims && final == after
  {
    var n := |claims|;
    forall i | 0 <= i < |before| ensures after[i].identity == before[i].identity {
      if !Free(claims, n, i) {
        var p :| 0 <= p < n && claims[p] == i;
      }
    }
    ClaimsAreUnique(before, after, preferences, claims, again, n);
    assert claims[..n] == claims && again[..n] == again;
    forall i | 0 <= i < |after| ensures final[i] == after[i] {
      if !Free(claims, n, i) {
        var p :| 0 <= p < n && claims[p] == i;
        assert final[claims[p]] == Assigned(after[claims[p]], p) && after[claims[p]] == Assigned(before[claims[p]], p);
      } else {
        assert after[i] == Released(preferences, before[i]) && final[i] == Released(preferences, after[i]);
      }
    }
  }
}
