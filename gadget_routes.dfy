/**
  The gadget router: GET /, POST /, PATCH /:id, DELETE /:id and
  POST /:id/self-destruct, as methods on an in-memory gadget table.

  Each handler returns a `Reply` (HTTP status code and JSON body). The
  authentication middleware is a boolean `authenticated`; whether the
  persistence client's call succeeds is a boolean `storeUp` (a thrown call
  is caught by the handler and answered with 500). `new Date()` is the
  injected `now`, and `Math.random()` the injected draws.
*/
module GadgetRoutes {

  import opened Wrappers
  import opened GadgetHelpers

  type Id = nat

  /** Milliseconds since the epoch. */
  type Timestamp = nat

  /** A stored gadget row. */
  datatype Gadget = Gadget(id: Id, name: string, status: string, decommissionedAt: Option<Timestamp>)

  /** A listed gadget: the stored row and its `successProbability` decoration. */
  datatype GadgetView = GadgetView(gadget: Gadget, successProbability: int)

  datatype Body =
    | GadgetList(views: seq<GadgetView>)
    | GadgetRecord(gadget: Gadget)
    | SelfDestructStarted(message: string, confirmationCode: int)
    | ErrorMessage(error: string)
    | Unauthorized

  datatype Reply = Reply(code: nat, body: Body)

  const NotAuthenticated := Reply(401, Unauthorized)

  /** Ids of a table are pairwise distinct. */
  ghost predicate DistinctIds(rows: seq<Gadget>) {
    forall i, j :: 0 <= i < j < |rows| ==> rows[i].id != rows[j].id
  }

  // ---------------------------------------------------------------------
  // GET /: the `where` clause and the decoration
  // ---------------------------------------------------------------------

  /** A query `status` is a filter exactly when it is truthy: present and not "". */
  predicate IsFilter(status: Option<string>)
    ensures status.None? || status == Some("") ==> !IsFilter(status)
    ensures status.Some? && status.value != "" ==> IsFilter(status)
  {
    status.Some? && status.value != ""
  }

  /** `findMany({ where: { status: s } })`: the rows whose status is exactly s, in table order. */
  function WithStatus(rows: seq<Gadget>, s: string): (r: seq<Gadget>)
    ensures |r| <= |rows|
    ensures forall g :: g in r <==> g in rows && g.status == s
  {
    if rows == [] then []
    else if rows[0].status == s then [rows[0]] + WithStatus(rows[1..], s)
    else WithStatus(rows[1..], s)
  }

  /** Filtering a concatenation filters each part and keeps their order. */
  lemma {:induction false} WithStatusAppend(a: seq<Gadget>, b: seq<Gadget>, s: string)
    ensures WithStatus(a + b, s) == WithStatus(a, s) + WithStatus(b, s)
  {
    if a == [] {
      assert a + b == b;
    } else {
      assert (a + b)[1..] == a[1..] + b;
      WithStatusAppend(a[1..], b, s);
    }
  }

  /** With no row of that status the result is empty; with all rows of it, the whole table. */
  lemma {:induction false} WithStatusAllOrNone(rows: seq<Gadget>, s: string)
    ensures (forall g :: g in rows ==> g.status == s) ==> WithStatus(rows, s) == rows
    ensures (forall g :: g in rows ==> g.status != s) ==> WithStatus(rows, s) == []
  {
    if rows != [] {
      assert forall g :: g in rows[1..] ==> g in rows;
      WithStatusAllOrNone(rows[1..], s);
      if forall g :: g in rows ==> g.status == s {
        assert rows == [rows[0]] + rows[1..];
      }
    }
  }

  /** `where: status ? { status } : {}`. */
  function FindMany(rows: seq<Gadget>, status: Option<string>): (r: seq<Gadget>)
    ensures !IsFilter(status) ==> r == rows
    ensures IsFilter(status) ==> forall g :: g in r <==> g in rows && g.status == status.value
  {
    if IsFilter(status) then WithStatus(rows, status.value) else rows
  }

  /** `gadgets.map(g => ({ ...g, successProbability: getRandomProbability() }))`, the i-th gadget using the i-th draw. */
  function Decorate(gadgets: seq<Gadget>, draws: nat -> Draw): (views: seq<GadgetView>)
    ensures |views| == |gadgets|
    ensures forall i :: 0 <= i < |views| ==>
      views[i].gadget == gadgets[i] && 0 <= views[i].successProbability <= 100
  {
    var views := seq(|gadgets|, i requires 0 <= i < |gadgets| => GadgetView(gadgets[i], RandomProbability(draws(i))));
    assert forall i :: 0 <= i < |views| ==> views[i].successProbability == RandomProbability(draws(i));
    views
  }

  // ---------------------------------------------------------------------
  // PATCH /:id and DELETE /:id: the row changes
  // ---------------------------------------------------------------------

  /** `update({ where: { id } })`'s lookup: the position of the row with that id. */
  function IndexOf(rows: seq<Gadget>, id: Id): (r: Option<nat>)
    ensures r.Some? ==> r.value < |rows| && rows[r.value].id == id
    ensures r.None? <==> forall g :: g in rows ==> g.id != id
  {
    if rows == [] then None
    else if rows[0].id == id then Some(0)
    else match IndexOf(rows[1..], id)
      case None => None
      case Some(k) => Some(k + 1)
  }

  /**
    `data: { name, status }` with either field possibly undefined. The
    persistence client skips an undefined field: it keeps its stored value.
  */
  function Patch(g: Gadget, name: Option<string>, status: Option<string>): (g': Gadget)
    ensures g'.id == g.id && g'.decommissionedAt == g.decommissionedAt
    ensures name.None? ==> g'.name == g.name
    ensures status.None? ==> g'.status == g.status
    ensures name.Some? ==> g'.name == name.value
    ensures status.Some? ==> g'.status == status.value
  {
    var g1 := if name.Some? then g.(name := name.value) else g;
    if status.Some? then g1.(status := status.value) else g1
  }

  lemma PatchNothing(g: Gadget)
    ensures Patch(g, None, None) == g
  {
  }

  lemma PatchIdempotent(g: Gadget, name: Option<string>, status: Option<string>)
    ensures Patch(Patch(g, name, status), name, status) == Patch(g, name, status)
  {
  }

  /** `data: { status: "Decommissioned", decommissionedAt: new Date() }`. */
  function Decommissioned(g: Gadget, now: Timestamp): (g': Gadget)
    ensures g'.id == g.id && g'.name == g.name
    ensures g'.status == "Decommissioned" && g'.decommissionedAt == Some(now)
  {
    g.(status := "Decommissioned", decommissionedAt := Some(now))
  }

  /** Decommissioning again is allowed and leaves only the later timestamp. */
  lemma DecommissionedTwice(g: Gadget, t1: Timestamp, t2: Timestamp)
    ensures Decommissioned(Decommissioned(g, t1), t2) == Decommissioned(g, t2)
    ensures Decommissioned(Decommissioned(g, t1), t2).status == "Decommissioned"
  {
  }

  /**
    No transition guard: a PATCH may re-activate a decommissioned gadget, and
    its decommission timestamp then stays behind.
  */
  lemma ReactivationKeepsTimestamp(g: Gadget, now: Timestamp, s: string)
    ensures Patch(Decommissioned(g, now), None, Some(s)).status == s
    ensures Patch(Decommissioned(g, now), None, Some(s)).decommissionedAt == Some(now)
  {
  }

  /** Replacing the row at a position by one with the same id keeps ids distinct. */
  lemma {:induction false} ReplaceKeepsDistinctIds(rows: seq<Gadget>, i: nat, g: Gadget)
    requires DistinctIds(rows) && i < |rows| && g.id == rows[i].id
    ensures DistinctIds(rows[i := g])
  {
    var rows' := rows[i := g];
    forall a, b | 0 <= a < b < |rows'| ensures rows'[a].id != rows'[b].id {
      assert rows'[a].id == rows[a].id && rows'[b].id == rows[b].id;
    }
  }

  // ---------------------------------------------------------------------
  // The store and the route handlers
  // ---------------------------------------------------------------------

  class GadgetStore {
    /** The gadget table, in the order `findMany` returns it. */
    var rows: seq<Gadget>
    /** The id the next created row receives. */
    var nextId: Id

    ghost predicate Valid()
      reads this
    {
      DistinctIds(rows) && forall g :: g in rows ==> g.id < nextId
    }

    constructor ()
      ensures Valid() && rows == [] && nextId == 0
    {
      rows := [];
      nextId := 0;
    }

    /** GET /gadgets?status= */
    method List(authenticated: bool, storeUp: bool, status: Option<string>, draws: nat -> Draw)
      returns (reply: Reply)
      requires Valid()
      ensures !authenticated ==> reply == NotAuthenticated
      // a truthy filter that is not exactly a valid status is refused before the store is read
      ensures authenticated && IsFilter(status) && !IsValidStatus(status.value) ==>
        reply == Reply(400, ErrorMessage("Invalid status value"))
      ensures authenticated && (!IsFilter(status) || IsValidStatus(status.value)) && !storeUp ==>
        reply == Reply(500, ErrorMessage("Failed to retrieve gadgets"))
      ensures authenticated && (!IsFilter(status) || IsValidStatus(status.value)) && storeUp ==>
        reply == Reply(200, GadgetList(Decorate(FindMany(rows, status), draws)))
      // what a successful listing holds
      ensures reply.code == 200 ==> reply.body.GadgetList?
      ensures reply.code == 200 && !IsFilter(status) ==>
        |reply.body.views| == |rows| &&
        forall i :: 0 <= i < |rows| ==> reply.body.views[i].gadget == rows[i]
      ensures reply.code == 200 && IsFilter(status) ==>
        (forall v :: v in reply.body.views ==> v.gadget in rows && v.gadget.status == status.value) &&
        (forall g :: g in rows && g.status == status.value ==> exists v :: v in reply.body.views && v.gadget == g)
      ensures reply.code == 200 ==>
        forall v :: v in reply.body.views ==> 0 <= v.successProbability <= 100
    {
      if !authenticated {
        return NotAuthenticated;
      }
      if IsFilter(status) && !IsValidStatus(status.value) {
        return Reply(400, ErrorMessage("Invalid status value"));
      }
      if !storeUp {
        return Reply(500, ErrorMessage("Failed to retrieve gadgets"));
      }
      var gadgets := FindMany(rows, status);
      var views := Decorate(gadgets, draws);
      reply := Reply(200, GadgetList(views));
      if IsFilter(status) {
        forall g | g in rows && g.status == status.value
          ensures exists v :: v in views && v.gadget == g
        {
          var k :| 0 <= k < |gadgets| && gadgets[k] == g;
          assert views[k] in views;
        }
      }
    }

    /** POST /gadgets with body `{ status }`: the status is stored as given, unchecked. */
    method Create(authenticated: bool, storeUp: bool, status: string, r: Draw) returns (reply: Reply)
      requires Valid()
      modifies this
      ensures Valid()
      ensures !authenticated ==> reply == NotAuthenticated
      ensures authenticated && !storeUp ==> reply == Reply(500, ErrorMessage("failed to create gadget"))
      ensures !(authenticated && storeUp) ==> rows == old(rows) && nextId == old(nextId)
      ensures authenticated && storeUp ==>
        var g := Gadget(old(nextId), RandomCodename(r), status, None);
        && rows == old(rows) + [g]
        && nextId == old(nextId) + 1
        && reply == Reply(200, GadgetRecord(g))
        && g.name in Codenames
        && forall h :: h in old(rows) ==> h.id != g.id
    {
      if !authenticated {
        return NotAuthenticated;
      }
      if !storeUp {
        return Reply(500, ErrorMessage("failed to create gadget"));
      }
      var g := Gadget(nextId, RandomCodename(r), status, None);
      rows := rows + [g];
      nextId := nextId + 1;
      reply := Reply(200, GadgetRecord(g));
    }

    /** PATCH /gadgets/:id with body `{ name?, status? }`; an unknown id is a generic failure. */
    method Update(authenticated: bool, storeUp: bool, id: Id, name: Option<string>, status: Option<string>)
      returns (reply: Reply)
      requires Valid()
      modifies this
      ensures Valid() && nextId == old(nextId)
      ensures !authenticated ==> reply == NotAuthenticated
      ensures authenticated && (!storeUp || IndexOf(old(rows), id).None?) ==>
        reply == Reply(500, ErrorMessage("Failed to update gadget"))
      ensures !(authenticated && storeUp && IndexOf(old(rows), id).Some?) ==> rows == old(rows)
      ensures authenticated && storeUp && IndexOf(old(rows), id).Some? ==>
        var i := IndexOf(old(rows), id).value;
        && rows == old(rows)[i := Patch(old(rows)[i], name, status)]
        && reply == Reply(200, GadgetRecord(rows[i]))
    {
      if !authenticated {
        return NotAuthenticated;
      }
      var found := IndexOf(rows, id);
      if !storeUp || found.None? {
        return Reply(500, ErrorMessage("Failed to update gadget"));
      }
      var i := found.value;
      var g := Patch(rows[i], name, status);
      ReplaceKeepsDistinctIds(rows, i, g);
      rows := rows[i := g];
      reply := Reply(200, GadgetRecord(g));
    }

    /** DELETE /gadgets/:id: forces the status and stamps the time, whatever the prior status. */
    method Decommission(authenticated: bool, storeUp: bool, id: Id, now: Timestamp) returns (reply: Reply)
      requires Valid()
      modifies this
      ensures Valid() && nextId == old(nextId)
      ensures !authenticated ==> reply == NotAuthenticated
      ensures authenticated && (!storeUp || IndexOf(old(rows), id).None?) ==>
        reply == Reply(500, ErrorMessage("Failed to decommission gadget"))
      ensures !(authenticated && storeUp && IndexOf(old(rows), id).Some?) ==> rows == old(rows)
      ensures authenticated && storeUp && IndexOf(old(rows), id).Some? ==>
        var i := IndexOf(old(rows), id).value;
        && rows == old(rows)[i := Decommissioned(old(rows)[i], now)]
        && reply == Reply(200, GadgetRecord(rows[i]))
        && IndexOf(rows, id) == Some(i)
    {
      if !authenticated {
        return NotAuthenticated;
      }
      var found := IndexOf(rows, id);
      if !storeUp || found.None? {
        return Reply(500, ErrorMessage("Failed to decommission gadget"));
      }
      var i := found.value;
      var g := Decommissioned(rows[i], now);
      ReplaceKeepsDistinctIds(rows, i, g);
      rows := rows[i := g];
      reply := Reply(200, GadgetRecord(g));
      IndexOfDistinct(rows, i);
    }

    /**
      POST /gadgets/:id/self-destruct: no authentication gate and no store
      access; the id is not looked up.
    */
    method SelfDestruct(id: Id, r: Draw) returns (reply: Reply)
      ensures reply.code == 200 && reply.body.SelfDestructStarted?
      ensures reply.body.message == "Self-destruct sequence initiated"
      ensures 100000 <= reply.body.confirmationCode <= 999999
      ensures DigitCount(reply.body.confirmationCode) == 6
    {
      ConfirmationCodeHasSixDigits(r);
      reply := Reply(200, SelfDestructStarted("Self-destruct sequence initiated", ConfirmationCode(r)));
    }
  }

  /** In a table with distinct ids, the lookup of a row's id finds that row. */
  lemma {:induction false} IndexOfDistinct(rows: seq<Gadget>, i: nat)
    requires DistinctIds(rows) && i < |rows|
    ensures IndexOf(rows, rows[i].id) == Some(i)
  {
    if i > 0 {
      assert rows[0].id != rows[i].id;
      assert DistinctIds(rows[1..]) by {
        forall a, b | 0 <= a < b < |rows[1..]| ensures rows[1..][a].id != rows[1..][b].id {
          assert rows[1..][a] == rows[a + 1] && rows[1..][b] == rows[b + 1];
        }
      }
      IndexOfDistinct(rows[1..], i - 1);
    }
  }

}
