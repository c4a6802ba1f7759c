/**
  Client-side walk-throughs over fresh stores: what a caller can conclude
  from the handlers' contracts alone.
*/
module Scenarios {

  import opened Wrappers
  import opened GadgetHelpers
  import opened GadgetRoutes
  import opened AuthRoutes

  /**
    Sign up, log in, list with no filter, create an "Available" gadget and
    decommission it twice. The token from login authenticates the gadget
    requests (the middleware is the `authenticated` flag).
  */
  method SignupLoginAndGadgetLifecycle(config: AuthConfig, username: string, password: string, salt: nat,
                                       now: Seconds, r: Draw, draws: nat -> Draw, t1: Timestamp, t2: Timestamp)
    returns (signup: AuthRoutes.Reply, login: AuthRoutes.Reply, listed: GadgetRoutes.Reply,
             created: GadgetRoutes.Reply, first: GadgetRoutes.Reply, second: GadgetRoutes.Reply)
    requires Sound(config.hasher) && config.secret != ""
    ensures signup.code == 201
    ensures login.code == 200 && login.body.TokenIssued? && login.body.token.exp == now + 3600
    ensures listed.code == 200 && listed.body == GadgetList([])
    ensures created.code == 200 && created.body.GadgetRecord?
    ensures created.body.gadget.name in Codenames && created.body.gadget.status == "Available"
    ensures created.body.gadget.decommissionedAt == None
    ensures first.code == 200 && first.body.GadgetRecord?
    ensures first.body.gadget.status == "Decommissioned" && first.body.gadget.decommissionedAt == Some(t1)
    ensures second.code == 200 && second.body.GadgetRecord?
    ensures second.body.gadget.status == "Decommissioned" && second.body.gadget.decommissionedAt == Some(t2)
    ensures second.body.gadget.name == created.body.gadget.name
  {
    var userStore := new UserStore(config);
    signup := userStore.Signup(true, username, password, salt);
    assert userStore.users == [User(0, username, config.hasher.hash(password, salt))];
    SignupThenLogin([], config, 0, username, password, salt, now);
    login := Login(userStore.users, config, true, username, password, now);

    var gadgets := new GadgetStore();
    listed := gadgets.List(true, true, None, draws);
    assert Decorate([], draws) == [];
    created := gadgets.Create(true, true, "Available", r);
    var id := created.body.gadget.id;
    assert IndexOf(gadgets.rows, id) == Some(0);
    first := gadgets.Decommission(true, true, id, t1);
    second := gadgets.Decommission(true, true, id, t2);
  }

  /** A wrong-case filter is refused whatever the table holds; an unauthenticated request never reaches it. */
  method FilterCaseMatters(store: GadgetStore, storeUp: bool, draws: nat -> Draw)
    returns (lower: GadgetRoutes.Reply, anonymous: GadgetRoutes.Reply)
    requires store.Valid()
    ensures lower == GadgetRoutes.Reply(400, GadgetRoutes.ErrorMessage("Invalid status value"))
    ensures anonymous.code == 401
  {
    IsValidStatusCaseSensitive();
    lower := store.List(true, storeUp, Some("available"), draws);
    anonymous := store.List(false, storeUp, Some("Available"), draws);
  }

  /** Two self-destruct requests are independent: each yields a six-digit code and the table is untouched. */
  method SelfDestructTwice(store: GadgetStore, id: Id, r1: Draw, r2: Draw)
    returns (a: GadgetRoutes.Reply, b: GadgetRoutes.Reply)
    ensures a.code == 200 && b.code == 200 && a.body.SelfDestructStarted? && b.body.SelfDestructStarted?
    ensures 100000 <= a.body.confirmationCode <= 999999 && 100000 <= b.body.confirmationCode <= 999999
    ensures store.rows == old(store.rows)
  {
    a := store.SelfDestruct(id, r1);
    b := store.SelfDestruct(id, r2);
  }

}
