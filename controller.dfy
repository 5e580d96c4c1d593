/**
  The request handlers of the `/users` resource. Each handler is one call
  to the repository plus the controller's own small decision: defaulting
  the id on create, and mapping a lookup to 200 or 404.
 */
module Controller {
  import opened Wrappers
  import opened Domain
  import opened Repository

  /** The response entity of the handlers that return one. */
  datatype UserResponse = Ok(body: User) | NotFound | OkEmpty {
    /** The HTTP status code. */
    function Status(): int {
      if NotFound? then 404 else 200
    }
  }

  /** A user with its id defaulted: a user without an id gets `randomId`,
      standing for a freshly generated random UUID. */
  function AssignId(user: User, randomId: Uuid): (result: User)
    ensures result.id.Some?
    ensures user.id.Some? ==> result.id == user.id
    ensures user.id.None? ==> result.id == Some(randomId)
    ensures result.name == user.name && result.email == user.email && result.age == user.age
  {
    if user.id.None? then user.(id := Some(randomId)) else user
  }

  /** A present lookup result becomes 200 with that user as body, an
      absent one 404 with no body. */
  function FoundOrNotFound(found: Option<User>): (response: UserResponse)
    ensures response.Status() == (if found.Some? then 200 else 404)
    ensures found.Some? ==> response == Ok(found.value)
    ensures found.None? ==> response == NotFound
  {
    match found
    case Some(user) => Ok(user)
    case None => NotFound
  }

  class UserController {
    const repository: UserRepository

    ghost predicate Valid()
      reads repository
    {
      repository.Valid()
    }

    constructor (repository: UserRepository)
      requires repository.Valid()
      ensures this.repository == repository && Valid()
    {
      this.repository := repository;
    }

    /** GET /users: every stored user, once each, in no particular order. */
    method GetAllUsers() returns (users: seq<User>)
      requires Valid()
      ensures |users| == |repository.rows|
      ensures forall u :: u in users <==> u in repository.rows.Values
      ensures forall i, j :: 0 <= i < j < |users| ==> users[i] != users[j]
    {
      users := repository.FindAll();
    }

    /** GET /users/{id}: 200 with the stored user when there is one under
        `id`, otherwise 404 with no body. */
    method GetUserById(id: Uuid) returns (response: UserResponse)
      requires Valid()
      ensures response.Ok? <==> id in repository.rows
      ensures response.Ok? ==> response.body == repository.rows[id] && response.body.id == Some(id)
      ensures response.Status() == (if id in repository.rows then 200 else 404)
      ensures !response.Ok? ==> response == NotFound
    {
      var found := repository.FindById(id);
      response := FoundOrNotFound(found);
    }

    /** POST /users: saves the user, with a generated id when it has none,
        and returns what was saved. */
    method CreateUser(user: User, randomId: Uuid) returns (saved: User)
      requires Valid()
      modifies repository
      ensures Valid()
      ensures saved == AssignId(user, randomId)
      ensures repository.rows == old(repository.rows)[saved.id.value := saved]
    {
      var withId := AssignId(user, randomId);
      saved := repository.Save(withId);
    }

    /** DELETE /users/{id}: removes the row if there is one and answers 200
        either way. */
    method DeleteUser(id: Uuid) returns (response: UserResponse)
      requires Valid()
      modifies repository
      ensures Valid()
      ensures response == OkEmpty && response.Status() == 200
      ensures repository.rows == old(repository.rows) - {id}
    {
      repository.DeleteById(id);
      response := OkEmpty;
    }
  }

  /* -----------------------------------------------------------------------
     Request sequences that the handlers' contracts settle.
     ----------------------------------------------------------------------- */

  /** A created user is found again under its id, equal in all four fields. */
  method CreateThenGet(controller: UserController, user: User, randomId: Uuid)
    returns (saved: User, response: UserResponse)
    requires controller.Valid()
    modifies controller.repository
    ensures controller.Valid()
    ensures saved == AssignId(user, randomId)
    ensures response == Ok(saved) && response.Status() == 200
  {
    saved := controller.CreateUser(user, randomId);
    response := controller.GetUserById(saved.id.value);
  }

  /** Deleting twice answers 200 both times and leaves the id absent. */
  method DeleteTwice(controller: UserController, id: Uuid)
    returns (first: UserResponse, second: UserResponse, after: UserResponse)
    requires controller.Valid()
    modifies controller.repository
    ensures controller.Valid()
    ensures first.Status() == 200 && second.Status() == 200
    ensures controller.repository.rows == old(controller.repository.rows) - {id}
    ensures after == NotFound && after.Status() == 404
  {
    first := controller.DeleteUser(id);
    second := controller.DeleteUser(id);
    after := controller.GetUserById(id);
  }

  /** Two users created under different ids are both listed afterwards. */
  method CreateTwoThenList(controller: UserController, u1: User, r1: Uuid, u2: User, r2: Uuid)
    returns (users: seq<User>)
    requires controller.Valid()
    requires AssignId(u1, r1).id != AssignId(u2, r2).id
    modifies controller.repository
    ensures controller.Valid()
    ensures AssignId(u1, r1) in users && AssignId(u2, r2) in users
  {
    var saved1 := controller.CreateUser(u1, r1);
    var saved2 := controller.CreateUser(u2, r2);
    assert controller.repository.rows[saved1.id.value] == saved1;
    users := controller.GetAllUsers();
  }
}
