/** The service's process-wide directory (`PEOPLE`) as an object whose map
    the create, update and delete handlers change in place. The read-only
    handlers are the functions `ListAll`, `GetOne` and `Authenticate` of its
    `people` field. */
module Store {
  import opened Users
  import opened Handlers

  class Directory {
    var people: People

    /** Every record stays filed under its own login. */
    ghost predicate Valid()
      reads this
    {
      WellFormed(people)
    }

    /** The directory as the service starts: maria, ana and joao. */
    constructor (tMaria: Timestamp, tAna: Timestamp, tJoao: Timestamp)
      ensures Valid()
      ensures people == Seed(tMaria, tAna, tJoao)
    {
      people := map[
        "maria" := Record("maria", Some("123"), tMaria),
        "ana" := Record("ana", Some("123"), tAna),
        "joao" := Record("joao", Some("123"), tJoao)
      ];
    }

    /** POST /api/usuarios. */
    method Create(body: Body, now: Timestamp) returns (r: Reply)
      requires Valid()
      modifies this
      ensures Valid()
      ensures Step(r, people) == CreateStep(old(people), body, now)
    {
      match body
      case Rejected(message) =>
        r := Reply(BAD_REQUEST, Message(message));
      case Parsed(login, password) =>
        if login !in people {
          people := people[login := Record(login, password, now)];
          r := Reply(CREATED, Message(CreatedMessage(login)));
        } else {
          r := Reply(NOT_ACCEPTABLE, Message(ConflictMessage(login)));
        }
    }

    /** PUT /api/usuarios/<login>. */
    method Update(login: string, body: Body, now: Timestamp) returns (r: Reply)
      requires Valid()
      modifies this
      ensures Valid()
      ensures Step(r, people) == UpdateStep(old(people), login, body, now)
    {
      if login in people {
        match body
        case Rejected(message) =>
          r := Reply(BAD_REQUEST, Message(message));
        case Parsed(_, password) =>
          people := people[login := people[login].(password := password)];
          people := people[login := people[login].(timestamp := now)];
          r := Reply(OK, One(people[login]));
      } else {
        r := Reply(NOT_FOUND, Message(NotFoundMessage(login)));
      }
    }

    /** DELETE /api/usuarios/<login>. */
    method Delete(login: string) returns (r: Reply)
      requires Valid()
      modifies this
      ensures Valid()
      ensures Step(r, people) == DeleteStep(old(people), login)
    {
      if login in people {
        people := people - {login};
        r := Reply(NO_CONTENT, Message(DeletedMessage(login)));
      } else {
        r := Reply(NOT_FOUND, Message(NotFoundMessage(login)));
      }
    }
  }

  /** A session against the starting directory, using only the contracts
      above: read maria, fail to create her again, authenticate her with the
      right and a wrong password, miss carlos, delete ana and miss her. */
  method SeedSession(t0: Timestamp, t1: Timestamp, t2: Timestamp, now: Timestamp)
  {
    var d := new Directory(t0, t1, t2);
    assert GetOne(d.people, "maria") == Reply(OK, One(Record("maria", Some("123"), t0)));
    var r := d.Create(Parsed("maria", Some("x")), now);
    assert r == Reply(NOT_ACCEPTABLE, Message(ConflictMessage("maria")));
    assert Authenticate(d.people, Parsed("maria", Some("123"))).status == ACCEPTED;
    assert "x" != "123";
    assert Authenticate(d.people, Parsed("maria", Some("x")))
      == Reply(UNAUTHORIZED, Message(WrongPasswordMessage("maria")));
    assert "carlos" != "maria" && "carlos" != "ana" && "carlos" != "joao";
    assert GetOne(d.people, "carlos").status == NOT_FOUND;
    r := d.Delete("ana");
    assert r.status == NO_CONTENT;
    assert GetOne(d.people, "ana") == Reply(NOT_FOUND, Message(NotFoundMessage("ana")));
  }
}
