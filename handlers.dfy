/** The six request handlers of the user service as functions of the
    directory: the three that only read it give a reply, the three that
    change it give a reply together with the directory afterwards. Each step
    is one check of key presence followed by one action. */
module Handlers {
  import opened Users
  import opened Lexicographic

  /** The reply of a handler and the directory it leaves behind. */
  datatype Step = Step(reply: Reply, people: People)

  /** The directory the service starts with; the three timestamps are the
      three clock readings taken while it is built. */
  function Seed(tMaria: Timestamp, tAna: Timestamp, tJoao: Timestamp): (people: People)
    ensures people.Keys == {"maria", "ana", "joao"}
    ensures WellFormed(people)
    ensures forall k :: k in people ==> people[k].password == Some("123")
  {
    map[
      "maria" := Record("maria", Some("123"), tMaria),
      "ana" := Record("ana", Some("123"), tAna),
      "joao" := Record("joao", Some("123"), tJoao)
    ]
  }

  /** `recs` lists the directory: ascending by login, each entry the record
      filed under its login, and every record of the directory present. */
  ghost predicate Listing(people: People, recs: seq<Record>) {
    && (forall i, j :: 0 <= i < j < |recs| ==> Less(recs[i].login, recs[j].login))
    && (forall i :: 0 <= i < |recs| ==> recs[i].login in people && people[recs[i].login] == recs[i])
    && (forall k :: k in people ==> people[k] in recs)
  }

  /** GET /api/usuarios: every record, ordered by its key. */
  function ListAll(people: People): (r: Reply)
    ensures r.status == OK && r.payload.Many?
    ensures |r.payload.records| == |people|
    ensures WellFormed(people) ==> Listing(people, r.payload.records)
  {
    var keys := SortedKeys(people.Keys);
    var recs := seq(|keys|, i requires 0 <= i < |keys| => people[keys[i]]);
    assert |people.Keys| == |people|;
    RecordsInKeyOrder(people, keys, recs);
    Reply(OK, Many(recs))
  }

  lemma RecordsInKeyOrder(people: People, keys: seq<string>, recs: seq<Record>)
    requires StrictlyAscending(keys)
    requires forall k :: k in keys <==> k in people
    requires |recs| == |keys|
    requires forall i :: 0 <= i < |keys| ==> recs[i] == people[keys[i]]
    ensures WellFormed(people) ==> Listing(people, recs)
  {
    if WellFormed(people) {
      forall i | 0 <= i < |recs|
        ensures recs[i].login == keys[i]
      {
        assert keys[i] in people;
      }
      forall k | k in people
        ensures people[k] in recs
      {
        var i :| 0 <= i < |keys| && keys[i] == k;
        assert recs[i] == people[k];
      }
    }
  }

  /** There is only one listing of a directory, so the ordering above pins the
      reply down completely. */
  lemma {:induction false} ListingUnique(people: People, a: seq<Record>, b: seq<Record>)
    requires WellFormed(people)
    requires Listing(people, a) && Listing(people, b)
    ensures a == b
  {
    var la := seq(|a|, i requires 0 <= i < |a| => a[i].login);
    var lb := seq(|b|, i requires 0 <= i < |b| => b[i].login);
    forall k
      ensures k in la <==> k in lb
    {
      if k in la {
        var i :| 0 <= i < |la| && la[i] == k;
        assert people[k] in b;
        var j :| 0 <= j < |b| && b[j] == people[k];
        assert lb[j] == k;
      }
      if k in lb {
        var j :| 0 <= j < |lb| && lb[j] == k;
        assert people[k] in a;
        var i :| 0 <= i < |a| && a[i] == people[k];
        assert la[i] == k;
      }
    }
    AscendingUnique(la, lb);
    assert |a| == |b|;
    forall i | 0 <= i < |a|
      ensures a[i] == b[i]
    {
      assert la[i] == lb[i];
    }
  }

  /** GET /api/usuarios/<login>. */
  function GetOne(people: People, login: string): (r: Reply)
    ensures r.status == OK <==> login in people
    ensures login in people ==> r.payload == One(people[login])
    ensures login !in people ==> r == Reply(NOT_FOUND, Message(NotFoundMessage(login)))
  {
    if login in people then Reply(OK, One(people[login]))
    else Reply(NOT_FOUND, Message(NotFoundMessage(login)))
  }

  /** POST /api/usuarios: the body is validated first; a new login is filed
      with the body's password and the current time, a known one is refused. */
  function CreateStep(people: People, body: Body, now: Timestamp): (s: Step)
    ensures s.reply.status == CREATED <==> body.Parsed? && body.login !in people
    ensures body.Rejected? ==> s == Step(Reply(BAD_REQUEST, Message(body.message)), people)
    ensures body.Parsed? && body.login in people ==>
      s == Step(Reply(NOT_ACCEPTABLE, Message(ConflictMessage(body.login))), people)
    ensures body.Parsed? && body.login !in people ==>
      && s.reply == Reply(CREATED, Message(CreatedMessage(body.login)))
      && s.people.Keys == people.Keys + {body.login}
      && s.people[body.login] == Record(body.login, body.password, now)
      && (forall k :: k in people ==> s.people[k] == people[k])
    ensures WellFormed(people) ==> WellFormed(s.people)
  {
    match body
    case Rejected(message) => Step(Reply(BAD_REQUEST, Message(message)), people)
    case Parsed(login, password) =>
      if login !in people then
        Step(Reply(CREATED, Message(CreatedMessage(login))), people[login := Record(login, password, now)])
      else
        Step(Reply(NOT_ACCEPTABLE, Message(ConflictMessage(login))), people)
  }

  /** PUT /api/usuarios/<login>: presence is checked before the body is
      validated; only the password and the timestamp of the record change. */
  function UpdateStep(people: People, login: string, body: Body, now: Timestamp): (s: Step)
    ensures s.reply.status == OK <==> login in people && body.Parsed?
    ensures login !in people ==> s == Step(Reply(NOT_FOUND, Message(NotFoundMessage(login))), people)
    ensures login in people && body.Rejected? ==>
      s == Step(Reply(BAD_REQUEST, Message(body.message)), people)
    ensures login in people && body.Parsed? ==>
      && s.people.Keys == people.Keys
      && s.people[login] == Record(people[login].login, body.password, now)
      && (forall k :: k in people && k != login ==> s.people[k] == people[k])
      && s.reply == Reply(OK, One(s.people[login]))
    ensures WellFormed(people) ==> WellFormed(s.people)
  {
    if login in people then
      match body
      case Rejected(message) => Step(Reply(BAD_REQUEST, Message(message)), people)
      case Parsed(_, password) =>
        var updated := people[login].(password := password, timestamp := now);
        Step(Reply(OK, One(updated)), people[login := updated])
    else
      Step(Reply(NOT_FOUND, Message(NotFoundMessage(login))), people)
  }

  /** DELETE /api/usuarios/<login>: the record goes, the others stay. */
  function DeleteStep(people: People, login: string): (s: Step)
    ensures s.reply.status == NO_CONTENT <==> login in people
    ensures login in people ==>
      && s.reply == Reply(NO_CONTENT, Message(DeletedMessage(login)))
      && s.people.Keys == people.Keys - {login}
      && (forall k :: k in s.people ==> s.people[k] == people[k])
    ensures login !in people ==> s == Step(Reply(NOT_FOUND, Message(NotFoundMessage(login))), people)
    ensures WellFormed(people) ==> WellFormed(s.people)
  {
    if login in people then
      Step(Reply(NO_CONTENT, Message(DeletedMessage(login))), people - {login})
    else
      Step(Reply(NOT_FOUND, Message(NotFoundMessage(login))), people)
  }

  /** POST /api/auth: the body's password must equal the stored one exactly
      (both may be absent); the two refusals carry different messages. */
  function Authenticate(people: People, body: Body): (r: Reply)
    ensures r.status == ACCEPTED <==>
      body.Parsed? && body.login in people && people[body.login].password == body.password
    ensures r.status == ACCEPTED ==> r.payload == Message(AuthenticatedMessage(body.login))
    ensures body.Rejected? ==> r == Reply(BAD_REQUEST, Message(body.message))
    ensures body.Parsed? && body.login in people && people[body.login].password != body.password ==>
      r == Reply(UNAUTHORIZED, Message(WrongPasswordMessage(body.login)))
    ensures body.Parsed? && body.login !in people ==>
      r == Reply(UNAUTHORIZED, Message(UnknownLoginMessage(body.login)))
  {
    match body
    case Rejected(message) => Reply(BAD_REQUEST, Message(message))
    case Parsed(login, password) =>
      if login in people then
        if password == people[login].password then
          Reply(ACCEPTED, Message(AuthenticatedMessage(login)))
        else
          Reply(UNAUTHORIZED, Message(WrongPasswordMessage(login)))
      else
        Reply(UNAUTHORIZED, Message(UnknownLoginMessage(login)))
  }

  /** A created user can be read back as created. */
  lemma CreateThenGet(people: People, login: string, password: Option<string>, now: Timestamp)
    requires login !in people
    ensures GetOne(CreateStep(people, Parsed(login, password), now).people, login)
      == Reply(OK, One(Record(login, password, now)))
  {
  }

  /** A created user authenticates with the password it was created with. */
  lemma CreateThenAuthenticate(people: People, login: string, password: Option<string>, now: Timestamp)
    requires login !in people
    ensures Authenticate(CreateStep(people, Parsed(login, password), now).people, Parsed(login, password)).status
      == ACCEPTED
  {
  }

  /** Deleting a user that was just created restores the directory. */
  lemma CreateThenDelete(people: People, login: string, password: Option<string>, now: Timestamp)
    requires login !in people
    ensures DeleteStep(CreateStep(people, Parsed(login, password), now).people, login).people == people
  {
  }

  /** After an update the new password is the only one accepted. */
  lemma UpdateThenAuthenticate(people: People, login: string, body: Body, password: Option<string>, now: Timestamp)
    requires login in people && body.Parsed?
    ensures var after := UpdateStep(people, login, body, now).people;
      Authenticate(after, Parsed(login, password)).status == ACCEPTED <==> password == body.password
  {
  }

  /** A deleted user is gone for reading and for authentication. */
  lemma DeleteThenGet(people: People, login: string, password: Option<string>)
    requires login in people
    ensures var after := DeleteStep(people, login).people;
      && GetOne(after, login) == Reply(NOT_FOUND, Message(NotFoundMessage(login)))
      && Authenticate(after, Parsed(login, password)) == Reply(UNAUTHORIZED, Message(UnknownLoginMessage(login)))
  {
  }

  /** The statuses of creating the same login once per password, one request
      after the other, and the directory at the end. */
  function CreateInTurn(people: People, login: string, passwords: seq<Option<string>>, now: Timestamp)
    : (r: (seq<int>, People))
    ensures |r.0| == |passwords|
    decreases |passwords|
  {
    if passwords == [] then ([], people)
    else
      var s := CreateStep(people, Parsed(login, passwords[0]), now);
      var rest := CreateInTurn(s.people, login, passwords[1..], now);
      ([s.reply.status] + rest.0, rest.1)
  }

  /** Once a login is filed, every further creation of it is refused and
      changes nothing. */
  lemma {:induction false} CreateInTurnWhenPresent(people: People, login: string, passwords: seq<Option<string>>, now: Timestamp)
    requires login in people
    ensures var (statuses, after) := CreateInTurn(people, login, passwords, now);
      && (forall i :: 0 <= i < |statuses| ==> statuses[i] == NOT_ACCEPTABLE)
      && after == people
    decreases |passwords|
  {
    if passwords != [] {
      CreateInTurnWhenPresent(people, login, passwords[1..], now);
    }
  }

  /** Of several requests creating one new login, handled one at a time,
      exactly the first succeeds and its password is the one kept. */
  lemma {:induction false} CreateInTurnFirstWins(people: People, login: string, passwords: seq<Option<string>>, now: Timestamp)
    requires login !in people && passwords != []
    ensures var (statuses, after) := CreateInTurn(people, login, passwords, now);
      && statuses[0] == CREATED
      && (forall i :: 1 <= i < |statuses| ==> statuses[i] == NOT_ACCEPTABLE)
      && after == people[login := Record(login, passwords[0], now)]
  {
    var s := CreateStep(people, Parsed(login, passwords[0]), now);
    assert s.people == people[login := Record(login, passwords[0], now)];
    CreateInTurnWhenPresent(s.people, login, passwords[1..], now);
  }
}
