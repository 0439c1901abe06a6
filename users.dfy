/** The values the user directory stores and the replies its handlers give:
    a user record, the parsed request body, the status code and payload of a
    reply, and the messages the handlers build from a login. */
module Users {

  datatype Option<T> = None | Some(value: T)

  /** A formatted clock reading ("%Y-%m-%d %H:%M:%S"); the model never looks
      inside it, the caller supplies it. */
  type Timestamp = string

  /** One entry of the directory. The password is whatever the request body
      carried, possibly nothing. */
  datatype Record = Record(login: string, password: Option<string>, timestamp: Timestamp)

  /** The directory: login to record. */
  type People = map<string, Record>

  /** Each record is filed under its own login. */
  ghost predicate WellFormed(people: People) {
    forall k :: k in people ==> people[k].login == k
  }

  /** The outcome of validating a request body against the user schema:
      either the fields (the schema requires `login`), or the validator's
      error message. */
  datatype Body = Parsed(login: string, password: Option<string>) | Rejected(message: string)

  datatype Payload =
    | Message(text: string)
    | One(record: Record)
    | Many(records: seq<Record>)

  datatype Reply = Reply(status: int, payload: Payload)

  const OK := 200
  const CREATED := 201
  const ACCEPTED := 202
  const NO_CONTENT := 204
  const BAD_REQUEST := 400
  const UNAUTHORIZED := 401
  const NOT_FOUND := 404
  const NOT_ACCEPTABLE := 406

  function CreatedMessage(login: string): string { login + " criado com sucesso" }
  function ConflictMessage(login: string): string { "Login " + login + " ja existe" }
  function NotFoundMessage(login: string): string { "Login " + login + " nao encontrado" }
  function DeletedMessage(login: string): string { login + " deletado com sucesso" }
  function AuthenticatedMessage(login: string): string { login + " autenticado com sucesso" }
  function WrongPasswordMessage(login: string): string { "Password do login " + login + " invalido" }
  function UnknownLoginMessage(login: string): string { "Login " + login + " nao existe" }

  /** The two refusals of authentication can be told apart from the message
      alone, whatever the logins. */
  lemma UnauthorizedMessagesDiffer(a: string, b: string)
    ensures WrongPasswordMessage(a) != UnknownLoginMessage(b)
  {
    assert WrongPasswordMessage(a)[0] == 'P';
    assert UnknownLoginMessage(b)[0] == 'L';
  }

}
