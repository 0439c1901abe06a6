# User directory of the `usuarios` service, in Dafny

The service keeps its users in one process-wide dictionary, `PEOPLE`. It maps
a login to a record holding the login, the password and the time of the last
change. Six HTTP handlers work on it:

- list every user, ordered by login;
- read one user;
- create a user;
- change a user's password;
- delete a user;
- authenticate a login and password.

Each handler checks whether a key is present and then does one thing. It
answers with a status code (200, 201, 202, 204, 400, 401, 404 or 406) and
either a message built from the login, one record, or the list of records.

The model has four modules:

- `Lexicographic` (lexicographic.dfy): Python's `<` on strings and
  `sorted` over the directory's keys. It proves that the order is strict
  and total and that a set of keys has exactly one ascending arrangement.
- `Users` (users.dfy): the record, the parsed request body, the reply, the
  status codes and the seven messages.
- `Handlers` (handlers.dfy): each handler as a function of the directory.
  The three read-only handlers return a reply. The three that change the
  directory return a `Step`: the reply and the directory afterwards. Lemmas
  relate the handlers to one another.
- `Store` (store.dfy): the directory as a class `Directory` with a `people`
  map field. Its `Create`, `Update` and `Delete` methods change that field
  in place, as the source does. Each is proved to agree with its step
  function and to keep every record filed under its own login.

Request-body validation (the `UsuarioModel` schema) is a library call. It
is modelled as an input `Body`: either `Parsed(login, password)` or
`Rejected(message)`. A rejected body gives status 400 with the validator's
message. Create and Authenticate validate first. Update checks that the
login exists before it validates the body, so an unknown login gives 404
even when the body is malformed. The clock is an input: the caller passes
the formatted timestamp as `now`, and the starting directory takes the
three readings made while it is built.

Where the code and the written description of the service differ, the model
follows the code:

- The description asks for a non-empty login. The code only checks that
  `login` is present, so the empty string is an ordinary login here.
- The description treats the password as a string. The code stores
  `data.get("password", None)`, so it is an `Option<string>`. Authentication
  compares the two options, so a user created without a password
  authenticates with no password.

## Model

| member | source | states |
|---|---|---|
| `Lexicographic.LessAsymmetric` | server.py:73 | string order used by `sorted` never holds both ways (hence is irreflexive) |
| `Lexicographic.LessTransitive` | server.py:73 | string order is transitive |
| `Lexicographic.LessTotal` | server.py:73 | any two distinct strings are ordered one way or the other |
| `Lexicographic.LeastExists` | server.py:73 | every non-empty key set has a smallest key |
| `Lexicographic.LeastUnique` | server.py:73 | the smallest key is unique |
| `Lexicographic.Least` | server.py:73 | returns the smallest key of a non-empty key set |
| `Lexicographic.SortedKeys` | server.py:73 | `sorted(PEOPLE.keys())`: strictly ascending, same length as the key set, holds exactly its keys |
| `Lexicographic.AscendingUnique` | server.py:73 | two strictly ascending sequences with the same members are equal, so the sorted key list does not depend on the sorting algorithm |
| `Users.UnauthorizedMessagesDiffer` | server.py:179-185 | the wrong-password and unknown-login refusals never carry the same message |
| `Handlers.Seed` | server.py:46-62 | the starting directory holds exactly maria, ana and joao, each filed under its own login with password "123" |
| `Handlers.ListAll` | server.py:69-73 | status 200, one record per key, ascending by login, each the record filed under its login, none missing |
| `Handlers.ListingUnique` | server.py:73 | any two listings meeting that description are equal, so the listing reply is fully determined |
| `Handlers.GetOne` | server.py:108-117 | 200 with the stored record if and only if the login is present; otherwise 404 with "Login <login> nao encontrado" |
| `Handlers.CreateStep` | server.py:80-101 | 201 if and only if the body parses and its login is absent; then the new record holds the given login, password and time, one key is added and every other entry is unchanged; 406 "Login <login> ja existe" on a present login, 400 on a rejected body, both leaving the directory unchanged; keeps each record under its own login |
| `Handlers.UpdateStep` | server.py:123-143 | 200 if and only if the login is present and the body parses; then only the password and timestamp of that record change, its login field, the key set and the other entries stay, and the updated record is returned; 404 on an absent login and 400 on a rejected body change nothing |
| `Handlers.DeleteStep` | server.py:148-157 | 204 "<login> deletado com sucesso" if and only if the login is present; then exactly that key is removed and the other entries are unchanged; 404 on an absent login changes nothing |
| `Handlers.Authenticate` | server.py:166-185 | 202 "<login> autenticado com sucesso" if and only if the body parses, the login is present and the passwords are equal; 401 "Password do login <login> invalido" on a mismatch; 401 "Login <login> nao existe" on an absent login; 400 on a rejected body |
| `Handlers.CreateThenGet` | server.py:93-99 | after creating an absent login, reading it gives 200 and the record just created |
| `Handlers.CreateThenAuthenticate` | server.py:93-99 | after creating an absent login, it authenticates with the password it was created with |
| `Handlers.CreateThenDelete` | server.py:153-155 | deleting a login just created gives back the directory as it was |
| `Handlers.UpdateThenAuthenticate` | server.py:137-141 | after an update, a password authenticates if and only if it is the new one |
| `Handlers.DeleteThenGet` | server.py:153-155 | after a delete, reading the login gives 404 and authenticating it gives "Login <login> nao existe" |
| `Handlers.CreateInTurn` | server.py:93-101 | one status per creation request in a sequence of requests for the same login |
| `Handlers.CreateInTurnWhenPresent` | server.py:100-101 | once a login exists, every further creation of it gives 406 and the directory stays the same |
| `Handlers.CreateInTurnFirstWins` | server.py:93-101 | of several requests, handled one at a time, that create the same new login, exactly the first gives 201 and the others 406, and the directory keeps the first password |
| `Store.Directory.constructor` | server.py:46-62 | the directory object starts as the seed directory |
| `Store.Directory.Create` | server.py:80-101 | inserting into the map in place gives the reply and the directory that `CreateStep` describes, and keeps every record under its own login |
| `Store.Directory.Update` | server.py:123-143 | writing the password and then the timestamp in place gives the reply and the directory that `UpdateStep` describes, and keeps every record under its own login |
| `Store.Directory.Delete` | server.py:148-157 | removing the key in place gives the reply and the directory that `DeleteStep` describes, and keeps every record under its own login |

## Left out

- Flask application setup, CORS, blueprint and route registration, the Swagger/OpenAPI description and UI, the landing page and `app.run` (server.py:1-15, 193-235). They are HTTP plumbing around the directory.
- The internals of the `UsuarioModel` and `ErrorModel` schemas and of the request parser (server.py:21-38). They are library code; validation is the `Body` input described above.
- `get_timestamp` (server.py:43-44). Reading the clock and formatting the result are not modelled; timestamps are opaque strings supplied by the caller. So the claim that an update moves the timestamp forward is not modelled either.
- Concurrency. The source takes no lock, and in a threaded server two creations of one login could both pass the presence check. The model treats each handler as one atomic step. `CreateInTurnFirstWins` covers only requests handled one after another.
- A `None` login reaching the string concatenation at server.py:101. The schema requires `login`, so a parsed body always carries one.
- Records are values, not shared mutable dictionaries. No caller of the source keeps a reference to a record across requests, so nothing observable depends on this.
- The read-only handlers (`Usuarios.get`, `Usuario.get`, `Autenticacao.post`) are functions of the directory's `people` field, not methods of `Directory`.
