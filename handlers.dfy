/** The three mutating request handlers of the record store service. Each
    request works on one freshly loaded record list: it checks the key,
    changes the list, hands the new list to the file writer and answers
    with the outcome. The loaded list is a parameter (`stored`; a missing or
    unreadable file loads as the empty list), and whether the file write
    would succeed is the parameter `saveSucceeds`. */
module Handlers {
  import opened Records

  /** What a handler answers: success with the list it saved, or one of the
      three errors. */
  datatype Outcome = Ok(users: seq<User>) | Conflict | NotFound | Internal

  /** The HTTP status code each outcome is sent with. */
  function HttpStatus(outcome: Outcome): (code: int)
    ensures 200 <= code < 600
    ensures code < 300 <==> outcome.Ok?
    ensures code >= 500 <==> outcome.Internal?
    ensures outcome.Ok? ==> code == 200
    ensures outcome.Conflict? ==> code == 400
    ensures outcome.NotFound? ==> code == 404
    ensures outcome.Internal? ==> code == 500
  {
    match outcome
    case Ok(_) => 200
    case Conflict => 400
    case NotFound => 404
    case Internal => 500
  }

  /** The JavaScript array that holds the loaded records while a handler
      runs; `push` and element assignment change it in place. */
  class LoadedUsers {
    var elems: seq<User>

    constructor (loaded: seq<User>)
      ensures elems == loaded
    {
      elems := loaded;
    }

    /** `users.push(u)` */
    method Push(u: User)
      modifies this
      ensures elems == old(elems) + [u]
    {
      elems := elems + [u];
    }

    /** `users[i].status = status` */
    method SetStatus(i: nat, status: string)
      requires i < |elems|
      modifies this
      ensures |elems| == |old(elems)|
      ensures elems[i] == User(old(elems)[i].number, status)
      ensures forall k :: 0 <= k < |elems| && k != i ==> elems[k] == old(elems)[k]
    {
      elems := elems[i := elems[i].(status := status)];
    }
  }

  /** POST /api/users with body `{number, status}`. `written` is the list
      handed to the file writer, or None when nothing is written. */
  method CreateUser(stored: seq<User>, number: string, status: string, saveSucceeds: bool)
    returns (outcome: Outcome, written: Option<seq<User>>)
    ensures HasNumber(stored, number) ==> outcome == Conflict && written == None
    ensures !HasNumber(stored, number) ==> written == Some(stored + [User(number, status)])
    ensures written.Some? ==> outcome == if saveSucceeds then Ok(written.value) else Internal
    ensures outcome.Ok? ==> CountNumber(outcome.users, number) == 1
    ensures outcome.Ok? && UniqueNumbers(stored) ==> UniqueNumbers(outcome.users)
  {
    var users := new LoadedUsers(stored);
    if Find(users.elems, number).Some? {
      return Conflict, None;
    }
    users.Push(User(number, status));
    AppendFreshCountsOnce(stored, number, status);
    written := Some(users.elems);
    if saveSucceeds {
      outcome := Ok(users.elems);
    } else {
      outcome := Internal;
    }
  }

  /** PUT /api/users/:number with body `{status}`: gives the first record
      carrying `number` the new status. */
  method UpdateUser(stored: seq<User>, number: string, status: string, saveSucceeds: bool)
    returns (outcome: Outcome, written: Option<seq<User>>)
    ensures !HasNumber(stored, number) ==> outcome == NotFound && written == None
    ensures HasNumber(stored, number) ==>
      exists i :: IsFirstMatch(stored, number, i) && written == Some(stored[i := User(number, status)])
    ensures written.Some? ==> outcome == if saveSucceeds then Ok(written.value) else Internal
    ensures outcome.Ok? ==> Find(outcome.users, number) == Some(User(number, status))
    ensures outcome.Ok? && UniqueNumbers(stored) ==> UniqueNumbers(outcome.users)
  {
    var users := new LoadedUsers(stored);
    var userIndex := FindIndex(users.elems, number);
    if userIndex == -1 {
      return NotFound, None;
    }
    users.SetStatus(userIndex, status);
    assert users.elems == stored[userIndex := User(number, status)];
    ReplaceKeepsKeys(stored, userIndex, User(number, status), number);
    written := Some(users.elems);
    if saveSucceeds {
      outcome := Ok(users.elems);
    } else {
      outcome := Internal;
    }
  }

  /** DELETE /api/users/:number: removes every record carrying `number`. */
  method DeleteUser(stored: seq<User>, number: string, saveSucceeds: bool)
    returns (outcome: Outcome, written: Option<seq<User>>)
    ensures !HasNumber(stored, number) ==> outcome == NotFound && written == None
    ensures HasNumber(stored, number) ==>
      written == Some(WithoutNumber(stored, number)) && |written.value| < |stored|
    ensures written.Some? ==> outcome == if saveSucceeds then Ok(written.value) else Internal
    ensures outcome.Ok? ==> !HasNumber(outcome.users, number)
    ensures outcome.Ok? && UniqueNumbers(stored) ==> UniqueNumbers(outcome.users)
  {
    var filteredUsers := WithoutNumber(stored, number);
    if |filteredUsers| == |stored| {
      return NotFound, None;
    }
    if UniqueNumbers(stored) {
      WithoutNumberKeepsUnique(stored, number);
    }
    written := Some(filteredUsers);
    if saveSucceeds {
      outcome := Ok(filteredUsers);
    } else {
      outcome := Internal;
    }
  }
}
