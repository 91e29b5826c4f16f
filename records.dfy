/** The user records kept by the service, and the pure searches and filter
    that the request handlers run over the loaded record list. A record is
    keyed by its phone `number`; two numbers are the same key exactly when
    they are equal strings (JavaScript's `===` on strings). */
module Records {

  datatype User = User(number: string, status: string)

  datatype Option<T> = None | Some(value: T)

  /** Some record of `users` carries `number`. */
  predicate HasNumber(users: seq<User>, number: string) {
    exists i :: 0 <= i < |users| && users[i].number == number
  }

  /** The key invariant of the store: no two records share a number. */
  predicate UniqueNumbers(users: seq<User>) {
    forall i, j :: 0 <= i < j < |users| ==> users[i].number != users[j].number
  }

  /** `i` is the position of the first record that carries `number`. */
  predicate IsFirstMatch(users: seq<User>, number: string, i: int) {
    && 0 <= i < |users|
    && users[i].number == number
    && forall j :: 0 <= j < i ==> users[j].number != number
  }

  /** How many records carry `number`. */
  function CountNumber(users: seq<User>, number: string): (n: nat)
    ensures n <= |users|
    ensures n == 0 <==> !HasNumber(users, number)
  {
    if |users| == 0 then 0
    else
      (if users[0].number == number then 1 else 0) + CountNumber(users[1..], number)
  }

  /** `Array.prototype.findIndex` with the predicate `user.number === number`:
      the first matching position, or -1 when there is none. */
  function FindIndex(users: seq<User>, number: string): (r: int)
    ensures -1 <= r < |users|
    ensures r == -1 <==> !HasNumber(users, number)
    ensures r != -1 ==> IsFirstMatch(users, number, r)
  {
    if |users| == 0 then -1
    else if users[0].number == number then 0
    else
      var k := FindIndex(users[1..], number);
      if k == -1 then -1 else k + 1
  }

  /** `Array.prototype.find` with the same predicate: the first matching
      record, or nothing (`undefined`) when there is none. */
  function Find(users: seq<User>, number: string): (r: Option<User>)
    ensures r.None? <==> !HasNumber(users, number)
    ensures r.Some? ==> exists i :: IsFirstMatch(users, number, i) && users[i] == r.value
  {
    var k := FindIndex(users, number);
    if k == -1 then None else Some(users[k])
  }

  /** `users.filter(user => user.number !== number)`: the records whose
      number differs from `number`, in their original order. */
  function WithoutNumber(users: seq<User>, number: string): (r: seq<User>)
    ensures |r| <= |users|
    ensures !HasNumber(r, number)
    ensures forall u :: u in r <==> u in users && u.number != number
    ensures |r| == |users| <==> !HasNumber(users, number)
  {
    if |users| == 0 then []
    else
      (if users[0].number != number then [users[0]] else []) + WithoutNumber(users[1..], number)
  }

  /** The filter distributes over concatenation: it keeps the relative
      order of the records it keeps. */
  lemma {:induction false} WithoutNumberAppend(a: seq<User>, b: seq<User>, number: string)
    ensures WithoutNumber(a + b, number) == WithoutNumber(a, number) + WithoutNumber(b, number)
  {
    if |a| == 0 {
      assert a + b == b;
    } else {
      assert (a + b)[1..] == a[1..] + b;
      WithoutNumberAppend(a[1..], b, number);
    }
  }

  /** Every record whose number differs from `number` is kept as many times
      as it occurs, and no record carrying `number` is kept. */
  lemma {:induction false} WithoutNumberMultiplicity(users: seq<User>, number: string, u: User)
    ensures multiset(WithoutNumber(users, number))[u]
            == if u.number == number then 0 else multiset(users)[u]
  {
    if |users| > 0 {
      WithoutNumberMultiplicity(users[1..], number, u);
      assert users == [users[0]] + users[1..];
    }
  }

  /** A store with no record for `number` is left as it is by the filter. */
  lemma {:induction false} WithoutAbsentNumber(users: seq<User>, number: string)
    requires !HasNumber(users, number)
    ensures WithoutNumber(users, number) == users
  {
    if |users| > 0 {
      assert !HasNumber(users[1..], number) by {
        forall i | 0 <= i < |users[1..]| ensures users[1..][i].number != number {
          assert users[1..][i] == users[i + 1];
        }
      }
      WithoutAbsentNumber(users[1..], number);
      assert users == [users[0]] + users[1..];
    }
  }

  /** Filtering keeps the numbers unique. */
  lemma {:induction false} WithoutNumberKeepsUnique(users: seq<User>, number: string)
    requires UniqueNumbers(users)
    ensures UniqueNumbers(WithoutNumber(users, number))
  {
    if |users| > 0 {
      var rest := users[1..];
      assert UniqueNumbers(rest) by {
        forall i, j | 0 <= i < j < |rest| ensures rest[i].number != rest[j].number {
          assert rest[i] == users[i + 1] && rest[j] == users[j + 1];
        }
      }
      WithoutNumberKeepsUnique(rest, number);
      var tail := WithoutNumber(rest, number);
      forall u | u in tail ensures u.number != users[0].number {
        var k :| 0 <= k < |rest| && rest[k] == u;
        assert rest[k] == users[k + 1];
      }
      var head := if users[0].number != number then [users[0]] else [];
      var r := head + tail;
      forall i, j | 0 <= i < j < |r| ensures r[i].number != r[j].number {
        if |head| == 1 && i == 0 {
          assert r[j] == tail[j - 1];
          assert r[j] in tail;
        } else {
          assert r[i] == tail[i - |head|] && r[j] == tail[j - |head|];
        }
      }
    }
  }

  /** Deleting a number that was just appended gives back the store as it
      was before the append. */
  lemma CreateThenDeleteRestores(users: seq<User>, number: string, status: string)
    requires !HasNumber(users, number)
    ensures WithoutNumber(users + [User(number, status)], number) == users
  {
    WithoutNumberAppend(users, [User(number, status)], number);
    WithoutAbsentNumber(users, number);
    assert [User(number, status)][1..] == [];
  }

  /** Counting distributes over concatenation. */
  lemma {:induction false} CountNumberAppend(a: seq<User>, b: seq<User>, number: string)
    ensures CountNumber(a + b, number) == CountNumber(a, number) + CountNumber(b, number)
  {
    if |a| == 0 {
      assert a + b == b;
    } else {
      assert (a + b)[1..] == a[1..] + b;
      CountNumberAppend(a[1..], b, number);
    }
  }

  /** Appending a record under an unused number leaves exactly one record
      with that number. */
  lemma AppendFreshCountsOnce(users: seq<User>, number: string, status: string)
    requires !HasNumber(users, number)
    ensures CountNumber(users + [User(number, status)], number) == 1
  {
    CountNumberAppend(users, [User(number, status)], number);
    assert [User(number, status)][1..] == [];
  }

  /** Two records with the same number make that number's count at least two. */
  lemma SharedNumberCountsTwice(users: seq<User>, i: nat, j: nat)
    requires i < j < |users| && users[i].number == users[j].number
    ensures CountNumber(users, users[i].number) >= 2
  {
    var number := users[i].number;
    var front, back := users[..j], users[j..];
    assert users == front + back;
    CountNumberAppend(front, back, number);
    assert front[i] == users[i];
    assert HasNumber(front, number);
    assert back[0] == users[j];
    assert HasNumber(back, number);
  }

  /** Unique numbers mean that no number is carried by more than one record. */
  lemma {:induction false} UniqueCountsAtMostOne(users: seq<User>, number: string)
    requires UniqueNumbers(users)
    ensures CountNumber(users, number) <= 1
  {
    if |users| > 0 {
      var rest := users[1..];
      assert UniqueNumbers(rest) by {
        forall i, j | 0 <= i < j < |rest| ensures rest[i].number != rest[j].number {
          assert rest[i] == users[i + 1] && rest[j] == users[j + 1];
        }
      }
      UniqueCountsAtMostOne(rest, number);
      if users[0].number == number {
        assert !HasNumber(rest, number) by {
          forall k | 0 <= k < |rest| ensures rest[k].number != number {
            assert rest[k] == users[k + 1];
          }
        }
      }
    }
  }

  /** The key invariant, stated through counts: the numbers are unique
      exactly when every number is carried by at most one record. */
  lemma UniqueIffCountsAtMostOne(users: seq<User>)
    ensures UniqueNumbers(users) <==> forall number :: CountNumber(users, number) <= 1
  {
    if UniqueNumbers(users) {
      forall number ensures CountNumber(users, number) <= 1 {
        UniqueCountsAtMostOne(users, number);
      }
    }
    if !UniqueNumbers(users) {
      var i, j :| 0 <= i < j < |users| && users[i].number == users[j].number;
      SharedNumberCountsTwice(users, i, j);
    }
  }

  /** Replacing a record by one with the same number keeps the numbers
      unique, and the first match of every number stays where it was. */
  lemma ReplaceKeepsKeys(users: seq<User>, i: nat, u: User, number: string)
    requires i < |users| && users[i].number == u.number
    ensures UniqueNumbers(users[i := u]) <==> UniqueNumbers(users)
    ensures FindIndex(users[i := u], number) == FindIndex(users, number)
  {
    var r := users[i := u];
    var a, b := FindIndex(r, number), FindIndex(users, number);
    assert forall k :: 0 <= k < |users| ==> r[k].number == users[k].number;
    assert HasNumber(r, number) <==> HasNumber(users, number);
    if a != -1 && b != -1 {
      assert IsFirstMatch(users, number, a);
      assert IsFirstMatch(r, number, b);
    }
  }
}
