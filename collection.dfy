/**
 * The changes the users page makes to its list of records: prepending a created user,
 * replacing the four fields of an edited user, removing a deleted one, and the lookup
 * that seeds the edit form.
 */
module Collection {
  import opened Wrappers
  import opened Text
  import opened Records
  import opened Seqs
  import opened UserForm

  /** No two records share an id. */
  predicate UniqueIds(users: seq<User>) {
    forall i, j | 0 <= i < j < |users| :: users[i].id != users[j].id
  }

  /** Some record has id `id`. */
  predicate HasId(users: seq<User>, id: int) {
    exists i | 0 <= i < |users| :: users[i].id == id
  }

  /** `Math.max(0, ...users.map(u => u.id))`: the largest id, or 0 when it is larger. */
  function MaxId(users: seq<User>): (m: int)
    ensures m >= 0
    ensures forall i | 0 <= i < |users| :: users[i].id <= m
    ensures m == 0 || HasId(users, m)
  {
    if users == [] then 0
    else
      var rest := MaxId(users[1..]);
      assert forall i | 1 <= i < |users| :: users[i] == users[1..][i - 1];
      if users[0].id > rest then users[0].id
      else
        assert rest != 0 ==> HasId(users, rest) by {
          if rest != 0 {
            var k :| 0 <= k < |users[1..]| && users[1..][k].id == rest;
            assert users[k + 1].id == rest;
          }
        }
        rest
  }

  /** The id used when the server does not echo one: larger than every id in the list, and at least 1. */
  function FallbackId(users: seq<User>): (id: int)
    ensures id >= 1
    ensures forall i | 0 <= i < |users| :: users[i].id < id
    ensures !HasId(users, id)
  {
    MaxId(users) + 1
  }

  /** The payload's `name`: first and last name joined by a space, then trimmed. */
  function PayloadName(values: FormValues): String {
    Trim(values.firstName + " " + values.lastName)
  }

  /**
   * The created record: `mapUser` applied to the payload with the given id, so the names are
   * the first two tokens of the joined name, the email is copied and an empty department
   * falls back to the default one.
   */
  function NewUser(id: int, values: FormValues): (u: User)
    ensures u.id == id
    ensures FirstTwoTokens(PayloadName(values), u.firstName, u.lastName)
    ensures u.email == values.email
    ensures u.department == if values.department != "" then values.department else DefaultDepartment
  {
    MapUser(RawUser(id, Some(PayloadName(values)), Some(values.email), Some(Company(Some(values.department)))))
  }

  /**
   * The list after a successful create: the new record in front of the old list, with the
   * server's id when it sent one and the fallback id otherwise.
   */
  function Created(users: seq<User>, serverId: Option<int>, values: FormValues): (r: seq<User>)
    ensures |r| == |users| + 1 && r[1..] == users
    ensures r[0].id == if serverId.Some? then serverId.value else FallbackId(users)
    ensures r[0] == NewUser(r[0].id, values)
  {
    [NewUser(serverId.GetOr(FallbackId(users)), values)] + users
  }

  /** With the fallback id, or a server id not yet in use, creating keeps the ids unique. */
  lemma CreatedKeepsIdsUnique(users: seq<User>, serverId: Option<int>, values: FormValues)
    requires UniqueIds(users)
    requires serverId.Some? ==> !HasId(users, serverId.value)
    ensures UniqueIds(Created(users, serverId, values))
  {
    var r := Created(users, serverId, values);
    UniqueCons(r[0], users);
    assert r == [r[0]] + users;
  }

  /** A record whose id is not in a list with unique ids can be put in front of it. */
  lemma UniqueCons(h: User, t: seq<User>)
    requires UniqueIds(t) && !HasId(t, h.id)
    ensures UniqueIds([h] + t)
  {
    var r := [h] + t;
    forall i, j | 0 <= i < j < |r| ensures r[i].id != r[j].id {
      assert r[j] == t[j - 1];
      if i > 0 {
        assert r[i] == t[i - 1];
      }
    }
  }

  /** A server id that is already in use makes two records share it. */
  lemma CreatedWithTakenId(users: seq<User>, id: int, values: FormValues)
    requires HasId(users, id)
    ensures !UniqueIds(Created(users, Some(id), values))
  {
    var r := Created(users, Some(id), values);
    var k :| 0 <= k < |users| && users[k].id == id;
    assert r[k + 1] == users[k];
  }

  /**
   * Names typed as single words (no space inside, no whitespace at their outer ends) come
   * back unchanged from the create path.
   */
  lemma NewUserKeepsSingleWordNames(id: int, values: FormValues)
    requires values.firstName != "" && values.lastName != ""
    requires ' ' !in values.firstName && ' ' !in values.lastName
    requires !IsSpace(values.firstName[0]) && !IsSpace(values.lastName[|values.lastName| - 1])
    ensures NewUser(id, values).firstName == values.firstName
    ensures NewUser(id, values).lastName == values.lastName
  {
    var f, l := values.firstName, values.lastName;
    var joined := f + " " + l;
    assert joined[0] == f[0] && joined[|joined| - 1] == l[|l| - 1];
    assert PayloadName(values) == joined;
    SplitTwoWords(f, l, ' ');
    var parts := Split(joined, ' ');
    assert parts == [f, l];
    SplitFirstTwo(joined);
    FirstTwoTokensUnique(joined, f, l, NewUser(id, values).firstName, NewUser(id, values).lastName);
  }

  /**
   * A first name of two words pushes its second word into the last name and the typed last
   * name is lost: "Mary Ann" and "Lee" become "Mary" and "Ann".
   */
  lemma NewUserSplitsTwoWordFirstName()
    ensures var u := NewUser(1, FormValues("Mary Ann", "Lee", "m@x.io", "Ops"));
      u.firstName == "Mary" && u.lastName == "Ann"
  {
    var values := FormValues("Mary Ann", "Lee", "m@x.io", "Ops");
    ExamplePayloadName();
    ExampleTokens();
    var u := NewUser(1, values);
    FirstTwoTokensUnique("Mary Ann Lee", "Mary", "Ann", u.firstName, u.lastName);
  }

  lemma ExamplePayloadName()
    ensures PayloadName(FormValues("Mary Ann", "Lee", "m@x.io", "Ops")) == "Mary Ann Lee"
  {
    var name: String := "Mary Ann Lee";
    assert "Mary Ann" + " " + "Lee" == name;
    assert !IsSpace(name[0]) && !IsSpace(name[|name| - 1]);
  }

  lemma ExampleTokens()
    ensures FirstTwoTokens("Mary Ann Lee", "Mary", "Ann")
  {
    var name: String := "Mary Ann Lee";
    assert name[..4] == "Mary" && name[4] == ' ' && name[5..8] == "Ann" && name[8] == ' ';
  }

  /** `users.find(x => x.id === id)`: the first record with that id, if any. */
  function FindById(users: seq<User>, id: int): (r: Option<User>)
    ensures r.None? <==> !HasId(users, id)
    ensures r.Some? ==> exists i | 0 <= i < |users| :: users[i] == r.value
                          && r.value.id == id && forall j | 0 <= j < i :: users[j].id != id
  {
    if users == [] then None
    else if users[0].id == id then Some(users[0])
    else
      var r := FindById(users[1..], id);
      assert forall i | 1 <= i < |users| :: users[i] == users[1..][i - 1];
      assert HasId(users, id) ==> HasId(users[1..], id) by {
        if HasId(users, id) {
          var k :| 0 <= k < |users| && users[k].id == id;
          assert users[1..][k - 1].id == id;
        }
      }
      if r.Some? then
        var k :| 0 <= k < |users[1..]| && users[1..][k] == r.value
               && r.value.id == id && forall j | 0 <= j < k :: users[1..][j].id != id;
        assert users[k + 1] == r.value;
        assert forall j | 0 <= j < k + 1 :: users[j].id != id by {
          forall j | 0 <= j < k + 1 ensures users[j].id != id {
            if j > 0 {
              assert users[j] == users[1..][j - 1];
            }
          }
        }
        r
      else
        r
  }

  /** `{ ...u, firstName, lastName, email, department }`: the id is kept, the four fields replaced. */
  function Edited(u: User, values: FormValues): (e: User)
    ensures e.id == u.id
    ensures e.firstName == values.firstName && e.lastName == values.lastName
    ensures e.email == values.email && e.department == values.department
  {
    u.(firstName := values.firstName, lastName := values.lastName, email := values.email,
       department := values.department)
  }

  /** The list after a successful edit: every record with the id edited, the rest untouched. */
  function Updated(users: seq<User>, id: int, values: FormValues): (r: seq<User>)
    ensures |r| == |users|
    ensures forall i | 0 <= i < |r| :: r[i].id == users[i].id
    ensures forall i | 0 <= i < |r| && users[i].id != id :: r[i] == users[i]
    ensures forall i | 0 <= i < |r| && users[i].id == id :: r[i] == Edited(users[i], values)
  {
    seq(|users|, i requires 0 <= i < |users| => if users[i].id == id then Edited(users[i], values) else users[i])
  }

  /** Looking up the edited id afterwards finds the typed values; other lookups see the old list. */
  lemma UpdatedThenFind(users: seq<User>, id: int, values: FormValues, other: int)
    requires other != id
    ensures var r := Updated(users, id, values);
      && FindById(r, id) == (if HasId(users, id) then Some(Edited(FindById(users, id).value, values)) else None)
      && FindById(r, other) == FindById(users, other)
  {
    var r := Updated(users, id, values);
    assert HasId(r, id) <==> HasId(users, id) by {
      if HasId(r, id) {
        var k :| 0 <= k < |r| && r[k].id == id;
        assert users[k].id == id;
      }
      if HasId(users, id) {
        var k :| 0 <= k < |users| && users[k].id == id;
        assert r[k].id == id;
      }
    }
    FindUpdated(users, id, values, id);
    FindUpdated(users, id, values, other);
  }

  lemma {:induction false} FindUpdated(users: seq<User>, id: int, values: FormValues, key: int)
    ensures var found := FindById(users, key);
      FindById(Updated(users, id, values), key)
        == if found.None? then None else if key == id then Some(Edited(found.value, values)) else found
    decreases |users|
  {
    if users != [] {
      var r := Updated(users, id, values);
      assert r[1..] == Updated(users[1..], id, values);
      FindUpdated(users[1..], id, values, key);
    }
  }

  /** The four form fields of a record, as the edit form is seeded with them. */
  function ValuesOf(u: User): (v: FormValues)
    ensures Edited(u, v) == u
  {
    FormValues(u.firstName, u.lastName, u.email, u.department)
  }

  /** With unique ids, saving the edit form with the values it was seeded with changes nothing. */
  lemma UpdatedWithOwnValues(users: seq<User>, id: int)
    requires UniqueIds(users) && HasId(users, id)
    ensures Updated(users, id, ValuesOf(FindById(users, id).value)) == users
  {
    var found := FindById(users, id).value;
    var k :| 0 <= k < |users| && users[k] == found && found.id == id && forall j | 0 <= j < k :: users[j].id != id;
    var r := Updated(users, id, ValuesOf(found));
    forall i | 0 <= i < |users| ensures r[i] == users[i] {
      if users[i].id == id {
        assert i == k;
      }
    }
  }

  /** Editing keeps the ids, so it keeps them unique. */
  lemma UpdatedKeepsIdsUnique(users: seq<User>, id: int, values: FormValues)
    requires UniqueIds(users)
    ensures UniqueIds(Updated(users, id, values))
  {
  }

  /** Applying the same edit twice is the same as applying it once. */
  lemma UpdatedIdempotent(users: seq<User>, id: int, values: FormValues)
    ensures Updated(Updated(users, id, values), id, values) == Updated(users, id, values)
  {
  }

  /**
   * `users.filter(x => x.id !== id)`: the list without the records with that id, the others
   * kept in order, each as often as before.
   */
  function Removed(users: seq<User>, id: int): (r: seq<User>)
    ensures IsSubsequence(r, users)
    ensures !HasId(r, id)
    ensures forall u :: u in r <==> u in users && u.id != id
    ensures forall u :: multiset(r)[u] == if u.id != id then multiset(users)[u] else 0
  {
    var r := Keep(users, (u: User) => u.id != id);
    KeepMembers(users, (u: User) => u.id != id);
    forall i | 0 <= i < |r| ensures r[i].id != id {
      assert r[i] in r;
    }
    r
  }

  /** Removing an id that no record has leaves the list as it is. */
  lemma RemovedAbsent(users: seq<User>, id: int)
    requires !HasId(users, id)
    ensures Removed(users, id) == users
  {
    KeepAll(users, (u: User) => u.id != id);
  }

  /** With unique ids, removing an id in use removes exactly one record. */
  lemma {:induction false} RemovedOne(users: seq<User>, id: int)
    requires UniqueIds(users) && HasId(users, id)
    ensures |Removed(users, id)| == |users| - 1
    decreases |users|
  {
    RemovedCons(users, id);
    UniqueTail(users);
    if users[0].id == id {
      RemovedAbsent(users[1..], id);
    } else {
      HasIdTail(users, id);
      RemovedOne(users[1..], id);
    }
  }

  /** The tail of a list with unique ids has unique ids and lacks the head's id. */
  lemma UniqueTail(users: seq<User>)
    requires users != [] && UniqueIds(users)
    ensures UniqueIds(users[1..]) && !HasId(users[1..], users[0].id)
  {
    var rest := users[1..];
    forall i | 0 <= i < |rest| ensures rest[i] == users[i + 1] {
    }
  }

  lemma HasIdTail(users: seq<User>, id: int)
    requires users != [] && HasId(users, id) && users[0].id != id
    ensures HasId(users[1..], id)
  {
    var k :| 0 <= k < |users| && users[k].id == id;
    assert users[1..][k - 1] == users[k];
  }

  lemma RemovedCons(users: seq<User>, id: int)
    requires users != []
    ensures Removed(users, id) == (if users[0].id != id then [users[0]] else []) + Removed(users[1..], id)
  {
  }

  /** Removing keeps the ids unique. */
  lemma RemovedKeepsIdsUnique(users: seq<User>, id: int)
    requires UniqueIds(users)
    ensures UniqueIds(Removed(users, id))
  {
    SubsequenceKeepsUnique(Removed(users, id), users);
  }

  lemma {:induction false} SubsequenceKeepsUnique(a: seq<User>, b: seq<User>)
    requires IsSubsequence(a, b) && UniqueIds(b)
    ensures UniqueIds(a)
    decreases |b|
  {
    if a != [] {
      if a[0] == b[0] && IsSubsequence(a[1..], b[1..]) {
        SubsequenceKeepsUnique(a[1..], b[1..]);
        SubsequenceMembers(a[1..], b[1..]);
        forall i, j | 0 <= i < j < |a| ensures a[i].id != a[j].id {
          assert a[j] == a[1..][j - 1];
          assert a[j] in b[1..];
          var k :| 0 <= k < |b[1..]| && b[1..][k] == a[j];
          assert b[k + 1] == a[j];
          if i > 0 {
            assert a[i] == a[1..][i - 1];
          }
        }
      } else {
        SubsequenceKeepsUnique(a, b[1..]);
      }
    }
  }
}
