/**
 * The Users API of app/main.py: the request and response records, the in-memory
 * store `_FAKE_DB`, and the handlers that create, list and look up users.
 */
module Users {
  import opened Wrappers

  /** Request body of POST /users (`UserIn`). */
  datatype UserIn = UserIn(name: string, age: int, email: Option<string>)

  /** The field constraints declared on `UserIn`: a name of at least one character, an age in 0..120. */
  predicate ValidUserIn(u: UserIn) {
    |u.name| >= 1 && 0 <= u.age <= 120
  }

  /** A stored user and the response body (`UserOut`): the request's fields plus a serial id. */
  datatype UserOut = UserOut(id: int, name: string, age: int, email: Option<string>)

  /** The request fields a stored record was built from. */
  function Fields(r: UserOut): UserIn {
    UserIn(r.name, r.age, r.email)
  }

  /** The failure of POST /users when the name is already in use (HTTP 400). */
  datatype CreateError = DuplicateName {
    function Detail(): string { "name already exists" }
  }

  /** The failure of GET /users/{user_id} when no record has that id (HTTP 404). */
  datatype GetError = NotFound {
    function Detail(): string { "user not found" }
  }

  /** No two records share a name (exact, case-sensitive comparison). */
  ghost predicate NamesDistinct(db: seq<UserOut>) {
    forall i, j :: 0 <= i < j < |db| ==> db[i].name != db[j].name
  }

  /** Every record's id is its 1-based position in the store. */
  ghost predicate IdsArePositions(db: seq<UserOut>) {
    forall i :: 0 <= i < |db| ==> db[i].id == i + 1
  }

  /** Every record's fields satisfy the constraints the request was validated against. */
  ghost predicate FieldsValid(db: seq<UserOut>) {
    forall i :: 0 <= i < |db| ==> ValidUserIn(Fields(db[i]))
  }

  /** What the store guarantees between requests. */
  ghost predicate StoreInvariant(db: seq<UserOut>) {
    NamesDistinct(db) && IdsArePositions(db) && FieldsValid(db)
  }

  /** The duplicate check of create_user: does any record carry exactly this name? */
  function NameTaken(db: seq<UserOut>, name: string): (taken: bool)
    ensures taken <==> exists i :: 0 <= i < |db| && db[i].name == name
  {
    if db == [] then false
    else db[0].name == name || NameTaken(db[1..], name)
  }

  /** The position of the first record whose id is `k`, as the scan of get_user finds it. */
  function FindById(db: seq<UserOut>, k: int): (pos: Option<nat>)
    ensures pos.Some? ==> pos.value < |db| && db[pos.value].id == k
    ensures pos.Some? ==> forall j :: 0 <= j < pos.value ==> db[j].id != k
    ensures pos.None? <==> forall j :: 0 <= j < |db| ==> db[j].id != k
  {
    if db == [] then None
    else if db[0].id == k then Some(0)
    else match FindById(db[1..], k)
      case None => None
      case Some(p) => Some(p + 1)
  }

  /** The answer of get_user for id `k` on store `db`. */
  function GetAnswer(db: seq<UserOut>, k: int): Result<UserOut, GetError> {
    match FindById(db, k)
    case Some(p) => Ok(db[p])
    case None => Err(NotFound)
  }

  /** The answer of create_user and the store it leaves behind. */
  datatype Created = Created(result: Result<UserOut, CreateError>, store: seq<UserOut>)

  /** create_user on store `db`: reject a taken name, otherwise append a record with id `|db| + 1`. */
  function CreateOn(db: seq<UserOut>, u: UserIn): (c: Created)
    ensures c.result.Err? <==> exists i :: 0 <= i < |db| && db[i].name == u.name
    ensures c.result.Err? ==> c.result.error == DuplicateName && c.store == db
    ensures c.result.Ok? ==> c.store == db + [c.result.value]
    ensures c.result.Ok? ==> c.result.value.id == |db| + 1 && Fields(c.result.value) == u
  {
    if NameTaken(db, u.name) then Created(Err(DuplicateName), db)
    else
      var created := UserOut(|db| + 1, u.name, u.age, u.email);
      Created(Ok(created), db + [created])
  }

  /** Creating a validated user keeps the store invariant. */
  lemma CreatePreservesInvariant(db: seq<UserOut>, u: UserIn)
    requires StoreInvariant(db) && ValidUserIn(u)
    ensures StoreInvariant(CreateOn(db, u).store)
  {
    var c := CreateOn(db, u);
    if c.result.Ok? {
      var s := c.store;
      forall i, j | 0 <= i < j < |s| ensures s[i].name != s[j].name {
        if j == |db| {
          assert s[i] == db[i];
        }
      }
    }
  }

  /** With the invariant, the record with id `k` is the one at position `k - 1`. */
  lemma FindByIdIsPosition(db: seq<UserOut>, k: int)
    requires IdsArePositions(db)
    ensures FindById(db, k) == if 1 <= k <= |db| then Some(k - 1) else None
  {
    if 1 <= k <= |db| {
      assert db[k - 1].id == k;
    }
  }

  /** The answers and the final store of a series of create requests made one after another. */
  function CreateAll(db: seq<UserOut>, us: seq<UserIn>): (c: (seq<Result<UserOut, CreateError>>, seq<UserOut>))
    ensures |c.0| == |us|
    decreases us
  {
    if us == [] then ([], db)
    else
      var first := CreateOn(db, us[0]);
      var rest := CreateAll(first.store, us[1..]);
      ([first.result] + rest.0, rest.1)
  }

  /** The records returned by the successful answers, in order. */
  function Successes(rs: seq<Result<UserOut, CreateError>>): (out: seq<UserOut>)
    ensures |out| <= |rs|
  {
    if rs == [] then []
    else (if rs[0].Ok? then [rs[0].value] else []) + Successes(rs[1..])
  }

  /** A series of creates appends exactly the records it returns, in the order it returns them. */
  lemma {:induction false} CreateAllAppendsSuccesses(db: seq<UserOut>, us: seq<UserIn>)
    ensures CreateAll(db, us).1 == db + Successes(CreateAll(db, us).0)
    decreases us
  {
    if us != [] {
      var first := CreateOn(db, us[0]);
      CreateAllAppendsSuccesses(first.store, us[1..]);
      var rest := CreateAll(first.store, us[1..]);
      assert CreateAll(db, us).0 == [first.result] + rest.0;
      assert ([first.result] + rest.0)[1..] == rest.0;
    }
  }

  /** A series of validated creates keeps the store invariant. */
  lemma {:induction false} CreateAllPreservesInvariant(db: seq<UserOut>, us: seq<UserIn>)
    requires StoreInvariant(db)
    requires forall i :: 0 <= i < |us| ==> ValidUserIn(us[i])
    ensures StoreInvariant(CreateAll(db, us).1)
    decreases us
  {
    if us != [] {
      CreatePreservesInvariant(db, us[0]);
      CreateAllPreservesInvariant(CreateOn(db, us[0]).store, us[1..]);
    }
  }

  /** After a clear, the n-th successful create (counting from 1) answers with id n. */
  lemma NthCreateAfterClearHasIdN(us: seq<UserIn>, n: nat)
    requires forall i :: 0 <= i < |us| ==> ValidUserIn(us[i])
    requires 1 <= n <= |Successes(CreateAll([], us).0)|
    ensures Successes(CreateAll([], us).0)[n - 1].id == n
  {
    CreateAllAppendsSuccesses([], us);
    CreateAllPreservesInvariant([], us);
    assert CreateAll([], us).1[n - 1] == Successes(CreateAll([], us).0)[n - 1];
  }

  /**
   * The module-level list `_FAKE_DB` together with the handlers that use it.
   * Calls are assumed to arrive one at a time.
   */
  class UserStore {
    var records: seq<UserOut>

    ghost predicate Valid()
      reads this
    {
      StoreInvariant(records)
    }

    /** An empty store, as at module load. */
    constructor ()
      ensures Valid() && records == []
    {
      records := [];
    }

    /** `_FAKE_DB.clear()`: empty the store, so that ids start again at 1. */
    method Clear()
      modifies this
      ensures Valid() && records == []
    {
      records := [];
    }

    /** create_user: reject a taken name, otherwise append and return a record with the next id. */
    method Create(u: UserIn) returns (r: Result<UserOut, CreateError>)
      requires Valid() && ValidUserIn(u)
      modifies this
      ensures Valid()
      ensures r == CreateOn(old(records), u).result
      ensures records == CreateOn(old(records), u).store
    {
      CreatePreservesInvariant(records, u);
      if NameTaken(records, u.name) {
        r := Err(DuplicateName);
        return;
      }
      var created := UserOut(|records| + 1, u.name, u.age, u.email);
      records := records + [created];
      r := Ok(created);
    }

    /** list_users: the store as it stands, in insertion order. */
    method List() returns (all: seq<UserOut>)
      ensures all == records
    {
      all := records;
    }

    /** get_user: scan the store for the first record with id `k`; report not-found otherwise. */
    method Get(k: int) returns (r: Result<UserOut, GetError>)
      ensures r.Ok? <==> exists i :: 0 <= i < |records| && records[i].id == k
      ensures r.Ok? ==> r.value in records && r.value.id == k
      ensures r == GetAnswer(records, k)
    {
      var i := 0;
      while i < |records|
        invariant 0 <= i <= |records|
        invariant forall j :: 0 <= j < i ==> records[j].id != k
      {
        if records[i].id == k {
          return Ok(records[i]);
        }
        i := i + 1;
      }
      r := Err(NotFound);
    }
  }

  /** The request sequences of tests/test_api.py, run against the model. */
  method ApiScenarios() {
    var store := new UserStore();
    assert !ValidUserIn(UserIn("", -1, None));

    var listed := store.List();
    assert listed == [];

    var alice := UserIn("Alice", 25, None);
    var created := store.Create(alice);
    assert created == Ok(UserOut(1, "Alice", 25, None));

    var found := store.Get(1);
    assert found == Ok(UserOut(1, "Alice", 25, None));
    var missing := store.Get(999);
    assert missing == Err(NotFound);

    var again := store.Create(UserIn("Alice", 30, None));
    assert again == Err(DuplicateName);
    assert again.error.Detail() == "name already exists";
    listed := store.List();
    assert |listed| == 1;

    store.Clear();
    created := store.Create(UserIn("Bob", 40, Some("bob@example.com")));
    assert created.Ok? && created.value.id == 1;
  }
}
