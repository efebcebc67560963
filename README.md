# Minimal Users API — a Dafny model

This project models the two pieces of logic in the `minimal_fastapi` service that carry its behaviour:

- **The user store and its handlers** (`app/main.py`). The module-level list `_FAKE_DB` is the
  database. `create_user` first rejects a name that is already present, by exact comparison. Otherwise it
  assigns `id = len(_FAKE_DB) + 1`, appends the new record and returns it. `list_users` returns the list
  as it stands. `get_user` scans for the first record with the requested id and fails with
  "user not found" if none matches. The tests empty the list with `_FAKE_DB.clear()` before and after
  each test.
  In `users.dfy` (module `Users`) this is a class `UserStore` whose field `records: seq<UserOut>` is the
  list. Its methods `Create`, `List`, `Get` and `Clear` are the handlers and the reset. Its invariant
  `Valid()` says three things:
  - names are pairwise distinct;
  - every record's id is its 1-based position;
  - every record's fields satisfy the `UserIn` field constraints.

  `CreateOn` is the pure specification of one create and `FindById` that of the lookup. The lemmas
  about them state the invariant, id numbering and lookup properties.
- **`normalize_name`** (`app/utils.py`): `" ".join(name.strip().split())`. In `names.dfy`
  (module `Names`) each step is a function: `Strip` (via `TrimLeft`/`TrimRight`), `Split`, `Join`, and
  their composition `Normalize`. The lemmas prove the following:
  - the result is in normal form: no edge whitespace, only single ASCII spaces;
  - it keeps the non-whitespace characters in order;
  - it keeps exactly the words `split()` sees;
  - it is empty exactly for blank input;
  - it is idempotent;
  - it gives the values of the test vectors.

`wrappers.dfy` holds the `Option` and `Result` datatypes. The two HTTP errors are the datatypes
`CreateError.DuplicateName` ("name already exists", HTTP 400) and `GetError.NotFound`
("user not found", HTTP 404). Each carries its fixed detail text.

Whitespace (`Names.IsSpace`) is the set of characters for which Python's `str.isspace()` holds, and
which `str.strip()` and `str.split()` with no argument therefore treat as whitespace. That set is
U+0009–U+000D, U+001C–U+001F, U+0020, U+0085, U+00A0, U+1680, U+2000–U+200A, U+2028, U+2029, U+202F,
U+205F and U+3000. It is fixed here as an explicit predicate, and the model assumes this Unicode
whitespace table.

## Model

| member | source | states |
|---|---|---|
| `Users.NameTaken` | app/main.py:69 | true exactly when some record in the store has a name equal to the requested one |
| `Users.FindById` | app/main.py:101-104 | the position of the first record whose id is `k` (no earlier record has that id); `None` exactly when no record has id `k` |
| `Users.CreateOn` | app/main.py:61-81 | create fails with `DuplicateName` exactly when some record already has the name, and then the store is unchanged; on success the record has id `|db| + 1` and the request's name, age and email, and the new store is the old one with that record appended |
| `Users.CreatePreservesInvariant` | app/main.py:69-78 | a create with a validated request keeps names pairwise distinct, ids equal to 1-based positions and all fields valid |
| `Users.FindByIdIsPosition` | app/main.py:101-104 | when ids are positions, the lookup of `k` finds position `k - 1` if `1 <= k <= |db|` and nothing otherwise |
| `Users.CreateAllAppendsSuccesses` | app/main.py:75-78 | after any series of create requests the store is the starting store followed by exactly the records the successful creates returned, in the order returned |
| `Users.CreateAllPreservesInvariant` | app/main.py:69-78 | any series of validated creates keeps the store invariant |
| `Users.NthCreateAfterClearHasIdN` | app/main.py:75-78 | starting from an empty store, the n-th successful create returns id n |
| `Users.UserStore.constructor` | app/main.py:46 | the store starts empty and satisfies the invariant |
| `Users.UserStore.Clear` | tests/test_api.py:23-25 | after a clear the store is empty and satisfies the invariant |
| `Users.UserStore.Create` | app/main.py:61-81 | the answer and the new store are those of `CreateOn` on the old store; the invariant is kept |
| `Users.UserStore.List` | app/main.py:85-91 | returns exactly the current records in insertion order; changes nothing |
| `Users.UserStore.Get` | app/main.py:95-104 | succeeds exactly when some record has id `k`, then with a stored record whose id is `k`, namely the first one in store order; otherwise fails with `NotFound`; changes nothing |
| `Names.LeadingSpace` | app/utils.py:9 | the length of the maximal run of whitespace at the start of the string |
| `Names.TrailingSpace` | app/utils.py:9 | the length of the maximal run of whitespace at the end of the string |
| `Names.WordLength` | app/utils.py:11 | the length of the maximal run of non-whitespace at the start of the string |
| `Names.RemoveSpace` | app/utils.py:2-3 | the input with its whitespace removed: the content normalization must keep; the result has no whitespace |
| `Names.SplitWords` | app/utils.py:11 | every piece `split()` yields is non-empty and contains no whitespace |
| `Names.SplitIgnoresEdges` | app/utils.py:9-11 | splitting the stripped string gives the same words as splitting the original |
| `Names.SplitJoin` | app/utils.py:11-12 | splitting the single-space join of non-empty, whitespace-free words gives back the same words |
| `Names.JoinSplit` | app/utils.py:11-12 | a string in normal form is the single-space join of its own words |
| `Names.JoinNormal` | app/utils.py:12 | the single-space join of non-empty, whitespace-free words is in normal form and is empty only for no words |
| `Names.StripKeepsContent` | app/utils.py:9 | stripping removes only whitespace |
| `Names.JoinSplitKeepsContent` | app/utils.py:11-12 | splitting and re-joining removes or replaces only whitespace |
| `Names.NormalizeIsNormal` | app/utils.py:9-12 | the result has no leading or trailing whitespace, its only whitespace characters are ASCII spaces, and no two whitespace characters are adjacent |
| `Names.NormalizeKeepsContent` | app/utils.py:9-12 | the input and the result are equal once whitespace is removed from both: non-whitespace characters keep their order and case |
| `Names.NormalizeKeepsWords` | app/utils.py:9-12 | the result has exactly the words `split()` finds in the input |
| `Names.NormalizeEmpty` | app/utils.py:9-12 | the result is empty exactly when the input is empty or all whitespace |
| `Names.NormalizeIdempotent` | app/utils.py:1-12 | normalizing a normalized name changes nothing |
| `Names.NormalizeTwoWords` | app/utils.py:9-12 | whitespace, a word, a non-empty whitespace run, a word and whitespace normalize to the two words joined by one space |
| `Names.NormalizeAliceBob` | tests/test_utils.py:4-5 | `"  Alice   Bob  "` normalizes to `"Alice Bob"` |
| `Names.NormalizeBlank` | tests/test_utils.py:7-8 | `"   "` normalizes to `""` |

`Users.ApiScenarios` restates the request sequences of `tests/test_api.py` as assertions about the
class, which follow from the method contracts alone. It covers the following:
- the empty list;
- a first create that gets id 1;
- lookups of ids 1 and 999;
- the duplicate "Alice";
- a create after a clear that gets id 1 again;
- the rejected request `{"name": "", "age": -1}`.

## Left out

- `health` (app/main.py:51-57) returns a constant and has nothing to verify.
- FastAPI routing, decorators, status codes and JSON serialisation are replaced by `Result` values with
  the two error datatypes. A response model that filters fields has no counterpart, because `UserOut`
  already has exactly the returned fields.
- Pydantic's validation machinery and `model_dump()` are not modelled. A request that breaks the
  `UserIn` constraints is answered with HTTP 422 before `create_user` runs. The model therefore makes
  `ValidUserIn` a precondition of `Create` and does not model the 422 path. Type coercion of JSON values
  is not modelled either.
- `Users.UserStore.List`: `list_users` returns the live list object, so a caller could mutate the store
  through it. The model returns the sequence as a value, so that aliasing is not captured.
- `normalize_name`'s `TypeError` for a non-string argument (app/utils.py:6-7) cannot arise, because the
  argument is typed `string`.
- Concurrent requests are not modelled. The source has no locking, and the model assumes calls arrive
  one at a time, as the class's sequential methods do.
- `Names.IsSpace` fixes Python's whitespace table, as listed above. It does not follow later changes to
  Unicode's whitespace property.
- Python integers are unbounded, as Dafny's `int` is, so ids and ages need no width or wrap-around.
