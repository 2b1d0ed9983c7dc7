/** Shared vocabulary of the task API: identifiers, request bodies, results and status codes. */
module Common {

  datatype Option<+T> = None | Some(value: T)

  datatype Result<+T> = Ok(value: T) | Err(message: string)

  /** Document identifiers. MongoDB ObjectIds are opaque; only equality and creation order matter. */
  type UserId = nat
  type TaskId = nat

  /** A session token is an opaque signed string (a JSON Web Token). */
  type Token = string

  /** A binary blob such as the avatar image. */
  type Bytes = seq<bv8>

  /** One value of a parsed JSON request body. `Other` stands for null, arrays and objects. */
  datatype Value = Str(text: string) | Boolean(b: bool) | Num(n: int) | Other

  /** A parsed JSON request body: its keys (those of `Object.keys(req.body)`) and their values. */
  type Body = map<string, Value>

  /** `body` restricted to the keys in `keys`. */
  function Restrict(body: Body, keys: set<string>): (r: Body)
    ensures r.Keys == body.Keys * keys
    ensures forall k :: k in r ==> r[k] == body[k]
  {
    map k | k in body && k in keys :: body[k]
  }

  /** Keeping every key keeps the whole body. */
  lemma RestrictToAllKeys(body: Body)
    ensures Restrict(body, body.Keys) == body
  {
  }

  /** `Object.keys(body).every(k => allowed.includes(k))`. */
  predicate OnlyKeys(body: Body, allowed: set<string>)
  {
    body.Keys <= allowed
  }

  /** Taking one more key out of what is left leaves fewer keys. */
  lemma RemainderShrinks(keys: set<string>, done: set<string>, key: string)
    requires key in keys && key !in done
    ensures |keys - (done + {key})| < |keys - done|
  {
    assert keys - (done + {key}) == (keys - done) - {key};
  }

  /** HTTP status codes the handlers send. */
  const OK: nat := 200
  const CREATED: nat := 201
  const BAD_REQUEST: nat := 400
  const UNAUTHORIZED: nat := 401
  const NOT_FOUND: nat := 404
  const SERVER_ERROR: nat := 500

  /** The body of every rejected PATCH. */
  const INVALID_UPDATES: string := "Invalid updates!"
}
