/**
 * The parts of Laravel's request and validator the controller calls:
 * `has`, `get`, `all`, `except`, the authenticated user attached to the
 * request, and `Validator::make(...)->fails()` for a `required` rule.
 * Input values are strings (see the README for what this leaves out).
 */
module Laravel {
  import opened Wrappers
  import Php

  /** The request's input: query string and body merged, by parameter name. */
  type Params = map<string, string>

  /** The authenticated user; the controller only ever reads `user_type`. */
  datatype Principal = Principal(id: string, userType: string)

  /** A request: its input and the user attached as `__authenticatedUser` (null when none). */
  datatype Request = Request(input: Params, user: Option<Principal>)

  /** `$request->has($key)`: the key is present, whatever its value. */
  predicate Has(req: Request, key: string)
    ensures Has(req, key) <==> Get(req.input, key).Some?
  {
    key in req.input
  }

  /** `$request->get($key)` and `$data[$key]`: the value, or null when absent. */
  function Get(data: Params, key: string): (v: Option<string>)
    ensures v.Some? <==> key in data
    ensures v.Some? ==> v.value == data[key]
  {
    if key in data then Some(data[key]) else None
  }

  /** `$request->all()`: every field the request has, with the value `get` reads for it. */
  function All(req: Request): (data: Params)
    ensures forall k :: k in data <==> Has(req, k)
    ensures forall k :: k in data ==> Get(data, k) == Get(req.input, k)
  {
    req.input
  }

  /** `$request->except($keys)`: every input field whose name is not in `keys`, with its value. */
  function Except(req: Request, keys: set<string>): (m: Params)
    ensures m.Keys == req.input.Keys - keys
    ensures forall k :: k in m ==> m[k] == req.input[k]
  {
    req.input - keys
  }

  /**
   * `Validator::make($data, [$field => 'required'])->fails()` for string
   * input: the rule fails when the field is missing or `trim` leaves nothing
   * of it.
   */
  function FailsRequired(data: Params, field: string): (fails: bool)
    ensures fails <==> field !in data || Php.Blank(data[field])
    ensures field in data && data[field] != "" && !Php.Stripped(data[field][0]) ==> !fails
  {
    match Get(data, field)
    case None => true
    case Some(v) => Php.Trim(v) == ""
  }
}
