/** The exit status the client returns after a request
    (`_print_result`). Everything it prints is left out. */
module ExitStatus {

  /** A decoded JSON value of the server's reply. */
  datatype Json =
    | Null
    | Bool(b: bool)
    | Num(n: real)
    | Str(s: string)
    | Arr(items: seq<Json>)
    | Obj(fields: map<string, Json>)

  /** Python's `bool(v)` for a decoded JSON value: `None`, `False`, zero and
      empty strings, lists and objects are false, everything else true. */
  predicate Truthy(v: Json) {
    match v
    case Null => false
    case Bool(b) => b
    case Num(n) => n != 0.0
    case Str(s) => |s| > 0
    case Arr(items) => |items| > 0
    case Obj(fields) => |fields| > 0
  }

  /** `bool(payload.get("success"))`: an absent key reads as `None`. */
  predicate Succeeded(payload: map<string, Json>) {
    "success" in payload && Truthy(payload["success"])
  }

  /** `_print_result(status, payload, headers)`'s return value: 0 when the
      reply says it succeeded, whatever the status; otherwise 1 for an HTTP
      error status (400 and above) and 0 below it. */
  function ExitCode(status: int, payload: map<string, Json>): (code: int)
    ensures code == 0 || code == 1
    ensures Succeeded(payload) ==> code == 0
    ensures !Succeeded(payload) ==> (code == 1 <==> status >= 400)
  {
    if Succeeded(payload) then 0
    else if status >= 400 then 1
    else 0
  }

  /** A missing, `null`, `false` or `0` success flag counts as failure alike. */
  lemma FalsyFlagsAgree(status: int, payload: map<string, Json>, v: Json)
    requires !Truthy(v)
    ensures ExitCode(status, payload["success" := v]) == ExitCode(status, payload - {"success"})
  {
  }
}
