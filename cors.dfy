/**
 * The `origin` callback the server hands to its CORS middleware: it lets a
 * request through when it carries no origin, an empty origin, or the
 * allow-listed origin.
 */
module Cors {
  import opened JsValues

  /** The only origin the allow-list names. */
  const AdminOrigin: string := "https://admin.spiritbrewgame.com"

  const AllowedOrigins: seq<string> := [AdminOrigin]

  /** The message of the error the callback is given for a refused origin. */
  const RejectionMessage: string := "CORS 限制：來源不允許"

  /** What the callback is called with: `(null, true)` or `(new Error(…))`. */
  datatype CorsDecision = Allow | Reject(message: string)

  /** `list.includes(v)`: some entry is the very same string as `v`; a value
      that is not a string is never included. */
  predicate Includes(list: seq<string>, v: Value)
  {
    exists i :: 0 <= i < |list| && Str(list[i]) == v
  }

  /** The origin check. An origin that is falsy (absent or empty) is allowed,
      as is one that equals an allow-listed origin exactly; every other origin
      is refused with the fixed message. */
  function CheckOrigin(origin: Value): (d: CorsDecision)
    ensures d == if origin in {Null, Undefined, Num(0), Str(""), Str(AdminOrigin)} then Allow else Reject(RejectionMessage)
  {
    assert Includes(AllowedOrigins, origin) <==> origin == Str(AdminOrigin) by {
      if origin == Str(AdminOrigin) {
        assert Str(AllowedOrigins[0]) == origin;
      }
    }
    if !Truthy(origin) || Includes(AllowedOrigins, origin) then Allow else Reject(RejectionMessage)
  }

  /** For an origin header that is present, exactly the empty string and the
      admin site's origin pass; the match is exact, with no case folding or
      prefix matching. */
  lemma AllowedStringOrigins(origin: string)
    ensures CheckOrigin(Str(origin)) == if origin == "" || origin == AdminOrigin then Allow else Reject(RejectionMessage)
  {
  }

  /** A request without an Origin header is always allowed. */
  lemma AbsentOriginAllowed()
    ensures CheckOrigin(Undefined) == Allow && CheckOrigin(Null) == Allow
  {
  }
}
