/** The answers a Next.js route handler gives. */
module Http {

  datatype Response<+T> =
      /** `NextResponse.json(body)`: status 200 with a JSON body. */
    | Json(body: T)
      /** `NextResponse.json({ error }, { status })`. */
    | ErrorJson(status: int, error: string)
      /** An exception escapes the handler; the framework answers 500 without
          the handler's JSON. */
    | Unhandled(error: string)
  {
    function StatusCode(): (code: int)
      ensures Json? ==> code == 200
      ensures Unhandled? ==> code == 500
    {
      match this
      case Json(_) => 200
      case ErrorJson(s, _) => s
      case Unhandled(_) => 500
    }
  }
}
