/**
 * The HTTP boundary between the pages and the routes, reduced to what the code inspects:
 * a status code, a body that is either a one-member JSON object or plain text, and
 * the outcome of reading one string member on the client side.
 */
module Http {
  import opened Optional

  /** A response body: `NextResponse.json({ key: value })` or `new Response(text)`. */
  datatype Body = Json(key: string, value: string) | Text(content: string)

  datatype Response = Response(status: nat, body: Body)

  /** `response.ok`: the status lies in 200..299. */
  predicate IsOk(r: Response) {
    200 <= r.status <= 299
  }

  /**
   * Where a page's `try` block gets to after `fetch`, the `!response.ok` check,
   * `response.json()` and reading one member: the fetch rejected, the status was not ok,
   * the body was not JSON, or the member (absent when `None`).
   */
  datatype FieldReply = FetchFailed | NotOk | BadJson | Field(value: Option<string>)

  /**
   * The reply a page sees for a route response when it reads member `key`.
   * Plain-text bodies are only ever the routes' fixed error messages, which are not JSON.
   */
  function ReadField(r: Response, key: string): (f: FieldReply)
    ensures f.NotOk? <==> !IsOk(r)
    ensures f.Field? && f.value.Some? <==> IsOk(r) && r.body.Json? && r.body.key == key
    ensures f.Field? && f.value.Some? ==> f.value.value == r.body.value
    ensures f != FetchFailed
  {
    if !IsOk(r) then NotOk
    else match r.body
      case Text(_) => BadJson
      case Json(k, v) => Field(if k == key then Some(v) else None)
  }

  /**
   * The outcome of `schema.safeParse(await req.formData())` in a route:
   * `formData()` rejected (inside the route's `try`), the schema refused the form,
   * or the parsed data.
   */
  datatype FormRead<T> = FormDataThrows | SchemaFails | FormParsed(data: T)
}
