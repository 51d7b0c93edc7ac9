/**
 * The three responses of the "/button-click" handler (`ButtonClickHandler`):
 * the CORS preflight answer, the count answer and the method refusal.
 * Which one a request gets, and what it does to the counter, is
 * `CounterStore.ButtonClickStep`; `Render` turns that decision into the
 * exchange the handler sends.
 */
module ButtonClick {
  import opened Wrappers
  import opened Http
  import Int32
  import Decimal

  const ALLOW_ORIGIN: Header := Header("Access-Control-Allow-Origin", "*")
  const ALLOW_METHODS: Header := Header("Access-Control-Allow-Methods", "POST, OPTIONS")
  const ALLOW_HEADERS: Header := Header("Access-Control-Allow-Headers", "Content-Type")

  /** OPTIONS: 204 No Content, no body, the three CORS headers in this order. */
  function PreflightResponse(): (r: Response)
    ensures Framed(r) && r.status == 204 && r.body.None?
    ensures r.headers == [ALLOW_ORIGIN, ALLOW_METHODS, ALLOW_HEADERS]
  {
    Response(204, [ALLOW_ORIGIN, ALLOW_METHODS, ALLOW_HEADERS], -1, None)
  }

  /** Any method but OPTIONS and POST: 405 Method Not Allowed, no header, no body. */
  function NotAllowedResponse(): (r: Response)
    ensures Framed(r) && r.status == 405 && r.headers == [] && r.body.None?
  {
    Response(405, [], -1, None)
  }

  /**
   * POST: 200 with the allow-all-origins header and as body exactly
   * `String.valueOf` of the new count; a client that parses it gets the count back.
   */
  function CountResponse(n: int): (r: Response)
    requires Int32.InRange(n)
    ensures Framed(r) && r.status == 200 && r.headers == [ALLOW_ORIGIN]
    ensures r.body.Some? && BytesText(r.body.value) == Decimal.ValueOf(n)
    ensures Decimal.ParseInt(BytesText(r.body.value)) == Some(n)
  {
    var text := Decimal.ValueOf(n);
    assert IsAscii(text);
    BytesTextOfAscii(text);
    Decimal.ParseValueOf(n);
    Response(200, [ALLOW_ORIGIN], |text|, Some(AsciiBytes(text)))
  }

  /** What the handler decided to answer, before it is written out as HTTP. */
  datatype Answer = Preflight | Count(n: int) | NotAllowed

  predicate Renderable(a: Answer) {
    a.Count? ==> Int32.InRange(a.n)
  }

  function Render(a: Answer): (r: Response)
    requires Renderable(a)
    ensures Framed(r)
  {
    match a
    case Preflight => PreflightResponse()
    case Count(n) => CountResponse(n)
    case NotAllowed => NotAllowedResponse()
  }

  /** Different counts give different answers, so a client can tell every click apart. */
  lemma CountResponseInjective(m: int, n: int)
    requires Int32.InRange(m) && Int32.InRange(n)
    requires CountResponse(m) == CountResponse(n)
    ensures m == n
  {
  }
}
