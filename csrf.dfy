/** The CSRF token renewal of the live copy: `obterNovoTokenCSRF`,
    `atualizarTokenCSRF`, `verificarTokenCSRF` and the guard at the top of
    `enviarFormulario`. The two requests are inputs: what the token endpoint
    answered, and what the re-fetched page held. */
module Csrf {

  datatype Option<T> = None | Some(get: T)

  /** The parsed JSON body of the endpoint's reply (its `csrf_token`
      member, if any), or the error `response.json()` raised. */
  datatype Body = Parsed(csrfToken: Option<string>) | Malformed(error: string)

  /** The reply of `fetch('/csrf-token/')`, or the error it raised. */
  datatype EndpointReply = EndpointReply(ok: bool, status: int, body: Body) | EndpointError(message: string)

  /** The reply of the page fetch: whether it was ok and the value of the
      `[name=csrfmiddlewaretoken]` element in its text, if there was one; or
      the error the fetch raised. */
  datatype PageReply = PageReply(ok: bool, scraped: Option<string>) | PageError(message: string)

  /** What `obterNovoTokenCSRF` settles with: a value (a token or `null`) or
      an exception with its message. */
  datatype Obtained = Returned(token: Option<string>) | Raised(message: string)

  /** The `{success, message}` object of `atualizarTokenCSRF`. */
  datatype Renewal = Renewal(success: bool, message: string)

  const RateLimited := "Muitas tentativas. Aguarde um momento."
  const Forbidden := "Acesso negado"
  const Renewed := "Token atualizado com sucesso"
  const NotObtained := "N\U{00E3}o foi poss\U{00ED}vel obter novo token"
  const RenewalFailed := "Erro ao atualizar token"
  const NoTokenField := "Token CSRF n\U{00E3}o encontrado"

  /** JavaScript truthiness of a token value: a non-empty string. */
  predicate Truthy(t: Option<string>) {
    t.Some? && t.get != ""
  }

  /** The page-scrape fallback. */
  function FromPage(page: PageReply): Obtained {
    match page
    case PageError(m) => Raised(m)
    case PageReply(ok, scraped) => if ok then Returned(scraped) else Returned(None)
  }

  /** `obterNovoTokenCSRF`: a token it returns is the one the endpoint's
      ok reply carried or the one scraped from an ok page; an error it raises
      is the failed request's or the unreadable body's own, or one of the two
      refusals. */
  function ObtainToken(endpoint: EndpointReply, page: PageReply): (r: Obtained)
    ensures r.Returned? && Truthy(r.token) ==>
      (endpoint.EndpointReply? && endpoint.ok && endpoint.body == Parsed(r.token))
      || (page.PageReply? && page.ok && page.scraped == r.token)
    ensures r.Raised? ==>
      (endpoint.EndpointError? && r.message == endpoint.message)
      || (endpoint.EndpointReply? && endpoint.body.Malformed? && r.message == endpoint.body.error)
      || (endpoint.EndpointReply? && !endpoint.ok && endpoint.status == 429 && r.message == RateLimited)
      || (endpoint.EndpointReply? && !endpoint.ok && endpoint.status == 403 && r.message == Forbidden)
      || (page.PageError? && r.message == page.message)
  {
    match endpoint
    case EndpointError(m) => Raised(m)
    case EndpointReply(ok, status, body) =>
      if ok then
        match body
        case Malformed(m) => Raised(m)
        case Parsed(t) => if Truthy(t) then Returned(t) else FromPage(page)
      else if status == 429 then
        match body
        case Malformed(m) => Raised(m)
        case Parsed(_) => Raised(RateLimited)
      else if status == 403 then Raised(Forbidden)
      else FromPage(page)
  }

  /** `atualizarTokenCSRF`'s result, for a page with (`present`) or without
      the token field. */
  function Renew(present: bool, obtained: Obtained): (r: Renewal)
    ensures r.success <==> present && obtained.Returned? && Truthy(obtained.token)
    ensures r.message != ""
    ensures present && obtained.Raised? && obtained.message != "" ==> r.message == obtained.message
  {
    if !present then Renewal(false, NoTokenField)
    else match obtained
      case Returned(t) => if Truthy(t) then Renewal(true, Renewed) else Renewal(false, NotObtained)
      case Raised(m) => Renewal(false, if m != "" then m else RenewalFailed)
  }

  /** The token field's value after `atualizarTokenCSRF`. */
  function RenewedToken(present: bool, obtained: Obtained, current: string): string {
    if present && obtained.Returned? && Truthy(obtained.token) then obtained.token.get else current
  }

  /** `verificarTokenCSRF`: `true` when the field holds a token, otherwise
      the renewal's result object. */
  datatype Check = Present | Attempted(renewal: Renewal)

  function VerifyToken(present: bool, current: string, obtained: Obtained): (c: Check)
    ensures CheckTruthy(c)
    ensures c == Present <==> present && current != ""
    ensures c.Attempted? ==> c.renewal == Renew(present, obtained)
  {
    if !present || current == "" then Attempted(Renew(present, obtained)) else Present
  }

  /** JavaScript truthiness of `verificarTokenCSRF`'s result: `true`, or an
      object, which is truthy whatever it holds. */
  predicate CheckTruthy(c: Check) {
    match c
    case Present => true
    case Attempted(_) => true
  }

  /** `enviarFormulario`: whether the form is submitted. */
  function SendForm(present: bool, current: string, obtained: Obtained): (submitted: bool)
    ensures submitted
  {
    CheckTruthy(VerifyToken(present, current, obtained))
  }

  // ---------------------------------------------------------------------

  /** An ok reply carrying a token returns it; the page is not consulted. */
  lemma EndpointTokenWins(status: int, t: string, page: PageReply)
    requires t != ""
    ensures ObtainToken(EndpointReply(true, status, Parsed(Some(t))), page) == Returned(Some(t))
  {
  }

  /** 429 and 403 raise their errors, whatever the page would have held. */
  lemma RefusalsHaveNoFallback(body: Body, page: PageReply)
    ensures ObtainToken(EndpointReply(false, 429, body), page).Raised?
    ensures body.Parsed? ==> ObtainToken(EndpointReply(false, 429, body), page) == Raised(RateLimited)
    ensures ObtainToken(EndpointReply(false, 403, body), page) == Raised(Forbidden)
  {
  }

  /** Every other non-ok reply, and an ok reply without a usable token, falls
      through to the page: the result is then exactly the fallback's. */
  lemma FallThrough(endpoint: EndpointReply, page: PageReply)
    requires endpoint.EndpointReply?
    requires (!endpoint.ok && endpoint.status != 429 && endpoint.status != 403)
          || (endpoint.ok && endpoint.body.Parsed? && !Truthy(endpoint.body.csrfToken))
    ensures ObtainToken(endpoint, page) == FromPage(page)
  {
  }

  /** The fallback yields the scraped token or `null`, and `null` when the
      page request was not ok. */
  lemma PageFallback(ok: bool, scraped: Option<string>)
    ensures FromPage(PageReply(ok, scraped)) == if ok then Returned(scraped) else Returned(None)
  {
  }

  /** The page is consulted only on a fall-through: whenever two page replies
      give different results, the endpoint reply is one that falls through. */
  lemma PageOnlyOnFallThrough(endpoint: EndpointReply, p1: PageReply, p2: PageReply)
    requires ObtainToken(endpoint, p1) != ObtainToken(endpoint, p2)
    ensures endpoint.EndpointReply?
    ensures (!endpoint.ok && endpoint.status != 429 && endpoint.status != 403)
         || (endpoint.ok && endpoint.body.Parsed? && !Truthy(endpoint.body.csrfToken))
  {
  }

  /** The field is written only by a successful renewal, and then with the
      token obtained. */
  lemma WritesOnlyObtainedToken(present: bool, obtained: Obtained, current: string)
    ensures RenewedToken(present, obtained, current) != current ==> Renew(present, obtained).success
    ensures Renew(present, obtained).success ==> RenewedToken(present, obtained, current) == obtained.token.get
  {
  }

  /** A field holding a token skips the renewal: no request is made and the
      token stays. */
  lemma VerifySkipsPresentToken(current: string, obtained: Obtained)
    requires current != ""
    ensures VerifyToken(true, current, obtained) == Present
  {
  }

  /** The abort in `enviarFormulario` cannot fire: even a failed renewal
      returns an object, which is truthy. */
  lemma FailedRenewalStillSubmits(present: bool, current: string, obtained: Obtained)
    requires !Renew(present, obtained).success && (!present || current == "")
    ensures VerifyToken(present, current, obtained) == Attempted(Renew(present, obtained))
    ensures SendForm(present, current, obtained)
  {
  }
}
