/**
 * The locale middleware of index.js.
 *
 * An `I18n` object holds the default locale and the directory of locale folders. For each
 * request its `locale` handler picks a candidate tag from the `accept-language` cookie, the
 * `Accept-Language` header and the default, negotiates it against the locale folders on
 * disk, decides `req.locale.lang`, persists a newly chosen locale in the `accept-language`
 * cookie when it has to, and calls `next`.
 *
 * The filesystem and the `accept-language` package are parameters: a `Disk` value and a
 * `Negotiator` function. The response is a log of `setCookie` calls, and `next` records the
 * request's `locale` field each time it is called.
 */
module I18nMiddleware {
  import opened Wrappers
  import Cookies

  /** The cookie that persists the decision; it has the name of the header it mirrors. */
  const CookieName: string := "accept-language"

  /** JavaScript's `!!v` for a value that is `null`, `undefined` or a string. */
  predicate Truthy(v: Option<string>) {
    v.Some? && v.value != ""
  }

  /** `req.locale`: the configuration at decision time and the decided tag (None for `null`). */
  datatype LocaleDecision = LocaleDecision(default: string, directory: string, lang: Option<string>)

  /** One `res.setCookie(name, value)` call. */
  datatype CookieWrite = CookieWrite(name: string, value: string)

  /**
   * What the filesystem shows one request: the folder names `directories()` lists under the
   * configured directory (None when reading that directory throws), and the paths, relative
   * to the working directory, that `fs.readdirSync` reads without throwing.
   */
  datatype Disk = Disk(listing: Option<set<string>>, readable: set<string>)

  /**
   * The `accept-language` package: `lang.languages(supported)` then `lang.get(candidate)`.
   * The source passes `lang.get` the candidate alone; the third argument, the configured
   * default, is a device of this model that lets `Negotiates` name a fallback. The supported
   * folders are a set: the order `readdirSync` lists them in, which the package may use to
   * rank and to choose its own fallback, is not kept.
   */
  type Negotiator = (string, set<string>, string) -> string

  /** The assumed contract of the package: the answer is a supported tag or the fallback. */
  ghost predicate Negotiates(negotiate: Negotiator) {
    forall candidate, supported, fallback ::
      negotiate(candidate, supported, fallback) in supported ||
      negotiate(candidate, supported, fallback) == fallback
  }

  // ---------------------------------------------------------------------------
  // The decisions of `locale` and `supported`, as functions
  // ---------------------------------------------------------------------------

  /** Line 26: the `accept-language` cookie, looked up only when a non-empty Cookie header is present. */
  function CookieValue(cookieHeader: Option<string>): (c: Option<string>)
    ensures !Truthy(cookieHeader) ==> c.None?
    ensures Truthy(cookieHeader) ==> (c.Some? <==> Cookies.RawValue(CookieName, cookieHeader.value).Some?)
    ensures c.Some? ==> c.value == Cookies.Unescape(Cookies.RawValue(CookieName, cookieHeader.value).value)
  {
    if Truthy(cookieHeader) then Cookies.Extract(CookieName, cookieHeader.value) else None
  }

  /** Line 27: the tag handed to negotiation. */
  function Candidate(cookie: Option<string>, header: Option<string>, default: string): (r: string)
    // The cookie is taken only when it repeats the header, so the header alone decides.
    ensures r == if Truthy(header) then header.value else default
    ensures Truthy(cookie) && cookie == header ==> r == cookie.value
  {
    if Truthy(cookie) && (Truthy(header) && cookie == header) then cookie.value
    else if Truthy(header) then header.value
    else default
  }

  /** Lines 41-46: the locale kept when its folder can be read, the default otherwise. */
  function SupportedLocale(default: string, directory: string, readable: set<string>, locale: string): (r: string)
    ensures r == locale || r == default
    ensures directory + r in readable || r == default
    ensures directory + locale in readable ==> r == locale
  {
    if directory + locale in readable then locale else default
  }

  /** The `lang` field and the value `supported` writes to the cookie, if it is called. */
  datatype Outcome = Outcome(lang: Option<string>, written: Option<string>)

  /** Line 35, with the call of `supported` it may make. */
  function Decide(negotiated: string, cookie: Option<string>, default: string, directory: string, readable: set<string>): (o: Outcome)
    // A cookie is written exactly when the negotiated tag is neither the default nor the cookie held,
    ensures o.written.Some? <==> negotiated != default && cookie != Some(negotiated)
    // it holds the validated tag, which becomes `lang`;
    ensures o.written.Some? ==> o.written.value == SupportedLocale(default, directory, readable, negotiated)
    ensures o.written.Some? ==> o.lang == o.written
    // otherwise `lang` is the negotiated tag when a cookie is held and null when not.
    ensures o.written.None? ==> o.lang == (if Truthy(cookie) then Some(negotiated) else None)
    ensures o.lang == None || o.lang == Some(negotiated) || o.lang == Some(default)
  {
    if negotiated != default && cookie != Some(negotiated) then
      var v := SupportedLocale(default, directory, readable, negotiated);
      Outcome(Some(v), Some(v))
    else if Truthy(cookie) then Outcome(Some(negotiated), None)
    else Outcome(None, None)
  }

  /** What one call of `locale` produces: nothing, when listing the locale folders throws. */
  datatype Resolution = Threw | Resolved(decision: LocaleDecision, written: Option<string>)

  /** Lines 23-36: the whole per-request decision, given the configuration, the request headers and the disk. */
  function Resolve(default: string, directory: string, header: Option<string>, cookieHeader: Option<string>,
                   disk: Disk, negotiate: Negotiator): (r: Resolution)
    ensures r.Threw? <==> disk.listing.None?
    ensures r.Resolved? ==> r.decision.default == default && r.decision.directory == directory
    ensures r.Resolved? && r.written.Some? ==> r.decision.lang == r.written
  {
    var cookie := CookieValue(cookieHeader);
    var candidate := Candidate(cookie, header, default);
    match disk.listing
    case None => Threw
    case Some(supported) =>
      var negotiated := negotiate(candidate, supported, default);
      var o := Decide(negotiated, cookie, default, directory, disk.readable);
      Resolved(LocaleDecision(default, directory, o.lang), o.written)
  }

  // ---------------------------------------------------------------------------
  // The objects
  // ---------------------------------------------------------------------------

  /** The two settings `set` may assign. */
  datatype Property = Default | Directory

  /** An incoming request: its two headers, and the `locale` field the middleware assigns. */
  class Request {
    const acceptLanguage: Option<string>
    const cookieHeader: Option<string>
    var locale: Option<LocaleDecision>

    constructor (acceptLanguage: Option<string>, cookieHeader: Option<string>)
      ensures this.acceptLanguage == acceptLanguage && this.cookieHeader == cookieHeader
      ensures locale == None
    {
      this.acceptLanguage := acceptLanguage;
      this.cookieHeader := cookieHeader;
      locale := None;
    }
  }

  /** A response, seen through the cookies set on it. */
  class Response {
    var cookies: seq<CookieWrite>

    constructor ()
      ensures cookies == []
    {
      cookies := [];
    }

    method SetCookie(name: string, value: string)
      modifies this
      ensures cookies == old(cookies) + [CookieWrite(name, value)]
    {
      cookies := cookies + [CookieWrite(name, value)];
    }
  }

  /** The continuation: each call records the request's `locale` field as it was then. */
  class Next {
    var calls: seq<Option<LocaleDecision>>

    constructor ()
      ensures calls == []
    {
      calls := [];
    }

    method Call(req: Request)
      modifies this
      ensures calls == old(calls) + [req.locale]
    {
      calls := calls + [req.locale];
    }
  }

  /** The middleware object exported by index.js. */
  class I18n {
    var default: string
    var directory: string

    /** Lines 7-9. */
    constructor ()
      ensures default == "en-US" && directory == "/i18n/"
    {
      default := "en-US";
      directory := "/i18n/";
    }

    /** Lines 19-21: replaces one setting and leaves the other as it was. */
    method Set(property: Property, value: string)
      modifies this
      ensures property == Default ==> default == value && directory == old(directory)
      ensures property == Directory ==> directory == value && default == old(default)
    {
      match property
      case Default => default := value;
      case Directory => directory := value;
    }

    /** Lines 41-50: validate `locale` against its folder, persist the result in the cookie, return it. */
    method Supported(res: Response, locale: string, readable: set<string>) returns (r: string)
      modifies res
      ensures r == SupportedLocale(default, directory, readable, locale)
      ensures res.cookies == old(res.cookies) + [CookieWrite(CookieName, r)]
    {
      r := locale;
      if directory + r !in readable {
        // `fs.readdirSync` threw, and the catch falls back to the default
        r := default;
      }
      res.SetCookie(CookieName, r);
    }

    /**
     * Lines 23-39: resolve the request's locale, assign `req.locale`, then call `next` once.
     * `threw` reports the exception `directories()` raises when the configured directory
     * cannot be listed; nothing is assigned, written or called then.
     */
    method Locale(req: Request, res: Response, next: Next, disk: Disk, negotiate: Negotiator) returns (threw: bool)
      modifies req, res, next
      ensures threw <==> disk.listing.None?
      ensures threw ==> req.locale == old(req.locale) && res.cookies == old(res.cookies) && next.calls == old(next.calls)
      ensures !threw ==>
        var r := Resolve(default, directory, req.acceptLanguage, req.cookieHeader, disk, negotiate);
        && req.locale == Some(r.decision)
        && res.cookies == old(res.cookies) + (if r.written.Some? then [CookieWrite(CookieName, r.written.value)] else [])
        && next.calls == old(next.calls) + [Some(r.decision)]
    {
      var cookie := CookieValue(req.cookieHeader);
      var locale := Candidate(cookie, req.acceptLanguage, default);
      if disk.listing.None? {
        return true;
      }
      locale := negotiate(locale, disk.listing.value, default);
      var lang: Option<string>;
      if locale != default && cookie != Some(locale) {
        var validated := Supported(res, locale, disk.readable);
        lang := Some(validated);
      } else if Truthy(cookie) {
        lang := Some(locale);
      } else {
        lang := None;
      }
      req.locale := Some(LocaleDecision(default, directory, lang));
      next.Call(req);
      threw := false;
    }
  }

  // ---------------------------------------------------------------------------
  // Properties of the resolution
  // ---------------------------------------------------------------------------

  /** With a package that keeps its contract, `lang` and the written cookie name a listed locale or the default. */
  lemma LangIsSupportedOrDefault(default: string, directory: string, header: Option<string>,
                                 cookieHeader: Option<string>, disk: Disk, negotiate: Negotiator)
    requires Negotiates(negotiate)
    requires disk.listing.Some?
    ensures var r := Resolve(default, directory, header, cookieHeader, disk, negotiate);
      r.Resolved? &&
      (r.decision.lang == None || r.decision.lang.value in disk.listing.value || r.decision.lang.value == default) &&
      (r.written.Some? ==> directory + r.written.value in disk.readable || r.written.value == default)
  {
    var cookie := CookieValue(cookieHeader);
    var candidate := Candidate(cookie, header, default);
    var negotiated := negotiate(candidate, disk.listing.value, default);
    assert negotiated in disk.listing.value || negotiated == default;
  }

  /**
   * No header and no cookie value (no Cookie header, no `accept-language` pair in it, or an
   * empty one): `lang` is null and no cookie is written, when the default negotiates to itself.
   */
  lemma NoHeaderNoCookie(default: string, directory: string, header: Option<string>,
                         cookieHeader: Option<string>, disk: Disk, negotiate: Negotiator)
    requires !Truthy(header) && !Truthy(CookieValue(cookieHeader))
    requires disk.listing.Some? && negotiate(default, disk.listing.value, default) == default
    ensures Resolve(default, directory, header, cookieHeader, disk, negotiate)
         == Resolved(LocaleDecision(default, directory, None), None)
  {
    assert Candidate(CookieValue(cookieHeader), header, default) == default;
  }

  /** A header naming a readable non-default locale, and no cookie: that locale is chosen and persisted. */
  lemma HeaderLocaleIsPersisted(default: string, directory: string, tag: string,
                                cookieHeader: Option<string>, disk: Disk, negotiate: Negotiator)
    requires tag != "" && tag != default && directory + tag in disk.readable
    requires !Truthy(CookieValue(cookieHeader))
    requires disk.listing.Some? && negotiate(tag, disk.listing.value, default) == tag
    ensures Resolve(default, directory, Some(tag), cookieHeader, disk, negotiate)
         == Resolved(LocaleDecision(default, directory, Some(tag)), Some(tag))
  {
    assert Candidate(CookieValue(cookieHeader), Some(tag), default) == tag;
  }

  /** A negotiated locale whose folder cannot be read falls back to the default, in `lang` and in the cookie. */
  lemma UnreadableLocaleFallsBack(default: string, directory: string, header: Option<string>,
                                  cookieHeader: Option<string>, disk: Disk, negotiate: Negotiator)
    requires disk.listing.Some?
    requires var cookie := CookieValue(cookieHeader);
             var n := negotiate(Candidate(cookie, header, default), disk.listing.value, default);
             n != default && cookie != Some(n) && directory + n !in disk.readable
    ensures Resolve(default, directory, header, cookieHeader, disk, negotiate)
         == Resolved(LocaleDecision(default, directory, Some(default)), Some(default))
  {
  }

  /**
   * A held cookie that differs from a negotiated default is neither used nor corrected:
   * `lang` is the default and no cookie is written.
   */
  lemma StaleCookieKept(default: string, directory: string, header: Option<string>,
                        cookieHeader: Option<string>, disk: Disk, negotiate: Negotiator)
    requires disk.listing.Some?
    requires var cookie := CookieValue(cookieHeader);
             Truthy(cookie) && negotiate(Candidate(cookie, header, default), disk.listing.value, default) == default
    ensures Resolve(default, directory, header, cookieHeader, disk, negotiate)
         == Resolved(LocaleDecision(default, directory, Some(default)), None)
  {
  }

  /** The Cookie header a browser sends back after `setCookie(CookieName, tag)`, alone. */
  function EchoedCookieHeader(tag: string): string {
    CookieName + "=" + tag
  }

  /** The echoed cookie reads back as the tag, for a tag with no `;`, `%` or line terminator. */
  lemma EchoedCookieReadsBack(tag: string)
    requires forall k :: 0 <= k < |tag| ==> tag[k] != ';' && tag[k] != '%' && !Cookies.IsLineTerminator(tag[k])
    ensures CookieValue(Some(EchoedCookieHeader(tag))) == Some(tag)
  {
    Cookies.LeadingPairWins(CookieName, tag, "");
    assert CookieName + "=" + tag + "" == EchoedCookieHeader(tag);
  }

  /**
   * A repeat visit: when the cookie holds `V`, the header is `V`, and `V` is not the default
   * and negotiates to itself, `V` is `lang` and no cookie is rewritten.
   */
  lemma RepeatVisitWritesNothing(default: string, directory: string, tag: string, cookieHeader: Option<string>,
                                 disk: Disk, negotiate: Negotiator)
    requires tag != "" && tag != default
    requires CookieValue(cookieHeader) == Some(tag)
    requires disk.listing.Some? && negotiate(tag, disk.listing.value, default) == tag
    ensures Resolve(default, directory, Some(tag), cookieHeader, disk, negotiate)
         == Resolved(LocaleDecision(default, directory, Some(tag)), None)
  {
    assert Candidate(Some(tag), Some(tag), default) == tag;
  }

  /**
   * `accept-language=V` among other cookies, after `;` or `; `, reads back as `V` when no
   * `accept-language` pair comes earlier.
   */
  lemma CookieAmongOthersReadsBack(tag: string, prefix: string, rest: string)
    requires forall k :: 0 <= k < |tag| ==> tag[k] != ';' && tag[k] != '%' && !Cookies.IsLineTerminator(tag[k])
    requires prefix == [] || prefix[|prefix| - 1] == ';' ||
             (|prefix| >= 2 && prefix[|prefix| - 2] == ';' && prefix[|prefix| - 1] == ' ')
    requires rest == [] || rest[0] == ';'
    requires Cookies.NoPairBefore(prefix + CookieName + "=" + tag + rest, CookieName, |prefix|)
    ensures CookieValue(Some(prefix + CookieName + "=" + tag + rest)) == Some(tag)
  {
    var s := prefix + CookieName + "=" + tag + rest;
    var q := |prefix|;
    Cookies.PairCapture(s, prefix, CookieName, tag, rest);
    assert q > 0 ==> s[q - 1] == prefix[q - 1];
    assert q > 1 ==> s[q - 2] == prefix[q - 2];
    assert Cookies.AnchoredName(s, CookieName, q);
    Cookies.FirstPairWins(CookieName, s, q);
  }

  /**
   * The repeat visit with a Cookie header as browsers send it: other cookies, then
   * `accept-language=V` after `;` or `; `, then more cookies. When no `accept-language` pair
   * comes earlier, `V` is `lang` and no cookie is rewritten.
   */
  lemma RepeatVisitAmongOtherCookies(default: string, directory: string, tag: string, prefix: string,
                                     rest: string, disk: Disk, negotiate: Negotiator)
    requires tag != "" && tag != default
    requires forall k :: 0 <= k < |tag| ==> tag[k] != ';' && tag[k] != '%' && !Cookies.IsLineTerminator(tag[k])
    requires prefix == [] || prefix[|prefix| - 1] == ';' ||
             (|prefix| >= 2 && prefix[|prefix| - 2] == ';' && prefix[|prefix| - 1] == ' ')
    requires rest == [] || rest[0] == ';'
    requires Cookies.NoPairBefore(prefix + CookieName + "=" + tag + rest, CookieName, |prefix|)
    requires disk.listing.Some? && negotiate(tag, disk.listing.value, default) == tag
    ensures Resolve(default, directory, Some(tag), Some(prefix + CookieName + "=" + tag + rest), disk, negotiate)
         == Resolved(LocaleDecision(default, directory, Some(tag)), None)
  {
    CookieAmongOthersReadsBack(tag, prefix, rest);
    RepeatVisitWritesNothing(default, directory, tag, Some(prefix + CookieName + "=" + tag + rest), disk, negotiate);
  }

  /**
   * Idempotence: after a request that wrote the cookie, a request whose header and cookie
   * both carry the written tag (and whose negotiation keeps that tag) gets the same `lang`
   * and writes nothing.
   */
  lemma ResolutionIsIdempotent(default: string, directory: string, header: Option<string>,
                               cookieHeader: Option<string>, disk: Disk, negotiate: Negotiator)
    requires var r := Resolve(default, directory, header, cookieHeader, disk, negotiate);
             r.Resolved? && r.written.Some? && r.written.value != ""
    requires var tag := Resolve(default, directory, header, cookieHeader, disk, negotiate).written.value;
             (forall k :: 0 <= k < |tag| ==> tag[k] != ';' && tag[k] != '%' && !Cookies.IsLineTerminator(tag[k])) &&
             negotiate(tag, disk.listing.value, default) == tag
    ensures var first := Resolve(default, directory, header, cookieHeader, disk, negotiate);
            var tag := first.written.value;
            var second := Resolve(default, directory, Some(tag), Some(EchoedCookieHeader(tag)), disk, negotiate);
            second == Resolved(first.decision, None)
  {
    var first := Resolve(default, directory, header, cookieHeader, disk, negotiate);
    var tag := first.written.value;
    EchoedCookieReadsBack(tag);
    assert Candidate(Some(tag), Some(tag), default) == tag;
  }

  /** The example configuration: header `fr-FR`, no cookie, `/i18n/fr-FR` readable. */
  lemma FrenchHeaderScenario(disk: Disk, negotiate: Negotiator)
    requires disk.listing.Some? && "/i18n/fr-FR" in disk.readable
    requires negotiate("fr-FR", disk.listing.value, "en-US") == "fr-FR"
    ensures Resolve("en-US", "/i18n/", Some("fr-FR"), None, disk, negotiate)
         == Resolved(LocaleDecision("en-US", "/i18n/", Some("fr-FR")), Some("fr-FR"))
  {
    assert "/i18n/" + "fr-FR" == "/i18n/fr-FR";
    HeaderLocaleIsPersisted("en-US", "/i18n/", "fr-FR", None, disk, negotiate);
  }
}
