/**
 * The HTTP client that drives the account flows. Its state is the target
 * address and the cookie jar, a JavaScript `Map` kept here as the list of
 * names in first-insertion order plus the map from name to value. Every
 * completed response runs `SetCookies` on its `Set-Cookie` lines, and every
 * POST carries `CookieString()` as its `Cookie` header.
 */
module Client {
  import opened Wrappers
  import opened Strings
  import opened CookieJar
  import Flows

  /**
   * A completed response as far as the flows look at it: the status and the
   * `Set-Cookie` lines, `None` when the response has no such header.
   */
  datatype Response = Response(statusCode: nat, setCookie: Option<seq<string>>)

  class HttpClient {
    const host: string
    const port: int
    var names: seq<string>
    var cookies: map<string, CookieValue>

    /** The jar as a value. */
    ghost function Contents(): Jar
      reads this
    {
      Jar(names, cookies)
    }

    ghost predicate Valid()
      reads this
    {
      CookieJar.Valid(Contents())
    }

    /** A client for `host:port` with an empty jar. */
    constructor (host: string, port: int)
      ensures Valid()
      ensures this.host == host && this.port == port
      ensures Contents() == Empty()
    {
      this.host := host;
      this.port := port;
      names := [];
      cookies := map[];
    }

    /**
     * `getCookie`: the stored value when `name` is a key of the jar, `None`
     * (JavaScript's `null`) otherwise. A value it returns is the one the
     * next `Cookie` header carries for that name.
     */
    function GetCookie(name: string): (r: Option<CookieValue>)
      reads this
      requires Valid()
      ensures r.None? <==> name !in names
      ensures r.Some? ==> name in cookies && r.value == cookies[name]
      ensures r.Some? ==> Entry(name, r.value) in Entries(Contents())
    {
      if name in cookies then
        KeyIsSent(Contents(), name);
        Some(cookies[name])
      else None
    }

    /**
     * `_setCookies`: stores the pair of every `Set-Cookie` line in order;
     * without the header the jar is left as it is.
     */
    method SetCookies(setCookie: Option<seq<string>>)
      requires Valid()
      modifies this
      ensures Valid()
      ensures Contents() == Receive(old(Contents()), setCookie)
      ensures setCookie.None? ==> names == old(names) && cookies == old(cookies)
    {
      if setCookie.None? {
        return;
      }
      var lines := setCookie.value;
      for i := 0 to |lines|
        invariant Contents() == SetAll(old(Contents()), Parse(lines[..i]))
      {
        ghost var before := Contents();
        var cookie := ParseLine(lines[i]);
        if cookie.name !in cookies {
          names := names + [cookie.name];
        }
        cookies := cookies[cookie.name := cookie.value];
        assert Contents() == Set(before, cookie.name, cookie.value);
        ParseSnoc(lines, i);
        SetAllSnoc(old(Contents()), Parse(lines[..i]), cookie);
      }
      assert lines[..|lines|] == lines;
    }

    /** `_cookieString`: the `Cookie` header for the current jar. */
    method CookieString() returns (header: string)
      requires Valid()
      ensures header == Serialize(Contents())
    {
      var entries: seq<string> := [];
      for i := 0 to |names|
        invariant entries == Entries(Contents())[..i]
      {
        assert names[i] in cookies;
        entries := entries + [names[i] + "=" + ValueText(cookies[names[i]])];
      }
      assert Entries(Contents())[..|names|] == Entries(Contents());
      header := Join(entries, "; ");
    }

    /**
     * `register`: GET the form, POST it, read the banners of the result.
     * `sentCookie` is the `Cookie` header of the POST, `None` when no POST
     * was sent.
     */
    method Register(getResponse: Response, postResponse: Response, banners: Flows.Banners)
      returns (sentCookie: Option<string>, outcome: Outcome<Flows.FlowError>)
      requires Valid()
      modifies this
      ensures Valid()
      ensures outcome ==
        Flows.Classify(Flows.Registration, getResponse.statusCode, postResponse.statusCode, banners)
      ensures var afterGet := Receive(old(Contents()), getResponse.setCookie);
        if getResponse.statusCode == 200 then
          sentCookie == Some(Serialize(afterGet)) && Contents() == Receive(afterGet, postResponse.setCookie)
        else
          sentCookie == None && Contents() == afterGet
    {
      sentCookie, outcome := Submit(Flows.Registration, getResponse, postResponse, banners);
    }

    /** `login`: the same exchange against the login form. */
    method Login(getResponse: Response, postResponse: Response, banners: Flows.Banners)
      returns (sentCookie: Option<string>, outcome: Outcome<Flows.FlowError>)
      requires Valid()
      modifies this
      ensures Valid()
      ensures outcome ==
        Flows.Classify(Flows.Login, getResponse.statusCode, postResponse.statusCode, banners)
      ensures var afterGet := Receive(old(Contents()), getResponse.setCookie);
        if getResponse.statusCode == 200 then
          sentCookie == Some(Serialize(afterGet)) && Contents() == Receive(afterGet, postResponse.setCookie)
        else
          sentCookie == None && Contents() == afterGet
    {
      sentCookie, outcome := Submit(Flows.Login, getResponse, postResponse, banners);
    }

    /**
     * The exchange both flows perform: each response updates the jar as it
     * completes, the POST is sent only after a 200 GET, and the checks throw
     * in order.
     */
    method Submit(flow: Flows.Flow, getResponse: Response, postResponse: Response, banners: Flows.Banners)
      returns (sentCookie: Option<string>, outcome: Outcome<Flows.FlowError>)
      requires Valid()
      modifies this
      ensures Valid()
      ensures outcome == Flows.Classify(flow, getResponse.statusCode, postResponse.statusCode, banners)
      ensures var afterGet := Receive(old(Contents()), getResponse.setCookie);
        if getResponse.statusCode == 200 then
          sentCookie == Some(Serialize(afterGet)) && Contents() == Receive(afterGet, postResponse.setCookie)
        else
          sentCookie == None && Contents() == afterGet
    {
      SetCookies(getResponse.setCookie);
      if getResponse.statusCode != 200 {
        return None, Fail(Flows.UnexpectedStatus(Flows.Get, Flows.Path(flow), getResponse.statusCode));
      }
      var header := CookieString();
      sentCookie := Some(header);
      SetCookies(postResponse.setCookie);
      if postResponse.statusCode != 200 {
        return sentCookie, Fail(Flows.UnexpectedStatus(Flows.Post, Flows.Path(flow), postResponse.statusCode));
      }
      if banners.dangerTitle == Flows.FailureTitle(flow) {
        return sentCookie, Fail(Flows.Rejected(flow, banners.dangerDetail));
      }
      if banners.successTitle != Flows.SuccessTitle(flow) {
        return sentCookie, Fail(Flows.UnknownError(flow));
      }
      outcome := Pass;
    }
  }
}
