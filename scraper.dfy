/**
 * The Fakebook crawler: a `Scraper` owns the crawl frontier, the flags
 * found so far and the login session, and drives requests through the
 * requester.
 *
 * The server is an oracle: the sequence of responses it gives to the
 * crawler's successive requests, in order. Once it is used up the
 * connection is closed, and a closed connection yields the synthetic
 * 500 response (HttpReceive.ClosedConnection). Each request the crawler
 * makes is recorded as a `Request`, whose `Wire` text is what `get` or
 * `post` would send.
 * HTML parsing is the function `extract`, given at construction.
 */
module Scraper {
  import opened Common
  import opened Text
  import opened HttpMessage
  import opened HttpRequests
  import opened Frontier

  const LoginUrl: string := "http://fring.ccs.neu.edu/accounts/login/"
  const LogoutUrl: string := "http://fring.ccs.neu.edu/accounts/logout"
  const ProbeUrl: string := "fring.ccs.neu.edu/fakebook/"
  const StartUrl: string := "http://fring.ccs.neu.edu/fakebook/"
  /** `run` stops once this many distinct flags are known. */
  const FlagTarget: nat := 5

  /** What the HTML parser finds in a page: link targets, secret-flag texts, the CSRF token. */
  datatype Page = Page(hrefs: seq<string>, flagTexts: seq<string>, csrfToken: Option<string>)

  /** The exceptions the crawler can raise. */
  datatype CrawlError =
    | EmptyQueue              // `keys()[0]` of an empty queue
    | MissingCsrfToken        // no element named csrfmiddlewaretoken
    | MissingHeader(name: string)

  /** The response the server gives next. */
  function Answer(server: seq<Response>): Response
  {
    if server == [] then Synthetic500 else server[0]
  }

  /** What the server still has to give after answering one request. */
  function Remaining(server: seq<Response>): seq<Response>
  {
    if server == [] then [] else server[1..]
  }

  /** `later` is what is left of `earlier` once some leading entries are gone. */
  ghost predicate Suffix<T>(later: seq<T>, earlier: seq<T>)
  {
    |later| <= |earlier| && later == earlier[|earlier| - |later|..]
  }

  lemma SuffixTrans<T>(a: seq<T>, b: seq<T>, c: seq<T>)
    requires Suffix(a, b) && Suffix(b, c)
    ensures Suffix(a, c)
  {
    assert c[|c| - |b|..][|b| - |a|..] == c[|c| - |a|..];
  }

  lemma AppendTwo<T>(s: seq<T>, a: T, b: T)
    ensures s + [a] + [b] == s + [a, b]
  {
  }

  /** `{"Cookie": self.cookie}`; a cookie never set is formatted as `None`. */
  function CookieHeader(cookie: Option<string>): seq<(string, string)>
  {
    [("Cookie", match cookie case None => "None" case Some(c) => c)]
  }

  /** The form `log_in` posts. */
  function LoginForm(token: string, password: string, username: string): seq<(string, string)>
  {
    [("csrfmiddlewaretoken", token), ("password", password), ("username", username)]
  }

  /** The header `log_in` posts with. */
  function LoginCookie(token: string): seq<(string, string)>
  {
    [("Cookie", "csrftoken=" + token + ";")]
  }

  /** The session cookie kept after a login. */
  function SessionCookie(setCookie: string, token: string): string
  {
    setCookie + "; csrftoken=" + token
  }

  /** The probe of `is_logged_in` reads any status outside 301..399 as logged in. */
  predicate ProbeSaysLoggedIn(status: int)
  {
    !(300 < status < 400)
  }

  /** A request the crawler makes through the requester. */
  datatype Request =
    | Get(url: string, headers: seq<(string, string)>)
    | Post(url: string, data: seq<(string, string)>, headers: seq<(string, string)>)

  /** The text the requester writes to the socket for a request. */
  function Wire(request: Request): string
  {
    match request
    case Get(url, headers) => GetRequest(url, headers)
    case Post(url, data, headers) => PostRequest(url, data, headers)
  }

  /**
   * The page request `get_page` makes, as the requester writes it: the
   * request line, the host and keep-alive lines, one `Cookie` line carrying
   * the session cookie (the text `None` before any login), then the empty
   * lines that end the head.
   */
  lemma PageRequestOnTheWire(url: string, cookie: Option<string>)
    requires NoNewline(PathOf(url)) && NoNewline(HostName(url))
    requires cookie.Some? ==> NoNewline(cookie.value)
    ensures Split(Wire(Get(url, CookieHeader(cookie))), "\n") ==
      [RequestLine("GET", PathOf(url)), HostPrefix + HostName(url), KeepAlive]
        + ["Cookie: " + (if cookie.Some? then cookie.value else "None")] + ["", "", ""]
  {
    var value := if cookie.Some? then cookie.value else "None";
    var line := "Cookie" + FieldSeparator + value;
    CookieLineClean(value);
    assert FieldLines(CookieHeader(cookie)) == [line];
    assert AllLines([line]);
    GetRequestLines(url, CookieHeader(cookie));
    assert CookieHeader(cookie) != [];
    assert "Cookie" + FieldSeparator == "Cookie: ";
  }

  /** A cookie line holds no newline when its value holds none. */
  lemma CookieLineClean(value: string)
    requires NoNewline(value)
    ensures NoNewline("Cookie" + FieldSeparator + value)
  {
    var line := "Cookie" + FieldSeparator + value;
    forall k | 0 <= k < |line|
      ensures line[k] != '\n'
    {
      if k >= 8 {
        assert line[k] == value[k - 8];
      }
    }
  }

  /** The last request a non-empty log records. */
  function LastSent(sent: seq<Request>): Request
    requires sent != []
  {
    sent[|sent| - 1]
  }

  /** What the login session depends on: the server's remaining answers, the request log, the login state, the cookie. */
  datatype Session = Session(server: seq<Response>, sent: seq<Request>, loggedIn: Option<bool>, cookie: Option<string>)

  /** One request made and answered: the server moves on and the request is logged. */
  function Exchanged(s: Session, request: Request): (t: Session)
    ensures t.sent == s.sent + [request] && |t.sent| > |s.sent| && Suffix(t.server, s.server)
    ensures t.loggedIn == s.loggedIn && t.cookie == s.cookie
  {
    s.(server := Remaining(s.server), sent := s.sent + [request])
  }

  /** `get_page` has to log in first: the session is logged out, or its state is unknown and the probe reads logged out. */
  predicate NeedsLogin(s: Session)
  {
    s.loggedIn == Some(false) || (s.loggedIn.None? && !ProbeSaysLoggedIn(Answer(s.server).statusCode))
  }

  class Scraper {
    const username: string
    const password: string
    const extract: string -> Page

    var urlQueue: seq<string>
    var urlBlacklist: set<string>
    var flags: seq<string>
    var loggedIn: Option<bool>
    var cookie: Option<string>

    /** The responses the server will still give, in order. */
    var server: seq<Response>
    /** Every request written so far; `Wire` gives its text. */
    var sent: seq<Request>
    /** How many times `initiate_connection` reopened the connection. */
    var reconnects: nat

    ghost predicate Valid()
      reads this
    {
      FrontierValid(urlQueue, urlBlacklist) && NoDup(flags)
    }

    /** The frontier and the flags are as they were. */
    twostate predicate FrontierKept()
      reads this
    {
      urlQueue == old(urlQueue) && urlBlacklist == old(urlBlacklist) && flags == old(flags)
    }

    /** The login state and the cookie are as they were. */
    twostate predicate SessionKept()
      reads this
    {
      loggedIn == old(loggedIn) && cookie == old(cookie)
    }

    /** The session part of the crawler's state. */
    function Snapshot(): Session
      reads this
    {
      Session(server, sent, loggedIn, cookie)
    }

    /**
     * `log_in` from session `s`: fetch the login page, post the form with its
     * CSRF token, mark the session logged in and keep the returned cookie.
     */
    function LogInFrom(s: Session): (Session, Option<CrawlError>)
    {
      var s1 := Exchanged(s, Get(LoginUrl, []));
      match extract(Answer(s.server).text).csrfToken
      case None => (s1, Some(MissingCsrfToken))
      case Some(token) =>
        var reply := Answer(s1.server);
        var s2 := Exchanged(s1, Post(LoginUrl, LoginForm(token, password, username), LoginCookie(token)));
        var s3 := s2.(loggedIn := Some(true));
        if "Set-Cookie" in reply.headers then (s3.(cookie := Some(SessionCookie(reply.headers["Set-Cookie"], token))), None)
        else (s3, Some(MissingHeader("Set-Cookie")))
    }

    /** The first half of `get_page` from session `s`: probe when the state is unknown, then log in if needed. */
    function EnsureFrom(s: Session): (Session, Option<CrawlError>)
    {
      match s.loggedIn
      case Some(true) => (s, None)
      case Some(false) => LogInFrom(s)
      case None =>
        var s1 := Exchanged(s, Get(ProbeUrl, []));
        if ProbeSaysLoggedIn(Answer(s.server).statusCode) then (s1, None) else LogInFrom(s1)
    }

    /** `get_page(url)` from session `s`: the page is the server's answer to a GET carrying the session cookie. */
    function GetPageFrom(s: Session, url: string): (Session, Result<Response, CrawlError>)
    {
      var (s1, e) := EnsureFrom(s);
      if e.Some? then (s1, Err(e.value))
      else (Exchanged(s1, Get(url, CookieHeader(s1.cookie))), Ok(Answer(s1.server)))
    }

    /**
     * A login posts the token it found both in the form and in the cookie
     * header, marks the session logged in whenever it posts, and succeeds
     * exactly when the page had a token and the reply set a cookie, which
     * then becomes the session cookie.
     */
    lemma LogInOutcome(s: Session)
      ensures var (t, e) := LogInFrom(s);
        var token := extract(Answer(s.server).text).csrfToken;
        var reply := Answer(Remaining(s.server));
        && Suffix(t.server, s.server) && |t.sent| > |s.sent| && t.sent[..|s.sent|] == s.sent
        && t.sent[|s.sent|] == Get(LoginUrl, [])
        && (token.None? ==> e == Some(MissingCsrfToken) && t.loggedIn == s.loggedIn && t.cookie == s.cookie)
        && (token.Some? ==>
              t.loggedIn == Some(true)
              && t.sent[|t.sent| - 1] == Post(LoginUrl, LoginForm(token.value, password, username), LoginCookie(token.value)))
        && (e.None? <==> token.Some? && "Set-Cookie" in reply.headers)
        && (e.None? ==> t.cookie == Some(SessionCookie(reply.headers["Set-Cookie"], token.value)))
    {
      var s1 := Exchanged(s, Get(LoginUrl, []));
      assert s1.sent[..|s.sent|] == s.sent;
      var token := extract(Answer(s.server).text).csrfToken;
      if token.Some? {
        var s2 := Exchanged(s1, Post(LoginUrl, LoginForm(token.value, password, username), LoginCookie(token.value)));
        assert s2.sent[..|s.sent|] == s.sent && s2.sent[|s.sent|] == Get(LoginUrl, []);
        SuffixTrans(s2.server, s1.server, s.server);
      }
    }

    /**
     * `get_page` logs in exactly when the session needs it: a login request
     * is among those it sends before the page exactly when the session was
     * logged out or the probe read logged out. With no error the session is
     * not logged out afterwards.
     */
    lemma EnsureLogsIn(s: Session)
      ensures var (t, e) := EnsureFrom(s);
        && Suffix(t.server, s.server) && |s.sent| <= |t.sent| && t.sent[..|s.sent|] == s.sent
        && (NeedsLogin(s) <==> Get(LoginUrl, []) in t.sent[|s.sent|..])
        && (e.None? ==> t.loggedIn != Some(false))
        && (!NeedsLogin(s) ==> e.None? && t.cookie == s.cookie)
    {
      var (t, e) := EnsureFrom(s);
      if s.loggedIn.None? {
        var s1 := Exchanged(s, Get(ProbeUrl, []));
        assert s1.sent[|s.sent|..] == [Get(ProbeUrl, [])];
        if !ProbeSaysLoggedIn(Answer(s.server).statusCode) {
          LogInOutcome(s1);
          assert t.sent[|s.sent|..][1] == t.sent[|s1.sent|];
          assert t.sent[..|s.sent|] == t.sent[..|s1.sent|][..|s.sent|];
          SuffixTrans(t.server, s1.server, s.server);
        }
      } else if s.loggedIn == Some(false) {
        LogInOutcome(s);
        assert t.sent[|s.sent|..][0] == t.sent[|s.sent|];
      } else {
        assert t.sent[|s.sent|..] == [];
      }
    }

    /**
     * The page `get_page` returns is a response the server gave, or the
     * synthetic 500 of a closed connection, never anything else; it answers
     * the last request sent, a GET of the URL with the session cookie, and
     * the session is not logged out afterwards.
     */
    lemma GetPageAnswer(s: Session, url: string)
      ensures var (t, r) := GetPageFrom(s, url);
        && Suffix(t.server, s.server) && |s.sent| <= |t.sent| && t.sent[..|s.sent|] == s.sent
        && (r.Ok? ==>
              (r.value in s.server || r.value == Synthetic500)
              && |t.sent| > 0 && LastSent(t.sent) == Get(url, CookieHeader(t.cookie))
              && t.loggedIn != Some(false) && (s.server != [] ==> |t.server| < |s.server|))
    {
      EnsureLogsIn(s);
      var (s1, e) := EnsureFrom(s);
      if e.None? {
        var t := Exchanged(s1, Get(url, CookieHeader(s1.cookie)));
        assert t.sent[..|s.sent|] == s1.sent[..|s.sent|];
        SuffixTrans(t.server, s1.server, s.server);
        if s1.server != [] {
          assert s1.server[0] == s.server[|s.server| - |s1.server|];
        }
      }
    }

    constructor (username: string, password: string, extract: string -> Page, server: seq<Response>)
      ensures this.username == username && this.password == password && this.extract == extract
      ensures this.server == server
      ensures urlQueue == [] && urlBlacklist == {} && flags == []
      ensures loggedIn == None && cookie == None && sent == [] && reconnects == 0
      ensures Valid()
    {
      this.username := username;
      this.password := password;
      this.extract := extract;
      this.server := server;
      urlQueue := [];
      urlBlacklist := {};
      flags := [];
      loggedIn := None;
      cookie := None;
      sent := [];
      reconnects := 0;
    }

    /** One request and the server's answer to it. */
    method Exchange(request: Request) returns (r: Response)
      modifies this
      ensures r == Answer(old(server)) && server == Remaining(old(server))
      ensures sent == old(sent) + [request]
      ensures FrontierKept() && SessionKept() && reconnects == old(reconnects)
    {
      r := Answer(server);
      server := Remaining(server);
      sent := sent + [request];
    }

    /** `initiate_connection`: a fresh connection to the same server. */
    method Reconnect()
      modifies this
      ensures reconnects == old(reconnects) + 1
      ensures server == old(server) && sent == old(sent)
      ensures FrontierKept() && SessionKept()
    {
      reconnects := reconnects + 1;
    }

    method LogIn() returns (err: Option<CrawlError>)
      modifies this
      ensures (Snapshot(), err) == LogInFrom(old(Snapshot()))
      ensures FrontierKept() && reconnects == old(reconnects)
      ensures |sent| > |old(sent)| && sent[|old(sent)|] == Get(LoginUrl, [])
      ensures err.None? ==> loggedIn == Some(true)
      ensures old(server) == [] ==> err.Some?
      ensures var page := extract(Answer(old(server)).text);
        page.csrfToken.None? ==>
          err == Some(MissingCsrfToken) && SessionKept()
          && server == Remaining(old(server)) && sent == old(sent) + [Get(LoginUrl, [])]
      ensures var page := extract(Answer(old(server)).text);
        page.csrfToken.Some? ==>
          var token := page.csrfToken.value;
          var reply := Answer(Remaining(old(server)));
          loggedIn == Some(true)
          && server == Remaining(Remaining(old(server)))
          && sent == old(sent) + [Get(LoginUrl, []),
                                  Post(LoginUrl, LoginForm(token, password, username), LoginCookie(token))]
          && if "Set-Cookie" in reply.headers
             then err == None && cookie == Some(SessionCookie(reply.headers["Set-Cookie"], token))
             else err == Some(MissingHeader("Set-Cookie")) && cookie == old(cookie)
    {
      var response := Exchange(Get(LoginUrl, []));
      ghost var answered := server;
      var page := extract(response.text);
      if page.csrfToken.None? {
        return Some(MissingCsrfToken);
      }
      var token := page.csrfToken.value;
      ghost var kept := cookie;
      var post := Post(LoginUrl, LoginForm(token, password, username), LoginCookie(token));
      var resp := Exchange(post);
      AppendTwo(old(sent), Get(LoginUrl, []), post);
      assert server == Remaining(answered);
      loggedIn := Some(true);
      if "Set-Cookie" !in resp.headers {
        assert cookie == kept;
        return Some(MissingHeader("Set-Cookie"));
      }
      cookie := Some(SessionCookie(resp.headers["Set-Cookie"], token));
      err := None;
    }

    method LogOut()
      modifies this
      ensures loggedIn == Some(false) && cookie == old(cookie)
      ensures sent == old(sent) + [Get(LogoutUrl, CookieHeader(old(cookie)))]
      ensures server == Remaining(old(server))
      ensures FrontierKept() && reconnects == old(reconnects)
    {
      loggedIn := Some(false);
      var resp := Exchange(Get(LogoutUrl, CookieHeader(cookie)));
    }

    method IsLoggedIn() returns (b: bool)
      modifies this
      ensures FrontierKept() && SessionKept() && reconnects == old(reconnects)
      ensures |server| <= |old(server)| && (old(loggedIn).None? && old(server) != [] ==> |server| < |old(server)|)
      ensures |sent| >= |old(sent)| && sent[..|old(sent)|] == old(sent)
      ensures old(loggedIn) == Some(false) ==> !b
      ensures old(loggedIn).Some? ==> b == old(loggedIn).value && server == old(server) && sent == old(sent)
      ensures old(loggedIn).None? ==>
        b == ProbeSaysLoggedIn(Answer(old(server)).statusCode)
        && server == Remaining(old(server)) && sent == old(sent) + [Get(ProbeUrl, [])]
    {
      if loggedIn.None? {
        var resp := Exchange(Get(ProbeUrl, []));
        assert sent[..|old(sent)|] == old(sent);
        return ProbeSaysLoggedIn(resp.statusCode);
      }
      return loggedIn.value;
    }

    /**
     * The first half of `get_page`: log in unless the session says it is
     * logged in. `err` is the exception `log_in` raised, if any.
     */
    method EnsureLoggedIn() returns (err: Option<CrawlError>)
      modifies this
      ensures (Snapshot(), err) == EnsureFrom(old(Snapshot()))
      ensures FrontierKept() && reconnects == old(reconnects)
      ensures |server| <= |old(server)|
      ensures old(server) != [] && old(loggedIn) != Some(true) ==> |server| < |old(server)|
      ensures |sent| >= |old(sent)|
      ensures err.None? ==> loggedIn != Some(false)
      ensures old(loggedIn) == Some(true) ==> err.None? && server == old(server) && sent == old(sent) && SessionKept()
      ensures old(loggedIn) == Some(false) ==> |sent| > |old(sent)| && sent[|old(sent)|] == Get(LoginUrl, [])
      ensures old(server) == [] && old(loggedIn) != Some(false) ==> err.None? && server == [] && SessionKept()
      ensures old(server) == [] && old(loggedIn) == Some(false) ==> err.Some?
    {
      var ok := IsLoggedIn();
      if !ok {
        err := LogIn();
      } else {
        err := None;
      }
    }

    /** `get_page`: log in unless the session says it is logged in, then fetch `url` with the session cookie. */
    method GetPage(url: string) returns (r: Result<Response, CrawlError>)
      modifies this
      ensures (Snapshot(), r) == GetPageFrom(old(Snapshot()), url)
      ensures FrontierKept() && reconnects == old(reconnects)
      ensures |server| <= |old(server)|
      ensures old(server) != [] ==> |server| < |old(server)|
      ensures r.Ok? ==> |sent| > |old(sent)| && LastSent(sent) == Get(url, CookieHeader(cookie)) && loggedIn != Some(false)
      ensures old(loggedIn) == Some(true) ==>
        r == Ok(Answer(old(server))) && server == Remaining(old(server)) && SessionKept()
        && sent == old(sent) + [Get(url, CookieHeader(old(cookie)))]
      ensures old(loggedIn) == Some(false) ==> |sent| > |old(sent)| && sent[|old(sent)|] == Get(LoginUrl, [])
      ensures old(server) == [] && old(loggedIn) != Some(false) ==>
        r == Ok(Synthetic500) && server == [] && SessionKept()
      ensures old(server) == [] && old(loggedIn) == Some(false) ==> r.Err?
    {
      var e := EnsureLoggedIn();
      if e.Some? {
        return Err(e.value);
      }
      ghost var before := server;
      ghost var logged := sent;
      var response := Exchange(Get(url, CookieHeader(cookie)));
      assert sent[..|logged|] == logged;
      if old(server) != [] {
        if before == old(server) {
          assert |server| == |before| - 1;
        } else {
          assert |before| < |old(server)|;
        }
      }
      r := Ok(response);
    }

    method AddUrlToQueue(url: string)
      modifies this
      ensures urlQueue == Enqueue(old(urlQueue), old(urlBlacklist), url)
      ensures urlBlacklist == old(urlBlacklist) && flags == old(flags)
      ensures SessionKept() && server == old(server) && sent == old(sent) && reconnects == old(reconnects)
    {
      var actualUrl := Origin + url;
      if actualUrl !in urlQueue && actualUrl !in urlBlacklist {
        if ':' !in url {
          urlQueue := urlQueue + [actualUrl];
        }
      }
    }

    method DissectPage(html: string)
      requires Valid()
      modifies this
      ensures Valid()
      ensures urlQueue == EnqueueAll(old(urlQueue), old(urlBlacklist), extract(html).hrefs)
      ensures flags == AddFlags(old(flags), extract(html).flagTexts)
      ensures urlBlacklist == old(urlBlacklist)
      ensures SessionKept() && server == old(server) && sent == old(sent) && reconnects == old(reconnects)
    {
      var page := extract(html);
      var i := 0;
      while i < |page.hrefs|
        invariant 0 <= i <= |page.hrefs|
        invariant urlQueue == EnqueueAll(old(urlQueue), old(urlBlacklist), page.hrefs[..i])
        invariant urlBlacklist == old(urlBlacklist) && flags == old(flags)
        invariant SessionKept() && server == old(server) && sent == old(sent) && reconnects == old(reconnects)
      {
        AddUrlToQueue(page.hrefs[i]);
        assert page.hrefs[..i + 1][..i] == page.hrefs[..i];
        i := i + 1;
      }
      assert page.hrefs[..i] == page.hrefs;
      EnqueueAllValid(old(urlQueue), old(urlBlacklist), page.hrefs);
      var j := 0;
      while j < |page.flagTexts|
        invariant 0 <= j <= |page.flagTexts|
        invariant flags == AddFlags(old(flags), page.flagTexts[..j])
        invariant urlQueue == EnqueueAll(old(urlQueue), old(urlBlacklist), page.hrefs)
        invariant urlBlacklist == old(urlBlacklist)
        invariant SessionKept() && server == old(server) && sent == old(sent) && reconnects == old(reconnects)
      {
        var temp := StripFlag(page.flagTexts[j]);
        if temp !in flags {
          flags := flags + [temp];
        }
        assert page.flagTexts[..j + 1][..j] == page.flagTexts[..j];
        j := j + 1;
      }
      assert page.flagTexts[..j] == page.flagTexts;
      AddFlagsSpec(old(flags), page.flagTexts);
    }

    /**
     * `next_page`. `redirect` is the 301 response whose `Location` was
     * fetched, when there was one. `Diverges` stands for the retry loop
     * when the server has nothing left to give and no login is pending:
     * every retry then gets the synthetic 500 again without changing any
     * state that decides the next retry.
     */
    method NextPage() returns (o: Outcome<Response, CrawlError>, ghost redirect: Option<Response>)
      requires Valid()
      modifies this
      decreases |server|
      ensures Valid()
      ensures flags == old(flags)
      ensures Suffix(urlQueue, old(urlQueue))
      ensures forall u :: u in urlBlacklist <==> u in old(urlBlacklist) || (u in old(urlQueue) && u !in urlQueue)
      ensures old(urlQueue) != [] ==> old(urlQueue)[0] in urlBlacklist && old(urlQueue)[0] !in urlQueue
      ensures old(urlQueue) == [] ==>
        o == Raised(EmptyQueue) && urlQueue == old(urlQueue) && urlBlacklist == old(urlBlacklist)
        && server == old(server) && sent == old(sent)
      ensures |server| <= |old(server)|
      ensures o.Returned? ==> |server| < |old(server)|
      ensures o.Returned? && redirect.None? ==> o.value.statusCode < 400 && o.value.statusCode != 301
      ensures redirect.Some? ==> redirect.value.statusCode == 301 && "Location" in redirect.value.headers
      ensures redirect.Some? && o.Returned? ==>
        |sent| > 0 && LastSent(sent) == Get(redirect.value.headers["Location"], CookieHeader(cookie))
      ensures o.Diverges? ==> server == [] && loggedIn != Some(false)
    {
      redirect := None;
      if urlQueue == [] {
        return Raised(EmptyQueue), None;
      }
      var nextUrl := urlQueue[0];
      urlQueue := urlQueue[1..];
      urlBlacklist := urlBlacklist + {nextUrl};
      assert nextUrl !in urlQueue;
      assert Valid();

      var fetched := GetPage(nextUrl);
      if fetched.Err? {
        return Raised(fetched.error), None;
      }
      var response := fetched.value;
      while response.statusCode >= 500
        invariant urlQueue == old(urlQueue)[1..] && urlBlacklist == old(urlBlacklist) + {nextUrl}
        invariant flags == old(flags) && Valid()
        invariant |server| <= |old(server)|
        invariant |server| < |old(server)| || response.statusCode == 500
        decreases |server|
      {
        if server == [] && loggedIn != Some(false) {
          return Diverges, None;
        }
        Reconnect();
        fetched := GetPage(nextUrl);
        if fetched.Err? {
          return Raised(fetched.error), None;
        }
        response := fetched.value;
      }

      if response.statusCode >= 400 {
        ghost var popped := urlQueue;
        o, redirect := NextPage();
        forall u
          ensures u in urlBlacklist <==> u in old(urlBlacklist) || (u in old(urlQueue) && u !in urlQueue)
        {
          if u == nextUrl {
            assert u !in popped;
            assert u !in urlQueue;
          }
        }
        assert old(urlQueue)[1..] == popped;
        SuffixTrans(urlQueue, popped, old(urlQueue));
        return;
      }
      if response.statusCode == 301 {
        if "Location" !in response.headers {
          return Raised(MissingHeader("Location")), None;
        }
        redirect := Some(response);
        var target := GetPage(response.headers["Location"]);
        if target.Err? {
          return Raised(target.error), redirect;
        }
        return Returned(target.value), redirect;
      }
      return Returned(response), None;
    }

    /** `run`: crawl from the Fakebook home page until enough flags are known. */
    method Run() returns (o: Outcome<seq<string>, CrawlError>)
      requires Valid()
      modifies this
      ensures Valid()
      ensures o.Returned? ==> |o.value| >= FlagTarget && o.value == flags
      ensures |old(flags)| <= |flags| && flags[..|old(flags)|] == old(flags)
      ensures old(urlBlacklist) <= urlBlacklist
    {
      var first := GetPage(StartUrl);
      if first.Err? {
        return Raised(first.error);
      }
      var response := first.value;
      while |flags| < FlagTarget
        invariant Valid()
        invariant |old(flags)| <= |flags| && flags[..|old(flags)|] == old(flags)
        invariant old(urlBlacklist) <= urlBlacklist
        decreases |server|
      {
        ghost var seen := flags;
        DissectPage(response.text);
        AddFlagsSpec(seen, extract(response.text).flagTexts);
        assert flags[..|old(flags)|] == seen[..|old(flags)|];
        var next, _ := NextPage();
        match next
        case Returned(r) =>
          response := r;
        case Raised(e) =>
          return Raised(e);
        case Diverges =>
          return Diverges;
      }
      return Returned(flags);
    }
  }
}
