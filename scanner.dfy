/** The vulnerability scanner: four probes per URL, each classifying one
    HTTP reply by substring and equality tests on its body or headers, and
    the per-URL record that collects the four verdicts. The web server is a
    function from the request sent to the reply received; a reply that
    could not be obtained (connection error, timeout, undecodable text) is
    `Unreachable`, which every probe reports as harmless. */
module Scanner {
  import opened Text
  import opened Http

  const XssPayload := "<script>alert(1)</script>"
  const RedirectPayload := "https://evil.com"
  const EvilOrigin := "https://evil.com"

  /** The headers whose absence is reported, in the order they are listed. */
  const Required := ["Content-Security-Policy", "X-Frame-Options", "X-XSS-Protection"]

  /** What a probe sends: the URL, the `Origin` header if any, and whether
      redirects are followed (the default for a GET). */
  datatype Request = Request(url: string, origin: Option<string>, followRedirects: bool)

  /** The record `scan_target` returns for one URL. */
  datatype ScanResult = ScanResult(url: string, xss: string, redirect: string, cors: string, headers: string)

  /** The probe URL: the URL, then "&" when it already has a query string
      and "?" otherwise, then `param=payload`. */
  function ProbeUrl(url: string, param: string, payload: string): (r: string)
    ensures StartsWith(r, url) && EndsWith(r, param + "=" + payload)
    ensures |r| == |url| + 1 + |param| + 1 + |payload|
    ensures r[|url|] == (if '?' in url then '&' else '?')
    ensures '?' in r
  {
    var sep := if '?' in url then '&' else '?';
    var r := url + [sep] + param + "=" + payload;
    assert r[..|url|] == url;
    assert r[|r| - |param + "=" + payload|..] == param + "=" + payload;
    assert '?' !in url ==> r[|url|] == '?';
    r
  }

  /** The two probe URLs only differ after the separator: both keep the
      original URL, query string included, and choose the same separator. */
  lemma ProbesShareSeparator(url: string)
    ensures ProbeUrl(url, "q", XssPayload)[..|url| + 1] == ProbeUrl(url, "redirect", RedirectPayload)[..|url| + 1]
  {
    var a := ProbeUrl(url, "q", XssPayload);
    var b := ProbeUrl(url, "redirect", RedirectPayload);
    assert a[..|url|] == url == b[..|url|];
    assert a[..|url| + 1] == a[..|url|] + [a[|url|]];
    assert b[..|url| + 1] == b[..|url|] + [b[|url|]];
  }

  function XssRequest(url: string): Request {
    Request(ProbeUrl(url, "q", XssPayload), None, true)
  }

  function RedirectRequest(url: string): Request {
    Request(ProbeUrl(url, "redirect", RedirectPayload), None, false)
  }

  function CorsRequest(url: string): Request {
    Request(url, Some(EvilOrigin), true)
  }

  function HeadersRequest(url: string): Request {
    Request(url, None, true)
  }

  /** `check_xss` on the reply to the XSS probe: the payload reflected
      anywhere in the body, whatever the status. */
  function XssVerdict(reply: Reply): (r: string)
    ensures r == "Possible XSS" || r == "Safe"
    ensures r == "Possible XSS" <==> reply.Response? && Contains(reply.body, XssPayload)
  {
    if reply.Response? && Contains(reply.body, XssPayload) then "Possible XSS" else "Safe"
  }

  /** `check_open_redirect` on the reply to the redirect probe (sent
      without following redirects): the payload inside the `Location`
      header, a missing header counting as empty. */
  function RedirectVerdict(reply: Reply): (r: string)
    ensures r == "Vulnerable" || r == "Safe"
    ensures r == "Vulnerable" <==>
              reply.Response? && match HeaderGet(reply.headers, "Location")
                                 case None => false
                                 case Some(loc) => Contains(loc, RedirectPayload)
  {
    if reply.Response? && Contains(HeaderOr(reply.headers, "Location"), RedirectPayload)
    then "Vulnerable" else "Safe"
  }

  /** `check_cors` on the reply to a request from the evil origin. The
      wildcard test comes first, so "*" is never "Misconfigured". */
  function CorsVerdict(reply: Reply): (r: string)
    ensures r in {"Wildcard (*)", "Misconfigured", "Safe"}
    ensures r == "Wildcard (*)" <==> reply.Response? && HeaderGet(reply.headers, "Access-Control-Allow-Origin") == Some("*")
    ensures r == "Misconfigured" <==>
              reply.Response? && match HeaderGet(reply.headers, "Access-Control-Allow-Origin")
                                 case None => false
                                 case Some(acao) => acao != "*" && Contains(acao, "evil.com")
  {
    if !reply.Response? then "Safe"
    else
      var acao := HeaderOr(reply.headers, "Access-Control-Allow-Origin");
      if acao == "*" then "Wildcard (*)"
      else if Contains(acao, "evil.com") then "Misconfigured"
      else "Safe"
  }

  /** The header is absent: no header of the reply has its name, ignoring
      case. */
  predicate Absent(headers: seq<Header>, name: string) {
    HeaderGet(headers, name).None?
  }

  /** `m` is `names` with some elements dropped and the rest kept in their
      order: each element of `names`, from the last one back, is either the
      last element of `m` or left out. */
  predicate Subsequence(m: seq<string>, names: seq<string>)
    decreases |names|
  {
    if names == [] then m == []
    else
      var rest := names[..|names| - 1];
      || (m != [] && m[|m| - 1] == names[|names| - 1] && Subsequence(m[..|m| - 1], rest))
      || Subsequence(m, rest)
  }

  /** The names among `names` that are absent, in their order. */
  function Missing(names: seq<string>, headers: seq<Header>): (m: seq<string>)
    ensures |m| <= |names|
    ensures Subsequence(m, names)
    ensures forall h :: h in m <==> h in names && Absent(headers, h)
    decreases |names|
  {
    if names == [] then []
    else
      var last := names[|names| - 1];
      assert names == names[..|names| - 1] + [last];
      var init := Missing(names[..|names| - 1], headers);
      if Absent(headers, last) then
        assert (init + [last])[..|init|] == init;
        init + [last]
      else init
  }

  /** What `check_security_headers` reports for a reply. */
  function HeadersVerdict(reply: Reply): string {
    if reply.Unreachable? then "OK"
    else
      var missing := Missing(Required, reply.headers);
      if missing == [] then "OK" else "Missing: " + Join(missing, ", ")
  }

  /** `check_security_headers`: collects the absent headers in a loop and
      renders them. */
  method CheckSecurityHeaders(reply: Reply) returns (r: string)
    ensures r == HeadersVerdict(reply)
  {
    if reply.Unreachable? {
      return "OK";
    }
    var missing := [];
    for i := 0 to |Required|
      invariant missing == Missing(Required[..i], reply.headers)
    {
      MissingStep(Required, reply.headers, i);
      if Absent(reply.headers, Required[i]) {
        missing := missing + [Required[i]];
      }
    }
    assert Required[..|Required|] == Required;
    if missing != [] {
      return "Missing: " + Join(missing, ", ");
    }
    return "OK";
  }

  /** Looking at one more name extends the filter by that name exactly
      when it is absent. */
  lemma MissingStep(names: seq<string>, headers: seq<Header>, i: nat)
    requires i < |names|
    ensures Missing(names[..i + 1], headers)
            == Missing(names[..i], headers) + (if Absent(headers, names[i]) then [names[i]] else [])
  {
    assert names[..i + 1][..i] == names[..i];
  }

  /** Each part of a joined string occurs in it. */
  lemma {:induction false} JoinContains(parts: seq<string>, sep: string, i: nat)
    requires i < |parts|
    ensures Contains(Join(parts, sep), parts[i])
    decreases |parts|
  {
    var joined := Join(parts, sep);
    if |parts| == 1 {
      ContainsAt(joined, parts[0], 0);
    } else if i == 0 {
      assert joined[..|parts[0]|] == parts[0];
      ContainsAt(joined, parts[0], 0);
    } else {
      var tail := Join(parts[1..], sep);
      JoinContains(parts[1..], sep, i - 1);
      var k := |parts[0] + sep|;
      assert joined[k..] == tail;
      ContainsAt(joined, tail, k);
      ContainsTransitive(joined, tail, parts[i]);
    }
  }

  /** The verdict is "OK" exactly when the reply could not be obtained or
      carries all three headers; otherwise it names every absent one. */
  lemma HeadersVerdictMeaning(reply: Reply)
    ensures HeadersVerdict(reply) == "OK" <==>
              reply.Unreachable? || forall h :: h in Required ==> !Absent(reply.headers, h)
    ensures reply.Response? ==>
              forall h :: h in Required && Absent(reply.headers, h) ==> Contains(HeadersVerdict(reply), h)
  {
    if reply.Response? {
      var missing := Missing(Required, reply.headers);
      var verdict := HeadersVerdict(reply);
      if missing != [] {
        assert verdict[0] == 'M';
        var joined := Join(missing, ", ");
        assert verdict[|"Missing: "|..] == joined;
        ContainsAt(verdict, joined, |"Missing: "|);
        forall h | h in Required && Absent(reply.headers, h) ensures Contains(verdict, h) {
          var i :| 0 <= i < |missing| && missing[i] == h;
          JoinContains(missing, ", ", i);
          ContainsTransitive(verdict, joined, h);
        }
      } else {
        forall h | h in Required ensures !Absent(reply.headers, h) {
          assert h !in missing;
        }
      }
    }
  }

  /** `scan_target`: the URL and the four verdicts, each on the reply to
      its own probe. */
  function ScanTarget(server: Request -> Reply, url: string): (r: ScanResult)
    ensures r.url == url
    ensures r.xss == XssVerdict(server(XssRequest(url)))
    ensures r.redirect == RedirectVerdict(server(RedirectRequest(url)))
    ensures r.cors == CorsVerdict(server(CorsRequest(url)))
    ensures r.headers == HeadersVerdict(server(HeadersRequest(url)))
    ensures r.headers == "OK" <==>
              server(HeadersRequest(url)).Unreachable?
              || forall h :: h in Required ==> !Absent(server(HeadersRequest(url)).headers, h)
  {
    HeadersVerdictMeaning(server(HeadersRequest(url)));
    ScanResult(url,
               XssVerdict(server(XssRequest(url))),
               RedirectVerdict(server(RedirectRequest(url))),
               CorsVerdict(server(CorsRequest(url))),
               HeadersVerdict(server(HeadersRequest(url))))
  }

  /** `run_scanner`: one record per URL, in the order the URLs were given. */
  function RunScanner(server: Request -> Reply, urls: seq<string>): (rs: seq<ScanResult>)
    ensures |rs| == |urls|
    ensures forall i :: 0 <= i < |urls| ==> rs[i].url == urls[i] && rs[i] == ScanTarget(server, urls[i])
    decreases |urls|
  {
    if urls == [] then []
    else [ScanTarget(server, urls[0])] + RunScanner(server, urls[1..])
  }

  /** A host that never answers is reported as harmless on every count. */
  lemma UnreachableIsSafe(server: Request -> Reply, url: string)
    requires forall q :: server(q) == Unreachable
    ensures ScanTarget(server, url) == ScanResult(url, "Safe", "Safe", "Safe", "OK")
  {
    assert server(XssRequest(url)) == Unreachable;
    assert server(RedirectRequest(url)) == Unreachable;
    assert server(CorsRequest(url)) == Unreachable;
    assert server(HeadersRequest(url)) == Unreachable;
  }
}
