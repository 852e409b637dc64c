/** The synchronous subdomain clients. They parse replies exactly as the
    asynchronous ones do, with three differences: the crt.sh body is
    stripped first and may also start with "{", the HackerTarget body is
    stripped before it is parsed, and every result is returned sorted. */
module Subdomains {
  import opened Text
  import opened Http
  import opened Ordering
  import opened Sources
  import SubdomainsAsync

  /** crt.sh bodies accepted here: once stripped, they start with "[" or
      "{". */
  predicate LooksLikeJson(body: string) {
    var text := Strip(body);
    StartsWith(text, "[") || StartsWith(text, "{")
  }

  /** The names a crt.sh reply yields here: nothing unless the status is
      200 and the body looks like JSON. */
  function CrtshNames(reply: Reply, domain: string): set<string> {
    if Ok(reply) && LooksLikeJson(reply.body)
    then CrtshYield(reply.json, domain)
    else {}
  }

  /** The names a HackerTarget reply yields here: the body is stripped, and
      nothing is kept unless the status is 200 and the lower-cased text does
      not mention "error". */
  function HackerTargetNames(reply: Reply, domain: string): set<string> {
    if Ok(reply) && !Contains(Lower(Strip(reply.body)), "error")
    then HostSearch(Strip(reply.body), domain)
    else {}
  }

  /** `fetch_subdomains_from_crtsh`: the crt.sh names in ascending order,
      each once. */
  method FetchSubdomainsFromCrtsh(reply: Reply, domain: string) returns (subs: seq<string>)
    ensures StrictlySorted(subs) && Lists(subs, CrtshNames(reply, domain))
  {
    if !Ok(reply) {
      return [];
    }
    if !LooksLikeJson(reply.body) {
      return [];
    }
    match reply.json {
      case None =>
        // `response.json()` raised
        return [];
      case Some(data) =>
        if !data.Arr? {
          // iterating anything else either raises or yields no entry
          return [];
        }
        var found := CollectCrtsh(data.items, domain);
        if found.None? {
          return [];
        }
        subs := SortSet(found.value);
    }
  }

  /** `fetch_subdomains_from_threatcrowd`: the same field, with the same
      fallbacks, as the asynchronous client. */
  function FetchSubdomainsFromThreatcrowd(reply: Reply): (r: Json)
    ensures r == SubdomainsAsync.FetchThreatcrowd(reply)
  {
    if !Ok(reply) then Arr([])
    else match reply.json
      case Some(Obj(fields)) => if "subdomains" in fields then fields["subdomains"] else Arr([])
      case _ => Arr([])
  }

  /** `fetch_subdomains_from_hackertarget`: the HackerTarget names in
      ascending order, each once. */
  method FetchSubdomainsFromHackertarget(reply: Reply, domain: string) returns (subs: seq<string>)
    ensures StrictlySorted(subs) && Lists(subs, HackerTargetNames(reply, domain))
  {
    if !Ok(reply) {
      return [];
    }
    var text := Strip(reply.body);
    if Contains(Lower(text), "error") {
      return [];
    }
    var found := CollectHostSearch(text, domain);
    subs := SortSet(found);
  }

  /** Whenever the asynchronous crt.sh client accepts a reply, this one
      accepts it too and yields the same names; it also accepts replies the
      other rejects (leading whitespace, a body starting with "{"). */
  lemma CrtshAgreesWithAsync(reply: Reply, domain: string)
    ensures SubdomainsAsync.CrtshNames(reply, domain) <= CrtshNames(reply, domain)
    ensures Ok(reply) && StartsWith(reply.body, "[") ==>
              LooksLikeJson(reply.body)
              && SubdomainsAsync.CrtshNames(reply, domain) == CrtshNames(reply, domain)
  {
    if Ok(reply) && StartsWith(reply.body, "[") {
      StripKeepsHead(reply.body);
      assert Strip(reply.body)[..1] == "[";
      assert LooksLikeJson(reply.body);
    }
  }
}
