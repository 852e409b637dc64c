/** The asynchronous recon engine: the three subdomain sources, the gatherer
    that merges their results into one set, the ASN lookup, and the
    wordlist brute forcer. Every network reply is a parameter (`Reply`);
    DNS is a partial map from host name to its IPv4 addresses, and the
    IP-metadata service a function from address to reply. Concurrency is
    not modelled: the tasks run one after another, and the results are
    stated so that no completion order can change them. */
module SubdomainsAsync {
  import opened Text
  import opened Http
  import opened Ordering
  import opened Sources

  const UnknownAsn := "Unknown ASN"

  // ---------------------------------------------------------------------
  // Sources

  /** The names a crt.sh reply yields: nothing unless the status is 200 and
      the body starts with "[". */
  function CrtshNames(reply: Reply, domain: string): set<string> {
    if Ok(reply) && StartsWith(reply.body, "[") then CrtshYield(reply.json, domain) else {}
  }

  /** The names a HackerTarget reply yields: nothing unless the status is
      200 and the lower-cased body does not mention "error". */
  function HackerTargetNames(reply: Reply, domain: string): set<string> {
    if Ok(reply) && !Contains(Lower(reply.body), "error") then HostSearch(reply.body, domain) else {}
  }

  /** `fetch_crtsh`: the crt.sh names, each once, in set order. */
  method FetchCrtsh(reply: Reply, domain: string) returns (subs: seq<string>)
    ensures Lists(subs, CrtshNames(reply, domain)) && NoDuplicates(subs)
  {
    if !Ok(reply) || !StartsWith(reply.body, "[") {
      return [];
    }
    match reply.json {
      case None =>
        // `resp.json()` raised
        return [];
      case Some(data) =>
        if !data.Arr? {
          // iterating anything else either raises or yields no entry
          return [];
        }
        var found := CollectCrtsh(data.items, domain);
        if found.None? {
          return [];
        }
        subs := ListOf(found.value);
    }
  }

  /** `fetch_threatcrowd`: the decoded `subdomains` field exactly as the
      service sent it (no suffix filter), or an empty list when the status
      is not 200, the body is not JSON, is not an object, or has no such
      field. */
  function FetchThreatcrowd(reply: Reply): (r: Json)
    ensures r != Arr([]) ==> Ok(reply) && reply.json.Some? && reply.json.value.Obj?
                             && "subdomains" in reply.json.value.fields
    ensures Ok(reply) && reply.json.Some? && reply.json.value.Obj?
            && "subdomains" in reply.json.value.fields
            ==> r == reply.json.value.fields["subdomains"]
  {
    if !Ok(reply) then Arr([])
    else match reply.json
      case Some(Obj(fields)) => if "subdomains" in fields then fields["subdomains"] else Arr([])
      case _ => Arr([])
  }

  /** `fetch_hackertarget`: the HackerTarget names, each once, in set order. */
  method FetchHackertarget(reply: Reply, domain: string) returns (subs: seq<string>)
    ensures Lists(subs, HackerTargetNames(reply, domain)) && NoDuplicates(subs)
  {
    if !Ok(reply) || Contains(Lower(reply.body), "error") {
      return [];
    }
    var found := CollectHostSearch(reply.body, domain);
    subs := ListOf(found);
  }

  // ---------------------------------------------------------------------
  // Gathering

  /** The members `set.update(value)` adds: the strings of a list, the
      one-character strings of a string, the keys of an object. `None` for
      a value the update rejects (not iterable, or holding unhashable
      lists or objects) and for a list holding numbers, booleans or null,
      which the update accepts but which are not host names. */
  function Members(j: Json): Option<set<string>> {
    match j
    case Arr(items) =>
      if forall i :: 0 <= i < |items| ==> items[i].Str?
      then Some(set i | 0 <= i < |items| :: items[i].s)
      else None
    case Str(s) => Some(set i | 0 <= i < |s| :: [s[i]])
    case Obj(fields) => Some(fields.Keys)
    case _ => None
  }

  /** A Python list of strings, as a value `set.update` can take. */
  function StrList(xs: seq<string>): Json {
    Arr(seq(|xs|, i requires 0 <= i < |xs| => Str(xs[i])))
  }

  /** The set the gathering loop builds from `results`, or `None` once an
      update is rejected. */
  function Union(results: seq<Json>): Option<set<string>>
    decreases |results|
  {
    if results == [] then Some({})
    else
      match (Union(results[..|results| - 1]), Members(results[|results| - 1]))
      case (Some(a), Some(b)) => Some(a + b)
      case _ => None
  }

  /** The loop of `gather_subdomains`: `all_subdomains.update(result)` for
      each source result in turn. */
  method Merge(results: seq<Json>) returns (all: Option<set<string>>)
    ensures all == Union(results)
  {
    var names: set<string> := {};
    for i := 0 to |results|
      invariant Union(results[..i]) == Some(names)
    {
      assert results[..i + 1][..i] == results[..i];
      match Members(results[i]) {
        case None =>
          UnionMembers(results);
          assert results[i] in results;
          return None;
        case Some(m) =>
          names := names + m;
      }
    }
    assert results[..|results|] == results;
    all := Some(names);
  }

  /** `gather_subdomains`: run the three sources and merge their results.
      The merge succeeds unless ThreatCrowd's field is not a collection of
      names, and then yields exactly the union of the three sources. */
  method GatherSubdomains(domain: string, crtsh: Reply, threatcrowd: Reply, hackertarget: Reply)
    returns (all: Option<set<string>>)
    ensures all.Some? <==> Members(FetchThreatcrowd(threatcrowd)).Some?
    ensures all.Some? ==>
              all.value == CrtshNames(crtsh, domain)
                           + Members(FetchThreatcrowd(threatcrowd)).value
                           + HackerTargetNames(hackertarget, domain)
  {
    var fromCrtsh := FetchCrtsh(crtsh, domain);
    var fromThreatcrowd := FetchThreatcrowd(threatcrowd);
    var fromHackertarget := FetchHackertarget(hackertarget, domain);
    var results := [StrList(fromCrtsh), fromThreatcrowd, StrList(fromHackertarget)];
    all := Merge(results);
    StrListMembers(fromCrtsh);
    StrListMembers(fromHackertarget);
    UnionMembers(results);
    if all.Some? {
      var tc := Members(fromThreatcrowd).value;
      forall x ensures x in all.value <==>
        x in CrtshNames(crtsh, domain) + tc + HackerTargetNames(hackertarget, domain)
      {
        assert results[0] in results && results[1] in results && results[2] in results;
      }
    } else {
      assert results[0] in results && results[2] in results;
    }
  }

  /** A list of strings merges as exactly its elements. */
  lemma StrListMembers(xs: seq<string>)
    ensures Members(StrList(xs)).Some?
    ensures forall x :: x in Members(StrList(xs)).value <==> x in xs
  {
    var items := StrList(xs).items;
    forall x ensures x in Members(StrList(xs)).value <==> x in xs {
      if x in xs {
        var i :| 0 <= i < |xs| && xs[i] == x;
        assert items[i].s == x;
      }
    }
  }

  /** The merge is rejected exactly when one result is rejected; otherwise
      a name is in the union exactly when some result holds it. */
  lemma {:induction false} UnionMembers(results: seq<Json>)
    ensures Union(results).None? <==> exists r :: r in results && Members(r).None?
    ensures Union(results).Some? ==>
              forall x :: x in Union(results).value <==>
                exists r :: r in results && Members(r).Some? && x in Members(r).value
    decreases |results|
  {
    if results != [] {
      var init := results[..|results| - 1];
      UnionMembers(init);
      assert results == init + [results[|results| - 1]];
    }
  }

  /** The gathered set does not depend on the order in which the sources
      finish (nor on a result being merged twice). */
  lemma UnionOrderFree(a: seq<Json>, b: seq<Json>)
    requires forall r :: r in a <==> r in b
    ensures Union(a) == Union(b)
  {
    UnionMembers(a);
    UnionMembers(b);
    if Union(a).Some? && Union(b).Some? {
      assert Union(a).value == Union(b).value;
    }
  }

  // ---------------------------------------------------------------------
  // ASN lookup and brute force

  /** The sentinel has no whitespace at either end. */
  lemma SentinelTrimmed()
    ensures UnknownAsn != [] && !IsSpace(UnknownAsn[0]) && !IsSpace(UnknownAsn[|UnknownAsn| - 1])
  {
    var u: string := UnknownAsn;
    assert |u| == 11 && u[0] == 'U' && u[10] == 'N';
  }

  /** `get_asn_info`: the stripped body of a 200 reply, otherwise the
      sentinel "Unknown ASN". The result has no surrounding whitespace, and
      is empty exactly when a 200 reply has a blank body. */
  function AsnInfo(reply: Reply): (r: string)
    ensures Ok(reply) ==> Contains(reply.body, r)
    ensures Ok(reply) ==>
              exists k: nat :: OccursAt(reply.body, r, k) && Blank(reply.body[..k]) && Blank(reply.body[k + |r|..])
    ensures !Ok(reply) ==> r == UnknownAsn
    ensures r == [] || (!IsSpace(r[0]) && !IsSpace(r[|r| - 1]))
    ensures r == [] <==> Ok(reply) && Blank(reply.body)
  {
    if Ok(reply) then
      StripContained(reply.body);
      StripExact(reply.body);
      Strip(reply.body)
    else
      SentinelTrimmed();
      UnknownAsn
  }


  /** The words of a wordlist file: each line stripped, blank lines
      dropped, in file order. */
  function Words(content: string): (ws: seq<string>)
    ensures forall w :: w in ws ==> w != [] && !IsSpace(w[0]) && !IsSpace(w[|w| - 1]) && '\n' !in w
    ensures forall w :: w in ws <==>
              exists line :: line in Split(content, '\n') && !Blank(line) && w == Strip(line)
  {
    var lines := Split(content, '\n');
    var ws := NonBlankStripped(lines);
    NonBlankStrippedMembers(lines);
    NonBlankStrippedTrimmed(lines);
    assert forall w :: w in ws ==> '\n' !in w by {
      forall w | w in ws ensures '\n' !in w {
        var line :| line in lines && !Blank(line) && w == Strip(line);
        StripKeepsOut(line, '\n');
      }
    }
    ws
  }

  /** `[line.strip() for line in lines if line.strip()]`. */
  function NonBlankStripped(lines: seq<string>): (ws: seq<string>)
    ensures |ws| <= |lines|
    decreases |lines|
  {
    if lines == [] then []
    else
      var rest := NonBlankStripped(lines[1..]);
      if Blank(lines[0]) then rest else [Strip(lines[0])] + rest
  }

  /** Every word kept is the stripped form of some non-blank line. */
  lemma {:induction false} NonBlankStrippedSound(lines: seq<string>, w: string)
    requires w in NonBlankStripped(lines)
    ensures exists line :: line in lines && !Blank(line) && w == Strip(line)
    decreases |lines|
  {
    var head, rest := lines[0], lines[1..];
    if w in NonBlankStripped(rest) {
      NonBlankStrippedSound(rest, w);
      var line :| line in rest && !Blank(line) && w == Strip(line);
      assert line in lines;
    } else {
      assert head in lines;
    }
  }

  /** Every non-blank line contributes its stripped form. */
  lemma {:induction false} NonBlankStrippedComplete(lines: seq<string>, line: string)
    requires line in lines && !Blank(line)
    ensures Strip(line) in NonBlankStripped(lines)
    decreases |lines|
  {
    if line != lines[0] {
      assert line in lines[1..];
      NonBlankStrippedComplete(lines[1..], line);
    }
  }

  /** The filter keeps exactly the stripped forms of the non-blank lines. */
  lemma NonBlankStrippedMembers(lines: seq<string>)
    ensures forall w :: w in NonBlankStripped(lines) <==>
              exists line :: line in lines && !Blank(line) && w == Strip(line)
  {
    forall w | w in NonBlankStripped(lines)
      ensures exists line :: line in lines && !Blank(line) && w == Strip(line)
    {
      NonBlankStrippedSound(lines, w);
    }
    forall line | line in lines && !Blank(line) ensures Strip(line) in NonBlankStripped(lines) {
      NonBlankStrippedComplete(lines, line);
    }
  }

  /** None of the words kept is empty or has whitespace at either end. */
  lemma NonBlankStrippedTrimmed(lines: seq<string>)
    ensures forall w :: w in NonBlankStripped(lines) ==> w != [] && !IsSpace(w[0]) && !IsSpace(w[|w| - 1])
  {
    forall w | w in NonBlankStripped(lines) ensures w != [] && !IsSpace(w[0]) && !IsSpace(w[|w| - 1]) {
      NonBlankStrippedSound(lines, w);
      var line :| line in lines && !Blank(line) && w == Strip(line);
    }
  }


  /** The first IPv4 address DNS gives for `host`; `None` when the lookup
      fails or returns no address (indexing the empty list raises). */
  function Resolve(dns: map<string, seq<string>>, host: string): Option<string> {
    if host in dns && dns[host] != [] then Some(dns[host][0]) else None
  }

  datatype Hit = Hit(ip: string, asn: string)

  /** What the brute forcer records for `host`: its first address and that
      address's ASN string, or nothing when it does not resolve. */
  function Lookup(dns: map<string, seq<string>>, ipinfo: string -> Reply, host: string): Option<Hit> {
    match Resolve(dns, host)
    case None => None
    case Some(ip) => Some(Hit(ip, AsnInfo(ipinfo(ip))))
  }

  /** The candidate host names: `word.domain` for every word. */
  function Candidates(words: seq<string>, domain: string): (cs: seq<string>)
    ensures forall h :: h in cs <==> exists w :: w in words && h == w + "." + domain
  {
    var cs := seq(|words|, i requires 0 <= i < |words| => words[i] + "." + domain);
    assert forall w :: w in words ==> w + "." + domain in cs by {
      forall w | w in words ensures w + "." + domain in cs {
        var i :| 0 <= i < |words| && words[i] == w;
        assert cs[i] == w + "." + domain;
      }
    }
    cs
  }

  /** The `as_completed` loop: every candidate that resolves is recorded
      with its first address and that address's ASN string, and no other
      host is. */
  method ResolveAll(candidates: seq<string>, dns: map<string, seq<string>>, ipinfo: string -> Reply)
    returns (found: map<string, Hit>)
    ensures forall h :: h in found <==> h in candidates && Resolve(dns, h).Some?
    ensures forall h :: h in found ==> Lookup(dns, ipinfo, h) == Some(found[h])
  {
    found := map[];
    for i := 0 to |candidates|
      invariant forall h :: h in found <==> h in candidates[..i] && Resolve(dns, h).Some?
      invariant forall h :: h in found ==> Lookup(dns, ipinfo, h) == Some(found[h])
    {
      var sub := candidates[i];
      assert candidates[..i + 1] == candidates[..i] + [sub];
      match Resolve(dns, sub) {
        case None =>
        case Some(ip) =>
          var asn := AsnInfo(ipinfo(ip));
          found := found[sub := Hit(ip, asn)];
      }
    }
    assert candidates[..|candidates|] == candidates;
  }

  /** The wordlist file as `open` and line iteration see it: missing
      (`FileNotFoundError`, the only error the brute forcer catches),
      present but unreadable (permission denied, a directory, bytes that do
      not decode), or read in full. */
  datatype Wordlist = NotFound | Unreadable | Text(content: string)

  /** How `brute_force_subdomains` ends: it returns its map, it raises (an
      unreadable wordlist, or a negative `concurrency` rejected by
      `asyncio.Semaphore`), or it never returns (a semaphore of 0 admits no
      lookup, so `as_completed` waits forever once there is a word). */
  datatype BruteOutcome = Returned(hits: map<string, Hit>) | Raised | Hangs

  /** `brute_force_subdomains`: for every word, try `word.domain`; each
      candidate that resolves is recorded with its first address and that
      address's ASN string, and no other host is. A missing wordlist file
      yields an empty map; the semaphore is built only after the wordlist
      was read. */
  method BruteForce(domain: string, wordlist: Wordlist, concurrency: int,
                    dns: map<string, seq<string>>, ipinfo: string -> Reply)
    returns (found: BruteOutcome)
    ensures wordlist.NotFound? ==> found == Returned(map[])
    ensures wordlist.Unreadable? ==> found.Raised?
    ensures wordlist.Text? && concurrency < 0 ==> found.Raised?
    ensures wordlist.Text? && concurrency == 0 ==>
              (found.Hangs? <==> Words(wordlist.content) != [])
    ensures wordlist.Text? && (concurrency > 0 || (concurrency == 0 && Words(wordlist.content) == [])) ==>
              found.Returned? &&
              forall h :: h in found.hits <==>
                (exists w :: w in Words(wordlist.content) && h == w + "." + domain)
                && Resolve(dns, h).Some?
    ensures found.Returned? ==> forall h :: h in found.hits ==> Lookup(dns, ipinfo, h) == Some(found.hits[h])
  {
    match wordlist {
      case NotFound =>
        // FileNotFoundError: reported on the console, empty result
        return Returned(map[]);
      case Unreadable =>
        // any other error while reading propagates to the caller
        return Raised;
      case Text(content) =>
        var words := Words(content);
        if concurrency < 0 {
          // `asyncio.Semaphore` rejects a negative value with ValueError
          return Raised;
        }
        if concurrency == 0 && words != [] {
          // every lookup waits on a semaphore nobody releases
          return Hangs;
        }
        var candidates := Candidates(words, domain);
        var hits := ResolveAll(candidates, dns, ipinfo);
        return Returned(hits);
    }
  }
}
