# HunterForge in Dafny

HunterForge is a bug-bounty reconnaissance tool. It collects a root
domain's subdomains from three public sources: crt.sh certificate
transparency, the ThreatCrowd domain report and the HackerTarget host
search. It optionally brute-forces `word.domain` names from a wordlist
against DNS, tagging each hit with its address and the address's ASN string.
It writes the merged, sorted names to a file. Its scanner probes URLs for a
reflected XSS payload, an open redirect, a permissive CORS policy and
missing security headers.

This project models the logic around the network calls:

- the parsers of the asynchronous and the synchronous clients;
- the gatherer's union;
- the brute forcer's bookkeeping;
- the scanner's classification rules;
- the merge, sort and write step at the end of the `recon` command.

Each network reply is a value (`Http.Reply`): a transport failure, or a
status, a body, the headers and the body's JSON decoding. DNS is a map from
host name to addresses. The IP-metadata service and the scanned web server
are functions from request to reply.

Modules:

- `Text`: Python `str` semantics.
  - `strip` uses the `isspace` set.
  - `split` on one character always yields at least one piece.
  - `lower` covers ASCII only.
  - Also `join` and the substring test.
- `Ordering`: Python string order, plus `list(set)` and `sorted(set)` as
  methods.
- `Http`: the reply value, JSON values and case-insensitive header lookup.
- `Sources`: what a crt.sh entry list and a HackerTarget body yield. It
  holds the parsing loops and the lemmas about them.
- `SubdomainsAsync`: the asynchronous clients, the gatherer, the ASN
  lookup and the brute forcer.
- `Subdomains`: the synchronous clients.
- `Scanner`: the four probes, `scan_target` and `run_scanner`.
- `Cli`: the end of `recon`.

`get_asn_info` returns the stripped body of any 200 reply. A 200 reply with a
blank body therefore gives `""`, not the "Unknown ASN" sentinel.
`SubdomainsAsync.AsnInfo` states exactly when that happens.

## Model

| member | source | states |
|---|---|---|
| SubdomainsAsync.FetchCrtsh | hunterforge/core/subdomains_async.py:17-36 | The result lists each crt.sh name exactly once, and nothing else. There are no names unless the status is 200, the body starts with "[", and the JSON decodes to a list whose every entry is usable. |
| Sources.CollectCrtsh | hunterforge/core/subdomains_async.py:27-33 | The entry loop computes `Harvest`. That is the set of stripped pieces that end with the domain. It fails at the first entry that is not an object, or whose truthy `name_value` is not a string. |
| Sources.HarvestMembers | hunterforge/core/subdomains_async.py:28-33 | The harvest fails exactly when some entry fails. Otherwise a name is in it exactly when some piece of some entry ends with the domain and strips to that name. |
| Sources.HarvestFailureSticks | hunterforge/core/subdomains_async.py:28-36 | Once an entry raises, the whole reply yields nothing: the loop's exception discards the names already collected. |
| Sources.CrtshYieldSound | hunterforge/core/subdomains_async.py:31-33 | Every name ends with the domain, when the domain has no whitespace at either end. The domain may be empty. |
| Sources.CrtshYieldNoBreak | hunterforge/core/subdomains_async.py:31-33 | No name holds a line break, whatever the domain. |
| Sources.CrtshYieldOrigin | hunterforge/core/subdomains_async.py:27-34 | Every name is the stripped form of some `name_value` piece that ended with the domain. |
| Sources.CrtshYieldComplete | hunterforge/core/subdomains_async.py:31-33 | When no entry raises, every piece that ends with the domain contributes its stripped form. |
| Sources.SkippedEntry | hunterforge/core/subdomains_async.py:29-30 | An object entry whose `name_value` is missing or falsy changes nothing. |
| SubdomainsAsync.FetchThreatcrowd | hunterforge/core/subdomains_async.py:38-47 | The result is the `subdomains` field verbatim, with no suffix filtering. Anything else yields `[]`: a status other than 200, an undecodable body, or a missing field. |
| SubdomainsAsync.FetchHackertarget | hunterforge/core/subdomains_async.py:49-65 | The result lists each HackerTarget name exactly once. There are no names unless the status is 200 and the lower-cased body lacks "error". |
| Sources.CollectHostSearch | hunterforge/core/subdomains_async.py:58-62 | The line loop computes `HostSearch`: the first comma fields that end with the domain. |
| Sources.HostSearchSound | hunterforge/core/subdomains_async.py:58-63 | Every HackerTarget name ends with the domain, holds no comma and no line break, and occurs in the body. |
| Sources.HostNamesSound | hunterforge/core/subdomains_async.py:59-62 | Every collected name is the first comma field of one of the lines. |
| Sources.FirstFieldOfLine | hunterforge/core/subdomains_async.py:59-62 | The first comma field of a line of the body occurs in the body and holds neither a comma nor a line break. |
| Sources.HostNamesComplete | hunterforge/core/subdomains_async.py:59-62 | Every line whose first field ends with the domain contributes that field. |
| Sources.ErrorNamedHostSilencesReply | hunterforge/core/subdomains_async.py:56-62 | No name containing "error" in any letter case is ever reported. |
| SubdomainsAsync.Merge | hunterforge/core/subdomains_async.py:80-81 | The update loop computes `Union` of the source results. |
| SubdomainsAsync.UnionMembers | hunterforge/core/subdomains_async.py:73-84 | The union fails exactly when some result cannot be merged. Otherwise it holds exactly the members of the results. |
| SubdomainsAsync.UnionOrderFree | hunterforge/core/subdomains_async.py:79-82 | The order in which results are merged does not change the union. |
| SubdomainsAsync.StrListMembers | hunterforge/core/subdomains_async.py:81 | Merging a list of strings adds exactly its elements. |
| SubdomainsAsync.GatherSubdomains | hunterforge/core/subdomains_async.py:67-84 | The gathered set is exactly crt.sh ∪ ThreatCrowd ∪ HackerTarget. It fails exactly when ThreatCrowd's field cannot be merged as host names. |
| SubdomainsAsync.AsnInfo | hunterforge/core/subdomains_async.py:86-96 | Any status other than 200, or a failed request, gives "Unknown ASN". A 200 reply gives exactly the stripped body: the body is blank before and after the result. The result has no whitespace at either end, and it is empty exactly when the body is blank. |
| SubdomainsAsync.Words | hunterforge/core/subdomains_async.py:101-103 | The words are exactly the stripped non-blank lines of the wordlist. Each is non-empty with no surrounding whitespace or line break. |
| SubdomainsAsync.NonBlankStrippedMembers | hunterforge/core/subdomains_async.py:103 | The filter keeps exactly the stripped forms of the non-blank lines. |
| SubdomainsAsync.NonBlankStrippedSound | hunterforge/core/subdomains_async.py:103 | Every word kept is the stripped form of some non-blank line. |
| SubdomainsAsync.NonBlankStrippedComplete | hunterforge/core/subdomains_async.py:103 | Every non-blank line contributes its stripped form. |
| SubdomainsAsync.NonBlankStrippedTrimmed | hunterforge/core/subdomains_async.py:103 | No word kept is empty or has whitespace at either end. |
| SubdomainsAsync.Candidates | hunterforge/core/subdomains_async.py:118 | The candidates are exactly `word + "." + domain` for each word. |
| SubdomainsAsync.ResolveAll | hunterforge/core/subdomains_async.py:118-128 | The keys are exactly the candidates that resolve. Each maps to its first address and that address's ASN string. |
| SubdomainsAsync.BruteForce | hunterforge/core/subdomains_async.py:98-131 | A missing wordlist gives an empty map. An unreadable wordlist, or a negative concurrency, gives a failure that propagates and aborts the recon. A concurrency of 0 never returns when there is a word. Otherwise the map's keys are exactly the candidates that resolve. Each key maps to its first address and that address's ASN string. |
| Subdomains.FetchSubdomainsFromCrtsh | hunterforge/core/subdomains.py:17-45 | The result is the crt.sh names, ascending and each once. There are none unless the status is 200 and the stripped body starts with "[" or "{". |
| Subdomains.FetchSubdomainsFromThreatcrowd | hunterforge/core/subdomains.py:47-62 | It takes the same field, with the same fallbacks to `[]`, as the asynchronous client. |
| Subdomains.FetchSubdomainsFromHackertarget | hunterforge/core/subdomains.py:64-89 | The body is stripped first. The result is its HackerTarget names, ascending and each once. There are none unless the status is 200 and the stripped, lower-cased body lacks "error". |
| Subdomains.CrtshAgreesWithAsync | hunterforge/core/subdomains.py:29-32 | Every reply the asynchronous crt.sh client accepts (status 200, body starting with "["), this one accepts too, and the two yield the same names. For every reply, the asynchronous names are among this client's names. |
| Ordering.SortSet | hunterforge/core/subdomains.py:86 | `sorted(set)` lists exactly the set's members in strictly ascending order. That is the set's unique sorted listing. |
| Ordering.ListOf | hunterforge/core/subdomains_async.py:34 | `list(set)` lists exactly the set's members, each once. |
| Ordering.SortedListingUnique | hunterforge/core/subdomains.py:42 | Two ascending listings of the same set are equal. |
| Ordering.Insert | hunterforge/core/subdomains.py:42 | Adding a name to an ascending listing keeps it ascending, with exactly that name added. |
| Scanner.ProbeUrl | hunterforge/core/scanner.py:6 | The probe keeps the URL as its prefix and ends with `param=payload`. The separator is "&" exactly when the URL already holds "?". The probe always holds a "?". |
| Scanner.ProbesShareSeparator | hunterforge/core/scanner.py:6-18 | Both probe URLs of a target agree up to and including the separator. |
| Scanner.XssVerdict | hunterforge/core/scanner.py:4-14 | "Possible XSS" exactly when a response body holds the payload, whatever its status. Otherwise "Safe". |
| Scanner.RedirectVerdict | hunterforge/core/scanner.py:16-26 | "Vulnerable" exactly when the first `Location` header, matched ignoring case, holds the payload. Otherwise "Safe". |
| Scanner.CorsVerdict | hunterforge/core/scanner.py:28-38 | "Wildcard (*)" exactly when the allowed origin is "*". "Misconfigured" exactly when it is not "*" but contains "evil.com". Otherwise "Safe". |
| Scanner.Missing | hunterforge/core/scanner.py:44-47 | The filter keeps exactly the required headers that are absent, in the order they are listed, at most all three. |
| Scanner.CheckSecurityHeaders | hunterforge/core/scanner.py:40-52 | The loop collects the absent headers in the listed order. It renders them as "Missing: " plus a ", " join, or "OK". |
| Scanner.HeadersVerdictMeaning | hunterforge/core/scanner.py:44-52 | The verdict is "OK" exactly when the request failed or all three headers are present. Otherwise it names every absent header. |
| Scanner.ScanTarget | hunterforge/core/scanner.py:54-61 | The record carries the input URL. Each of its four fields is the verdict function applied to the reply to its own probe. The headers field is "OK" exactly when the host is unreachable or no checked header is missing. |
| Scanner.RunScanner | hunterforge/core/scanner.py:63-68 | There is one record per URL, in input order. |
| Scanner.UnreachableIsSafe | hunterforge/core/scanner.py:4-52 | A host that never answers is "Safe", "Safe", "Safe", "OK". |
| Scanner.JoinContains | hunterforge/core/scanner.py:49 | Every absent header's name occurs in the joined list. |
| Cli.Merged | hunterforge/cli.py:35 | The result set holds exactly the gathered names and, after brute force, its keys. |
| Cli.OutputFile | hunterforge/cli.py:45 | The file is `--output` when it is given and non-empty. Otherwise it is the root domain followed by "_subdomains.txt". |
| Cli.Recon | hunterforge/cli.py:35-51 | Nothing is written exactly when the merged set is empty. Otherwise the named file receives the sorted names, one per line. |
| Cli.SerialiseSnoc | hunterforge/cli.py:47-48 | Writing one more name appends it and one newline. |
| Cli.SerialiseRoundTrip | hunterforge/cli.py:47-48 | For names without a line break, splitting the file on newlines gives back the names written, then one empty piece. |
| Cli.SavedFileLines | hunterforge/cli.py:43-48 | When no merged name holds a line break, the file's lines are the merged names, ascending, each once. They are followed by a final empty piece. |

## Left out

- HTTP requests are replaced by given replies. This covers the aiohttp and requests sessions, timeouts, TLS flags, the User-Agent header and the source query URLs. Transport failures and `resp.text()` decoding errors become `Unreachable`, and decoding JSON becomes a given `Option<Json>`.
- DNS resolution through aiodns is a map from host name to addresses. A resolver error is a missing key or an empty address list.
- Concurrency is not modelled: `asyncio.gather`, `as_completed` and the semaphore bounding lookups run as sequential loops. The contracts hold for every completion order. The semaphore's value is kept only for its two edge cases: a negative value raises, and 0 blocks every lookup.
- Rich console output and progress bars are not modelled.
- `normalize_domain` is not modelled: it depends on tldextract's public-suffix data.
- Click argument parsing and `asyncio.run` are not modelled.
- File reads and writes become strings. The wordlist is `NotFound` when the file is missing, `Unreadable` when opening or reading it raises any other error, or `Text` holding its contents. The output file is its name and the text written.
- Text-mode newline translation is not modelled. Only "\n" separates wordlist lines.
- SubdomainsAsync.Members: a ThreatCrowd list holding non-strings (numbers, booleans, null) is reported as a failed merge. Python would add those values to the set.
- Sources.CrtshYieldSound: the suffix guarantee is stated only for a domain with no whitespace at either end (the empty domain included). Stripping may cut into a domain that has such whitespace.
- The console listing of brute-force hits in `recon` is not modelled: it only prints.
- Cli.Recon: takes `NoBruteForce` when brute force was not requested, or the map of a brute force that returned. A brute force that raises (an unreadable wordlist, a negative concurrency) or never returns (concurrency 0) never reaches this point.
- Cli.SavedFileLines: the line-by-line read-back is stated only for names without a line break. The ThreatCrowd client keeps its names unfiltered: a "subdomains" list may hold a name such as "a\nb", and a string value contributes its characters one by one, "\n" among them. Such a name reaches the saved file, and the file's lines then do not give back the set.
