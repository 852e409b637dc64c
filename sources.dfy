/** What the two filtering sources extract from a reply, shared by the
    asynchronous and the synchronous clients (their parsing code is the
    same):
    - crt.sh: a JSON array of certificate entries; each entry's
      `name_value` is split on "\n", and every piece that ends with the
      root domain is kept, stripped. An entry that is not an object, or a
      `name_value` that is truthy but not a string, raises, and the whole
      reply then yields nothing.
    - HackerTarget: text lines `host,address`; the first comma field of
      every line is kept when it ends with the root domain. */
module Sources {
  import opened Text
  import opened Http

  // ---------------------------------------------------------------------
  // crt.sh

  /** Processing this entry raises: `entry.get` on something that is not an
      object, or `name_value.split` on a truthy value that is not a string. */
  predicate EntryFails(e: Json) {
    || !e.Obj?
    || ("name_value" in e.fields && Truthy(e.fields["name_value"])
        && !e.fields["name_value"].Str?)
  }

  /** The "\n"-separated pieces of the entry's `name_value`; none when the
      field is missing or falsy (`if name_value:` skips the entry). */
  function Pieces(e: Json): seq<string> {
    if e.Obj? && "name_value" in e.fields && e.fields["name_value"].Str?
       && e.fields["name_value"].s != ""
    then Split(e.fields["name_value"].s, '\n')
    else []
  }

  /** The stripped pieces that end with `domain`, collected into a set. */
  function Kept(pieces: seq<string>, domain: string): set<string>
    decreases |pieces|
  {
    if pieces == [] then {}
    else
      var p := pieces[|pieces| - 1];
      Kept(pieces[..|pieces| - 1], domain) + (if EndsWith(p, domain) then {Strip(p)} else {})
  }

  /** The set the crt.sh loop builds from `entries`, or `None` when one of
      them raises. */
  function Harvest(entries: seq<Json>, domain: string): Option<set<string>>
    decreases |entries|
  {
    if entries == [] then Some({})
    else
      var e := entries[|entries| - 1];
      match Harvest(entries[..|entries| - 1], domain)
      case None => None
      case Some(found) =>
        if EntryFails(e) then None else Some(found + Kept(Pieces(e), domain))
  }

  /** What a decoded crt.sh body yields: anything but an array yields
      nothing (iterating a non-empty object or string raises, an empty one
      gives no entries, a number or null is not iterable), and so does an
      array in which some entry raises. */
  function CrtshYield(data: Option<Json>, domain: string): set<string> {
    match data
    case Some(Arr(entries)) =>
      (match Harvest(entries, domain)
       case Some(found) => found
       case None => {})
    case _ => {}
  }

  /** The loop over crt.sh entries and their `name_value` pieces. */
  method CollectCrtsh(entries: seq<Json>, domain: string) returns (found: Option<set<string>>)
    ensures found == Harvest(entries, domain)
  {
    var names: set<string> := {};
    for i := 0 to |entries|
      invariant Harvest(entries[..i], domain) == Some(names)
    {
      var e := entries[i];
      HarvestStep(entries, i, domain, names);
      ghost var start := names;
      if !e.Obj? {
        HarvestFailureSticks(entries, i + 1, domain);
        return None;
      }
      assert "name_value" !in e.fields || !Truthy(e.fields["name_value"]) ==>
               Pieces(e) == [] && start + Kept(Pieces(e), domain) == start;
      if "name_value" in e.fields {
        var v := e.fields["name_value"];
        if Truthy(v) {
          if !v.Str? {
            HarvestFailureSticks(entries, i + 1, domain);
            return None;
          }
          var pieces := Split(v.s, '\n');
          for j := 0 to |pieces|
            invariant names == start + Kept(pieces[..j], domain)
          {
            KeptStep(pieces, j, domain);
            if EndsWith(pieces[j], domain) {
              names := names + {Strip(pieces[j])};
            }
          }
          assert pieces[..|pieces|] == pieces && Pieces(e) == pieces;
        }
      }
    }
    assert entries[..|entries|] == entries;
    found := Some(names);
  }

  // ---------------------------------------------------------------------
  // HackerTarget

  /** `line.split(",")[0]`; the split always has a first element, so the
      program's `if parts` test never fails. */
  function FirstField(line: string): string {
    Split(line, ',')[0]
  }

  /** The set the HackerTarget loop builds from `lines`. */
  function HostNames(lines: seq<string>, domain: string): set<string>
    decreases |lines|
  {
    if lines == [] then {}
    else
      var host := FirstField(lines[|lines| - 1]);
      HostNames(lines[..|lines| - 1], domain) + (if EndsWith(host, domain) then {host} else {})
  }

  function HostSearch(text: string, domain: string): set<string> {
    HostNames(Split(text, '\n'), domain)
  }

  /** The loop over the lines of a HackerTarget body. */
  method CollectHostSearch(text: string, domain: string) returns (found: set<string>)
    ensures found == HostSearch(text, domain)
  {
    var lines := Split(text, '\n');
    found := {};
    for i := 0 to |lines|
      invariant found == HostNames(lines[..i], domain)
    {
      HostNamesStep(lines, i, domain);
      var parts := Split(lines[i], ',');
      if EndsWith(parts[0], domain) {
        found := found + {parts[0]};
      }
    }
    assert lines[..|lines|] == lines;
  }

  // ---------------------------------------------------------------------
  // Lemmas

  lemma HostNamesStep(lines: seq<string>, i: nat, domain: string)
    requires i < |lines|
    ensures var host := FirstField(lines[i]);
            HostNames(lines[..i + 1], domain)
            == HostNames(lines[..i], domain) + (if EndsWith(host, domain) then {host} else {})
  {
    assert lines[..i + 1][..i] == lines[..i];
  }

  lemma KeptStep(pieces: seq<string>, j: nat, domain: string)
    requires j < |pieces|
    ensures Kept(pieces[..j + 1], domain)
            == Kept(pieces[..j], domain) + (if EndsWith(pieces[j], domain) then {Strip(pieces[j])} else {})
  {
    assert pieces[..j + 1][..j] == pieces[..j];
  }

  lemma HarvestStep(entries: seq<Json>, i: nat, domain: string, names: set<string>)
    requires i < |entries| && Harvest(entries[..i], domain) == Some(names)
    ensures Harvest(entries[..i + 1], domain)
            == if EntryFails(entries[i]) then None else Some(names + Kept(Pieces(entries[i]), domain))
  {
    assert entries[..i + 1][..i] == entries[..i];
  }

  /** A root domain with no whitespace at either end, so stripping a host
      name cannot cut into it. */
  predicate TrimmedDomain(domain: string) {
    domain == [] || (!IsSpace(domain[0]) && !IsSpace(domain[|domain| - 1]))
  }

  /** Once an entry has raised, later entries cannot undo it. */
  lemma {:induction false} HarvestFailureSticks(entries: seq<Json>, k: nat, domain: string)
    requires k <= |entries|
    requires Harvest(entries[..k], domain).None?
    ensures Harvest(entries, domain).None?
    decreases |entries| - k
  {
    if k < |entries| {
      var longer := entries[..k + 1];
      assert longer[..|longer| - 1] == entries[..k];
      HarvestFailureSticks(entries, k + 1, domain);
    } else {
      assert entries[..k] == entries;
    }
  }

  /** `Kept` holds exactly the stripped pieces that end with the domain. */
  lemma {:induction false} KeptMembers(pieces: seq<string>, domain: string, x: string)
    ensures x in Kept(pieces, domain) <==>
              exists p :: p in pieces && EndsWith(p, domain) && x == Strip(p)
    decreases |pieces|
  {
    if pieces != [] {
      var init := pieces[..|pieces| - 1];
      KeptMembers(init, domain, x);
      assert pieces == init + [pieces[|pieces| - 1]];
    }
  }

  /** The crt.sh loop fails exactly when some entry raises; otherwise it
      collects the stripped, domain-suffixed pieces of all entries and
      nothing else. */
  lemma {:induction false} HarvestMembers(entries: seq<Json>, domain: string)
    ensures Harvest(entries, domain).None? <==> exists e :: e in entries && EntryFails(e)
    ensures Harvest(entries, domain).Some? ==>
              forall x :: x in Harvest(entries, domain).value <==>
                exists e, p :: e in entries && p in Pieces(e) && EndsWith(p, domain) && x == Strip(p)
    decreases |entries|
  {
    if entries != [] {
      var init := entries[..|entries| - 1];
      var last := entries[|entries| - 1];
      HarvestMembers(init, domain);
      assert entries == init + [last];
      if Harvest(entries, domain).Some? {
        forall x ensures x in Harvest(entries, domain).value <==>
          exists e, p :: e in entries && p in Pieces(e) && EndsWith(p, domain) && x == Strip(p)
        {
          KeptMembers(Pieces(last), domain, x);
        }
      }
    }
  }

  /** Every name crt.sh yields is the stripped form of a piece of some
      entry's `name_value` that ended with the root domain. */
  lemma CrtshYieldOrigin(data: Option<Json>, domain: string, x: string)
    requires x in CrtshYield(data, domain)
    ensures data.Some? && data.value.Arr?
    ensures exists e, p :: e in data.value.items && p in Pieces(e) && EndsWith(p, domain) && x == Strip(p)
  {
    HarvestMembers(data.value.items, domain);
  }

  /** Every name crt.sh yields ends with the root domain, whenever the
      domain has no whitespace at either end. */
  lemma CrtshYieldSound(data: Option<Json>, domain: string, x: string)
    requires TrimmedDomain(domain)
    requires x in CrtshYield(data, domain)
    ensures EndsWith(x, domain)
  {
    CrtshYieldOrigin(data, domain, x);
    var e, p :| e in data.value.items && p in Pieces(e) && EndsWith(p, domain) && x == Strip(p);
    if domain != [] {
      StripKeepsSuffix(p, domain);
    }
  }

  /** No name crt.sh yields holds a line break. */
  lemma CrtshYieldNoBreak(data: Option<Json>, domain: string, x: string)
    requires x in CrtshYield(data, domain)
    ensures '\n' !in x
  {
    CrtshYieldOrigin(data, domain, x);
    var e, p :| e in data.value.items && p in Pieces(e) && EndsWith(p, domain) && x == Strip(p);
    PieceHasNoBreak(e, p);
    StripKeepsOut(p, '\n');
  }


  lemma PieceHasNoBreak(e: Json, p: string)
    requires p in Pieces(e)
    ensures '\n' !in p
  {
    var parts := Split(e.fields["name_value"].s, '\n');
    var i :| 0 <= i < |parts| && parts[i] == p;
  }

  /** Every piece of every entry that ends with the root domain is yielded,
      stripped, when no entry raises. */
  lemma CrtshYieldComplete(entries: seq<Json>, domain: string, e: Json, p: string)
    requires forall f :: f in entries ==> !EntryFails(f)
    requires e in entries && p in Pieces(e) && EndsWith(p, domain)
    ensures Strip(p) in CrtshYield(Some(Arr(entries)), domain)
  {
    HarvestMembers(entries, domain);
  }

  /** An object entry whose `name_value` is missing or falsy changes
      nothing. */
  lemma SkippedEntry(entries: seq<Json>, e: Json, domain: string)
    requires e.Obj? && ("name_value" !in e.fields || !Truthy(e.fields["name_value"]))
    ensures Harvest(entries + [e], domain) == Harvest(entries, domain)
  {
    var n := entries + [e];
    assert n[..|n| - 1] == entries;
    assert Pieces(e) == [] && !EntryFails(e);
    match Harvest(entries, domain) {
      case None =>
      case Some(f) => assert f + Kept(Pieces(e), domain) == f;
    }
  }

  /** Every HackerTarget host is the first comma field of some line of the
      body: it ends with the root domain, holds no comma and no line break,
      and occurs in the body. */
  lemma {:induction false} HostNamesSound(lines: seq<string>, domain: string, x: string)
    requires x in HostNames(lines, domain)
    ensures exists line :: line in lines && x == FirstField(line) && EndsWith(x, domain)
    decreases |lines|
  {
    var init := lines[..|lines| - 1];
    if x in HostNames(init, domain) {
      HostNamesSound(init, domain, x);
      var line :| line in init && x == FirstField(line) && EndsWith(x, domain);
      assert line in lines;
    } else {
      assert lines[|lines| - 1] in lines;
    }
  }

  lemma HostSearchSound(text: string, domain: string, x: string)
    requires x in HostSearch(text, domain)
    ensures EndsWith(x, domain) && ',' !in x && '\n' !in x
    ensures Contains(text, x)
  {
    var lines := Split(text, '\n');
    HostNamesSound(lines, domain, x);
    var line :| line in lines && x == FirstField(line) && EndsWith(x, domain);
    var i :| 0 <= i < |lines| && lines[i] == line;
    FirstFieldOfLine(text, i);
  }

  /** The first comma field of a line of `text` occurs in `text` and holds
      neither a comma nor a line break. */
  lemma FirstFieldOfLine(text: string, i: nat)
    requires i < |Split(text, '\n')|
    ensures var x := FirstField(Split(text, '\n')[i]);
            Contains(text, x) && ',' !in x && '\n' !in x
  {
    var line := Split(text, '\n')[i];
    var x := FirstField(line);
    SplitPiecesOccur(text, '\n', i);
    SplitPiecesOccur(line, ',', 0);
    ContainsTransitive(text, line, x);
    ContainsIff(line, x);
    var k: nat :| OccursAt(line, x, k);
    forall m | 0 <= m < |x| ensures x[m] != '\n' {
      assert x[m] == line[k + m];
    }
  }


  /** Every first field that ends with the root domain is collected. */
  lemma {:induction false} HostNamesComplete(lines: seq<string>, domain: string, line: string)
    requires line in lines && EndsWith(FirstField(line), domain)
    ensures FirstField(line) in HostNames(lines, domain)
    decreases |lines|
  {
    var init := lines[..|lines| - 1];
    if line != lines[|lines| - 1] {
      assert lines == init + [lines[|lines| - 1]];
      HostNamesComplete(init, domain, line);
    }
  }

  /** A host whose name contains "error" in any letter case can never be
      reported: its presence in the body makes the body itself fail the
      error test, so the whole reply is discarded. */
  lemma ErrorNamedHostSilencesReply(text: string, domain: string, x: string)
    requires x in HostSearch(text, domain)
    requires Contains(Lower(x), "error")
    ensures Contains(Lower(text), "error")
  {
    HostSearchSound(text, domain, x);
    LowerContains(text, x);
    ContainsTransitive(Lower(text), Lower(x), "error");
  }
}
