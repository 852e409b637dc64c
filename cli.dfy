/** The end of the `recon` command: the gathered names and the brute-force
    hits are merged, sorted and written one per line to the output file, or
    the no-results branch is taken when there is nothing to write. The file
    is modelled by its name and the text written to it. */
module Cli {
  import opened Text
  import opened Http
  import opened Ordering
  import SubdomainsAsync

  /** What the step leaves behind: a file and its text, or nothing. */
  datatype Outcome = Saved(file: string, contents: string) | NoResults

  /** Whether brute force was requested, and the hits it found when it was.
      A brute force that fails on an unreadable wordlist aborts `recon`
      before the merge, so it has no case here. */
  datatype BruteHits = NoBruteForce | BruteForced(hits: map<string, SubdomainsAsync.Hit>)

  /** The merged result set: the gathered names, plus the brute-force keys
      when brute force ran. */
  function Merged(gathered: set<string>, brute: BruteHits): (r: set<string>)
    ensures forall h :: h in r <==> h in gathered || (brute.BruteForced? && h in brute.hits)
  {
    if brute.BruteForced? then gathered + brute.hits.Keys else gathered
  }

  /** The output file: `--output` when given and non-empty, else the root
      domain followed by "_subdomains.txt". */
  function OutputFile(root: string, output: Option<string>): (f: string)
    ensures output.Some? && output.value != "" ==> f == output.value
    ensures output.None? || output.value == "" ==>
              StartsWith(f, root) && EndsWith(f, "_subdomains.txt") && |f| == |root| + 15
  {
    if output.Some? && output.value != "" then output.value
    else
      var f := root + "_subdomains.txt";
      assert f[..|root|] == root && f[|f| - 15..] == "_subdomains.txt";
      f
  }

  /** The text of the file: each name followed by one newline. */
  function Serialise(names: seq<string>): string
    decreases |names|
  {
    if names == [] then "" else names[0] + "\n" + Serialise(names[1..])
  }

  /** Writing one more line appends it at the end. */
  lemma {:induction false} SerialiseSnoc(names: seq<string>, x: string)
    ensures Serialise(names + [x]) == Serialise(names) + x + "\n"
    decreases |names|
  {
    if names != [] {
      assert (names + [x])[1..] == names[1..] + [x];
      SerialiseSnoc(names[1..], x);
    } else {
      assert Serialise([x]) == x + "\n" + Serialise([]);
    }
  }

  /** Splitting the file on newlines gives back the names written, followed
      by the empty piece after the final newline. */
  lemma {:induction false} SerialiseRoundTrip(names: seq<string>)
    requires forall i :: 0 <= i < |names| ==> '\n' !in names[i]
    ensures Split(Serialise(names), '\n') == names + [""]
    decreases |names|
  {
    if names != [] {
      SerialiseRoundTrip(names[1..]);
      SplitAfter(names[0], '\n', Serialise(names[1..]));
      assert names == [names[0]] + names[1..];
    }
  }

  /** The merge, sort and write step of `recon`. */
  method Recon(root: string, gathered: set<string>, brute: BruteHits,
               output: Option<string>)
    returns (outcome: Outcome)
    ensures outcome.NoResults? <==> Merged(gathered, brute) == {}
    ensures outcome.Saved? ==>
              outcome.file == OutputFile(root, output)
              && outcome.contents == Serialise(SortedOf(Merged(gathered, brute)))
  {
    var results := gathered;
    if brute.BruteForced? {
      results := results + brute.hits.Keys;
    }
    if results == {} {
      return NoResults;
    }
    var sorted := SortSet(results);
    var file := if output.Some? && output.value != "" then output.value else root + "_subdomains.txt";
    var contents := "";
    for i := 0 to |sorted|
      invariant contents == Serialise(sorted[..i])
    {
      assert sorted[..i + 1] == sorted[..i] + [sorted[i]];
      SerialiseSnoc(sorted[..i], sorted[i]);
      contents := contents + sorted[i] + "\n";
    }
    assert sorted[..|sorted|] == sorted;
    outcome := Saved(file, contents);
  }

  /** A saved file lists every merged name exactly once, in ascending order,
      one per line: re-reading its lines gives the sorted set back. */
  lemma SavedFileLines(gathered: set<string>, brute: BruteHits)
    requires forall h :: h in Merged(gathered, brute) ==> '\n' !in h
    ensures var lines := Split(Serialise(SortedOf(Merged(gathered, brute))), '\n');
            && |lines| == |Merged(gathered, brute)| + 1
            && lines[|lines| - 1] == ""
            && StrictlySorted(lines[..|lines| - 1])
            && forall h :: h in lines[..|lines| - 1] <==> h in gathered || (brute.BruteForced? && h in brute.hits)
  {
    var s := Merged(gathered, brute);
    var xs := SortedOf(s);
    forall i | 0 <= i < |xs| ensures '\n' !in xs[i] {
      assert xs[i] in s;
    }
    SerialiseRoundTrip(xs);
    StrictlySortedHasNoDuplicates(xs);
    ListedOnceHasSize(xs, s);
    assert (xs + [""])[..|xs|] == xs;
  }

  /** A duplicate-free listing of a set is as long as the set is large. */
  lemma {:induction false} ListedOnceHasSize(xs: seq<string>, s: set<string>)
    requires NoDuplicates(xs) && Lists(xs, s)
    ensures |xs| == |s|
    decreases |xs|
  {
    if xs != [] {
      var rest := xs[1..];
      assert Lists(rest, s - {xs[0]}) by {
        forall z ensures z in rest <==> z in s - {xs[0]} {
          assert xs == [xs[0]] + rest;
        }
      }
      ListedOnceHasSize(rest, s - {xs[0]});
    } else {
      assert forall z :: z !in s;
    }
  }
}
