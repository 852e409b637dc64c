/** Python `str` operations the program relies on, over `seq<char>`:
    `isspace`/`strip`, `split` on a one-character separator, `join`,
    `lower` (ASCII letters only), `startswith`/`endswith` and the
    substring test `t in s`. */
module Text {

  /** Python's `str.isspace` for one character (the characters `strip()`
      removes when called without arguments). */
  predicate IsSpace(c: char) {
    || c == ' '
    || ('\t' <= c <= '\r')
    || ('\U{1C}' <= c <= '\U{1F}')
    || c == '\U{85}' || c == '\U{A0}' || c == '\U{1680}'
    || ('\U{2000}' <= c <= '\U{200A}')
    || c == '\U{2028}' || c == '\U{2029}' || c == '\U{202F}'
    || c == '\U{205F}' || c == '\U{3000}'
  }

  predicate StartsWith(s: string, prefix: string) {
    |prefix| <= |s| && s[..|prefix|] == prefix
  }

  predicate EndsWith(s: string, suffix: string) {
    |suffix| <= |s| && s[|s| - |suffix|..] == suffix
  }

  /** True when every character of `s` is whitespace (`s.strip() == ""`). */
  predicate Blank(s: string) {
    forall i :: 0 <= i < |s| ==> IsSpace(s[i])
  }

  /** `s.lstrip()`: the suffix of `s` left after its leading whitespace. */
  function StripLeft(s: string): (r: string)
    ensures |r| <= |s| && r == s[|s| - |r|..]
    ensures forall i :: 0 <= i < |s| - |r| ==> IsSpace(s[i])
    ensures r == [] || !IsSpace(r[0])
    decreases |s|
  {
    if |s| > 0 && IsSpace(s[0]) then
      var r := StripLeft(s[1..]);
      assert forall i :: 1 <= i < |s| ==> s[i] == s[1..][i - 1];
      r
    else s
  }

  /** `s.rstrip()`: the prefix of `s` left before its trailing whitespace. */
  function StripRight(s: string): (r: string)
    ensures |r| <= |s| && r == s[..|r|]
    ensures forall i :: |r| <= i < |s| ==> IsSpace(s[i])
    ensures r == [] || !IsSpace(r[|r| - 1])
    decreases |s|
  {
    if |s| > 0 && IsSpace(s[|s| - 1]) then
      var t := s[..|s| - 1];
      var r := StripRight(t);
      assert t[..|r|] == s[..|r|];
      r
    else s
  }

  /** `s.strip()`: a contiguous piece of `s` that neither starts nor ends
      with whitespace, everything around it being whitespace. */
  function Strip(s: string): (r: string)
    ensures |r| <= |s|
    ensures r == [] || (!IsSpace(r[0]) && !IsSpace(r[|r| - 1]))
    ensures r == [] <==> Blank(s)
  {
    var left := StripLeft(s);
    var r := StripRight(left);
    StripFacts(s, left, r);
    r
  }

  /** The proof obligations of `Strip`, one step at a time. */
  lemma StripFacts(s: string, left: string, r: string)
    requires left == StripLeft(s) && r == StripRight(left)
    ensures |r| <= |s|
    ensures r == [] || (!IsSpace(r[0]) && !IsSpace(r[|r| - 1]))
    ensures r == [] <==> Blank(s)
  {
    if r != [] {
      assert r[0] == left[0];
      assert s[|s| - |left|] == left[0];
    } else {
      assert left == [];
    }
  }

  /** `s.strip()` is a contiguous piece of `s`. */
  lemma StripContained(s: string)
    ensures Contains(s, Strip(s))
  {
    var left := StripLeft(s);
    var r := StripRight(left);
    var k := |s| - |left|;
    assert s[k..k + |r|] == r by {
      assert s[k..] == left && left[..|r|] == r;
    }
    ContainsAt(s, r, k);
  }


  /** `s.strip()` is exactly `s` without its leading and trailing
      whitespace: it occurs in `s` at an offset with only whitespace before
      and after it. */
  lemma StripExact(s: string)
    ensures exists k: nat :: OccursAt(s, Strip(s), k) && Blank(s[..k]) && Blank(s[k + |Strip(s)|..])
  {
    var left := StripLeft(s);
    var r := StripRight(left);
    var k := |s| - |left|;
    LeadingBlank(s, left);
    PieceOfSuffix(s, left, r);
    assert r == Strip(s);
    assert OccursAt(s, r, k) && Blank(s[..k]) && Blank(s[k + |r|..]);
  }

  /** What `lstrip` removes is blank. */
  lemma LeadingBlank(s: string, left: string)
    requires left == StripLeft(s)
    ensures Blank(s[..|s| - |left|])
  {
    var before := s[..|s| - |left|];
    forall i | 0 <= i < |before| ensures IsSpace(before[i]) {
      assert before[i] == s[i];
    }
  }

  /** A prefix `r` of a suffix `left` of `s`, followed in `left` by
      whitespace only, occurs in `s` with only whitespace after it. */
  lemma PieceOfSuffix(s: string, left: string, r: string)
    requires |left| <= |s| && left == s[|s| - |left|..]
    requires |r| <= |left| && r == left[..|r|]
    requires forall i :: |r| <= i < |left| ==> IsSpace(left[i])
    ensures OccursAt(s, r, |s| - |left|)
    ensures Blank(s[|s| - |left| + |r|..])
  {
    var k := |s| - |left|;
    assert s[k..k + |r|] == left[..|r|];
    var after := s[k + |r|..];
    forall i | 0 <= i < |after| ensures IsSpace(after[i]) {
      assert after[i] == left[|r| + i];
    }
  }

  /** Python's `s.split(c)` for a one-character separator: the pieces
      between the separators, at least one, none containing `c`; the first
      piece is a prefix of `s`. */
  function Split(s: string, c: char): (parts: seq<string>)
    ensures |parts| >= 1
    ensures StartsWith(s, parts[0])
    ensures forall i :: 0 <= i < |parts| ==> c !in parts[i]
    decreases |s|
  {
    if |s| == 0 then [""]
    else
      var rest := Split(s[1..], c);
      if s[0] == c then [""] + rest
      else [[s[0]] + rest[0]] + rest[1..]
  }

  /** Python's `sep.join(parts)`. */
  function Join(parts: seq<string>, sep: string): string
  {
    if |parts| == 0 then ""
    else if |parts| == 1 then parts[0]
    else parts[0] + sep + Join(parts[1..], sep)
  }

  function LowerChar(c: char): char {
    if 'A' <= c <= 'Z' then (c as int + 32) as char else c
  }

  /** `s.lower()`, restricted to ASCII letters. */
  function Lower(s: string): (r: string)
    ensures |r| == |s|
  {
    seq(|s|, i requires 0 <= i < |s| => LowerChar(s[i]))
  }

  /** `t` occurs in `s` starting at offset `k`. */
  predicate OccursAt(s: string, t: string, k: nat) {
    k + |t| <= |s| && s[k..k + |t|] == t
  }

  /** Python's substring test `t in s`. */
  predicate Contains(s: string, t: string)
    decreases |s|
  {
    StartsWith(s, t) || (|s| > 0 && Contains(s[1..], t))
  }

  // ---------------------------------------------------------------------
  // Lemmas

  /** `t in s` holds exactly when `t` occurs in `s` at some offset. */
  lemma {:induction false} ContainsIff(s: string, t: string)
    ensures Contains(s, t) <==> exists k: nat :: OccursAt(s, t, k)
  {
    if Contains(s, t) {
      if StartsWith(s, t) {
        assert OccursAt(s, t, 0);
      } else {
        ContainsIff(s[1..], t);
        var k: nat :| OccursAt(s[1..], t, k);
        assert s[k + 1..k + 1 + |t|] == s[1..][k..k + |t|];
        assert OccursAt(s, t, k + 1);
      }
    }
    if exists k: nat :: OccursAt(s, t, k) {
      var k: nat :| OccursAt(s, t, k);
      ContainsAt(s, t, k);
    }
  }

  /** An occurrence at offset `k` makes `t in s` true. */
  lemma {:induction false} ContainsAt(s: string, t: string, k: nat)
    requires k + |t| <= |s| && s[k..k + |t|] == t
    ensures Contains(s, t)
    decreases k
  {
    if k == 0 {
      assert s[..|t|] == t;
    } else {
      assert s[1..][k - 1..k - 1 + |t|] == s[k..k + |t|];
      ContainsAt(s[1..], t, k - 1);
    }
  }

  /** Substring is transitive: `u in t` and `t in s` give `u in s`. */
  lemma ContainsTransitive(s: string, t: string, u: string)
    requires Contains(s, t) && Contains(t, u)
    ensures Contains(s, u)
  {
    ContainsIff(s, t);
    ContainsIff(t, u);
    var i: nat :| OccursAt(s, t, i);
    var j: nat :| OccursAt(t, u, j);
    assert s[i..i + |t|] == t && t[j..j + |u|] == u;
    forall m | 0 <= m < |u| ensures s[i + j + m] == u[m] {
      assert u[m] == t[j + m] == s[i..i + |t|][j + m];
    }
    assert s[i + j..i + j + |u|] == u;
    ContainsAt(s, u, i + j);
  }

  /** Lower-casing keeps occurrences: `t in s` gives `t.lower() in s.lower()`. */
  lemma LowerContains(s: string, t: string)
    requires Contains(s, t)
    ensures Contains(Lower(s), Lower(t))
  {
    ContainsIff(s, t);
    var k: nat :| OccursAt(s, t, k);
    assert Lower(s)[k..k + |t|] == Lower(t);
    ContainsAt(Lower(s), Lower(t), k);
  }

  /** Every piece `split` produces occurs in the string that was split. */
  lemma {:induction false} SplitPiecesOccur(s: string, c: char, i: nat)
    requires i < |Split(s, c)|
    ensures Contains(s, Split(s, c)[i])
    decreases |s|
  {
    var parts := Split(s, c);
    if |s| == 0 {
      assert parts[i] == "" && StartsWith(s, "");
    } else {
      var rest := Split(s[1..], c);
      if i == 0 {
        assert StartsWith(s, parts[0]);
      } else {
        var j := if s[0] == c then i - 1 else i;
        SplitPiecesOccur(s[1..], c, j);
        assert parts[i] == rest[j];
        ContainsIff(s[1..], rest[j]);
        var k: nat :| OccursAt(s[1..], rest[j], k);
        assert s[k + 1..k + 1 + |rest[j]|] == rest[j];
        ContainsAt(s, rest[j], k + 1);
      }
    }
  }

  /** Splitting `x + c + rest` where `x` holds no `c` yields `x` first and
      then the pieces of `rest`. */
  lemma {:induction false} SplitAfter(x: string, c: char, rest: string)
    requires c !in x
    ensures Split(x + [c] + rest, c) == [x] + Split(rest, c)
    decreases |x|
  {
    var s := x + [c] + rest;
    if |x| == 0 {
      assert s[1..] == rest;
    } else {
      assert s[1..] == x[1..] + [c] + rest;
      SplitAfter(x[1..], c, rest);
      assert [x[0]] + x[1..] == x;
    }
  }

  /** Stripping a string that ends with `d` (a suffix with no whitespace at
      either end) leaves a string that still ends with `d`. */
  lemma StripKeepsSuffix(p: string, d: string)
    requires EndsWith(p, d) && d != []
    requires !IsSpace(d[0]) && !IsSpace(d[|d| - 1])
    ensures EndsWith(Strip(p), d)
  {
    var left := StripLeft(p);
    assert p[|p| - |d|] == d[0];
    assert |d| <= |left|;
    SuffixOfSuffix(p, left, d);
    StripOnlyLeft(p);
  }

  /** A suffix of `p` at least as long as `d` ends with `d` when `p` does. */
  lemma SuffixOfSuffix(p: string, left: string, d: string)
    requires |left| <= |p| && left == p[|p| - |left|..]
    requires EndsWith(p, d) && |d| <= |left|
    ensures EndsWith(left, d)
  {
    forall j | 0 <= j < |d| ensures left[|left| - |d|..][j] == d[j] {
      assert left[|left| - |d| + j] == p[|p| - |d| + j];
    }
  }


  /** A string that does not end with whitespace loses only its leading
      whitespace when stripped. */
  lemma StripOnlyLeft(s: string)
    requires s != [] && !IsSpace(s[|s| - 1])
    ensures Strip(s) == StripLeft(s)
  {
    var left := StripLeft(s);
    assert left != [] ==> left[|left| - 1] == s[|s| - 1];
    assert left != [];
    assert StripRight(left) == left;
  }


  /** A string that starts with a non-whitespace character keeps that first
      character when stripped. */
  lemma StripKeepsHead(s: string)
    requires s != [] && !IsSpace(s[0])
    ensures Strip(s) != [] && Strip(s)[0] == s[0]
  {
    assert StripLeft(s) == s;
    assert !Blank(s);
  }

  /** Stripping never introduces a character the input did not hold. */
  lemma StripKeepsOut(s: string, c: char)
    requires c !in s
    ensures c !in Strip(s)
  {
    var r := Strip(s);
    StripContained(s);
    ContainsIff(s, r);
    var k: nat :| OccursAt(s, r, k);
    forall i | 0 <= i < |r| ensures r[i] != c {
      assert r[i] == s[k + i];
    }
  }
}
