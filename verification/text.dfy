/**
 * The handful of Python `str` operations the chat bridge relies on, restricted
 * to ASCII: `isspace`, `strip()`, `split(maxsplit=1)`, `lower()`, `upper()`,
 * `capitalize()`, `startswith` and the substring test `p in s`.
 *
 * `strip` and `split` are computed by scanning indices, as CPython does, and are
 * characterised independently by the predicates `Trims` and `Decomposes`; the
 * lemmas `StripOfTrims` and `SplitOfDecomposes` show that the characterisation
 * determines the result.
 */
module Text {

  /** `c.isspace()` on the ASCII range: space, \t \n \v \f \r and the four
      separators \x1c..\x1f. */
  predicate IsSpace(c: char) {
    c == ' ' || 9 <= c as int <= 13 || 28 <= c as int <= 31
  }

  predicate IsUpper(c: char) { 'A' <= c <= 'Z' }

  predicate IsLower(c: char) { 'a' <= c <= 'z' }

  predicate AllSpace(s: string) {
    forall i :: 0 <= i < |s| ==> IsSpace(s[i])
  }

  predicate NoSpace(s: string) {
    forall i :: 0 <= i < |s| ==> !IsSpace(s[i])
  }

  /** Neither end of `s` is whitespace: what `strip()` produces. */
  predicate IsStripped(s: string) {
    s == [] || (!IsSpace(s[0]) && !IsSpace(s[|s| - 1]))
  }

  /** No lower-case first character and no upper-case character after it: what `capitalize()` produces. */
  predicate IsCapitalized(s: string) {
    s == [] || (!IsLower(s[0]) && forall i :: 1 <= i < |s| ==> !IsUpper(s[i]))
  }

  predicate StartsWith(s: string, prefix: string) {
    |prefix| <= |s| && s[..|prefix|] == prefix
  }

  // ----- Case mapping -----

  function LowerChar(c: char): char {
    if IsUpper(c) then (c as int + 32) as char else c
  }

  function UpperChar(c: char): char {
    if IsLower(c) then (c as int - 32) as char else c
  }

  /** `s.lower()` */
  function Lower(s: string): (r: string)
    ensures |r| == |s|
  {
    seq(|s|, i requires 0 <= i < |s| => LowerChar(s[i]))
  }

  /** `s.upper()` */
  function Upper(s: string): (r: string)
    ensures |r| == |s|
  {
    seq(|s|, i requires 0 <= i < |s| => UpperChar(s[i]))
  }

  /** `s.capitalize()`: first character upper-cased, the rest lower-cased. */
  function Capitalize(s: string): (r: string)
    ensures |r| == |s|
    ensures IsCapitalized(r)
    ensures Lower(r) == Lower(s)
  {
    if s == [] then [] else
    var r := [UpperChar(s[0])] + Lower(s[1..]);
    assert forall i :: 0 <= i < |s| ==> Lower(r)[i] == Lower(s)[i] by {
      forall i | 0 <= i < |s| ensures Lower(r)[i] == Lower(s)[i] {
        if i > 0 { assert r[i] == Lower(s[1..])[i - 1]; }
      }
    }
    r
  }

  /** Case mapping leaves whitespace alone, so it never changes what `strip` and `split` see. */
  lemma LowerKeepsSpaces(s: string)
    ensures forall i :: 0 <= i < |s| ==> (IsSpace(Lower(s)[i]) <==> IsSpace(s[i]))
  {
  }

  /** Changing case never creates whitespace, so a whitespace-free name stays whitespace-free. */
  lemma CapitalizeKeepsNoSpace(s: string)
    requires NoSpace(s)
    ensures NoSpace(Capitalize(Lower(s)))
  {
    var v := Capitalize(Lower(s));
    LowerKeepsSpaces(s);
    LowerKeepsSpaces(v);
    forall i | 0 <= i < |v| ensures !IsSpace(v[i]) {
      assert Lower(v)[i] == Lower(Lower(s))[i] == Lower(s)[i];
    }
  }

  /** Lower-casing forgets any earlier upper-casing: `s.upper().lower() == s.lower()`. */
  lemma LowerOfUpper(s: string)
    ensures Lower(Upper(s)) == Lower(s)
  {
    assert forall i :: 0 <= i < |s| ==> Lower(Upper(s))[i] == Lower(s)[i];
  }

  // ----- Substring test -----

  /** `p` occurs in `s` at position `k`. */
  predicate OccursAt(s: string, p: string, k: int) {
    0 <= k && k + |p| <= |s| && forall m :: 0 <= m < |p| ==> s[k + m] == p[m]
  }

  /** `p in s` for strings: `p` occurs at some position of `s`. */
  predicate Contains(s: string, p: string) {
    exists k :: 0 <= k <= |s| - |p| && OccursAt(s, p, k)
  }

  // ----- Index scans -----

  /** First index at or after `i` that is not whitespace (or |s|). */
  function SkipSpaces(s: string, i: nat): (j: nat)
    requires i <= |s|
    ensures i <= j <= |s|
    ensures AllSpace(s[i..j])
    ensures j < |s| ==> !IsSpace(s[j])
    decreases |s| - i
  {
    if i < |s| && IsSpace(s[i]) then SkipSpaces(s, i + 1) else i
  }

  /** First index at or after `i` that is whitespace (or |s|): the end of a token. */
  function TokenEnd(s: string, i: nat): (j: nat)
    requires i <= |s|
    ensures i <= j <= |s|
    ensures NoSpace(s[i..j])
    ensures j < |s| ==> IsSpace(s[j])
    decreases |s| - i
  {
    if i < |s| && !IsSpace(s[i]) then TokenEnd(s, i + 1) else i
  }

  /** Going down from `j` but not below `lo`, the index just after the last non-whitespace character. */
  function TrimEnd(s: string, lo: nat, j: nat): (k: nat)
    requires lo <= j <= |s|
    ensures lo <= k <= j
    ensures AllSpace(s[k..j])
    ensures k > lo ==> !IsSpace(s[k - 1])
    ensures lo < j && !IsSpace(s[lo]) ==> lo < k
    decreases j
  {
    if j > lo && IsSpace(s[j - 1]) then
      var k := TrimEnd(s, lo, j - 1);
      assert AllSpace(s[k..j]) by {
        var run, shorter := s[k..j], s[k..j - 1];
        forall m | 0 <= m < |run| ensures IsSpace(run[m]) {
          if m < |shorter| { assert run[m] == shorter[m]; }
        }
      }
      k
    else j
  }

  lemma {:induction false} SkipSpacesExact(s: string, i: nat, j: nat)
    requires i <= j <= |s|
    requires AllSpace(s[i..j])
    requires j < |s| ==> !IsSpace(s[j])
    ensures SkipSpaces(s, i) == j
    decreases j - i
  {
    if i < j {
      assert IsSpace(s[i..j][0]);
      assert s[i + 1..j] == s[i..j][1..];
      SkipSpacesExact(s, i + 1, j);
    }
  }

  lemma {:induction false} TokenEndExact(s: string, i: nat, j: nat)
    requires i <= j <= |s|
    requires NoSpace(s[i..j])
    requires j < |s| ==> IsSpace(s[j])
    ensures TokenEnd(s, i) == j
    decreases j - i
  {
    if i < j {
      assert !IsSpace(s[i..j][0]);
      assert s[i + 1..j] == s[i..j][1..];
      TokenEndExact(s, i + 1, j);
    }
  }

  lemma {:induction false} TrimEndExact(s: string, lo: nat, j: nat, k: nat)
    requires lo <= k <= j <= |s|
    requires AllSpace(s[k..j])
    requires k > lo ==> !IsSpace(s[k - 1])
    ensures TrimEnd(s, lo, j) == k
    decreases j - k
  {
    if k < j {
      assert IsSpace(s[k..j][j - 1 - k]);
      assert s[k..j - 1] == s[k..j][..j - 1 - k];
      TrimEndExact(s, lo, j - 1, k);
    }
  }

  // ----- strip() -----

  /** `s[i..j]` is what is left of `s` after removing whitespace on both sides. */
  ghost predicate Trims(s: string, i: int, j: int) {
    0 <= i <= j <= |s| && AllSpace(s[..i]) && AllSpace(s[j..]) && IsStripped(s[i..j])
  }

  /** `s.strip()` */
  function Strip(s: string): (r: string)
    ensures IsStripped(r)
    ensures r == [] <==> AllSpace(s)
  {
    var i := SkipSpaces(s, 0);
    if i == |s| then
      assert s[..i] == s;
      []
    else
      var j := TrimEnd(s, i, |s|);
      s[i..j]
  }

  /** `strip()` removes whitespace on both sides and nothing else: it is a trimming of `s`. */
  lemma StripTrims(s: string) returns (i: int, j: int)
    ensures Trims(s, i, j) && Strip(s) == s[i..j]
  {
    i := SkipSpaces(s, 0);
    if i == |s| {
      assert s[..i] == s;
      j := i;
    } else {
      j := TrimEnd(s, i, |s|);
      assert s[..i] == s[0..i];
    }
  }

  /** The characterisation determines `strip()`: any trimming of `s` is its strip. */
  lemma StripOfTrims(s: string, i: int, j: int)
    requires Trims(s, i, j)
    ensures Strip(s) == s[i..j]
  {
    if i == j {
      forall k | 0 <= k < |s| ensures IsSpace(s[k]) {
        if k < i { assert s[..i][k] == s[k]; } else { assert s[j..][k - j] == s[k]; }
      }
    } else {
      assert s[..i] == s[0..i];
      SkipSpacesExact(s, 0, i);
      assert s[j..] == s[j..|s|];
      TrimEndExact(s, i, |s|, j);
    }
  }

  /** Stripping an already stripped string changes nothing; in particular `strip` is idempotent. */
  lemma StripStripped(s: string)
    requires IsStripped(s)
    ensures Strip(s) == s
  {
    assert s[..0] == [] && s[|s|..] == [] && s[0..|s|] == s;
    StripOfTrims(s, 0, |s|);
  }

  lemma LowerOfSlices(s: string, i: int, j: int)
    requires 0 <= i <= j <= |s|
    ensures Lower(s)[..i] == Lower(s[..i]) && Lower(s)[j..] == Lower(s[j..]) && Lower(s)[i..j] == Lower(s[i..j])
  {
  }

  lemma LowerKeepsBlank(s: string)
    requires AllSpace(s)
    ensures AllSpace(Lower(s))
  {
  }

  lemma LowerKeepsStripped(s: string)
    requires IsStripped(s)
    ensures IsStripped(Lower(s))
  {
  }

  /** `strip` commutes with `lower`. */
  lemma StripOfLower(s: string)
    ensures Strip(Lower(s)) == Lower(Strip(s))
  {
    var i, j := StripTrims(s);
    LowerOfSlices(s, i, j);
    LowerKeepsBlank(s[..i]);
    LowerKeepsBlank(s[j..]);
    LowerKeepsStripped(s[i..j]);
    StripOfTrims(Lower(s), i, j);
  }

  /** An occurrence of a whitespace-free pattern cannot overlap the whitespace that `strip` removes. */
  lemma OccursInsideTrim(s: string, p: string, i: int, j: int, k: int)
    requires Trims(s, i, j) && p != [] && NoSpace(p) && OccursAt(s, p, k)
    ensures OccursAt(s[i..j], p, k - i)
  {
    var last := k + |p| - 1;
    assert s[k] == p[0] && s[last] == p[|p| - 1];
    forall m | 0 <= m < i ensures IsSpace(s[m]) { assert s[..i][m] == s[m]; }
    forall m | j <= m < |s| ensures IsSpace(s[m]) { assert s[j..][m - j] == s[m]; }
    assert i <= k && last < j;
  }

  /** A substring test for a non-empty, whitespace-free pattern does not care about surrounding whitespace. */
  lemma ContainsStrip(s: string, p: string)
    requires p != [] && NoSpace(p)
    ensures Contains(Strip(s), p) <==> Contains(s, p)
  {
    var r := Strip(s);
    var i, j := StripTrims(s);
    forall k | OccursAt(r, p, k) ensures OccursAt(s, p, k + i) {
      forall m | 0 <= m < |p| ensures s[k + i + m] == p[m] {
        assert r[k + m] == p[m];
      }
    }
    forall k | OccursAt(s, p, k) ensures OccursAt(r, p, k - i) {
      OccursInsideTrim(s, p, i, j, k);
    }
  }

  // ----- split(maxsplit=1) -----

  /**
   * `s` (which starts with no whitespace) is the token `tok`, then, when `rest`
   * is empty, only whitespace, or, when it is not, a non-empty run of
   * whitespace followed by `rest`, which starts with a non-whitespace character.
   */
  predicate Decomposes(s: string, tok: string, rest: string) {
    && tok != [] && NoSpace(tok) && |tok| <= |s| && s[..|tok|] == tok
    && (rest == [] ==> AllSpace(s[|tok|..]))
    && (rest != [] ==>
          && !IsSpace(rest[0]) && |tok| < |s| - |rest| && s[|s| - |rest|..] == rest
          && AllSpace(s[|tok|..|s| - |rest|]))
  }

  /** `s.split(maxsplit=1)`: leading whitespace skipped, the first token, then the rest after the whitespace run. */
  function Split1(s: string): (parts: seq<string>)
    ensures |parts| <= 2
  {
    var a := SkipSpaces(s, 0);
    if a == |s| then []
    else
      var b := TokenEnd(s, a);
      var c := SkipSpaces(s, b);
      if c == |s| then [s[a..b]] else [s[a..b], s[c..]]
  }

  /** What `split(maxsplit=1)` returns: nothing for a blank string, otherwise the
      first token and, when anything follows its whitespace run, that remainder. */
  lemma SplitDecomposes(s: string)
    ensures var parts := Split1(s);
      && (parts == [] <==> AllSpace(s))
      && AllSpace(s[..SkipSpaces(s, 0)])
      && (|parts| == 2 ==> parts[1] != [])
      && (parts != [] ==>
            Decomposes(s[SkipSpaces(s, 0)..], parts[0], if |parts| == 2 then parts[1] else []))
  {
    var a := SkipSpaces(s, 0);
    assert AllSpace(s[..a]) by { assert s[..a] == s[0..a]; }
    if a == |s| {
      assert s[..a] == s;
    } else {
      assert !AllSpace(s) by { assert !IsSpace(s[a]); }
      SplitAfterBlanks(s, a);
    }
  }

  /** A token `s[a..b]` followed by the blank run `s[b..c]` and then by a
      non-blank character or the end decomposes `s[a..]`. */
  lemma DecomposesAt(s: string, a: int, b: int, c: int)
    requires 0 <= a < b <= c <= |s|
    requires NoSpace(s[a..b]) && AllSpace(s[b..c]) && (c < |s| ==> b < c && !IsSpace(s[c]))
    ensures Decomposes(s[a..], s[a..b], s[c..])
  {
    var t, tok, rest := s[a..], s[a..b], s[c..];
    assert t[..|tok|] == tok;
    if c == |s| {
      assert t[|tok|..] == s[b..c];
    } else {
      assert rest[0] == s[c];
      assert t[|t| - |rest|..] == rest;
      assert t[|tok|..|t| - |rest|] == s[b..c];
    }
  }

  /** Once the leading whitespace is skipped, the first token and the remainder decompose what is left. */
  lemma SplitAfterBlanks(s: string, a: nat)
    requires a == SkipSpaces(s, 0) < |s|
    ensures var parts := Split1(s);
      && parts != [] && (|parts| == 2 ==> parts[1] != [])
      && Decomposes(s[a..], parts[0], if |parts| == 2 then parts[1] else [])
  {
    var b := TokenEnd(s, a);
    var c := SkipSpaces(s, b);
    assert a < b by { assert !IsSpace(s[a]); }
    assert c < |s| ==> b < c by { assert b < |s| ==> IsSpace(s[b]); }
    DecomposesAt(s, a, b, c);
    if c == |s| {
      assert s[c..] == [];
    }
  }

  /** The characterisation determines `split(maxsplit=1)`. */
  lemma SplitOfDecomposes(s: string, tok: string, rest: string)
    requires Decomposes(s, tok, rest)
    ensures Split1(s) == if rest == [] then [tok] else [tok, rest]
  {
    assert s[0] == tok[0];
    assert s[..0] == [];
    SkipSpacesExact(s, 0, 0);
    assert s[0..|tok|] == tok;
    if rest == [] {
      if |tok| < |s| { assert IsSpace(s[|tok|..][0]); }
      TokenEndExact(s, 0, |tok|);
      assert s[|tok|..] == s[|tok|..|s|];
      SkipSpacesExact(s, |tok|, |s|);
    } else {
      assert IsSpace(s[|tok|..|s| - |rest|][0]);
      TokenEndExact(s, 0, |tok|);
      assert s[|s| - |rest|] == rest[0];
      SkipSpacesExact(s, |tok|, |s| - |rest|);
    }
  }

  /** On a string with no leading whitespace the first token starts at its first character. */
  lemma SplitStartsAtFront(s: string)
    requires s != [] && !IsSpace(s[0])
    ensures SkipSpaces(s, 0) == 0 && s[SkipSpaces(s, 0)..] == s
  {
    assert s[..0] == [];
    SkipSpacesExact(s, 0, 0);
  }

  /** On a string that starts with a non-whitespace character, the first token starts with that character. */
  lemma SplitFirstToken(s: string)
    requires s != [] && !IsSpace(s[0])
    ensures Split1(s) != [] && Split1(s)[0] != [] && Split1(s)[0][0] == s[0]
  {
    SplitStartsAtFront(s);
    var b := TokenEnd(s, 0);
    assert b > 0 by { assert !IsSpace(s[0]); }
    assert Split1(s)[0] == s[0..b];
  }

  /** A stripped string ends in a non-whitespace character, so none of its suffixes is blank. */
  lemma NotAllSpaceSuffix(s: string, k: int)
    requires IsStripped(s) && 0 <= k < |s|
    ensures !AllSpace(s[k..])
  {
    assert s[k..][|s| - 1 - k] == s[|s| - 1];
  }

  /** Splitting a stripped, non-blank string: the first token starts at its first
      character, ends at the first whitespace, and the remainder is stripped too. */
  lemma SplitStripped(s: string)
    requires IsStripped(s) && s != []
    ensures var parts := Split1(s);
      && parts != []
      && Decomposes(s, parts[0], if |parts| == 2 then parts[1] else [])
      && parts[0][0] == s[0]
      && (|parts[0]| == 1 <==> (|s| == 1 || IsSpace(s[1])))
      && (|parts| == 2 ==> IsStripped(parts[1]))
  {
    SplitStartsAtFront(s);
    SplitDecomposes(s);
    var parts := Split1(s);
    var tok := parts[0];
    assert tok[0] == s[..|tok|][0];
    if |tok| > 1 { assert tok[1] == s[..|tok|][1]; }
    assert |parts| == 1 ==> |tok| == |s| by {
      if |tok| < |s| { NotAllSpaceSuffix(s, |tok|); }
    }
    if |tok| == 1 && |parts| == 2 {
      assert s[1..|s| - |parts[1]|][0] == s[1];
    }
    if |parts| == 2 {
      var rest := parts[1];
      assert rest[|rest| - 1] == s[|s| - |rest|..][|rest| - 1];
    }
  }

  lemma AllSpaceConcat(a: string, b: string)
    ensures AllSpace(a + b) <==> AllSpace(a) && AllSpace(b)
  {
    var ab := a + b;
    if AllSpace(ab) {
      forall k | 0 <= k < |a| ensures IsSpace(a[k]) { assert a[k] == ab[k]; }
      forall k | 0 <= k < |b| ensures IsSpace(b[k]) { assert b[k] == ab[|a| + k]; }
    }
    if AllSpace(a) && AllSpace(b) {
      forall k | 0 <= k < |ab| ensures IsSpace(ab[k]) {
        if k < |a| { assert ab[k] == a[k]; } else { assert ab[k] == b[k - |a|]; }
      }
    }
  }

  /**
   * Stripping and then splitting `tok + gap + text + tail` (a token, a run of
   * whitespace, a stripped text and trailing whitespace) gives back `tok` and `text`.
   */
  lemma StripThenSplit(tok: string, gap: string, text: string, tail: string)
    requires tok != [] && NoSpace(tok)
    requires gap != [] && AllSpace(gap) && IsStripped(text) && AllSpace(tail)
    ensures Strip(tok + gap + text + tail) == if text == [] then tok else tok + gap + text
    ensures Decomposes(Strip(tok + gap + text + tail), tok, text)
  {
    var s := tok + gap + text + tail;
    var front := if text == [] then tok else tok + gap + text;
    var back := if text == [] then gap + tail else tail;
    assert s == front + back;
    AllSpaceConcat(gap, tail);
    assert s[..0] == [] && s[0..|front|] == front && s[|front|..] == back;
    assert IsStripped(front) by {
      assert front[0] == tok[0];
      if text != [] { assert front[|front| - 1] == text[|text| - 1]; }
    }
    StripOfTrims(s, 0, |front|);
    assert front[..|tok|] == tok;
    if text == [] {
      assert front[|tok|..] == [];
    } else {
      assert front[|front| - |text|..] == text;
      assert front[|tok|..|front| - |text|] == gap;
    }
  }
}
