/**
 * Mod name sanitisation: keep the alphanumeric, space, underscore and hyphen
 * characters in their original order, then strip trailing whitespace.
 * Python's str.isalnum and str.isspace are Unicode tables; they enter as the
 * abstract character predicates isAlnum and isSpace.
 */
module ModNames {

  /** A character the sanitiser keeps. */
  predicate Allowed(c: char, isAlnum: char -> bool) {
    isAlnum(c) || c == ' ' || c == '_' || c == '-'
  }

  /** The allowed characters of s, in order. */
  function Filter(s: string, isAlnum: char -> bool): (r: string)
    ensures |r| <= |s|
    ensures forall i :: 0 <= i < |r| ==> Allowed(r[i], isAlnum)
  {
    if s == [] then []
    else (if Allowed(s[0], isAlnum) then [s[0]] else []) + Filter(s[1..], isAlnum)
  }

  /** Each allowed character is kept as often as it occurs; no other character is kept. */
  lemma {:induction false} FilterCounts(s: string, isAlnum: char -> bool, c: char)
    ensures multiset(Filter(s, isAlnum))[c] == if Allowed(c, isAlnum) then multiset(s)[c] else 0
  {
    if s != [] {
      FilterCounts(s[1..], isAlnum, c);
      assert s == [s[0]] + s[1..];
    }
  }

  /** Filtering distributes over concatenation, so the kept characters keep their order. */
  lemma {:induction false} FilterAppend(a: string, b: string, isAlnum: char -> bool)
    ensures Filter(a + b, isAlnum) == Filter(a, isAlnum) + Filter(b, isAlnum)
  {
    if a == [] {
      assert a + b == b;
    } else {
      assert (a + b)[0] == a[0] && (a + b)[1..] == a[1..] + b;
      FilterAppend(a[1..], b, isAlnum);
    }
  }

  /** A string of allowed characters passes the filter unchanged. */
  lemma {:induction false} FilterKeepsAllowed(s: string, isAlnum: char -> bool)
    requires forall i :: 0 <= i < |s| ==> Allowed(s[i], isAlnum)
    ensures Filter(s, isAlnum) == s
  {
    if s != [] {
      FilterKeepsAllowed(s[1..], isAlnum);
    }
  }

  /** Python's str.rstrip(): drop the trailing run of whitespace. */
  function RStrip(s: string, isSpace: char -> bool): (r: string)
    ensures r <= s
    ensures forall i :: |r| <= i < |s| ==> isSpace(s[i])
    ensures r == [] || !isSpace(r[|r| - 1])
  {
    if s != [] && isSpace(s[|s| - 1]) then RStrip(s[..|s| - 1], isSpace) else s
  }

  /**
   * The name create_mod works with: no longer than the name typed, only
   * allowed characters, and no trailing whitespace.
   */
  function Sanitize(name: string, isAlnum: char -> bool, isSpace: char -> bool): (r: string)
    ensures |r| <= |name|
    ensures forall i :: 0 <= i < |r| ==> Allowed(r[i], isAlnum)
    ensures r == [] || !isSpace(r[|r| - 1])
  {
    RStrip(Filter(name, isAlnum), isSpace)
  }

  /**
   * The sanitised name is the filtered name less a trailing run of
   * whitespace; it holds only allowed characters and does not end in
   * whitespace.
   */
  lemma SanitizeShape(name: string, isAlnum: char -> bool, isSpace: char -> bool)
    ensures var r := Sanitize(name, isAlnum, isSpace);
            && r <= Filter(name, isAlnum)
            && (forall i :: |r| <= i < |Filter(name, isAlnum)| ==> isSpace(Filter(name, isAlnum)[i]))
            && (forall i :: 0 <= i < |r| ==> Allowed(r[i], isAlnum))
            && (r == [] || !isSpace(r[|r| - 1]))
  {
    var f := Filter(name, isAlnum);
    var r := RStrip(f, isSpace);
    forall i | 0 <= i < |r| ensures Allowed(r[i], isAlnum) {
      assert r[i] == f[i];
    }
  }

  /** A string with no trailing whitespace is left alone by rstrip. */
  lemma RStripNoTrailingSpace(s: string, isSpace: char -> bool)
    requires s == [] || !isSpace(s[|s| - 1])
    ensures RStrip(s, isSpace) == s
  {
  }

  /** rstrip yields the empty string exactly when every character is whitespace. */
  lemma {:induction false} RStripEmpty(s: string, isSpace: char -> bool)
    ensures RStrip(s, isSpace) == [] <==> forall i :: 0 <= i < |s| ==> isSpace(s[i])
  {
    if s != [] && isSpace(s[|s| - 1]) {
      var p := s[..|s| - 1];
      RStripEmpty(p, isSpace);
      if forall i :: 0 <= i < |p| ==> isSpace(p[i]) {
        forall i | 0 <= i < |s| ensures isSpace(s[i]) {
          if i < |p| { assert s[i] == p[i]; }
        }
      }
    }
  }

  /** Sanitising an already sanitised name changes nothing. */
  lemma SanitizeIdempotent(name: string, isAlnum: char -> bool, isSpace: char -> bool)
    ensures Sanitize(Sanitize(name, isAlnum, isSpace), isAlnum, isSpace) == Sanitize(name, isAlnum, isSpace)
  {
    var r := Sanitize(name, isAlnum, isSpace);
    SanitizeShape(name, isAlnum, isSpace);
    FilterKeepsAllowed(r, isAlnum);
    RStripNoTrailingSpace(r, isSpace);
  }

  /**
   * A name is rejected (sanitises to the empty string) exactly when each of
   * its allowed characters is whitespace: it has no alphanumeric,
   * underscore or hyphen that survives.
   */
  lemma SanitizeEmpty(name: string, isAlnum: char -> bool, isSpace: char -> bool)
    ensures Sanitize(name, isAlnum, isSpace) == [] <==>
              forall i :: 0 <= i < |name| && Allowed(name[i], isAlnum) ==> isSpace(name[i])
  {
    var f := Filter(name, isAlnum);
    RStripEmpty(f, isSpace);
    if forall i :: 0 <= i < |name| && Allowed(name[i], isAlnum) ==> isSpace(name[i]) {
      forall i | 0 <= i < |f| ensures isSpace(f[i]) {
        FilterCounts(name, isAlnum, f[i]);
        assert multiset(f)[f[i]] > 0;
        assert f[i] in multiset(name);
        var k :| 0 <= k < |name| && name[k] == f[i];
      }
    } else {
      var k :| 0 <= k < |name| && Allowed(name[k], isAlnum) && !isSpace(name[k]);
      FilterCounts(name, isAlnum, name[k]);
      assert name[k] in multiset(name);
      assert name[k] in multiset(f);
      var j :| 0 <= j < |f| && f[j] == name[k];
    }
  }
}
