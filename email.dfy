/** `isValidEmail` of site/script.js: the regular expression
    `^[^\s@]+@[^\s@]+\.[^\s@]+$`, stated as the language it denotes. */
module Email {
  import opened Text

  /** A character of the class `[^\s@]`. */
  predicate IsAtomChar(c: char)
  {
    !IsWhiteSpace(c) && c != '@'
  }

  /** Every character of `s` is in `[^\s@]` (the `+` adds non-emptiness). */
  predicate IsAtomRun(s: string)
  {
    forall k | 0 <= k < |s| :: IsAtomChar(s[k])
  }

  /** Every character of `v` at positions `a` to `b - 1` is in `[^\s@]`. */
  predicate AtomsBetween(v: string, a: int, b: int)
    requires 0 <= a <= b <= |v|
  {
    forall k | a <= k < b :: IsAtomChar(v[k])
  }

  lemma AtomRunSlice(v: string, a: int, b: int)
    requires 0 <= a <= b <= |v|
    ensures IsAtomRun(v[a..b]) <==> AtomsBetween(v, a, b)
  {
    if IsAtomRun(v[a..b]) {
      forall k | a <= k < b ensures IsAtomChar(v[k]) { assert v[a..b][k - a] == v[k]; }
    }
  }

  /** The pattern matched with its `@` at `i` and its `.` at `j`. */
  predicate MatchesAt(v: string, i: int, j: int)
  {
    0 < i < |v| && i + 1 < j < |v| - 1 && v[i] == '@' && v[j] == '.'
    && IsAtomRun(v[..i]) && IsAtomRun(v[i + 1..j]) && IsAtomRun(v[j + 1..])
  }

  /** The pattern matches `v` exactly when `v` splits into three non-empty
      runs of `[^\s@]` with an `@` after the first and a `.` after the
      second. */
  predicate IsValidEmail(v: string)
  {
    exists i, j | 0 < i < |v| && i + 1 < j < |v| - 1 :: MatchesAt(v, i, j)
  }

  /** A domain as the pattern accepts it: no white space, no `@`, and a
      `.` that is neither its first nor its last character. */
  predicate IsDomain(d: string)
  {
    IsAtomRun(d) && exists m | 0 < m < |d| - 1 :: d[m] == '.'
  }

  /** The address form with its `@` at `k`. */
  predicate AddressAt(v: string, k: int)
  {
    0 < k < |v| && v[k] == '@' && IsAtomRun(v[..k]) && IsDomain(v[k + 1..])
  }

  /** A match at `i`, `j` leaves everything but its `@` in `[^\s@]`. */
  lemma MatchAtoms(v: string, i: int, j: int)
    requires MatchesAt(v, i, j)
    ensures AtomsBetween(v, 0, i) && AtomsBetween(v, i + 1, |v|)
  {
    assert v[..i] == v[0..i] && v[j + 1..] == v[j + 1..|v|];
    AtomRunSlice(v, 0, i);
    AtomRunSlice(v, i + 1, j);
    AtomRunSlice(v, j + 1, |v|);
  }

  lemma MatchToAddress(v: string, i: int, j: int)
    requires MatchesAt(v, i, j)
    ensures AddressAt(v, i)
  {
    MatchAtoms(v, i, j);
    assert v[i + 1..] == v[i + 1..|v|];
    AtomRunSlice(v, i + 1, |v|);
    assert v[i + 1..][j - i - 1] == '.';
  }

  lemma AddressToMatch(v: string, k: int, m: int)
    requires AddressAt(v, k)
    requires 0 < m < |v| - k - 2 && v[k + 1 + m] == '.'
    ensures MatchesAt(v, k, k + 1 + m)
  {
    var j := k + 1 + m;
    assert v[k + 1..] == v[k + 1..|v|];
    assert v[j + 1..] == v[j + 1..|v|];
    AtomRunSlice(v, k + 1, |v|);
    AtomRunSlice(v, k + 1, j);
    AtomRunSlice(v, j + 1, |v|);
  }

  /** The address form that `isValidEmail` accepts: a non-empty local part
      without white space or `@`, one `@`, and a domain with an inner `.`. */
  lemma ValidEmailIff(v: string)
    ensures IsValidEmail(v) <==> exists k | 0 < k < |v| :: AddressAt(v, k)
  {
    if IsValidEmail(v) {
      var i, j :| 0 < i < |v| && i + 1 < j < |v| - 1 && MatchesAt(v, i, j);
      MatchToAddress(v, i, j);
    }
    if exists k | 0 < k < |v| :: AddressAt(v, k) {
      var k :| 0 < k < |v| && AddressAt(v, k);
      var d := v[k + 1..];
      var m :| 0 < m < |d| - 1 && d[m] == '.';
      assert d[m] == v[k + 1 + m];
      AddressToMatch(v, k, m);
    }
  }

  lemma {:induction false} AtomRunHasNoAt(s: string)
    requires IsAtomRun(s)
    ensures multiset(s)['@'] == 0
    decreases |s|
  {
    if s != [] {
      assert s == [s[0]] + s[1..];
      assert IsAtomRun(s[1..]) by {
        forall k | 0 <= k < |s[1..]| ensures IsAtomChar(s[1..][k]) { assert s[1..][k] == s[k + 1]; }
      }
      AtomRunHasNoAt(s[1..]);
    }
  }

  /** An accepted address has no white space and exactly one `@`, so it is
      also left unchanged by `trim`. */
  lemma ValidEmailShape(v: string)
    requires IsValidEmail(v)
    ensures NoWhiteSpace(v)
    ensures multiset(v)['@'] == 1
    ensures Trim(v) == v
  {
    var i, j :| 0 < i < |v| && i + 1 < j < |v| - 1 && MatchesAt(v, i, j);
    MatchAtoms(v, i, j);
    forall k | 0 <= k < |v| ensures !IsWhiteSpace(v[k]) {
      if k != i { assert IsAtomChar(v[k]); }
    }
    AtomRunSlice(v, i + 1, |v|);
    AtomRunSlice(v, 0, i);
    AtomRunHasNoAt(v[0..i]);
    AtomRunHasNoAt(v[i + 1..|v|]);
    assert v == v[0..i] + [v[i]] + v[i + 1..|v|];
    assert v[..|v|] == v && v[0..|v|] == v && v[..0] == [] && v[|v|..] == [];
    TrimUnique(v, 0, |v|);
  }

  /** The address of a sample accepted submission. */
  lemma AcceptsExample()
    ensures IsValidEmail("ada@example.com")
  {
    var v := "ada@example.com";
    assert v[3] == '@' && v[11] == '.';
    assert IsAtomRun(v[..3]) && IsAtomRun(v[4..11]) && IsAtomRun(v[12..]);
    assert MatchesAt(v, 3, 11);
  }

  /** A string without `@` is rejected. */
  lemma RejectsWithoutAt(v: string)
    requires '@' !in v
    ensures !IsValidEmail(v)
  {
  }
}
