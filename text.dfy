/** The string primitives the site script leans on: the white-space class
    shared by `String.prototype.trim` and the regular-expression escape `\s`,
    `trim` itself, `Array.prototype.join`, and the first-occurrence search
    used by the mailto reader. */
module Text {

  /** WhiteSpace and LineTerminator code points (sections 12.2 and 12.3 of
      ECMA-262): what `trim` strips and what `\s` matches. */
  predicate IsWhiteSpace(c: char)
  {
    var n := c as int;
    n == 0x09 || n == 0x0A || n == 0x0B || n == 0x0C || n == 0x0D || n == 0x20
    || n == 0xA0 || n == 0x1680 || (0x2000 <= n <= 0x200A)
    || n == 0x2028 || n == 0x2029 || n == 0x202F || n == 0x205F
    || n == 0x3000 || n == 0xFEFF
  }

  predicate AllWhiteSpace(s: string)
  {
    forall i | 0 <= i < |s| :: IsWhiteSpace(s[i])
  }

  predicate NoWhiteSpace(s: string)
  {
    forall i | 0 <= i < |s| :: !IsWhiteSpace(s[i])
  }

  /** Neither end of `s` is white space: what `trim` leaves behind. */
  predicate Bordered(s: string)
  {
    s == [] || (!IsWhiteSpace(s[0]) && !IsWhiteSpace(s[|s| - 1]))
  }

  /** Drops the leading white space; the result does not start with white
      space (`TrimStartSplit` says what was dropped). */
  function TrimStart(s: string): (r: string)
    ensures |r| <= |s|
    ensures r == [] || !IsWhiteSpace(r[0])
  {
    if s != [] && IsWhiteSpace(s[0]) then TrimStart(s[1..]) else s
  }

  /** What `TrimStart` drops is a run of white space at the front. */
  lemma {:induction false} TrimStartSplit(s: string)
    ensures TrimStart(s) == s[|s| - |TrimStart(s)|..]
    ensures AllWhiteSpace(s[..|s| - |TrimStart(s)|])
    decreases |s|
  {
    if s != [] && IsWhiteSpace(s[0]) {
      var r := TrimStart(s[1..]);
      TrimStartSplit(s[1..]);
      var n := |s| - |r|;
      assert s[1..][n - 1..] == s[n..];
      forall k | 0 <= k < n ensures IsWhiteSpace(s[..n][k]) {
        if k > 0 { assert s[..n][k] == s[1..][..n - 1][k - 1]; }
      }
    } else {
      assert s[..0] == [];
    }
  }

  /** Drops the trailing white space; the result does not end with white
      space (`TrimEndSplit` says what was dropped). */
  function TrimEnd(s: string): (r: string)
    ensures |r| <= |s|
    ensures r == [] || !IsWhiteSpace(r[|r| - 1])
    ensures r != [] ==> r[0] == s[0]
  {
    if s != [] && IsWhiteSpace(s[|s| - 1]) then TrimEnd(s[..|s| - 1]) else s
  }

  /** What `TrimEnd` drops is a run of white space at the back. */
  lemma {:induction false} TrimEndSplit(s: string)
    ensures TrimEnd(s) == s[..|TrimEnd(s)|]
    ensures AllWhiteSpace(s[|TrimEnd(s)|..])
    decreases |s|
  {
    if s != [] && IsWhiteSpace(s[|s| - 1]) {
      var u := s[..|s| - 1];
      var r := TrimEnd(u);
      TrimEndSplit(u);
      var n := |r|;
      assert u[..n] == s[..n];
      forall k | 0 <= k < |s| - n ensures IsWhiteSpace(s[n..][k]) {
        if n + k < |s| - 1 { assert s[n..][k] == u[n..][k]; }
      }
    } else {
      assert s[|s|..] == [];
    }
  }

  /** `String.prototype.trim`: strips white space from both ends. */
  function Trim(s: string): (r: string)
    ensures |r| <= |s|
    ensures Bordered(r)
  {
    var t := TrimStart(s);
    TrimEnd(t)
  }

  /** What `trim` removes is white space on either side: `Trim(s)` is the
      infix `s[i..j]` with nothing but white space before `i` and after `j`. */
  lemma TrimIsInfix(s: string)
    ensures exists i, j | 0 <= i <= j <= |s| ::
      Trim(s) == s[i..j] && AllWhiteSpace(s[..i]) && AllWhiteSpace(s[j..])
  {
    var t := TrimStart(s);
    var r := TrimEnd(t);
    TrimStartSplit(s);
    TrimEndSplit(t);
    var i := |s| - |t|;
    var j := i + |r|;
    assert t == s[i..];
    assert r == s[i..j];
    assert s[j..] == t[|r|..];
  }

  /** The infix of `TrimIsInfix` is unique: any split of `s` into white
      space, a bordered middle and white space has `Trim(s)` as its middle. */
  lemma {:induction false} TrimUnique(s: string, i: nat, j: nat)
    requires i <= j <= |s|
    requires AllWhiteSpace(s[..i]) && AllWhiteSpace(s[j..])
    requires Bordered(s[i..j])
    ensures Trim(s) == s[i..j]
  {
    if i == j {
      assert AllWhiteSpace(s) by {
        forall k | 0 <= k < |s| ensures IsWhiteSpace(s[k]) {
          if k < i { assert s[..i][k] == s[k]; } else { assert s[j..][k - j] == s[k]; }
        }
      }
      TrimStartAllWhiteSpace(s);
    } else {
      assert s[i..j][0] == s[i];
      TrimStartUnique(s, i);
      assert s[i..][j - i - 1] == s[i..j][j - i - 1];
      assert s[i..][j - i..] == s[j..];
      TrimEndUnique(s[i..], j - i);
      assert s[i..][..j - i] == s[i..j];
    }
  }

  lemma {:induction false} TrimStartUnique(s: string, i: nat)
    requires i < |s|
    requires AllWhiteSpace(s[..i]) && !IsWhiteSpace(s[i])
    ensures TrimStart(s) == s[i..]
    decreases i
  {
    if i > 0 {
      assert IsWhiteSpace(s[..i][0]);
      assert s[1..][..i - 1] == s[..i][1..];
      TrimStartUnique(s[1..], i - 1);
      assert s[1..][i - 1..] == s[i..];
    }
  }

  lemma {:induction false} TrimStartAllWhiteSpace(s: string)
    requires AllWhiteSpace(s)
    ensures TrimStart(s) == []
    decreases |s|
  {
    if s != [] {
      assert AllWhiteSpace(s[1..]) by {
        forall k | 0 <= k < |s[1..]| ensures IsWhiteSpace(s[1..][k]) {
          assert s[1..][k] == s[k + 1];
        }
      }
      TrimStartAllWhiteSpace(s[1..]);
    }
  }

  lemma {:induction false} TrimEndUnique(t: string, k: nat)
    requires k <= |t|
    requires AllWhiteSpace(t[k..])
    requires t[..k] == [] || !IsWhiteSpace(t[k - 1])
    ensures TrimEnd(t) == t[..k]
    decreases |t| - k
  {
    if k < |t| {
      var u := t[..|t| - 1];
      assert IsWhiteSpace(t[k..][|t| - 1 - k]);
      assert u[..k] == t[..k];
      assert u[k..] == t[k..][..|t| - 1 - k];
      TrimEndUnique(u, k);
    }
  }

  /** Trimming twice trims nothing more. */
  lemma TrimIdempotent(s: string)
    ensures Trim(Trim(s)) == Trim(s)
  {
    var t := Trim(s);
    assert t[..0] == [] && t[|t|..] == [];
    assert t[0..|t|] == t;
    TrimUnique(t, 0, |t|);
  }

  /** `Array.prototype.join`: the elements with `sep` between neighbours. */
  function Join(parts: seq<string>, sep: string): string
  {
    if parts == [] then ""
    else if |parts| == 1 then parts[0]
    else parts[0] + sep + Join(parts[1..], sep)
  }

  /** Position of the first `c` in `s`, or `|s|` when there is none. */
  function IndexOf(s: string, c: char): (k: nat)
    ensures k <= |s|
    ensures c !in s[..k]
    ensures k < |s| ==> s[k] == c
  {
    if s == [] then 0
    else if s[0] == c then 0
    else
      var k := IndexOf(s[1..], c);
      assert s[..1 + k] == [s[0]] + s[1..][..k];
      1 + k
  }

  /** The first `c` of `a + b` is the first of `b` when `a` has none. */
  lemma IndexOfAfter(a: string, b: string, c: char)
    requires c !in a
    ensures IndexOf(a + b, c) == |a| + IndexOf(b, c)
  {
    var s := a + b;
    var k := IndexOf(s, c);
    var m := IndexOf(b, c);
    forall t | 0 <= t < |a| + m ensures s[t] != c {
      if t < |a| { assert s[t] == a[t]; } else { assert s[t] == b[..m][t - |a|]; }
    }
    forall t | 0 <= t < k ensures s[t] != c {
      assert s[t] == s[..k][t];
    }
    assert m < |b| ==> s[|a| + m] == c;
  }

  /** `s` cut at every `c`: the pieces never contain `c`. */
  function SplitOn(s: string, c: char): (parts: seq<string>)
    ensures |parts| >= 1
    ensures forall p | p in parts :: c !in p
    decreases |s|
  {
    var k := IndexOf(s, c);
    assert k == |s| ==> s[..k] == s;
    if k == |s| then [s] else [s[..k]] + SplitOn(s[k + 1..], c)
  }

  /** A string without `c` is a single piece. */
  lemma SplitOnNone(s: string, c: char)
    requires c !in s
    ensures SplitOn(s, c) == [s]
  {
  }

  /** `IndexOf` is the one position with no `c` before it and `c` at it. */
  lemma IndexOfIs(s: string, c: char, k: nat)
    requires k <= |s| && c !in s[..k] && (k < |s| ==> s[k] == c)
    ensures IndexOf(s, c) == k
  {
    var m := IndexOf(s, c);
    forall t | 0 <= t < k ensures s[t] != c {
      assert s[t] == s[..k][t];
    }
    forall t | 0 <= t < m ensures s[t] != c {
      assert s[t] == s[..m][t];
    }
  }

  /** Splitting the join of two `c`-free strings at `c` gives them back. */
  lemma SplitOnTwo(a: string, b: string, c: char)
    requires c !in a && c !in b
    ensures SplitOn(a + [c] + b, c) == [a, b]
  {
    var s := a + [c] + b;
    assert s[..|a|] == a;
    IndexOfIs(s, c, |a|);
    assert s[|a| + 1..] == b;
    SplitOnNone(b, c);
  }
}
