/**
 * Python's `str.strip()` called without an argument: it removes the
 * whitespace characters, as `str.isspace` defines them, from both ends of a
 * string. Strings are sequences of code points, as Python's are.
 */
module Text {

  /** Python's `str.isspace` for a single code point. */
  predicate IsSpace(c: char)
  {
    var n := c as int;
    || n == 0x20 || 0x09 <= n <= 0x0D || 0x1C <= n <= 0x1F || n == 0x85 || n == 0xA0
    || n == 0x1680 || 0x2000 <= n <= 0x200A || n == 0x2028 || n == 0x2029
    || n == 0x202F || n == 0x205F || n == 0x3000
  }

  predicate AllSpace(s: string)
  {
    forall i :: 0 <= i < |s| ==> IsSpace(s[i])
  }

  /** Neither begins nor ends with whitespace (the empty string qualifies). */
  predicate Unpadded(s: string)
  {
    s == [] || (!IsSpace(s[0]) && !IsSpace(s[|s| - 1]))
  }

  /** `s.lstrip()`: the suffix of s left after dropping its leading whitespace. */
  function TrimStart(s: string): (r: string)
    ensures |r| <= |s| && r == s[|s| - |r|..]
    ensures AllSpace(s[..|s| - |r|])
    ensures r == [] || !IsSpace(r[0])
  {
    if s != [] && IsSpace(s[0]) then
      var r := TrimStart(s[1..]);
      assert s[..|s| - |r|] == [s[0]] + s[1..][..|s| - 1 - |r|];
      assert s[|s| - |r|..] == s[1..][|s| - 1 - |r|..];
      r
    else s
  }

  /** `s.rstrip()`: the prefix of s left after dropping its trailing whitespace. */
  function TrimEnd(s: string): (r: string)
    ensures |r| <= |s| && r == s[..|r|]
    ensures AllSpace(s[|r|..])
    ensures r == [] || !IsSpace(r[|r| - 1])
  {
    if s != [] && IsSpace(s[|s| - 1]) then TrimEnd(s[..|s| - 1]) else s
  }

  /** `s.strip()`. */
  function Strip(s: string): (r: string)
    ensures |r| <= |s|
    ensures Unpadded(r)
  {
    TrimEnd(TrimStart(s))
  }

  /** Dropping leading whitespace stops at the first non-whitespace character. */
  lemma {:induction false} TrimStartAfterSpace(p: string, t: string)
    requires AllSpace(p)
    requires t == [] || !IsSpace(t[0])
    ensures TrimStart(p + t) == t
  {
    if p != [] {
      assert (p + t)[1..] == p[1..] + t;
      TrimStartAfterSpace(p[1..], t);
    } else {
      assert p + t == t;
    }
  }

  /** Dropping trailing whitespace stops at the last non-whitespace character. */
  lemma {:induction false} TrimEndBeforeSpace(t: string, q: string)
    requires AllSpace(q)
    requires t == [] || !IsSpace(t[|t| - 1])
    ensures TrimEnd(t + q) == t
    decreases |q|
  {
    if q != [] {
      var q' := q[..|q| - 1];
      assert (t + q)[..|t + q| - 1] == t + q';
      TrimEndBeforeSpace(t, q');
    } else {
      assert t + q == t;
    }
  }

  /** Stripping recovers the unpadded core of any whitespace-padded string. */
  lemma StripPadded(p: string, m: string, q: string)
    requires AllSpace(p) && AllSpace(q) && Unpadded(m)
    ensures Strip(p + m + q) == m
  {
    if m == [] {
      assert p + m + q == (p + q) + [];
      TrimStartAfterSpace(p + q, []);
    } else {
      assert p + m + q == p + (m + q);
      TrimStartAfterSpace(p, m + q);
      TrimEndBeforeSpace(m, q);
    }
  }

  /** `lstrip` drops a whitespace prefix p. */
  lemma TrimStartSplit(s: string) returns (p: string)
    ensures AllSpace(p) && s == p + TrimStart(s)
  {
    var u := TrimStart(s);
    p := s[..|s| - |u|];
    assert u == s[|s| - |u|..];
    assert s == s[..|s| - |u|] + s[|s| - |u|..];
  }

  /** `rstrip` drops a whitespace suffix q. */
  lemma TrimEndSplit(s: string) returns (q: string)
    ensures AllSpace(q) && s == TrimEnd(s) + q
  {
    var r := TrimEnd(s);
    q := s[|r|..];
    assert r == s[..|r|];
    assert s == s[..|r|] + s[|r|..];
  }

  /** Conversely, every string is its stripped form with whitespace p in
      front and whitespace q behind. */
  lemma StripRemovesOnlySpace(s: string) returns (p: string, q: string)
    ensures AllSpace(p) && AllSpace(q)
    ensures s == p + Strip(s) + q
  {
    var u := TrimStart(s);
    p := TrimStartSplit(s);
    q := TrimEndSplit(u);
    Regroup(s, p, u, TrimEnd(u), q);
  }

  /** s == p + (m + q) regrouped. */
  lemma Regroup(s: string, p: string, u: string, m: string, q: string)
    requires s == p + u && u == m + q
    ensures s == p + m + q
  {
  }

  /** One trailing space is stripped from an unpadded string. */
  lemma StripTrailingSpace(m: string)
    requires Unpadded(m)
    ensures Strip(m + " ") == m
  {
    assert AllSpace(" ");
    StripPadded([], m, " ");
    assert [] + m + " " == m + " ";
  }

  /** Two non-empty unpadded strings joined by a space give one. */
  lemma UnpaddedJoin(x: string, y: string)
    requires x != [] && Unpadded(x)
    requires y != [] && Unpadded(y)
    ensures x + " " + y != [] && Unpadded(x + " " + y)
  {
    var j := x + " " + y;
    assert j[0] == x[0] && j[|j| - 1] == y[|y| - 1];
  }

  /** A string without padding is left unchanged. */
  lemma StripUnpadded(s: string)
    requires Unpadded(s)
    ensures Strip(s) == s
  {
    StripPadded([], s, []);
    assert [] + s + [] == s;
  }
}
