/**
 * The string operations the processor relies on: whitespace as Python's
 * `str.isspace` sees it, `str.strip`, substring containment (`in`) and
 * `str.join`.
 */
module Text {

  /** The characters Python's `str.isspace()` accepts, which are exactly those `str.strip()` removes. */
  predicate IsWhitespace(c: char) {
    var n := c as int;
    (0x09 <= n <= 0x0D) || (0x1C <= n <= 0x20) || n == 0x85 || n == 0xA0 || n == 0x1680
    || (0x2000 <= n <= 0x200A) || n == 0x2028 || n == 0x2029 || n == 0x202F || n == 0x205F
    || n == 0x3000
  }

  /** Every character of `s` is whitespace (the empty string included). */
  predicate AllWhitespace(s: string) {
    forall i :: 0 <= i < |s| ==> IsWhitespace(s[i])
  }

  /** `s.lstrip()`: the suffix of `s` left after dropping its leading whitespace. */
  function TrimStart(s: string): string {
    if |s| > 0 && IsWhitespace(s[0]) then TrimStart(s[1..]) else s
  }

  /** `s.rstrip()`: the prefix of `s` left after dropping its trailing whitespace. */
  function TrimEnd(s: string): string {
    if |s| > 0 && IsWhitespace(s[|s| - 1]) then TrimEnd(s[..|s| - 1]) else s
  }

  /** `s.strip()`. */
  function Strip(s: string): string {
    TrimEnd(TrimStart(s))
  }


  /** `lstrip` drops a whitespace-only prefix and stops at the first other character. */
  lemma {:induction false} TrimStartSpec(s: string)
    ensures var r := TrimStart(s);
            |r| <= |s| && r == s[|s| - |r|..] && AllWhitespace(s[..|s| - |r|])
            && (r == [] || !IsWhitespace(r[0]))
  {
    if |s| > 0 && IsWhitespace(s[0]) {
      var t := s[1..];
      TrimStartSpec(t);
      var r := TrimStart(t);
      assert TrimStart(s) == r;
      assert r == t[|t| - |r|..] == s[|s| - |r|..];
      assert s[..|s| - |r|] == [s[0]] + t[..|t| - |r|];
    }
  }

  /** `rstrip` drops a whitespace-only suffix and stops at the last other character. */
  lemma {:induction false} TrimEndSpec(s: string)
    ensures var r := TrimEnd(s);
            |r| <= |s| && r == s[..|r|] && AllWhitespace(s[|r|..])
            && (r == [] || !IsWhitespace(r[|r| - 1]))
  {
    if |s| > 0 && IsWhitespace(s[|s| - 1]) {
      var t := s[..|s| - 1];
      TrimEndSpec(t);
      var r := TrimEnd(t);
      assert TrimEnd(s) == r;
      assert r == t[..|r|] == s[..|r|];
      assert s[|r|..] == t[|r|..] + [s[|s| - 1]];
    }
  }

  /**
   * `strip` keeps the longest infix of `s` that neither starts nor ends with
   * whitespace; what it removes on both sides is whitespace, and it keeps
   * nothing exactly when `s` is all whitespace.
   */
  lemma StripSpec(s: string)
    ensures var r := Strip(s);
            (exists i :: 0 <= i && i + |r| <= |s| && r == s[i..i + |r|]
                         && AllWhitespace(s[..i]) && AllWhitespace(s[i + |r|..]))
            && (r == [] || (!IsWhitespace(r[0]) && !IsWhitespace(r[|r| - 1])))
            && (r == [] <==> AllWhitespace(s))
  {
    var t := TrimStart(s);
    var r := TrimEnd(t);
    TrimStartSpec(s);
    TrimEndSpec(t);
    var i := |s| - |t|;
    assert s[i + |r|..] == t[|r|..];
    assert r == s[i..i + |r|];
    if r == [] {
      assert s == s[..i] + s[i..];
    } else {
      assert !IsWhitespace(s[i]);
    }
  }

  /**
   * A blank string: empty or whitespace only. This is Python's truth test
   * `not str(v).strip()`, as BlankIffStripEmpty shows.
   */
  predicate IsBlank(s: string) {
    AllWhitespace(s)
  }

  /** A string is blank exactly when `strip` leaves nothing of it. */
  lemma BlankIffStripEmpty(s: string)
    ensures IsBlank(s) <==> Strip(s) == []
  {
    StripSpec(s);
  }

  /** Python's `m in s` for strings: `m` occurs in `s` as a contiguous substring. */
  predicate Contains(s: string, m: string)
    decreases |s|
  {
    (|m| <= |s| && s[..|m|] == m) || (|s| > 0 && Contains(s[1..], m))
  }

  /** `m` occurs in `s` starting at offset `k`. */
  predicate OccursAt(s: string, m: string, k: int) {
    0 <= k && k + |m| <= |s| && s[k..k + |m|] == m
  }

  /** `Contains` holds exactly when `m` occurs at some offset of `s`. */
  lemma {:induction false} ContainsAt(s: string, m: string)
    ensures Contains(s, m) <==> exists k :: OccursAt(s, m, k)
    decreases |s|
  {
    if |s| > 0 {
      ContainsAt(s[1..], m);
      if exists k :: OccursAt(s, m, k) {
        var k :| OccursAt(s, m, k);
        if k > 0 {
          assert s[1..][k - 1..k - 1 + |m|] == m;
          assert OccursAt(s[1..], m, k - 1);
        } else {
          assert s[..|m|] == m;
        }
      }
      if |m| <= |s| && s[..|m|] == m {
        assert OccursAt(s, m, 0);
      }
      if Contains(s[1..], m) {
        var k :| OccursAt(s[1..], m, k);
        assert s[k + 1..k + 1 + |m|] == m;
        assert OccursAt(s, m, k + 1);
      }
    } else if |m| <= |s| {
      assert OccursAt(s, m, 0);
    }
  }

  /** Python's `sep.join(parts)`. */
  function Join(parts: seq<string>, sep: string): string
  {
    if |parts| == 0 then ""
    else if |parts| == 1 then parts[0]
    else parts[0] + sep + Join(parts[1..], sep)
  }

  /** Appending one more part adds exactly one separator and the part, at the end. */
  lemma {:induction false} JoinAppend(parts: seq<string>, x: string, sep: string)
    requires |parts| > 0
    ensures Join(parts + [x], sep) == Join(parts, sep) + sep + x
  {
    if |parts| > 1 {
      assert (parts + [x])[1..] == parts[1..] + [x];
      JoinAppend(parts[1..], x, sep);
    }
  }

  /** Joining non-empty parts gives the empty string only when there are no parts. */
  lemma {:induction false} JoinEmpty(parts: seq<string>, sep: string)
    requires forall k :: 0 <= k < |parts| ==> parts[k] != ""
    ensures Join(parts, sep) == "" <==> parts == []
  {
    if |parts| > 1 {
      assert |Join(parts, sep)| >= |parts[0]|;
    }
  }
}
