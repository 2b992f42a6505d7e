/**
 * The text operations the search page relies on: Python's str.strip() with no
 * argument, SQLite's lower() (ASCII letters only) and SQLite's LIKE, in which
 * '%' matches any run of characters, '_' any one character, and letters match
 * either ASCII case.
 */
module Text {

  /** Python's str.isspace for one character: the Unicode whitespace set. */
  predicate IsSpace(c: char) {
    c == ' ' || '\t' <= c <= '\r' || '\U{1c}' <= c <= '\U{1f}'
    || c == '\U{85}' || c == '\U{a0}' || c == '\U{1680}'
    || '\U{2000}' <= c <= '\U{200a}' || c == '\U{2028}' || c == '\U{2029}'
    || c == '\U{202f}' || c == '\U{205f}' || c == '\U{3000}'
  }

  /** s without its leading whitespace. */
  function StripStart(s: string): (r: string)
    ensures |r| <= |s| && r == s[|s| - |r|..]
    ensures forall i :: 0 <= i < |s| - |r| ==> IsSpace(s[i])
    ensures r != [] ==> !IsSpace(r[0])
  {
    if s != [] && IsSpace(s[0]) then StripStart(s[1..]) else s
  }

  /** s without its trailing whitespace. */
  function StripEnd(s: string): (r: string)
    ensures |r| <= |s| && r == s[..|r|]
    ensures forall i :: |r| <= i < |s| ==> IsSpace(s[i])
    ensures r != [] ==> !IsSpace(r[|r| - 1])
  {
    if s != [] && IsSpace(s[|s| - 1]) then StripEnd(s[..|s| - 1]) else s
  }

  /** Everything before index a and from index b on is whitespace. */
  predicate SpaceAround(s: string, a: int, b: int) {
    0 <= a <= b <= |s|
    && (forall i :: 0 <= i < a ==> IsSpace(s[i]))
    && (forall i :: b <= i < |s| ==> IsSpace(s[i]))
  }

  /**
   * str.strip(): the slice of s left between its leading and its trailing
   * whitespace; it neither starts nor ends with whitespace, and it is empty
   * exactly when s is all whitespace.
   */
  function Strip(s: string): (r: string)
    ensures exists a, b :: SpaceAround(s, a, b) && r == s[a..b]
    ensures r != [] ==> !IsSpace(r[0]) && !IsSpace(r[|r| - 1])
    ensures r == [] <==> forall i :: 0 <= i < |s| ==> IsSpace(s[i])
  {
    var t := StripStart(s);
    var r := StripEnd(t);
    assert r == s[|s| - |t|..|s| - |t| + |r|];
    StripIsSlice(s);
    r
  }

  /** Stripping both ends leaves a slice of s with only whitespace around it. */
  lemma StripIsSlice(s: string)
    ensures exists a, b :: SpaceAround(s, a, b) && StripEnd(StripStart(s)) == s[a..b]
  {
    var t := StripStart(s);
    var r := StripEnd(t);
    var a := |s| - |t|;
    PrefixOfSuffix(s, a, |r|);
    assert forall i :: a + |r| <= i < |s| ==> s[i] == t[i - a];
    assert SpaceAround(s, a, a + |r|);
  }

  /** The first n elements of s[a..] are s[a..a + n]. */
  lemma PrefixOfSuffix<T>(s: seq<T>, a: nat, n: nat)
    requires a + n <= |s|
    ensures s[a..][..n] == s[a..a + n]
  {
  }

  /** SQLite's lower() for one character: only 'A'..'Z' change. */
  function LowerChar(c: char): char {
    if 'A' <= c <= 'Z' then (c as int - 'A' as int + 'a' as int) as char else c
  }

  /** SQLite's lower(): ASCII letters folded, every other character kept. */
  function Lower(s: string): (r: string)
    ensures |r| == |s| && forall i :: 0 <= i < |s| ==> r[i] == LowerChar(s[i])
  {
    seq(|s|, i requires 0 <= i < |s| => LowerChar(s[i]))
  }

  /** Lower-casing the rest of s is the rest of the lower-cased s. */
  lemma LowerTail(s: string)
    requires s != []
    ensures Lower(s)[0] == LowerChar(s[0]) && Lower(s)[1..] == Lower(s[1..])
  {
  }

  /** lower() of a lower-cased text changes nothing. */
  lemma LowerIdempotent(s: string)
    ensures Lower(Lower(s)) == Lower(s)
  {
  }

  /**
   * SQLite LIKE without an ESCAPE clause, with SQLite's default
   * case_sensitive_like off: '%' matches any run of characters, '_' any one
   * character, and every other character itself or its other ASCII case.
   */
  predicate Like(s: string, p: string)
    decreases |s| + |p|
  {
    if p == [] then s == []
    else if p[0] == '%' then Like(s, p[1..]) || (s != [] && Like(s[1..], p))
    else s != [] && (p[0] == '_' || LowerChar(s[0]) == LowerChar(p[0])) && Like(s[1..], p[1..])
  }

  /** No character of q acts as a LIKE wildcard. */
  predicate NoWildcards(q: string) {
    forall i :: 0 <= i < |q| ==> q[i] != '%' && q[i] != '_'
  }

  predicate IsPrefix(q: string, s: string) {
    |q| <= |s| && s[..|q|] == q
  }

  /** q occurs in s as a contiguous block. */
  predicate Contains(s: string, q: string) {
    IsPrefix(q, s) || (s != [] && Contains(s[1..], q))
  }

  /** The ILIKE test of app.py: lower(text) LIKE lower('%' || q || '%'). */
  predicate ILikeInfix(text: string, q: string) {
    Like(Lower(text), Lower("%" + q + "%"))
  }

  /** A trailing '%' matches any rest. */
  lemma {:induction false} LikeAnyRest(s: string)
    ensures Like(s, "%")
  {
    if s != [] {
      LikeAnyRest(s[1..]);
    }
  }

  /**
   * Without wildcards, q followed by '%' matches exactly the strings that
   * start with q up to ASCII case.
   */
  lemma {:induction false} LikePrefix(s: string, q: string)
    requires NoWildcards(q)
    ensures Like(s, q + "%") <==> IsPrefix(Lower(q), Lower(s))
  {
    if q == [] {
      assert q + "%" == "%";
      LikeAnyRest(s);
    } else {
      assert (q + "%")[1..] == q[1..] + "%";
      if s != [] {
        LikePrefix(s[1..], q[1..]);
        LowerTail(s);
        LowerTail(q);
        var ls, lq := Lower(s), Lower(q);
        assert IsPrefix(lq, ls) <==> ls[0] == lq[0] && IsPrefix(lq[1..], ls[1..]) by {
          if ls[0] == lq[0] && IsPrefix(lq[1..], ls[1..]) {
            assert ls[..|lq|] == [ls[0]] + ls[1..][..|lq| - 1];
            assert lq == [lq[0]] + lq[1..];
          }
        }
      }
    }
  }

  /**
   * Without wildcards, '%' q '%' matches exactly the strings that contain q
   * up to ASCII case.
   */
  lemma {:induction false} LikeInfix(s: string, q: string)
    requires NoWildcards(q)
    ensures Like(s, "%" + q + "%") <==> Contains(Lower(s), Lower(q))
  {
    assert ("%" + q + "%")[1..] == q + "%";
    LikePrefix(s, q);
    if s != [] {
      LikeInfix(s[1..], q);
      LowerTail(s);
    }
  }

  /**
   * The search filter on one field: for a query without '%' or '_', ILIKE
   * '%q%' holds exactly when the lower-cased field contains the lower-cased q.
   */
  lemma ILikeInfixIsContains(text: string, q: string)
    requires NoWildcards(q)
    ensures ILikeInfix(text, q) <==> Contains(Lower(text), Lower(q))
  {
    assert Lower("%" + q + "%") == "%" + Lower(q) + "%";
    LikeInfix(Lower(text), Lower(q));
    LowerIdempotent(text);
    LowerIdempotent(q);
  }

  /** A wildcard in the query is not taken literally: "a_c" matches "xabcx". */
  lemma WildcardIsNotLiteral()
    ensures ILikeInfix("xabcx", "a_c") && !Contains(Lower("xabcx"), Lower("a_c"))
  {
    assert Lower("xabcx") == "xabcx";
    assert "%" + "a_c" + "%" == "%a_c%";
    assert Lower("%a_c%") == "%a_c%";
    assert Lower("a_c") == "a_c";
    assert Like("xabcx", "%a_c%") by {
      assert Like("x", "%") by { assert Like("", "%"); }
      assert Like("cx", "c%");
      assert Like("bcx", "_c%");
      assert Like("abcx", "a_c%");
      assert Like("abcx", "%a_c%");
    }
    assert !Contains("xabcx", "a_c") by {
      assert !Contains("", "a_c");
      assert !Contains("x", "a_c");
      assert !Contains("cx", "a_c");
      assert !Contains("bcx", "a_c");
      assert !Contains("abcx", "a_c") by { assert "abcx"[..3] != "a_c"; }
      assert !Contains("xabcx", "a_c") by { assert "xabcx"[..3] != "a_c"; }
    }
  }
}
