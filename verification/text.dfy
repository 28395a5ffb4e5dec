/**
 * Small text and arithmetic helpers shared by the request controller and the
 * citation checker: an optional value, Python's substring test `sub in s`,
 * and powers of two.
 */
module Text {

  /** The conventional optional value. */
  datatype Option<+T> = None | Some(value: T)

  /** Python's `sub in s` on strings, scanning left to right. */
  predicate Contains(s: string, sub: string)
    decreases |s|
  {
    sub <= s || (s != [] && Contains(s[1..], sub))
  }

  /** `sub` occurs in `s` starting at offset `k`. */
  predicate OccursAt(s: string, sub: string, k: int)
  {
    0 <= k && k + |sub| <= |s| && s[k..k + |sub|] == sub
  }

  /** The scanning definition agrees with the positional one: `sub in s` holds
      exactly when some offset of `s` starts a copy of `sub`. */
  lemma {:induction false} ContainsIffOccurs(s: string, sub: string)
    ensures Contains(s, sub) <==> exists k :: OccursAt(s, sub, k)
    decreases |s|
  {
    if sub <= s {
      assert OccursAt(s, sub, 0);
    } else if s == [] {
    } else {
      ContainsIffOccurs(s[1..], sub);
      if exists k :: OccursAt(s[1..], sub, k) {
        var k :| OccursAt(s[1..], sub, k);
        assert s[1..][k..k + |sub|] == s[k + 1..k + 1 + |sub|];
        assert OccursAt(s, sub, k + 1);
      }
      if exists k :: OccursAt(s, sub, k) {
        var k :| OccursAt(s, sub, k);
        assert k != 0;
        assert s[1..][k - 1..k - 1 + |sub|] == s[k..k + |sub|];
        assert OccursAt(s[1..], sub, k - 1);
      }
    }
  }

  /** A text lacking one of the characters of `sub` does not contain `sub`. */
  lemma {:induction false} MissingCharNotContained(s: string, sub: string, j: nat)
    requires j < |sub| && forall k :: 0 <= k < |s| ==> s[k] != sub[j]
    ensures !Contains(s, sub)
    decreases |s|
  {
    if sub <= s {
      PrefixCharAt(sub, s, j);
      assert false;
    }
    if s != [] {
      MissingCharNotContained(s[1..], sub, j);
    }
  }

  /** A prefix agrees with the text it starts, character by character. */
  lemma PrefixCharAt(p: string, s: string, i: nat)
    requires p <= s && i < |p|
    ensures s[i] == p[i]
  {
  }

  /** Concatenation of sequences is associative. */
  lemma ConcatAssociates<T>(p: seq<T>, q: seq<T>, r: seq<T>)
    ensures p + (q + r) == (p + q) + r
  {
  }

  /** Python's `2 ** n` for a non-negative exponent. */
  function Pow2(n: nat): (p: nat)
    ensures p >= 1
  {
    if n == 0 then 1 else 2 * Pow2(n - 1)
  }
}
