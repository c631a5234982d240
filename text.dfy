/**
 The string operations the profile and config merges rely on: Python's
 substring test `p in s`, `s.endswith(p)`, the "is a prefix of" relation
 that states what an append-only edit keeps, and repetition.
 */
module Text {

  /** `p` occurs in `s` starting at index `i`. */
  ghost predicate OccursAt(s: string, p: string, i: int)
  {
    0 <= i && i + |p| <= |s| && s[i..i + |p|] == p
  }

  /** Python's `s.endswith(p)`. */
  predicate EndsWith(s: string, p: string)
  {
    |p| <= |s| && s[|s| - |p|..] == p
  }

  /** `a` is a prefix of `b`: `b` is `a` with something appended. */
  predicate IsPrefix(a: string, b: string)
  {
    |a| <= |b| && b[..|a|] == a
  }

  /** Python's `p in s`, searched from the left. */
  function Contains(s: string, p: string): bool
    decreases |s|
  {
    if IsPrefix(p, s) then true
    else if |s| == 0 then false
    else Contains(s[1..], p)
  }

  /** Shifting an occurrence by one position across a dropped first character. */
  lemma OccursAtTail(s: string, p: string, i: int)
    requires |s| > 0 && 0 <= i
    ensures OccursAt(s, p, i + 1) <==> OccursAt(s[1..], p, i)
  {
    if i + 1 + |p| <= |s| {
      assert s[1..][i..i + |p|] == s[i + 1..i + 1 + |p|];
    }
  }

  /** An occurrence at any index is found by the search. */
  lemma {:induction false} ContainsAt(s: string, p: string, i: int)
    requires OccursAt(s, p, i)
    ensures Contains(s, p)
    decreases i
  {
    if i == 0 {
      assert s[..|p|] == s[0..0 + |p|];
    } else {
      OccursAtTail(s, p, i - 1);
      ContainsAt(s[1..], p, i - 1);
    }
  }

  /** The search agrees with its reference definition: `p in s` holds exactly
      when `p` occurs at some index of `s`. */
  lemma {:induction false} ContainsIffOccurs(s: string, p: string)
    ensures Contains(s, p) <==> exists i :: OccursAt(s, p, i)
    decreases |s|
  {
    if IsPrefix(p, s) {
      assert OccursAt(s, p, 0);
    } else if |s| > 0 {
      ContainsIffOccurs(s[1..], p);
      if Contains(s[1..], p) {
        var i :| OccursAt(s[1..], p, i);
        OccursAtTail(s, p, i);
      }
    }
    if exists i :: OccursAt(s, p, i) {
      var i :| OccursAt(s, p, i);
      ContainsAt(s, p, i);
    }
  }

  /** Appending keeps the old text as a prefix. */
  lemma PrefixOfAppend(a: string, b: string)
    ensures IsPrefix(a, a + b)
  {
    assert (a + b)[..|a|] == a;
  }

  /** Being a prefix is transitive. */
  lemma PrefixTransitive(a: string, b: string, c: string)
    requires IsPrefix(a, b) && IsPrefix(b, c)
    ensures IsPrefix(a, c)
  {
    assert c[..|a|] == c[..|b|][..|a|];
  }

  /** An occurrence survives any append after it. */
  lemma OccursAtExtends(a: string, b: string, p: string, i: int)
    requires IsPrefix(a, b) && OccursAt(a, p, i)
    ensures OccursAt(b, p, i)
  {
    assert b[i..i + |p|] == b[..|a|][i..i + |p|];
  }

  /** Appending text never removes a substring: `p in a` stays true in every
      text that starts with `a`. */
  lemma ContainsExtends(a: string, b: string, p: string)
    requires IsPrefix(a, b) && Contains(a, p)
    ensures Contains(b, p)
  {
    ContainsIffOccurs(a, p);
    var i :| OccursAt(a, p, i);
    OccursAtExtends(a, b, p, i);
    ContainsAt(b, p, i);
  }

  /** `n` copies of `s`. */
  function Repeat(s: string, n: nat): string
  {
    if n == 0 then "" else Repeat(s, n - 1) + s
  }

  /** Growing a loop's processed prefix by one element keeps the old prefix. */
  lemma PrefixStep<T>(s: seq<T>, i: int)
    requires 0 <= i < |s|
    ensures s[..i + 1][..i] == s[..i]
  {
  }

  /** The processed prefix at the end of a loop is the whole sequence. */
  lemma PrefixAll<T>(s: seq<T>)
    ensures s[..|s|] == s
  {
  }
}
