/**
 The one regular expression the profile merge uses: `re.search(r'PATH=.*' + fragment, text)`
 for the three PATH fragments (system_setup.py:196-197). The pattern is `PATH=`, then
 `.*` (any run of characters other than a newline), then the fragment. The fragments
 hold only literal characters and `$`, and an unescaped `$` in Python's default mode is
 an end anchor: it matches at the end of the text or just before a newline that ends
 the text. This module models exactly that fragment of the regex language, proves that
 for fragments without `$` the search means "some line holds `PATH=` and, later on the
 same line, the fragment", and that the `$HOME/bin` pattern can never match.
 */
module PathPattern {
  import opened Text

  /** Python's `$` anchor without MULTILINE, checked against the rest of the text. */
  predicate AtEnd(t: string)
  {
    t == "" || t == "\n"
  }

  /** The fragment, read as a regex of literal characters and `$` anchors, matches at the start of `t`. */
  function FragmentMatch(t: string, fragment: string): bool
    decreases |fragment|
  {
    if fragment == "" then true
    else if fragment[0] == '$' then AtEnd(t) && FragmentMatch(t, fragment[1..])
    else |t| > 0 && t[0] == fragment[0] && FragmentMatch(t[1..], fragment[1..])
  }

  /** `.*` followed by the fragment matches at the start of `t`; `.` never matches a newline. */
  function DotStarThen(t: string, fragment: string): bool
    decreases |t|
  {
    FragmentMatch(t, fragment) || (|t| > 0 && t[0] != '\n' && DotStarThen(t[1..], fragment))
  }

  /** `PATH=.*` followed by the fragment matches at the start of `t`. */
  predicate MatchHere(t: string, fragment: string)
  {
    IsPrefix("PATH=", t) && DotStarThen(t[5..], fragment)
  }

  /** `re.search(r'PATH=.*' + fragment, t)` finds a match. */
  function Search(t: string, fragment: string): bool
    decreases |t|
  {
    MatchHere(t, fragment) || (|t| > 0 && Search(t[1..], fragment))
  }

  /** The line-local reading: `PATH=` at index `i`, the fragment at index `j`
      later on, and no newline in between. */
  ghost predicate SameLineAt(t: string, fragment: string, i: int, j: int)
  {
    OccursAt(t, "PATH=", i) && i + 5 <= j && OccursAt(t, fragment, j) && '\n' !in t[i + 5..j]
  }

  /** Some line of `t` contains `PATH=` and, later on that same line, the fragment. */
  ghost predicate SameLineMatch(t: string, fragment: string)
  {
    exists i, j :: SameLineAt(t, fragment, i, j)
  }

  /** The fragment holds no anchor: every character stands for itself. */
  predicate Literal(fragment: string)
  {
    '$' !in fragment
  }

  /** A literal fragment matches exactly when the text starts with it. */
  lemma {:induction false} LiteralMatch(t: string, fragment: string)
    requires Literal(fragment)
    ensures FragmentMatch(t, fragment) <==> IsPrefix(fragment, t)
    decreases |fragment|
  {
    if fragment != "" {
      assert fragment[0] in fragment;
      assert Literal(fragment[1..]) by {
        forall k | 0 <= k < |fragment[1..]| ensures fragment[1..][k] != '$' {
          assert fragment[1..][k] == fragment[k + 1];
        }
      }
      if |t| > 0 {
        LiteralMatch(t[1..], fragment[1..]);
        if t[0] == fragment[0] {
          assert IsPrefix(fragment, t) <==> IsPrefix(fragment[1..], t[1..]) by {
            if IsPrefix(fragment[1..], t[1..]) {
              assert t[..|fragment|] == [t[0]] + t[1..][..|fragment| - 1];
              assert fragment == [fragment[0]] + fragment[1..];
            }
            if IsPrefix(fragment, t) {
              assert t[1..][..|fragment| - 1] == t[..|fragment|][1..];
            }
          }
        } else {
          assert |fragment| <= |t| ==> t[..|fragment|][0] == t[0];
        }
      }
    }
  }

  /** The `.*` step: the fragment occurs at index `j` of `t` with no newline before it. */
  ghost predicate DotStarAt(t: string, fragment: string, j: int)
  {
    OccursAt(t, fragment, j) && '\n' !in t[..j]
  }

  /** `.*` followed by the fragment read as plain text (every character, `$` included,
      standing for itself, as after `re.escape`) matches at the start of `t`. */
  function DotStarThenText(t: string, fragment: string): bool
    decreases |t|
  {
    IsPrefix(fragment, t) || (|t| > 0 && t[0] != '\n' && DotStarThenText(t[1..], fragment))
  }

  /** `PATH=.*` followed by the escaped fragment matches at the start of `t`. */
  predicate MatchHereText(t: string, fragment: string)
  {
    IsPrefix("PATH=", t) && DotStarThenText(t[5..], fragment)
  }

  /** `re.search(r'PATH=.*' + re.escape(fragment), t)` finds a match. */
  function SearchText(t: string, fragment: string): bool
    decreases |t|
  {
    MatchHereText(t, fragment) || (|t| > 0 && SearchText(t[1..], fragment))
  }

  /** For a fragment without `$`, escaping it changes nothing. */
  lemma {:induction false} DotStarLiteral(t: string, fragment: string)
    requires Literal(fragment)
    ensures DotStarThen(t, fragment) == DotStarThenText(t, fragment)
    decreases |t|
  {
    LiteralMatch(t, fragment);
    if |t| > 0 {
      DotStarLiteral(t[1..], fragment);
    }
  }

  /** For a fragment without `$`, the search and the escaped search agree. */
  lemma {:induction false} SearchLiteral(t: string, fragment: string)
    requires Literal(fragment)
    ensures Search(t, fragment) == SearchText(t, fragment)
    decreases |t|
  {
    if IsPrefix("PATH=", t) {
      DotStarLiteral(t[5..], fragment);
    }
    if |t| > 0 {
      SearchLiteral(t[1..], fragment);
    }
  }

  /** `.*` then the plain-text fragment matches exactly when the fragment occurs on
      the first line of `t`. */
  lemma {:induction false} DotStarTextIff(t: string, fragment: string)
    ensures DotStarThenText(t, fragment) <==> exists j :: DotStarAt(t, fragment, j)
    decreases |t|
  {
    if IsPrefix(fragment, t) {
      assert t[..|fragment|] == t[0..0 + |fragment|];
      assert DotStarAt(t, fragment, 0);
    }
    if |t| > 0 {
      DotStarTextIff(t[1..], fragment);
      if t[0] != '\n' && DotStarThenText(t[1..], fragment) {
        var j :| DotStarAt(t[1..], fragment, j);
        OccursAtTail(t, fragment, j);
        assert t[..j + 1] == [t[0]] + t[1..][..j];
        assert DotStarAt(t, fragment, j + 1);
      }
    }
    if j :| DotStarAt(t, fragment, j) {
      if j == 0 {
        assert t[..|fragment|] == t[0..0 + |fragment|];
      } else {
        assert t[0] == t[..j][0];
        OccursAtTail(t, fragment, j - 1);
        assert t[1..][..j - 1] == t[..j][1..];
        assert DotStarAt(t[1..], fragment, j - 1);
      }
    }
  }

  /** A match of the escaped pattern at index 0 is a same-line occurrence at index 0, and back. */
  lemma MatchHereTextIff(t: string, fragment: string)
    ensures MatchHereText(t, fragment) <==> exists j :: SameLineAt(t, fragment, 0, j)
  {
    if IsPrefix("PATH=", t) {
      assert OccursAt(t, "PATH=", 0) by { assert t[..5] == t[0..0 + 5]; }
      DotStarTextIff(t[5..], fragment);
      if DotStarThenText(t[5..], fragment) {
        var j :| DotStarAt(t[5..], fragment, j);
        assert t[5..][j..j + |fragment|] == t[5 + j..5 + j + |fragment|];
        assert t[5..][..j] == t[5..5 + j];
        assert SameLineAt(t, fragment, 0, 5 + j);
      }
      if j :| SameLineAt(t, fragment, 0, j) {
        assert t[5..][j - 5..j - 5 + |fragment|] == t[j..j + |fragment|];
        assert t[5..][..j - 5] == t[5..j];
        assert DotStarAt(t[5..], fragment, j - 5);
      }
    } else {
      assert 5 <= |t| ==> t[0..0 + 5] == t[..5];
    }
  }

  /** Shifting a same-line occurrence across a dropped first character. */
  lemma SameLineAtTail(t: string, fragment: string, i: int, j: int)
    requires |t| > 0 && 0 <= i
    ensures SameLineAt(t, fragment, i + 1, j + 1) <==> SameLineAt(t[1..], fragment, i, j)
  {
    OccursAtTail(t, "PATH=", i);
    if 0 <= j {
      OccursAtTail(t, fragment, j);
    }
    if i + 5 <= j && j <= |t[1..]| {
      assert t[1..][i + 5..j] == t[i + 6..j + 1];
    }
  }

  /** The escaped search is the line-local reading, for every fragment: it succeeds
      exactly when some line of `t` contains `PATH=` and, later on that same line,
      the fragment. */
  lemma {:induction false} SearchTextIffSameLine(t: string, fragment: string)
    ensures SearchText(t, fragment) <==> SameLineMatch(t, fragment)
    decreases |t|
  {
    MatchHereTextIff(t, fragment);
    if |t| > 0 {
      SearchTextIffSameLine(t[1..], fragment);
      if SearchText(t[1..], fragment) {
        var i, j :| SameLineAt(t[1..], fragment, i, j);
        SameLineAtTail(t, fragment, i, j);
      }
    }
    if SameLineMatch(t, fragment) {
      var i, j :| SameLineAt(t, fragment, i, j);
      if i > 0 {
        SameLineAtTail(t, fragment, i - 1, j - 1);
      }
    }
  }

  /** The regex search agrees with the line-local reading: for a literal fragment,
      `re.search(r'PATH=.*' + fragment, t)` succeeds exactly when some line of `t`
      contains `PATH=` and, later on that same line, the fragment. */
  lemma SearchIffSameLine(t: string, fragment: string)
    requires Literal(fragment)
    ensures Search(t, fragment) <==> SameLineMatch(t, fragment)
  {
    SearchLiteral(t, fragment);
    SearchTextIffSameLine(t, fragment);
  }

  /** A same-line match survives any append after it. */
  lemma SameLineExtends(a: string, b: string, fragment: string)
    requires IsPrefix(a, b) && SameLineMatch(a, fragment)
    ensures SameLineMatch(b, fragment)
  {
    var i, j :| SameLineAt(a, fragment, i, j);
    OccursAtExtends(a, b, "PATH=", i);
    OccursAtExtends(a, b, fragment, j);
    assert b[i + 5..j] == a[i + 5..j] by {
      forall k | i + 5 <= k < j ensures b[k] == a[k] {
        assert b[..|a|][k] == b[k];
      }
    }
    assert SameLineAt(b, fragment, i, j);
  }

  /** Appending text never undoes a match of a literal fragment. */
  lemma SearchExtends(a: string, b: string, fragment: string)
    requires Literal(fragment) && IsPrefix(a, b) && Search(a, fragment)
    ensures Search(b, fragment)
  {
    SearchIffSameLine(a, fragment);
    SameLineExtends(a, b, fragment);
    SearchIffSameLine(b, fragment);
  }

  /** A `$` anchor followed by any literal character can match nowhere. */
  lemma AnchorThenCharNeverMatches(t: string, fragment: string)
    requires |fragment| >= 2 && fragment[0] == '$' && fragment[1] != '$' && fragment[1] != '\n'
    ensures !FragmentMatch(t, fragment)
  {
    if AtEnd(t) {
      assert fragment[1..][0] == fragment[1];
    }
  }

  /** Hence `.*` followed by such a fragment can match nowhere. */
  lemma {:induction false} DotStarAnchorNeverMatches(t: string, fragment: string)
    requires |fragment| >= 2 && fragment[0] == '$' && fragment[1] != '$' && fragment[1] != '\n'
    ensures !DotStarThen(t, fragment)
    decreases |t|
  {
    AnchorThenCharNeverMatches(t, fragment);
    if |t| > 0 {
      DotStarAnchorNeverMatches(t[1..], fragment);
    }
  }

  /** The search for `PATH=.*$HOME/bin` never succeeds, whatever the text: after
      `$` has matched at the end of the text there is no `H` left to match. */
  lemma {:induction false} HomeBinNeverMatches(t: string)
    ensures !Search(t, "$HOME/bin")
    decreases |t|
  {
    if IsPrefix("PATH=", t) {
      DotStarAnchorNeverMatches(t[5..], "$HOME/bin");
    }
    if |t| > 0 {
      HomeBinNeverMatches(t[1..]);
    }
  }

  /** Appending text never undoes a match of the escaped pattern. */
  lemma SearchTextExtends(a: string, b: string, fragment: string)
    requires IsPrefix(a, b) && SearchText(a, fragment)
    ensures SearchText(b, fragment)
  {
    SearchTextIffSameLine(a, fragment);
    SameLineExtends(a, b, fragment);
    SearchTextIffSameLine(b, fragment);
  }
}
