/**
 * SQLite's `LIKE` operator as the session table's filtered search uses it:
 * `%` matches any run of characters, `_` matches one character, and other
 * characters match ignoring ASCII case (SQLite's default, no ESCAPE clause).
 */
module SqlLike {
  import opened Text

  function Lower(c: char): char {
    if 'A' <= c <= 'Z' then (c as int + 32) as char else c
  }

  predicate IsLetter(c: char) {
    'A' <= c <= 'Z' || 'a' <= c <= 'z'
  }

  predicate NoWildcards(t: string) {
    forall i :: 0 <= i < |t| ==> t[i] != '%' && t[i] != '_'
  }

  /** `s LIKE p`: every pattern character other than `%` consumes one character
      of the text, so without `%` a match has exactly the pattern's length. */
  predicate Like(s: string, p: string)
    ensures Like(s, p) ==> |s| >= |p| - Occurrences(p, '%')
    ensures Like(s, p) && '%' !in p ==> |s| == |p|
    decreases |s| + |p|
  {
    if |p| == 0 then |s| == 0
    else if p[0] == '%' then Like(s, p[1..]) || (|s| > 0 && Like(s[1..], p))
    else if p[0] == '_' then |s| > 0 && Like(s[1..], p[1..])
    else |s| > 0 && Lower(s[0]) == Lower(p[0]) && Like(s[1..], p[1..])
  }

  /** Equal texts, ignoring ASCII case. */
  predicate EqualIgnoringCase(a: string, b: string) {
    |a| == |b| && forall i :: 0 <= i < |a| ==> Lower(a[i]) == Lower(b[i])
  }

  /** `t` occurs in `s` at position `i`, ignoring ASCII case. */
  predicate OccursAt(s: string, t: string, i: nat) {
    i + |t| <= |s| && EqualIgnoringCase(s[i..i + |t|], t)
  }

  /** `t` occurs in `s`, ignoring ASCII case. */
  predicate ContainsIgnoringCase(s: string, t: string) {
    exists i: nat :: i <= |s| && OccursAt(s, t, i)
  }

  /** `s` ends with `t`, ignoring ASCII case. */
  predicate EndsWithIgnoringCase(s: string, t: string) {
    |t| <= |s| && EqualIgnoringCase(s[|s| - |t|..], t)
  }

  predicate EndsWith(s: string, t: string) {
    |t| <= |s| && s[|s| - |t|..] == t
  }

  lemma {:induction false} PercentMatchesAll(s: string)
    ensures Like(s, "%")
    decreases |s|
  {
    assert "%"[1..] == "";
    if |s| > 0 {
      PercentMatchesAll(s[1..]);
    }
  }

  lemma EqualIgnoringCaseStep(a: string, b: string)
    requires |a| > 0 && |b| > 0
    ensures EqualIgnoringCase(a, b) <==> Lower(a[0]) == Lower(b[0]) && EqualIgnoringCase(a[1..], b[1..])
  {
    if Lower(a[0]) == Lower(b[0]) && EqualIgnoringCase(a[1..], b[1..]) {
      forall i | 0 <= i < |a| ensures Lower(a[i]) == Lower(b[i]) {
        if i > 0 { assert a[1..][i - 1] == a[i] && b[1..][i - 1] == b[i]; }
      }
    }
  }

  /** A wildcard-free pattern matches exactly the texts equal to it up to case. */
  lemma {:induction false} LikeExact(s: string, t: string)
    requires NoWildcards(t)
    ensures Like(s, t) <==> EqualIgnoringCase(s, t)
    decreases |t|
  {
    if |t| > 0 && |s| > 0 {
      LikeExact(s[1..], t[1..]);
      EqualIgnoringCaseStep(s, t);
    }
  }

  /** `s LIKE t || '%'` holds exactly when `s` starts with `t` up to case. */
  lemma {:induction false} LikePrefix(s: string, t: string)
    requires NoWildcards(t)
    ensures Like(s, t + "%") <==> |t| <= |s| && EqualIgnoringCase(s[..|t|], t)
    decreases |t|
  {
    if |t| == 0 {
      assert t + "%" == "%";
      PercentMatchesAll(s);
    } else {
      assert (t + "%")[1..] == t[1..] + "%";
      if |s| > 0 {
        LikePrefix(s[1..], t[1..]);
        if |t| <= |s| {
          EqualIgnoringCaseStep(s[..|t|], t);
          assert s[..|t|][1..] == s[1..][..|t| - 1];
        }
      }
    }
  }

  /** Shifting the search window of `ContainsIgnoringCase` by one character. */
  lemma ContainsStep(s: string, t: string)
    requires |s| > 0
    ensures ContainsIgnoringCase(s, t) <==>
      (|t| <= |s| && EqualIgnoringCase(s[..|t|], t)) || ContainsIgnoringCase(s[1..], t)
  {
    if ContainsIgnoringCase(s, t) {
      var i: nat :| i <= |s| && OccursAt(s, t, i);
      assert i + |t| <= |s|;
      if i > 0 {
        assert s[1..][i - 1..i - 1 + |t|] == s[i..i + |t|];
        assert OccursAt(s[1..], t, i - 1);
      } else {
        assert s[..|t|] == s[i..i + |t|];
      }
    }
    if ContainsIgnoringCase(s[1..], t) {
      var i: nat :| i <= |s[1..]| && OccursAt(s[1..], t, i);
      assert i + |t| <= |s| - 1;
      assert s[1..][i..i + |t|] == s[i + 1..i + 1 + |t|];
      assert OccursAt(s, t, i + 1);
    }
    if |t| <= |s| && EqualIgnoringCase(s[..|t|], t) {
      assert s[0..0 + |t|] == s[..|t|];
      assert OccursAt(s, t, 0);
    }
  }

  /** The name filter: `s LIKE '%' || t || '%'` for a wildcard-free `t` holds
      exactly when `t` occurs in `s`, ignoring ASCII case. */
  lemma {:induction false} LikeContains(s: string, t: string)
    requires NoWildcards(t)
    ensures Like(s, "%" + t + "%") <==> ContainsIgnoringCase(s, t)
    decreases |s|
  {
    var q := t + "%";
    assert "%" + t + "%" == "%" + q;
    assert ("%" + q)[1..] == q;
    LikePrefix(s, t);
    if |s| > 0 {
      LikeContains(s[1..], t);
      ContainsStep(s, t);
    } else {
      if ContainsIgnoringCase(s, t) {
        var i: nat :| i <= |s| && OccursAt(s, t, i);
      assert i + |t| <= |s|;
        assert s[..|t|] == s[i..i + |t|];
      }
      if |t| == 0 {
        assert OccursAt(s, t, 0);
      }
    }
  }

  /** `s LIKE '%' || t` for a wildcard-free `t` holds exactly when `s` ends with `t`, ignoring case. */
  lemma {:induction false} LikeSuffix(s: string, t: string)
    requires NoWildcards(t)
    ensures Like(s, "%" + t) <==> EndsWithIgnoringCase(s, t)
    decreases |s|
  {
    assert ("%" + t)[1..] == t;
    LikeExact(s, t);
    if |s| > 0 {
      LikeSuffix(s[1..], t);
      if |t| <= |s| - 1 {
        assert s[1..][|s| - 1 - |t|..] == s[|s| - |t|..];
      }
    }
  }

  /** Case folding is irrelevant against a text without letters. */
  lemma EqualIgnoringCaseWithoutLetters(a: string, b: string)
    requires forall i :: 0 <= i < |b| ==> !IsLetter(b[i])
    ensures EqualIgnoringCase(a, b) <==> a == b
  {
    if EqualIgnoringCase(a, b) {
      forall i | 0 <= i < |a| ensures a[i] == b[i] {
        assert Lower(a[i]) == Lower(b[i]);
      }
    }
  }

  /** The year filter: a letterless, wildcard-free suffix pattern `'%' || t`
      matches exactly the texts that end with `t`. */
  lemma LikeEndsWith(s: string, t: string)
    requires NoWildcards(t)
    requires forall i :: 0 <= i < |t| ==> !IsLetter(t[i])
    ensures Like(s, "%" + t) <==> EndsWith(s, t)
  {
    LikeSuffix(s, t);
    if |t| <= |s| {
      EqualIgnoringCaseWithoutLetters(s[|s| - |t|..], t);
    }
  }
}
