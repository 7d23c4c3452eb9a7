/** The Option datatype used for values Python represents with `None`. */
module Wrappers {
  datatype Option<+T> = None | Some(value: T)
}

/**
 * The string primitives the backup client relies on, with Python's meaning:
 * `str.strip(chars)`, `str.endswith`, `str.rfind`, `str.lower` (ASCII letters)
 * and the ordering `<` of Python strings (code point by code point).
 */
module Text {

  /** True when every character of `s` is drawn from `chars`. */
  predicate AllIn(s: string, chars: set<char>) {
    forall i :: 0 <= i < |s| ==> s[i] in chars
  }

  lemma AllInConcat(a: string, b: string, chars: set<char>)
    requires AllIn(a, chars) && AllIn(b, chars)
    ensures AllIn(a + b, chars)
  {
    forall i | 0 <= i < |a + b| ensures (a + b)[i] in chars {
      if i >= |a| { assert (a + b)[i] == b[i - |a|]; }
    }
  }

  /** `s.lstrip(chars)`: `s` without its leading characters from `chars`. */
  function TrimLeft(s: string, chars: set<char>): (r: string)
    ensures |r| <= |s|
    ensures r == [] || r[0] !in chars
  {
    if s != [] && s[0] in chars then TrimLeft(s[1..], chars) else s
  }

  /** `s.rstrip(chars)`: `s` without its trailing characters from `chars`. */
  function TrimRight(s: string, chars: set<char>): (r: string)
    ensures |r| <= |s|
    ensures r == [] || r[|r| - 1] !in chars
    ensures r != [] ==> r[0] == s[0]
  {
    if s != [] && s[|s| - 1] in chars then TrimRight(s[..|s| - 1], chars) else s
  }

  /** `s.strip(chars)`: `s` without its leading and its trailing run of characters from `chars`. */
  function Strip(s: string, chars: set<char>): (r: string)
    ensures r == [] || (r[0] !in chars && r[|r| - 1] !in chars)
  {
    TrimRight(TrimLeft(s, chars), chars)
  }

  /** TrimLeft removes a prefix made of characters from `chars`, and nothing else. */
  lemma {:induction false} TrimLeftSplit(s: string, chars: set<char>) returns (pre: string)
    ensures s == pre + TrimLeft(s, chars) && AllIn(pre, chars)
  {
    if s != [] && s[0] in chars {
      var rest := TrimLeftSplit(s[1..], chars);
      pre := [s[0]] + rest;
      assert s == [s[0]] + s[1..];
    } else {
      pre := [];
    }
  }

  /** TrimRight removes a suffix made of characters from `chars`, and nothing else. */
  lemma {:induction false} TrimRightSplit(s: string, chars: set<char>) returns (post: string)
    ensures s == TrimRight(s, chars) + post && AllIn(post, chars)
  {
    if s != [] && s[|s| - 1] in chars {
      var rest := TrimRightSplit(s[..|s| - 1], chars);
      post := rest + [s[|s| - 1]];
      assert s == s[..|s| - 1] + [s[|s| - 1]];
    } else {
      post := [];
    }
  }

  lemma {:induction false} TrimLeftPadded(p: string, t: string, chars: set<char>)
    requires AllIn(p, chars)
    ensures TrimLeft(p + t, chars) == TrimLeft(t, chars)
  {
    if p != [] {
      assert (p + t)[1..] == p[1..] + t;
      TrimLeftPadded(p[1..], t, chars);
    } else {
      assert p + t == t;
    }
  }

  lemma {:induction false} TrimRightPadded(t: string, q: string, chars: set<char>)
    requires AllIn(q, chars)
    ensures TrimRight(t + q, chars) == TrimRight(t, chars)
  {
    if q != [] {
      assert (t + q)[..|t + q| - 1] == t + q[..|q| - 1];
      TrimRightPadded(t, q[..|q| - 1], chars);
    } else {
      assert t + q == t;
    }
  }

  /**
   * Strip is determined by its specification: whatever is wrapped in runs of `chars`,
   * and neither begins nor ends with one of them, is what Strip returns.
   */
  lemma StripUnique(p: string, r: string, q: string, chars: set<char>)
    requires AllIn(p, chars) && AllIn(q, chars)
    requires r == [] || (r[0] !in chars && r[|r| - 1] !in chars)
    ensures Strip(p + r + q, chars) == r
  {
    assert p + r + q == p + (r + q);
    TrimLeftPadded(p, r + q, chars);
    if r == [] {
      assert r + q == q && q + [] == q;
      TrimLeftPadded(q, [], chars);
    } else {
      assert TrimLeft(r + q, chars) == r + q;
      TrimRightPadded(r, q, chars);
    }
  }

  /** What Strip leaves is `s` without a run of `chars` on each side. */
  lemma StripSplit(s: string, chars: set<char>) returns (pre: string, post: string)
    ensures s == pre + Strip(s, chars) + post
    ensures AllIn(pre, chars) && AllIn(post, chars)
  {
    pre := TrimLeftSplit(s, chars);
    post := TrimRightSplit(TrimLeft(s, chars), chars);
  }

  /** Any number of extra characters from `chars` on either side does not change the result of Strip. */
  lemma StripIgnoresPadding(a: string, s: string, b: string, chars: set<char>)
    requires AllIn(a, chars) && AllIn(b, chars)
    ensures Strip(a + s + b, chars) == Strip(s, chars)
  {
    var r := Strip(s, chars);
    var pre, post := StripSplit(s, chars);
    AllInConcat(a, pre, chars);
    AllInConcat(post, b, chars);
    assert r == [] || (r[0] !in chars && r[|r| - 1] !in chars);
    calc {
      a + s + b;
      a + (pre + r + post) + b;
      (a + pre) + r + (post + b);
    }
    StripUnique(a + pre, r, post + b, chars);
  }

  /** A string that neither begins nor ends with a character from `chars` is left as it is. */
  lemma StripClean(s: string, chars: set<char>)
    requires s == [] || (s[0] !in chars && s[|s| - 1] !in chars)
    ensures Strip(s, chars) == s
  {
    assert [] + s + [] == s;
    StripUnique([], s, [], chars);
  }

  lemma StripIdempotent(s: string, chars: set<char>)
    ensures Strip(Strip(s, chars), chars) == Strip(s, chars)
  {
    StripClean(Strip(s, chars), chars);
  }

  /** Strip leaves nothing exactly when every character of `s` is one it strips. */
  lemma StripEmptyIff(s: string, chars: set<char>)
    ensures Strip(s, chars) == [] <==> AllIn(s, chars)
  {
    var pre, post := StripSplit(s, chars);
    if Strip(s, chars) == [] {
      assert s == pre + post;
      AllInConcat(pre, post, chars);
    }
    if AllIn(s, chars) {
      assert s == s + [] + [];
      StripUnique(s, [], [], chars);
    }
  }

  /** `s.endswith(suffix)`. */
  predicate EndsWith(s: string, suffix: string) {
    |suffix| <= |s| && s[|s| - |suffix|..] == suffix
  }

  /** `s.rfind(c)`: the index of the last occurrence of `c`, or -1 when there is none. */
  function LastIndexOf(s: string, c: char): (r: int)
    ensures -1 <= r < |s|
    ensures r >= 0 ==> s[r] == c
    ensures forall k :: r < k < |s| ==> s[k] != c
  {
    if s == [] then -1
    else if s[|s| - 1] == c then |s| - 1
    else LastIndexOf(s[..|s| - 1], c)
  }

  /** Nothing after the last occurrence of `c` is `c`. */
  lemma AbsentAfterLast(s: string, c: char, i: int)
    requires LastIndexOf(s, c) < i <= |s|
    ensures c !in s[i..]
  {
    assert forall k :: 0 <= k < |s[i..]| ==> s[i..][k] == s[i + k];
  }

  /** Lower-casing of one character, for the ASCII letters. */
  function LowerChar(c: char): char {
    if 'A' <= c <= 'Z' then (c as int + 32) as char else c
  }

  /** `s.lower()`, restricted to ASCII letters. */
  function Lower(s: string): (r: string)
    ensures |r| == |s|
  {
    if s == [] then [] else Lower(s[..|s| - 1]) + [LowerChar(s[|s| - 1])]
  }

  /** Lower works character by character. */
  lemma {:induction false} LowerAt(s: string, i: nat)
    requires i < |s|
    ensures Lower(s)[i] == LowerChar(s[i])
  {
    if i < |s| - 1 {
      LowerAt(s[..|s| - 1], i);
    }
  }

  /** `a < b` on Python strings: the first differing character decides; a proper prefix comes first. */
  predicate LexLess(a: string, b: string) {
    if a == [] then b != []
    else if b == [] then false
    else if a[0] != b[0] then a[0] < b[0]
    else LexLess(a[1..], b[1..])
  }

  lemma {:induction false} LexLessIrreflexive(a: string)
    ensures !LexLess(a, a)
  {
    if a != [] { LexLessIrreflexive(a[1..]); }
  }

  /** Comparing two concatenations whose first parts have the same length compares the first parts, then the rest. */
  lemma {:induction false} LexLessAppend(a1: string, b1: string, a2: string, b2: string)
    requires |a1| == |a2|
    ensures LexLess(a1 + b1, a2 + b2) <==> LexLess(a1, a2) || (a1 == a2 && LexLess(b1, b2))
  {
    if a1 == [] {
      assert a1 + b1 == b1 && a2 + b2 == b2;
    } else {
      assert (a1 + b1)[0] == a1[0] && (a2 + b2)[0] == a2[0];
      assert (a1 + b1)[1..] == a1[1..] + b1 && (a2 + b2)[1..] == a2[1..] + b2;
      if a1[0] == a2[0] {
        LexLessAppend(a1[1..], b1, a2[1..], b2);
        assert a1 == a2 <==> a1[1..] == a2[1..] by {
          if a1[1..] == a2[1..] { assert a1 == [a1[0]] + a1[1..] && a2 == [a2[0]] + a2[1..]; }
        }
      }
    }
  }
}
