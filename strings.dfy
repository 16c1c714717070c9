/** The three operations of Rust's `str` that the site generator relies on:
    `find` (first occurrence), `split` (greedy, left-to-right, non-overlapping)
    and `replace` (replace every non-overlapping occurrence, left to right,
    without rescanning what was inserted). Text is a sequence of one-byte
    characters, so byte offsets and sequence indices coincide. */
module Strings {
  import opened Wrappers

  /** `pat` occurs in `s` starting at index `i`. */
  predicate At(s: string, pat: string, i: nat) {
    i + |pat| <= |s| && s[i..i + |pat|] == pat
  }

  /** `str::find` starting at offset `from`: the least index `>= from` at which `pat` occurs. */
  function Find(s: string, pat: string, from: nat): (r: Option<nat>)
    ensures r.Some? ==> from <= r.value && At(s, pat, r.value)
    ensures forall i: nat | from <= i && (r.Some? ==> i < r.value) :: !At(s, pat, i)
    decreases |s| - from
  {
    if |s| < from + |pat| then None
    else if At(s, pat, from) then Some(from)
    else Find(s, pat, from + 1)
  }

  /** Every piece is at most `n` long. */
  predicate PiecesWithin(parts: seq<string>, n: nat) {
    forall k | 0 <= k < |parts| :: |parts[k]| <= n
  }

  /** `str::split` with a non-empty separator: the pieces between the
      occurrences found scanning left to right; there is always one more
      piece than there are separators, so "" splits into [""]. */
  function SplitOn(s: string, sep: string): (parts: seq<string>)
    requires sep != []
    ensures |parts| >= 1
    ensures parts[0] <= s
    ensures PiecesWithin(parts, |s|)
    decreases |s|
  {
    if s == [] then [[]]
    else if At(s, sep, 0) then [[]] + SplitOn(s[|sep|..], sep)
    else
      var rest := SplitOn(s[1..], sep);
      [[s[0]] + rest[0]] + rest[1..]
  }

  /** The pieces glued back together with `sep` between each two of them. */
  function Join(parts: seq<string>, sep: string): string {
    if |parts| == 0 then []
    else if |parts| == 1 then parts[0]
    else parts[0] + sep + Join(parts[1..], sep)
  }

  /** `str::replace(pat, val)`: every occurrence of `pat` found scanning left
      to right is replaced by `val`, and scanning resumes after the
      occurrence, never inside the inserted `val`. */
  function ReplaceAll(s: string, pat: string, val: string): (r: string)
    requires pat != []
    ensures |val| <= |pat| ==> |r| <= |s|
    decreases |s|
  {
    if s == [] then []
    else if At(s, pat, 0) then val + ReplaceAll(s[|pat|..], pat, val)
    else [s[0]] + ReplaceAll(s[1..], pat, val)
  }

  /** An occurrence in the tail is an occurrence one place further in the text. */
  lemma AtTail(s: string, pat: string, i: nat)
    requires s != []
    ensures At(s[1..], pat, i) <==> At(s, pat, i + 1)
  {
    if i + 1 + |pat| <= |s| {
      assert s[1..][i..i + |pat|] == s[i + 1..i + 1 + |pat|];
    }
  }

  /** An occurrence in a prefix is an occurrence in the whole text. */
  lemma AtPrefix(p: string, s: string, pat: string, i: nat)
    requires p <= s
    ensures At(p, pat, i) ==> At(s, pat, i)
  {
    if i + |pat| <= |p| {
      assert p[i..i + |pat|] == s[i..i + |pat|];
    }
  }

  /** Joining a piece in front of at least one more. */
  lemma JoinCons(x: string, rest: seq<string>, sep: string)
    requires |rest| >= 1
    ensures Join([x] + rest, sep) == x + sep + Join(rest, sep)
  {
    assert ([x] + rest)[1..] == rest;
  }

  /** Joining after putting one character in front of the first piece. */
  lemma JoinExtendHead(c: char, rest: seq<string>, sep: string)
    requires |rest| >= 1
    ensures Join([[c] + rest[0]] + rest[1..], sep) == [c] + Join(rest, sep)
  {
    if |rest| > 1 {
      JoinCons([c] + rest[0], rest[1..], sep);
      JoinCons(rest[0], rest[1..], sep);
      assert rest == [rest[0]] + rest[1..];
    }
  }

  /** A split at a leading separator starts with an empty piece. */
  lemma SplitOnAtStart(s: string, sep: string)
    requires sep != [] && s != [] && At(s, sep, 0)
    ensures SplitOn(s, sep) == [[]] + SplitOn(s[|sep|..], sep)
  {
  }

  /** A split of text not starting with the separator extends the first piece. */
  lemma SplitOnNotAtStart(s: string, sep: string)
    requires sep != [] && s != [] && !At(s, sep, 0)
    ensures SplitOn(s, sep) == [[s[0]] + SplitOn(s[1..], sep)[0]] + SplitOn(s[1..], sep)[1..]
  {
  }

  /** Splitting and joining with the same separator gives back the text. */
  lemma {:induction false} SplitOnJoin(s: string, sep: string)
    requires sep != []
    ensures Join(SplitOn(s, sep), sep) == s
    decreases |s|
  {
    if s == [] {
    } else if At(s, sep, 0) {
      SplitOnJoin(s[|sep|..], sep);
      SplitOnJoinAtStart(s, sep);
    } else {
      SplitOnJoin(s[1..], sep);
      SplitOnJoinNotAtStart(s, sep);
    }
  }

  /** The step of `SplitOnJoin` at a leading separator. */
  lemma SplitOnJoinAtStart(s: string, sep: string)
    requires sep != [] && s != [] && At(s, sep, 0)
    requires Join(SplitOn(s[|sep|..], sep), sep) == s[|sep|..]
    ensures Join(SplitOn(s, sep), sep) == s
  {
    var tail := s[|sep|..];
    SplitOnAtStart(s, sep);
    JoinCons([], SplitOn(tail, sep), sep);
    assert s == s[..|sep|] + tail;
  }

  /** The step of `SplitOnJoin` at any other first character. */
  lemma SplitOnJoinNotAtStart(s: string, sep: string)
    requires sep != [] && s != [] && !At(s, sep, 0)
    requires Join(SplitOn(s[1..], sep), sep) == s[1..]
    ensures Join(SplitOn(s, sep), sep) == s
  {
    var tail := s[1..];
    SplitOnNotAtStart(s, sep);
    JoinExtendHead(s[0], SplitOn(tail, sep), sep);
    assert s == [s[0]] + tail;
  }

  /** No piece of a split contains the separator. */
  lemma {:induction false} SplitOnPiecesFree(s: string, sep: string)
    requires sep != []
    ensures forall k, i: nat | 0 <= k < |SplitOn(s, sep)| :: !At(SplitOn(s, sep)[k], sep, i)
    decreases |s|
  {
    var parts := SplitOn(s, sep);
    if s == [] {
    } else if At(s, sep, 0) {
      SplitOnPiecesFree(s[|sep|..], sep);
      assert parts == [[]] + SplitOn(s[|sep|..], sep);
      forall k, i: nat | 0 <= k < |parts| ensures !At(parts[k], sep, i) {
        if k > 0 { assert parts[k] == SplitOn(s[|sep|..], sep)[k - 1]; }
      }
    } else {
      SplitOnPiecesFree(s[1..], sep);
      var rest := SplitOn(s[1..], sep);
      var first := [s[0]] + rest[0];
      assert parts == [first] + rest[1..];
      forall k, i: nat | 0 <= k < |parts| ensures !At(parts[k], sep, i) {
        if k > 0 {
          assert parts[k] == rest[k];
        } else if i == 0 {
          AtPrefix(first, s, sep, 0);
        } else {
          AtTail(first, sep, i - 1);
        }
      }
    }
  }

  /** Replacing is splitting at the occurrences and joining with the value:
      the value appears exactly once per replaced occurrence, and the rest of
      the text is kept piece by piece. */
  lemma {:induction false} ReplaceAllIsJoin(s: string, pat: string, val: string)
    requires pat != []
    ensures ReplaceAll(s, pat, val) == Join(SplitOn(s, pat), val)
    decreases |s|
  {
    if s == [] {
    } else if At(s, pat, 0) {
      ReplaceAllIsJoin(s[|pat|..], pat, val);
      JoinCons([], SplitOn(s[|pat|..], pat), val);
    } else {
      ReplaceAllIsJoin(s[1..], pat, val);
      JoinExtendHead(s[0], SplitOn(s[1..], pat), val);
    }
  }

  /** Replacing a pattern by itself changes nothing. */
  lemma ReplaceAllSelf(s: string, pat: string)
    requires pat != []
    ensures ReplaceAll(s, pat, pat) == s
  {
    ReplaceAllIsJoin(s, pat, pat);
    SplitOnJoin(s, pat);
  }

  /** Text in which the pattern does not occur is left unchanged. */
  lemma {:induction false} ReplaceAllUnchanged(s: string, pat: string, val: string)
    requires pat != []
    requires forall i: nat :: !At(s, pat, i)
    ensures ReplaceAll(s, pat, val) == s
    decreases |s|
  {
    if s != [] {
      assert !At(s, pat, 0);
      forall i: nat ensures !At(s[1..], pat, i) {
        AtTail(s, pat, i);
      }
      ReplaceAllUnchanged(s[1..], pat, val);
      assert s == [s[0]] + s[1..];
    }
  }

  /** A prefix in which no occurrence starts is copied unchanged, and the
      scan resumes at its end. */
  lemma {:induction false} ReplaceAllSkip(u: string, w: string, pat: string, val: string)
    requires pat != []
    requires forall i: nat | i < |u| :: !At(u + w, pat, i)
    ensures ReplaceAll(u + w, pat, val) == u + ReplaceAll(w, pat, val)
    decreases |u|
  {
    if u != [] {
      var s := u + w;
      assert !At(s, pat, 0);
      assert s[1..] == u[1..] + w;
      forall i: nat | i < |u[1..]| ensures !At(u[1..] + w, pat, i) {
        AtTail(s, pat, i);
      }
      ReplaceAllSkip(u[1..], w, pat, val);
      assert u == [u[0]] + u[1..];
    } else {
      assert u + w == w;
    }
  }

  /** The first occurrence is replaced by the value and scanning resumes
      after it: the inserted value is never rescanned. */
  lemma ReplaceAllFirstMatch(u: string, w: string, pat: string, val: string)
    requires pat != []
    requires forall i: nat | i < |u| :: !At(u + pat + w, pat, i)
    ensures ReplaceAll(u + pat + w, pat, val) == u + val + ReplaceAll(w, pat, val)
  {
    assert u + pat + w == u + (pat + w);
    ReplaceAllSkip(u, pat + w, pat, val);
    assert At(pat + w, pat, 0);
    assert (pat + w)[|pat|..] == w;
  }

  /** Replacing one character by one character is a character-wise map. */
  lemma {:induction false} ReplaceAllChar(s: string, c: char, d: char)
    ensures |ReplaceAll(s, [c], [d])| == |s|
    ensures forall i | 0 <= i < |s| ::
      ReplaceAll(s, [c], [d])[i] == if s[i] == c then d else s[i]
    decreases |s|
  {
    if s != [] {
      ReplaceAllChar(s[1..], c, d);
      assert At(s, [c], 0) <==> s[0] == c;
    }
  }

  /** Text without the separator splits into itself alone. */
  lemma {:induction false} SplitOnAbsent(s: string, sep: string)
    requires sep != []
    requires forall i: nat :: !At(s, sep, i)
    ensures SplitOn(s, sep) == [s]
    decreases |s|
  {
    if s != [] {
      assert !At(s, sep, 0);
      forall i: nat ensures !At(s[1..], sep, i) {
        AtTail(s, sep, i);
      }
      SplitOnAbsent(s[1..], sep);
      assert s == [s[0]] + s[1..];
    }
  }

  /** A split cuts at the first separator and goes on after it. */
  lemma {:induction false} SplitOnFirst(u: string, w: string, sep: string)
    requires sep != []
    requires forall i: nat | i < |u| :: !At(u + sep + w, sep, i)
    ensures SplitOn(u + sep + w, sep) == [u] + SplitOn(w, sep)
    decreases |u|
  {
    var s := u + sep + w;
    if u == [] {
      assert s == sep + w;
      assert At(s, sep, 0);
      assert s[|sep|..] == w;
    } else {
      assert !At(s, sep, 0);
      assert s[1..] == u[1..] + sep + w;
      forall i: nat | i < |u[1..]| ensures !At(u[1..] + sep + w, sep, i) {
        AtTail(s, sep, i);
      }
      SplitOnFirst(u[1..], w, sep);
      assert u == [u[0]] + u[1..];
    }
  }

  /** A one-character pattern occurs exactly where that character is. */
  lemma AtChar(s: string, c: char, i: nat)
    ensures At(s, [c], i) <==> i < |s| && s[i] == c
  {
    if i < |s| {
      assert s[i..i + 1] == [s[i]];
    }
  }

  /** `find` lands on an occurrence with none before it. */
  lemma FindIs(s: string, pat: string, from: nat, k: nat)
    requires from <= k && At(s, pat, k)
    requires forall i: nat | from <= i < k :: !At(s, pat, i)
    ensures Find(s, pat, from) == Some(k)
  {
  }

  /** `c` does not occur in `s`. */
  predicate Lacks(s: string, c: char) {
    forall i | 0 <= i < |s| :: s[i] != c
  }

  /** Text lacking a character glued together still lacks it. */
  lemma LacksAppend(x: string, y: string, c: char)
    requires Lacks(x, c) && Lacks(y, c)
    ensures Lacks(x + y, c)
  {
    assert forall i | |x| <= i < |x + y| :: (x + y)[i] == y[i - |x|];
  }

  /** `find` of a character lands just after a prefix without it. */
  lemma FindFirstChar(x: string, c: char, y: string)
    requires Lacks(x, c)
    ensures Find(x + [c] + y, [c], 0) == Some(|x|)
  {
    var s := x + [c] + y;
    forall i: nat | i <= |x| ensures At(s, [c], i) <==> i == |x| {
      AtChar(s, c, i);
    }
    FindIs(s, [c], 0, |x|);
  }

  /** `find` of a character that occurs only at the end. */
  lemma FindLastChar(x: string, c: char)
    requires Lacks(x, c)
    ensures Find(x + [c], [c], 0) == Some(|x|)
  {
    FindFirstChar(x, c, []);
    assert x + [c] + [] == x + [c];
  }
}
