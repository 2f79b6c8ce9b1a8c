/** The string primitives the locale store relies on: `String.prototype.split`
    with a literal separator, the matching join, and global literal
    replacement (`replace` with a `g` regular expression that matches a
    fixed text). All three scan left to right and never overlap matches. */
module Strings {

  /** `pat` occurs in `s` starting at index `i`. */
  predicate MatchesAt(s: string, pat: string, i: nat) {
    i + |pat| <= |s| && s[i..i + |pat|] == pat
  }

  /** `pat` occurs somewhere in `s`. */
  predicate Occurs(s: string, pat: string) {
    exists i: nat | i <= |s| :: MatchesAt(s, pat, i)
  }

  /** `s` begins with `pat`. */
  predicate StartsWith(s: string, pat: string) {
    |pat| <= |s| && s[..|pat|] == pat
  }

  /** `c` appears in `s`. */
  predicate HasChar(s: string, c: char) {
    exists i :: 0 <= i < |s| && s[i] == c
  }

  /** `s.split(sep)`: the pieces between the non-overlapping occurrences of
      `sep`, found left to right. There is always at least one piece: the
      empty string splits into `[""]`. */
  function Split(s: string, sep: string): (parts: seq<string>)
    requires |sep| > 0
    ensures |parts| >= 1
    decreases |s|
  {
    if |s| < |sep| then [s]
    else if StartsWith(s, sep) then [""] + Split(s[|sep|..], sep)
    else
      var rest := Split(s[1..], sep);
      [[s[0]] + rest[0]] + rest[1..]
  }

  /** `parts.join(sep)` for a non-empty list of pieces. */
  function Join(parts: seq<string>, sep: string): string
    requires |parts| >= 1
  {
    if |parts| == 1 then parts[0] else parts[0] + sep + Join(parts[1..], sep)
  }

  /** `s.replace(/pat/g, rep)` for a pattern that matches `pat` literally:
      every non-overlapping occurrence, found left to right, is replaced and
      the inserted text is not scanned again. Replacing a pattern by itself
      is the identity. */
  function ReplaceAll(s: string, pat: string, rep: string): (r: string)
    requires |pat| > 0
    ensures rep == pat ==> r == s
    decreases |s|
  {
    if |s| < |pat| then s
    else if StartsWith(s, pat) then rep + ReplaceAll(s[|pat|..], pat, rep)
    else [s[0]] + ReplaceAll(s[1..], pat, rep)
  }

  /** A match at the start of `p` is replaced alike whether `p` is scanned
      alone or followed by more text. */
  lemma ReplaceAllMatchStep(p: string, m: string, pat: string, rep: string)
    requires |pat| > 0 && StartsWith(p, pat)
    ensures ReplaceAll(p + m, pat, rep) == rep + ReplaceAll(p[|pat|..] + m, pat, rep)
    ensures ReplaceAll(p, pat, rep) == rep + ReplaceAll(p[|pat|..], pat, rep)
  {
    assert (p + m)[..|pat|] == p[..|pat|];
    assert (p + m)[|pat|..] == p[|pat|..] + m;
  }

  /** When `p + m` does not start with `pat`, the first character of a
      nonempty `p` is copied alike whether `p` is scanned alone or followed
      by `m`. */
  lemma ReplaceAllCopyStep(p: string, m: string, pat: string, rep: string)
    requires |pat| > 0 && |p| > 0
    requires !StartsWith(p + m, pat)
    ensures ReplaceAll(p + m, pat, rep) == [p[0]] + ReplaceAll(p[1..] + m, pat, rep)
    ensures ReplaceAll(p, pat, rep) == [p[0]] + ReplaceAll(p[1..], pat, rep)
  {
    assert (p + m)[1..] == p[1..] + m;
    if |p| >= |pat| {
      assert (p + m)[..|pat|] == p[..|pat|];
    }
  }

  /** Regrouping a four-way concatenation. */
  lemma Regroup(a: string, b: string, c: string, d: string)
    ensures a + (b + c + d) == (a + b) + c + d
  {
  }

  /** If replacing in `p[|pat|..] + mid + w` works on the two sides of
      `mid` separately, so does replacing in `p + mid + w` when `p` starts
      with `pat`. */
  lemma ReplaceAllMatchAround(p: string, mid: string, w: string, pat: string, rep: string)
    requires |pat| > 0 && StartsWith(p, pat)
    requires ReplaceAll(p[|pat|..] + mid + w, pat, rep)
          == ReplaceAll(p[|pat|..], pat, rep) + mid + ReplaceAll(w, pat, rep)
    ensures ReplaceAll(p + mid + w, pat, rep) == ReplaceAll(p, pat, rep) + mid + ReplaceAll(w, pat, rep)
  {
    var m := mid + w;
    var tail := p[|pat|..];
    assert p + mid + w == p + m;
    assert tail + m == tail + mid + w;
    ReplaceAllMatchStep(p, m, pat, rep);
    Regroup(rep, ReplaceAll(tail, pat, rep), mid, ReplaceAll(w, pat, rep));
  }

  /** If replacing in `p[1..] + mid + w` works on the two sides of `mid`
      separately, so does replacing in `p + mid + w` when no match starts
      at its first character. */
  lemma ReplaceAllCopyAround(p: string, mid: string, w: string, pat: string, rep: string)
    requires |pat| > 0 && |p| > 0 && !StartsWith(p + mid + w, pat)
    requires ReplaceAll(p[1..] + mid + w, pat, rep)
          == ReplaceAll(p[1..], pat, rep) + mid + ReplaceAll(w, pat, rep)
    ensures ReplaceAll(p + mid + w, pat, rep) == ReplaceAll(p, pat, rep) + mid + ReplaceAll(w, pat, rep)
  {
    var m := mid + w;
    var tail := p[1..];
    assert p + mid + w == p + m;
    assert tail + m == tail + mid + w;
    ReplaceAllCopyStep(p, m, pat, rep);
    Regroup([p[0]], ReplaceAll(tail, pat, rep), mid, ReplaceAll(w, pat, rep));
  }

  /** Prefixing the first piece prefixes the joined text. */
  lemma {:induction false} JoinConsFirst(c: string, parts: seq<string>, sep: string)
    requires |parts| >= 1
    ensures Join([c + parts[0]] + parts[1..], sep) == c + Join(parts, sep)
  {
    var ps := [c + parts[0]] + parts[1..];
    assert ps[1..] == parts[1..];
  }

  /** Replacing every occurrence is splitting on the pattern and joining the
      pieces with the replacement: the reference definition of "every
      occurrence is replaced and nothing else changes". */
  lemma {:induction false} ReplaceAllIsSplitJoin(s: string, pat: string, rep: string)
    requires |pat| > 0
    ensures ReplaceAll(s, pat, rep) == Join(Split(s, pat), rep)
    decreases |s|
  {
    if |s| < |pat| {
    } else if StartsWith(s, pat) {
      ReplaceAllIsSplitJoin(s[|pat|..], pat, rep);
      var rest := Split(s[|pat|..], pat);
      assert Split(s, pat) == [""] + rest;
      assert ([""] + rest)[1..] == rest;
    } else {
      ReplaceAllIsSplitJoin(s[1..], pat, rep);
      JoinConsFirst([s[0]], Split(s[1..], pat), rep);
    }
  }

  /** Joining the pieces of a split with the same separator gives back the
      original text. */
  lemma JoinSplit(s: string, sep: string)
    requires |sep| > 0
    ensures Join(Split(s, sep), sep) == s
  {
    ReplaceAllIsSplitJoin(s, sep, sep);
  }

  /** A text in which the pattern does not occur is left unchanged. */
  lemma {:induction false} ReplaceAllAbsent(s: string, pat: string, rep: string)
    requires |pat| > 0
    requires !Occurs(s, pat)
    ensures ReplaceAll(s, pat, rep) == s
    decreases |s|
  {
    assert !MatchesAt(s, pat, 0);
    if |s| >= |pat| {
      assert !StartsWith(s, pat);
      forall i: nat | i <= |s[1..]| ensures !MatchesAt(s[1..], pat, i) {
        if i + |pat| <= |s[1..]| {
          assert s[1..][i..i + |pat|] == s[i + 1..i + 1 + |pat|];
          assert !MatchesAt(s, pat, i + 1);
        }
      }
      ReplaceAllAbsent(s[1..], pat, rep);
      assert s == [s[0]] + s[1..];
    }
  }

  /** Splitting a text that lacks a one-character separator yields the text. */
  lemma {:induction false} SplitNoSep(s: string, c: char)
    requires !HasChar(s, c)
    ensures Split(s, [c]) == [s]
    decreases |s|
  {
    if |s| < 1 {
    } else {
      assert s[0] != c;
      assert !StartsWith(s, [c]);
      assert !HasChar(s[1..], c) by {
        forall i | 0 <= i < |s[1..]| ensures s[1..][i] != c {
          assert s[1..][i] == s[i + 1];
        }
      }
      SplitNoSep(s[1..], c);
      assert s == [s[0]] + s[1..];
    }
  }

  /** Splitting `p + c + rest` on `c`, where `p` lacks `c`, yields `p`
      followed by the pieces of `rest`. */
  lemma {:induction false} SplitAtFirstSep(p: string, c: char, rest: string)
    requires !HasChar(p, c)
    ensures Split(p + [c] + rest, [c]) == [p] + Split(rest, [c])
    decreases |p|
  {
    var s := p + [c] + rest;
    if |p| == 0 {
      assert s == [c] + rest;
      assert StartsWith(s, [c]);
      assert s[1..] == rest;
    } else {
      assert s[0] == p[0] && p[0] != c;
      assert !StartsWith(s, [c]);
      assert !HasChar(p[1..], c) by {
        forall i | 0 <= i < |p[1..]| ensures p[1..][i] != c {
          assert p[1..][i] == p[i + 1];
        }
      }
      SplitAtFirstSep(p[1..], c, rest);
      assert s[1..] == p[1..] + [c] + rest;
      assert [p[0]] + p[1..] == p;
    }
  }

  /** Splitting on a one-character separator inverts joining with it, as long
      as no piece contains the separator. */
  lemma {:induction false} SplitJoin(parts: seq<string>, c: char)
    requires |parts| >= 1
    requires forall k :: 0 <= k < |parts| ==> !HasChar(parts[k], c)
    ensures Split(Join(parts, [c]), [c]) == parts
    decreases |parts|
  {
    if |parts| == 1 {
      SplitNoSep(parts[0], c);
    } else {
      SplitJoin(parts[1..], c);
      SplitAtFirstSep(parts[0], c, Join(parts[1..], [c]));
      assert [parts[0]] + parts[1..] == parts;
    }
  }

  /** Text that cannot start a match is copied through unchanged: when `u`
      lacks the pattern's first character, replacement begins after `u`. */
  lemma {:induction false} ReplaceAllSkipsPrefix(u: string, w: string, pat: string, rep: string)
    requires |pat| > 0
    requires !HasChar(u, pat[0])
    ensures ReplaceAll(u + w, pat, rep) == u + ReplaceAll(w, pat, rep)
    decreases |u|
  {
    var s := u + w;
    if |u| > 0 {
      assert s[0] == u[0] && u[0] != pat[0];
      if |s| >= |pat| {
        assert !StartsWith(s, pat);
        assert !HasChar(u[1..], pat[0]) by {
          forall i | 0 <= i < |u[1..]| ensures u[1..][i] != pat[0] {
            assert u[1..][i] == u[i + 1];
          }
        }
        ReplaceAllSkipsPrefix(u[1..], w, pat, rep);
        assert s[1..] == u[1..] + w;
        assert [u[0]] + u[1..] == u;
      }
    } else {
      assert s == w;
    }
  }

  /** The index of the first `c` in `s`, or `|s|` when there is none. */
  function IndexOf(s: string, c: char): (n: nat)
    ensures n <= |s|
    ensures forall k :: 0 <= k < n ==> s[k] != c
    ensures n < |s| ==> s[n] == c
  {
    if |s| == 0 then 0 else if s[0] == c then 0 else 1 + IndexOf(s[1..], c)
  }

  /** A text lacking the pattern's first character cannot contain it. */
  lemma AbsentFirstChar(s: string, pat: string)
    requires |pat| > 0 && !HasChar(s, pat[0])
    ensures !Occurs(s, pat)
  {
    forall i: nat | i <= |s| ensures !MatchesAt(s, pat, i) {
      if i + |pat| <= |s| {
        assert s[i..i + |pat|][0] == s[i];
      }
    }
  }
}
