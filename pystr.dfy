/**
 * The handful of Python `str` operations the topology pipeline relies on:
 * `isspace`, `strip`, `split(sep)`, `split()`, `startswith`, the `in` operator
 * and `replace`. Each is written out so that its edge cases (empty pieces,
 * leading separators, whitespace-only input) are those of CPython.
 */
module PyStr {

  /**
   * `c.isspace()`: the characters CPython classifies as whitespace. Space,
   * tab, newline and carriage return are among them; the characters the
   * topology text and GUIDs are made of are not.
   */
  predicate IsSpace(c: char): (b: bool)
    ensures c == ' ' || c == '\t' || c == '\n' || c == '\r' ==> b
    ensures '0' <= c <= '9' || 'a' <= c <= 'z' || 'A' <= c <= 'Z' || c == '=' || c == ',' || c == '#' || c == '-' ==> !b
  {
    var n := c as int;
    n == 0x20 || 0x09 <= n <= 0x0D || 0x1C <= n <= 0x1F || n == 0x85 || n == 0xA0 ||
    n == 0x1680 || 0x2000 <= n <= 0x200A || n == 0x2028 || n == 0x2029 ||
    n == 0x202F || n == 0x205F || n == 0x3000
  }

  predicate AllSpace(s: string) {
    forall i :: 0 <= i < |s| ==> IsSpace(s[i])
  }

  predicate NoSpace(s: string) {
    forall i :: 0 <= i < |s| ==> !IsSpace(s[i])
  }

  /** `s.startswith(p)` */
  predicate StartsWith(s: string, p: string) {
    |p| <= |s| && s[..|p|] == p
  }

  /** `s` starts with `p` exactly when it is `p` followed by some rest. */
  lemma StartsWithExactly(s: string, p: string)
    ensures StartsWith(s, p) <==> exists t :: s == p + t
  {
    if StartsWith(s, p) {
      assert s == p + s[|p|..];
    }
  }

  /** `sub` occurs in `s` starting at index `i`. */
  predicate OccursAt(s: string, sub: string, i: int) {
    0 <= i && i + |sub| <= |s| && s[i..i + |sub|] == sub
  }

  /** `sub in s` */
  predicate Contains(s: string, sub: string)
    decreases |s|
  {
    StartsWith(s, sub) || (|s| > 0 && Contains(s[1..], sub))
  }

  /** `sub in s` holds exactly when `sub` occurs at some position of `s`. */
  lemma {:induction false} ContainsAt(s: string, sub: string)
    ensures Contains(s, sub) <==> exists i :: OccursAt(s, sub, i)
    decreases |s|
  {
    if StartsWith(s, sub) {
      assert OccursAt(s, sub, 0);
    } else if |s| == 0 {
    } else {
      ContainsAt(s[1..], sub);
      if exists i :: OccursAt(s, sub, i) {
        var i :| OccursAt(s, sub, i);
        assert i != 0;
        assert s[1..][i - 1..i - 1 + |sub|] == s[i..i + |sub|];
        assert OccursAt(s[1..], sub, i - 1);
      }
      if exists i :: OccursAt(s[1..], sub, i) {
        var i :| OccursAt(s[1..], sub, i);
        assert s[i + 1..i + 1 + |sub|] == s[1..][i..i + |sub|];
        assert OccursAt(s, sub, i + 1);
      }
    }
  }

  /** The index of the first non-whitespace character at or after `i` (or `|s|`). */
  function SkipSpace(s: string, i: nat): (j: nat)
    requires i <= |s|
    ensures i <= j <= |s|
    ensures forall k :: i <= k < j ==> IsSpace(s[k])
    ensures j < |s| ==> !IsSpace(s[j])
    decreases |s| - i
  {
    if i < |s| && IsSpace(s[i]) then SkipSpace(s, i + 1) else i
  }

  /** The end of `s[lo..j]` once its trailing whitespace is dropped. */
  function DropTrailingSpace(s: string, lo: nat, j: nat): (e: nat)
    requires lo <= j <= |s|
    ensures lo <= e <= j
    ensures forall k :: e <= k < j ==> IsSpace(s[k])
    ensures e > lo ==> !IsSpace(s[e - 1])
    decreases j
  {
    if j > lo && IsSpace(s[j - 1]) then DropTrailingSpace(s, lo, j - 1) else j
  }

  /**
   * `s.strip()`: the slice of `s` left once leading and trailing whitespace
   * are cut off; it neither starts nor ends with whitespace, and it is empty
   * exactly when `s` is all whitespace.
   */
  function Strip(s: string): (r: string)
    ensures r == [] || (!IsSpace(r[0]) && !IsSpace(r[|r| - 1]))
    ensures r == [] <==> AllSpace(s)
  {
    var a := SkipSpace(s, 0);
    var b := DropTrailingSpace(s, a, |s|);
    assert b == a ==> AllSpace(s);
    s[a..b]
  }

  /** `s.strip()` is a slice of `s` with only whitespace cut off before and after it. */
  lemma StripSlice(s: string)
    ensures var r := Strip(s);
      exists a :: 0 <= a && a + |r| <= |s| && r == s[a..a + |r|] && AllSpace(s[..a]) && AllSpace(s[a + |r|..])
  {
    var a := SkipSpace(s, 0);
    var b := DropTrailingSpace(s, a, |s|);
    assert AllSpace(s[..a]) && AllSpace(s[b..]);
  }

  /** A string with no whitespace at either end is its own `strip()`. */
  lemma StripTrimmed(s: string)
    requires s == [] || (!IsSpace(s[0]) && !IsSpace(s[|s| - 1]))
    ensures Strip(s) == s
  {
  }

  /** Dropping a trailing newline, as iterating over a file leaves it on each line. */
  lemma StripNewline(s: string)
    requires s != [] && !IsSpace(s[0]) && !IsSpace(s[|s| - 1])
    ensures Strip(s + "\n") == s
  {
    var t := s + "\n";
    assert t[|t| - 1] == '\n';
    assert t[|s| - 1] == s[|s| - 1];
    assert DropTrailingSpace(t, 0, |t|) == DropTrailingSpace(t, 0, |s|);
  }

  /** `s.split(sep)` for a one-character separator: never empty, keeps empty pieces. */
  function Split(s: string, sep: char): (r: seq<string>)
    ensures |r| >= 1
    ensures forall k :: 0 <= k < |r| ==> sep !in r[k]
  {
    if |s| == 0 then [""]
    else
      var rest := Split(s[1..], sep);
      if s[0] == sep then [""] + rest else [[s[0]] + rest[0]] + rest[1..]
  }

  /** `sep.join(ps)`, the inverse of `Split`. */
  function Join(ps: seq<string>, sep: char): string
    requires |ps| >= 1
  {
    if |ps| == 1 then ps[0] else ps[0] + [sep] + Join(ps[1..], sep)
  }

  lemma {:induction false} JoinSplit(s: string, sep: char)
    ensures Join(Split(s, sep), sep) == s
    decreases |s|
  {
    if |s| > 0 {
      var rest := Split(s[1..], sep);
      JoinSplit(s[1..], sep);
      if s[0] != sep {
        var r := Split(s, sep);
        assert r[1..] == rest[1..];
        if |rest| == 1 {
        } else {
          assert rest == [rest[0]] + rest[1..];
          assert Join(rest, sep) == rest[0] + [sep] + Join(rest[1..], sep);
        }
      }
    }
  }

  /** A separator-free string splits into itself alone. */
  lemma {:induction false} SplitNoSep(s: string, sep: char)
    requires sep !in s
    ensures Split(s, sep) == [s]
    decreases |s|
  {
    if |s| > 0 {
      SplitNoSep(s[1..], sep);
      assert [s[0]] + s[1..] == s;
    }
  }

  /** A string splits into one piece exactly when it holds no separator. */
  lemma SplitOnePiece(s: string, sep: char)
    ensures |Split(s, sep)| == 1 <==> sep !in s
  {
    if sep !in s {
      SplitNoSep(s, sep);
    } else {
      JoinSplit(s, sep);
    }
  }

  lemma {:induction false} SplitFirst(a: string, b: string, sep: char)
    requires sep !in a
    ensures Split(a + [sep] + b, sep) == [a] + Split(b, sep)
    decreases |a|
  {
    var s := a + [sep] + b;
    if |a| > 0 {
      assert s[1..] == a[1..] + [sep] + b;
      SplitFirst(a[1..], b, sep);
      assert [a[0]] + a[1..] == a;
    } else {
      assert s[1..] == b;
    }
  }

  /** Splitting a join of separator-free pieces gives the pieces back. */
  lemma {:induction false} SplitJoin(ps: seq<string>, sep: char)
    requires |ps| >= 1
    requires forall k :: 0 <= k < |ps| ==> sep !in ps[k]
    ensures Split(Join(ps, sep), sep) == ps
    decreases |ps|
  {
    if |ps| == 1 {
      SplitNoSep(ps[0], sep);
    } else {
      SplitJoin(ps[1..], sep);
      SplitFirst(ps[0], Join(ps[1..], sep), sep);
      assert [ps[0]] + ps[1..] == ps;
    }
  }

  /** The longest whitespace-free prefix of `s`. */
  function Word(s: string): (w: string)
    ensures |w| <= |s| && w == s[..|w|]
    ensures NoSpace(w)
    ensures |w| < |s| ==> IsSpace(s[|w|])
  {
    if |s| == 0 || IsSpace(s[0]) then "" else [s[0]] + Word(s[1..])
  }

  /** `s.split()`: the maximal runs of non-whitespace, in order. */
  function SplitWs(s: string): (r: seq<string>)
    ensures forall k :: 0 <= k < |r| ==> |r[k]| > 0 && NoSpace(r[k])
    decreases |s|
  {
    if |s| == 0 then []
    else if IsSpace(s[0]) then SplitWs(s[1..])
    else
      var w := Word(s);
      [w] + SplitWs(s[|w|..])
  }

  /** `s.split()` is empty exactly when `s` is all whitespace (so exactly when `s.strip()` is empty). */
  lemma {:induction false} SplitWsEmpty(s: string)
    ensures SplitWs(s) == [] <==> AllSpace(s)
    decreases |s|
  {
    if |s| > 0 && IsSpace(s[0]) {
      SplitWsEmpty(s[1..]);
      if AllSpace(s[1..]) {
        forall i | 0 <= i < |s| ensures IsSpace(s[i]) {
          if i > 0 { assert s[i] == s[1..][i - 1]; }
        }
      }
    }
  }

  lemma {:induction false} WordOf(a: string, t: string)
    requires NoSpace(a)
    requires t == [] || IsSpace(t[0])
    ensures Word(a + t) == a
    decreases |a|
  {
    if |a| > 0 {
      assert (a + t)[1..] == a[1..] + t;
      WordOf(a[1..], t);
      assert [a[0]] + a[1..] == a;
    } else if t != [] {
      assert (a + t)[0] == t[0];
    }
  }

  /** A whitespace-free word followed by whitespace (or nothing) is the first field of `split()`. */
  lemma SplitWsCons(a: string, t: string)
    requires |a| > 0 && NoSpace(a)
    requires t == [] || IsSpace(t[0])
    ensures SplitWs(a + t) == [a] + SplitWs(t)
  {
    WordOf(a, t);
    assert (a + t)[|a|..] == t;
  }

  /** Leading whitespace contributes no piece to `s.split()`. */
  lemma SplitWsSpaceHead(c: char, t: string)
    requires IsSpace(c)
    ensures SplitWs([c] + t) == SplitWs(t)
  {
    assert ([c] + t)[1..] == t;
  }

  lemma {:induction false} SplitWsAllSpace(s: string)
    requires AllSpace(s)
    ensures SplitWs(s) == []
  {
    SplitWsEmpty(s);
  }

  /** `s.replace(pat, rep)`: every non-overlapping occurrence, scanning left to right. */
  function ReplaceAll(s: string, pat: string, rep: string): (r: string)
    requires |pat| > 0
    ensures |rep| <= |pat| ==> |r| <= |s|
    decreases |s|
  {
    if StartsWith(s, pat) then rep + ReplaceAll(s[|pat|..], pat, rep)
    else if |s| == 0 then []
    else [s[0]] + ReplaceAll(s[1..], pat, rep)
  }

  /** Text in which the pattern does not occur comes back unchanged. */
  lemma {:induction false} ReplaceAbsent(s: string, pat: string, rep: string)
    requires |pat| > 0 && !Contains(s, pat)
    ensures ReplaceAll(s, pat, rep) == s
    decreases |s|
  {
    if |s| > 0 {
      ReplaceAbsent(s[1..], pat, rep);
      assert [s[0]] + s[1..] == s;
    }
  }

  /** `[s.replace(pat, rep) for s in ts]` */
  function ReplaceEach(ts: seq<string>, pat: string, rep: string): (r: seq<string>)
    requires |pat| > 0
    ensures |r| == |ts|
    ensures forall k :: 0 <= k < |r| ==> r[k] == ReplaceAll(ts[k], pat, rep)
  {
    if |ts| == 0 then [] else [ReplaceAll(ts[0], pat, rep)] + ReplaceEach(ts[1..], pat, rep)
  }

  /** A whitespace-free pattern cannot straddle a whitespace character, so `replace` splits there. */
  lemma {:induction false} ReplaceAtSpace(a: string, t: string, pat: string, rep: string)
    requires |pat| > 0 && NoSpace(pat)
    requires t == [] || IsSpace(t[0])
    ensures ReplaceAll(a + t, pat, rep) == ReplaceAll(a, pat, rep) + ReplaceAll(t, pat, rep)
    decreases |a|
  {
    if |a| == 0 {
      assert a + t == t;
    } else if StartsWith(a + t, pat) {
      MatchInFirst(a, t, pat);
      assert ReplaceAll(a + t, pat, rep) == rep + ReplaceAll(a[|pat|..] + t, pat, rep);
      ReplaceAtSpace(a[|pat|..], t, pat, rep);
      assert ReplaceAll(a, pat, rep) == rep + ReplaceAll(a[|pat|..], pat, rep);
    } else {
      NoMatchInFirst(a, t, pat);
      assert ReplaceAll(a + t, pat, rep) == [a[0]] + ReplaceAll(a[1..] + t, pat, rep);
      ReplaceAtSpace(a[1..], t, pat, rep);
      assert ReplaceAll(a, pat, rep) == [a[0]] + ReplaceAll(a[1..], pat, rep);
    }
  }

  /** A match at the head of `a + t` lies inside `a` when `t` starts with whitespace. */
  lemma MatchInFirst(a: string, t: string, pat: string)
    requires |pat| > 0 && NoSpace(pat) && |a| > 0
    requires t == [] || IsSpace(t[0])
    requires StartsWith(a + t, pat)
    ensures |pat| <= |a| && StartsWith(a, pat) && (a + t)[|pat|..] == a[|pat|..] + t
  {
    if |a| < |pat| {
      if t == [] {
        assert false;
      } else {
        SpaceBlocksPattern(a, t, pat);
        assert false;
      }
    }
    assert a[..|pat|] == (a + t)[..|pat|];
  }

  lemma NoMatchInFirst(a: string, t: string, pat: string)
    requires |a| > 0 && !StartsWith(a + t, pat)
    ensures !StartsWith(a, pat) && (a + t)[0] == a[0] && (a + t)[1..] == a[1..] + t
  {
    if |pat| <= |a| {
      assert a[..|pat|] == (a + t)[..|pat|];
    }
  }

  /** A whitespace-free pattern cannot begin in `a` and run into the whitespace that starts `t`. */
  lemma SpaceBlocksPattern(a: string, t: string, pat: string)
    requires NoSpace(pat) && |a| < |pat| && t != [] && IsSpace(t[0])
    ensures !StartsWith(a + t, pat)
  {
    if |pat| <= |a + t| {
      assert (a + t)[..|pat|][|a|] == t[0];
      assert !IsSpace(pat[|a|]);
    }
  }

  /** A whitespace character is copied through by `replace`. */
  lemma ReplaceSpaceHead(c: char, t: string, pat: string, rep: string)
    requires |pat| > 0 && NoSpace(pat) && IsSpace(c)
    ensures ReplaceAll([c] + t, pat, rep) == [c] + ReplaceAll(t, pat, rep)
  {
    assert ([c] + t)[1..] == t;
    assert ([c] + t)[0] == c;
  }

  /** Replacing inside a word with a non-empty, whitespace-free text leaves a non-empty, whitespace-free word. */
  lemma {:induction false} ReplaceWord(w: string, pat: string, rep: string)
    requires |pat| > 0 && |rep| > 0 && NoSpace(rep) && NoSpace(w)
    ensures NoSpace(ReplaceAll(w, pat, rep))
    ensures |w| > 0 ==> |ReplaceAll(w, pat, rep)| > 0
    decreases |w|
  {
    if StartsWith(w, pat) {
      ReplaceWord(w[|pat|..], pat, rep);
    } else if |w| > 0 {
      ReplaceWord(w[1..], pat, rep);
    }
  }

  /**
   * With whitespace-free pattern and replacement, `s.replace(pat, rep).split()`
   * is the replacement applied to each piece of `s.split()`.
   */
  lemma {:induction false} ReplaceTokenwise(s: string, pat: string, rep: string)
    requires |pat| > 0 && NoSpace(pat) && |rep| > 0 && NoSpace(rep)
    ensures SplitWs(ReplaceAll(s, pat, rep)) == ReplaceEach(SplitWs(s), pat, rep)
    decreases |s|
  {
    if |s| == 0 {
    } else if IsSpace(s[0]) {
      assert s == [s[0]] + s[1..];
      ReplaceSpaceHead(s[0], s[1..], pat, rep);
      SplitWsSpaceHead(s[0], ReplaceAll(s[1..], pat, rep));
      ReplaceTokenwise(s[1..], pat, rep);
    } else {
      var w := Word(s);
      var t := s[|w|..];
      assert s == w + t;
      ReplaceAtSpace(w, t, pat, rep);
      ReplaceWord(w, pat, rep);
      var rt := ReplaceAll(t, pat, rep);
      if t != [] {
        ReplaceSpaceHead(t[0], t[1..], pat, rep);
        assert t == [t[0]] + t[1..];
      }
      SplitWsCons(ReplaceAll(w, pat, rep), rt);
      ReplaceTokenwise(t, pat, rep);
    }
  }

  /** Whitespace-free words joined by a whitespace character split back into those words. */
  lemma {:induction false} SplitWsJoin(ps: seq<string>, sep: char)
    requires |ps| >= 1 && IsSpace(sep)
    requires forall k :: 0 <= k < |ps| ==> |ps[k]| > 0 && NoSpace(ps[k])
    ensures SplitWs(Join(ps, sep)) == ps
    decreases |ps|
  {
    if |ps| == 1 {
      SplitWsCons(ps[0], []);
      assert ps[0] + [] == ps[0];
    } else {
      var rest := Join(ps[1..], sep);
      assert Join(ps, sep) == ps[0] + ([sep] + rest);
      SplitWsCons(ps[0], [sep] + rest);
      SplitWsSpaceHead(sep, rest);
      SplitWsJoin(ps[1..], sep);
      assert [ps[0]] + ps[1..] == ps;
    }
  }
}
