/**
 * The few Python `str` operations the mount-table parser is built from:
 * `strip(' \n')`, `split(sep)` with a one-character separator, the matching
 * `join`, and `replace(old, new)`.
 */
module PyStr {

  /** Number of occurrences of `c` in `s` (`s.count(c)`). */
  function Count(s: string, c: char): nat {
    if s == [] then 0 else (if s[0] == c then 1 else 0) + Count(s[1..], c)
  }

  /** A string holds at most as many `c` as it has characters, and none exactly when `c` is not in it. */
  lemma {:induction false} CountBounds(s: string, c: char)
    ensures Count(s, c) <= |s|
    ensures Count(s, c) == 0 <==> c !in s
  {
    if s != [] {
      CountBounds(s[1..], c);
      assert s == [s[0]] + s[1..];
    }
  }

  /** The characters `strip(' \n')` removes. */
  predicate IsStripChar(c: char) {
    c == ' ' || c == '\n'
  }

  /** `s.lstrip(' \n')`. */
  function StripLeading(s: string): (r: string)
    ensures |r| <= |s|
  {
    if s != [] && IsStripChar(s[0]) then StripLeading(s[1..]) else s
  }

  /** `s.rstrip(' \n')`. */
  function StripTrailing(s: string): (r: string)
    ensures |r| <= |s|
  {
    if s != [] && IsStripChar(s[|s| - 1]) then StripTrailing(s[..|s| - 1]) else s
  }

  /**
   * `s.strip(' \n')`: the text between the leading and the trailing run of
   * spaces and newlines.
   */
  function Strip(s: string): (r: string)
    ensures |r| <= |s|
  {
    StripTrailing(StripLeading(s))
  }

  /** Stripping the front keeps a suffix, drops only strip characters, and stops at the first other one. */
  lemma {:induction false} StripLeadingDrops(s: string)
    ensures var r := StripLeading(s);
      && |r| <= |s| && r == s[|s| - |r|..]
      && (forall k :: 0 <= k < |s| - |r| ==> IsStripChar(s[k]))
      && (r == [] || !IsStripChar(r[0]))
  {
    if s != [] && IsStripChar(s[0]) {
      var t := s[1..];
      StripLeadingDrops(t);
      var r := StripLeading(t);
      assert t[|t| - |r|..] == s[|s| - |r|..];
      forall k | 0 <= k < |s| - |r|
        ensures IsStripChar(s[k])
      {
        if k > 0 {
          assert s[k] == t[k - 1];
        }
      }
    }
  }

  /** Stripping the back keeps a prefix, drops only strip characters, and stops at the last other one. */
  lemma {:induction false} StripTrailingDrops(s: string)
    ensures var r := StripTrailing(s);
      && |r| <= |s| && r == s[..|r|]
      && (forall k :: |r| <= k < |s| ==> IsStripChar(s[k]))
      && (r == [] || !IsStripChar(r[|r| - 1]))
  {
    if s != [] && IsStripChar(s[|s| - 1]) {
      var t := s[..|s| - 1];
      StripTrailingDrops(t);
      var r := StripTrailing(t);
      assert t[..|r|] == s[..|r|];
      forall k | |r| <= k < |s|
        ensures IsStripChar(s[k])
      {
        if k < |s| - 1 {
          assert s[k] == t[k];
        }
      }
    }
  }

  /**
   * The stripped text neither starts nor ends with a space or a newline, it
   * is empty exactly when the string holds nothing else, and a string that
   * already has no such ends is left alone.
   */
  lemma StripEnds(s: string)
    ensures var r := Strip(s);
      && (r == [] || (!IsStripChar(r[0]) && !IsStripChar(r[|r| - 1])))
      && (r == [] <==> forall k :: 0 <= k < |s| ==> IsStripChar(s[k]))
      && (s != [] && !IsStripChar(s[0]) && !IsStripChar(s[|s| - 1]) ==> r == s)
  {
    var lead := StripLeading(s);
    var r := StripTrailing(lead);
    StripLeadingDrops(s);
    StripTrailingDrops(lead);
    if r != [] {
      assert r[0] == lead[0];
    }
    if lead != [] {
      assert lead[0] == s[|s| - |lead|];
    }
  }

  /**
   * `s.split(sep)`: the pieces between the occurrences of `sep`, empty pieces
   * included; there is always at least one.
   */
  function Split(s: string, sep: char): (parts: seq<string>)
    ensures |parts| >= 1
  {
    if s == [] then [[]]
    else
      var rest := Split(s[1..], sep);
      if s[0] == sep then [[]] + rest
      else [[s[0]] + rest[0]] + rest[1..]
  }

  /** There is one more piece than there are separators, and no piece contains the separator. */
  lemma {:induction false} SplitPieces(s: string, sep: char)
    ensures |Split(s, sep)| == Count(s, sep) + 1
    ensures forall k :: 0 <= k < |Split(s, sep)| ==> sep !in Split(s, sep)[k]
  {
    if s != [] {
      var rest := Split(s[1..], sep);
      SplitPieces(s[1..], sep);
      if s[0] != sep {
        var parts := Split(s, sep);
        assert parts == [[s[0]] + rest[0]] + rest[1..];
        forall k | 0 <= k < |parts|
          ensures sep !in parts[k]
        {
          if k > 0 {
            assert parts[k] == rest[k];
          }
        }
      }
    }
  }

  /** `sep.join(parts)` for a non-empty list of pieces. */
  function Join(parts: seq<string>, sep: char): string
    requires |parts| >= 1
  {
    if |parts| == 1 then parts[0] else parts[0] + [sep] + Join(parts[1..], sep)
  }

  /**
   * `s.replace(pat, rep)`: scans from the left and replaces every
   * non-overlapping occurrence of `pat`.
   */
  function ReplaceAll(s: string, pat: string, rep: string): string
    requires |pat| > 0
    decreases |s|
  {
    if |s| == 0 then []
    else if |pat| <= |s| && s[..|pat|] == pat then rep + ReplaceAll(s[|pat|..], pat, rep)
    else [s[0]] + ReplaceAll(s[1..], pat, rep)
  }

  /** Joining the pieces of a split gives back the string. */
  lemma {:induction false} JoinSplit(s: string, sep: char)
    ensures Join(Split(s, sep), sep) == s
  {
    if s != [] {
      var c, t := s[0], s[1..];
      var rest := Split(t, sep);
      JoinSplit(t, sep);
      assert s == [c] + t;
      if c == sep {
        assert Split(s, sep) == [[]] + rest;
        assert ([[]] + rest)[1..] == rest;
      } else {
        assert Split(s, sep) == [[c] + rest[0]] + rest[1..];
        JoinPrepend(c, rest, sep);
      }
    }
  }

  /** A character put in front of the first piece comes first in the join. */
  lemma JoinPrepend(c: char, parts: seq<string>, sep: char)
    requires |parts| >= 1
    ensures Join([[c] + parts[0]] + parts[1..], sep) == [c] + Join(parts, sep)
  {
    var longer := [[c] + parts[0]] + parts[1..];
    assert longer[1..] == parts[1..];
  }

  /** A string without the separator splits into itself alone. */
  lemma {:induction false} SplitWithoutSeparator(s: string, sep: char)
    requires sep !in s
    ensures Split(s, sep) == [s]
  {
    if s != [] {
      SplitWithoutSeparator(s[1..], sep);
      assert [s[0]] + s[1..] == s;
    }
  }

  /** Splitting distributes over a separator placed between two strings. */
  lemma {:induction false} SplitConcat(a: string, b: string, sep: char)
    ensures Split(a + [sep] + b, sep) == Split(a, sep) + Split(b, sep)
  {
    var s := a + [sep] + b;
    if a == [] {
      assert s[1..] == b;
    } else {
      assert s[0] == a[0];
      assert s[1..] == a[1..] + [sep] + b;
      SplitConcat(a[1..], b, sep);
    }
  }

  /** Splitting a join of separator-free pieces gives back the pieces. */
  lemma {:induction false} SplitJoin(parts: seq<string>, sep: char)
    requires |parts| >= 1
    requires forall k :: 0 <= k < |parts| ==> sep !in parts[k]
    ensures Split(Join(parts, sep), sep) == parts
  {
    SplitWithoutSeparator(parts[0], sep);
    if |parts| > 1 {
      SplitJoin(parts[1..], sep);
      SplitConcat(parts[0], Join(parts[1..], sep), sep);
      assert parts == [parts[0]] + parts[1..];
    }
  }

  /** A character that is neither the separator nor in any piece is not in the join. */
  lemma {:induction false} JoinExcludes(parts: seq<string>, sep: char, c: char)
    requires |parts| >= 1 && c != sep
    requires forall k :: 0 <= k < |parts| ==> c !in parts[k]
    ensures c !in Join(parts, sep)
  {
    if |parts| > 1 {
      JoinExcludes(parts[1..], sep, c);
    }
  }

  /** The join ends with the last character of the last piece, when that piece is not empty. */
  lemma {:induction false} JoinEnds(parts: seq<string>, sep: char)
    requires |parts| >= 1 && parts[|parts| - 1] != []
    ensures var j := Join(parts, sep); |j| > 0 && j[|j| - 1] == parts[|parts| - 1][|parts[|parts| - 1]| - 1]
  {
    if |parts| > 1 {
      JoinEnds(parts[1..], sep);
    }
  }

  /** Replacing a pattern by text no longer than it never makes the string longer. */
  lemma {:induction false} ReplaceNeverLonger(s: string, pat: string, rep: string)
    requires |pat| > 0 && |rep| <= |pat|
    ensures |ReplaceAll(s, pat, rep)| <= |s|
  {
    if |s| > 0 {
      if |pat| <= |s| && s[..|pat|] == pat {
        ReplaceNeverLonger(s[|pat|..], pat, rep);
      } else {
        ReplaceNeverLonger(s[1..], pat, rep);
      }
    }
  }

  /** A string that does not contain the first character of the pattern comes back unchanged. */
  lemma {:induction false} ReplaceAbsent(s: string, pat: string, rep: string)
    requires |pat| > 0 && pat[0] !in s
    ensures ReplaceAll(s, pat, rep) == s
  {
    if s != [] {
      assert |pat| <= |s| ==> s[..|pat|][0] == s[0];
      ReplaceMisses(s, pat, rep);
      ReplaceAbsent(s[1..], pat, rep);
      assert s == [s[0]] + s[1..];
    }
  }

  /** A character that cannot start the pattern is kept, and the scan moves on by one. */
  lemma ReplaceSkips(c: char, t: string, pat: string, rep: string)
    requires |pat| > 0 && c != pat[0]
    ensures ReplaceAll([c] + t, pat, rep) == [c] + ReplaceAll(t, pat, rep)
  {
    assert ([c] + t)[1..] == t;
  }

  /** An occurrence of the pattern at the front is replaced, and the scan resumes after it. */
  lemma ReplaceHits(t: string, pat: string, rep: string)
    requires |pat| > 0
    ensures ReplaceAll(pat + t, pat, rep) == rep + ReplaceAll(t, pat, rep)
  {
    assert (pat + t)[..|pat|] == pat;
    assert (pat + t)[|pat|..] == t;
  }

  /** Where the pattern does not start, the first character is kept and the scan moves on by one. */
  lemma ReplaceMisses(s: string, pat: string, rep: string)
    requires |pat| > 0 && |s| > 0 && !(|pat| <= |s| && s[..|pat|] == pat)
    ensures ReplaceAll(s, pat, rep) == [s[0]] + ReplaceAll(s[1..], pat, rep)
  {
  }

  /** A prefix free of the pattern's first character passes through a replacement unchanged. */
  lemma {:induction false} ReplaceSkipsPrefix(p: string, t: string, pat: string, rep: string)
    requires |pat| > 0 && pat[0] !in p
    ensures ReplaceAll(p + t, pat, rep) == p + ReplaceAll(t, pat, rep)
  {
    if p != [] {
      var c, q := p[0], p[1..];
      ReplaceSkipsPrefix(q, t, pat, rep);
      assert p + t == [c] + (q + t);
      ReplaceSkips(c, q + t, pat, rep);
      assert [c] + (q + ReplaceAll(t, pat, rep)) == p + ReplaceAll(t, pat, rep);
    } else {
      assert p + t == t;
    }
  }

  /**
   * A block that does not start with the pattern, and holds the pattern's
   * first character only at its own start, passes through a replacement
   * unchanged.
   */
  lemma ReplaceSkipsBlock(q: string, t: string, pat: string, rep: string)
    requires |pat| > 0 && |pat| <= |q| && q[..|pat|] != pat && pat[0] !in q[1..]
    ensures ReplaceAll(q + t, pat, rep) == q + ReplaceAll(t, pat, rep)
  {
    var w := q + t;
    assert w[..|pat|] == q[..|pat|];
    ReplaceMisses(w, pat, rep);
    assert w[1..] == q[1..] + t;
    ReplaceSkipsPrefix(q[1..], t, pat, rep);
    assert [w[0]] + q[1..] == q;
  }
}
