/**
 * The parts of Go's `strings` and `regexp` packages that the parsers rely on,
 * on strings of Unicode code points.
 */
module GoStrings {

  /** unicode.IsSpace: the white space that strings.TrimSpace removes. */
  predicate IsSpace(c: char) {
    || c == '\t' || c == '\n' || c == '\U{000B}' || c == '\U{000C}' || c == '\r' || c == ' '
    || c == '\U{0085}' || c == '\U{00A0}' || c == '\U{1680}'
    || ('\U{2000}' <= c <= '\U{200A}')
    || c == '\U{2028}' || c == '\U{2029}' || c == '\U{202F}' || c == '\U{205F}' || c == '\U{3000}'
  }

  /** The class `\s` of Go's regular-expression syntax: [\t\n\f\r ] (no vertical tab, nothing beyond ASCII). */
  predicate IsRegexSpace(c: char) {
    c == '\t' || c == '\n' || c == '\U{000C}' || c == '\r' || c == ' '
  }

  /** Removes the leading white space. */
  function TrimLeft(s: string): (r: string)
    ensures |r| <= |s|
  {
    if s != [] && IsSpace(s[0]) then TrimLeft(s[1..]) else s
  }

  /** TrimLeft cuts off exactly the white space at the front. */
  lemma {:induction false} TrimLeftSpec(s: string)
    ensures var r := TrimLeft(s);
      && r == s[|s| - |r|..]
      && (forall k :: 0 <= k < |s| - |r| ==> IsSpace(s[k]))
      && (r == [] || !IsSpace(r[0]))
    decreases |s|
  {
    if s != [] && IsSpace(s[0]) {
      TrimLeftSpec(s[1..]);
    }
  }

  /** Removes the trailing white space. */
  function TrimRight(s: string): (r: string)
    ensures |r| <= |s|
  {
    if s != [] && IsSpace(s[|s| - 1]) then TrimRight(s[..|s| - 1]) else s
  }

  /** TrimRight cuts off exactly the white space at the back. */
  lemma {:induction false} TrimRightSpec(s: string)
    ensures var r := TrimRight(s);
      && r == s[..|r|]
      && (forall k :: |r| <= k < |s| ==> IsSpace(s[k]))
      && (r == [] || !IsSpace(r[|r| - 1]))
    decreases |s|
  {
    if s != [] && IsSpace(s[|s| - 1]) {
      TrimRightSpec(s[..|s| - 1]);
    }
  }

  /** Whether s has no white space at either end. */
  predicate Trimmed(s: string) {
    s == [] || (!IsSpace(s[0]) && !IsSpace(s[|s| - 1]))
  }

  /** The number of white-space characters at the front of s. */
  function LeadingSpace(s: string): (n: nat)
    ensures n <= |s|
  {
    |s| - |TrimLeft(s)|
  }

  /** strings.TrimSpace */
  function TrimSpace(s: string): (r: string)
    ensures |r| <= |s|
  {
    TrimRight(TrimLeft(s))
  }

  /** TrimSpace yields a slice of s that starts after the leading white space. */
  lemma TrimSpaceSlice(s: string)
    ensures var r := TrimSpace(s);
      && LeadingSpace(s) + |r| <= |s|
      && r == s[LeadingSpace(s)..LeadingSpace(s) + |r|]
  {
    var t := TrimLeft(s);
    TrimLeftSpec(s);
    TrimRightSpec(t);
    var n := LeadingSpace(s);
    assert t == s[n..];
  }

  /** What TrimSpace cuts off at either end is white space. */
  lemma TrimSpaceCuts(s: string)
    ensures var r := TrimSpace(s);
      && (forall k :: 0 <= k < LeadingSpace(s) ==> IsSpace(s[k]))
      && (forall k :: LeadingSpace(s) + |r| <= k < |s| ==> IsSpace(s[k]))
  {
    var t := TrimLeft(s);
    TrimLeftSpec(s);
    TrimRightSpec(t);
    var n := LeadingSpace(s);
    assert t == s[n..];
    assert forall k :: n + |TrimSpace(s)| <= k < |s| ==> s[k] == t[k - n];
  }

  /**
   * TrimSpace yields the slice of s that remains once every leading and
   * every trailing white-space character is cut off.
   */
  lemma TrimSpaceSpec(s: string)
    ensures var r := TrimSpace(s);
      && Trimmed(r)
      && LeadingSpace(s) + |r| <= |s|
      && r == s[LeadingSpace(s)..LeadingSpace(s) + |r|]
      && (forall k :: 0 <= k < LeadingSpace(s) ==> IsSpace(s[k]))
      && (forall k :: LeadingSpace(s) + |r| <= k < |s| ==> IsSpace(s[k]))
  {
    TrimSpaceSlice(s);
    TrimSpaceCuts(s);
    var t := TrimLeft(s);
    TrimLeftSpec(s);
    TrimRightSpec(t);
    var r := TrimRight(t);
    if r != [] {
      assert r[0] == t[0];
    }
  }

  /** TrimSpace leaves a string without white space at its ends unchanged, so it is idempotent. */
  lemma TrimSpaceOfTrimmed(s: string)
    requires Trimmed(s)
    ensures TrimSpace(s) == s
  {
  }

  /** strings.TrimPrefix: drops prefix once when s starts with it. */
  function TrimPrefix(s: string, prefix: string): (r: string)
    ensures prefix <= s ==> s == prefix + r
    ensures !(prefix <= s) ==> r == s
  {
    if prefix <= s then s[|prefix|..] else s
  }

  /** strings.Replace(s, pattern, repl, -1): non-overlapping occurrences, scanned from the left. */
  function ReplaceAll(s: string, pattern: string, repl: string): (r: string)
    requires pattern != []
    decreases |s|
  {
    if |s| < |pattern| then s
    else if s[..|pattern|] == pattern then repl + ReplaceAll(s[|pattern|..], pattern, repl)
    else [s[0]] + ReplaceAll(s[1..], pattern, repl)
  }

  /** Replacing one character by another is a pointwise substitution. */
  lemma {:induction false} ReplaceCharAt(s: string, pattern: char, repl: char)
    ensures |ReplaceAll(s, [pattern], [repl])| == |s|
    ensures forall i :: 0 <= i < |s| ==>
      ReplaceAll(s, [pattern], [repl])[i] == if s[i] == pattern then repl else s[i]
    decreases |s|
  {
    if |s| >= 1 {
      ReplaceCharAt(s[1..], pattern, repl);
      if s[..1] == [pattern] {
        assert s[0] == pattern;
      } else {
        assert s[0] != pattern;
      }
    }
  }

  /** No character a is directly followed by a character b in s. */
  predicate PairFree(s: string, a: char, b: char) {
    forall i :: 0 <= i < |s| - 1 ==> !(s[i] == a && s[i + 1] == b)
  }

  /** The first character of ReplaceAll's result. */
  lemma ReplaceAllHead(s: string, pattern: string, repl: string)
    requires pattern != [] && |repl| == 1 && s != []
    ensures ReplaceAll(s, pattern, repl) != []
    ensures ReplaceAll(s, pattern, repl)[0] ==
      if |s| >= |pattern| && s[..|pattern|] == pattern then repl[0] else s[0]
  {
  }

  /**
   * Replacing every two-character sequence a b by one character n that is
   * neither a nor b leaves no a b behind: the sequence cannot re-form.
   */
  lemma {:induction false} ReplacePairLeavesNone(s: string, a: char, b: char, n: char)
    requires n != a && n != b
    ensures PairFree(ReplaceAll(s, [a, b], [n]), a, b)
    decreases |s|
  {
    var r := ReplaceAll(s, [a, b], [n]);
    if |s| < 2 {
    } else if s[..2] == [a, b] {
      ReplacePairLeavesNone(s[2..], a, b, n);
      assert r == [n] + ReplaceAll(s[2..], [a, b], [n]);
    } else {
      var t := ReplaceAll(s[1..], [a, b], [n]);
      ReplacePairLeavesNone(s[1..], a, b, n);
      assert r == [s[0]] + t;
      ReplaceAllHead(s[1..], [a, b], [n]);
      if s[0] == a {
        if |s[1..]| >= 2 && s[1..][..2] == [a, b] {
          assert t[0] == n;
        } else {
          assert t[0] == s[1];
          assert s[..2] == [s[0], s[1]];
        }
      }
    }
  }

  /** ReplaceAll changes nothing in a string where pattern does not occur. */
  lemma {:induction false} ReplaceAllAbsent(s: string, a: char, b: char, n: char)
    requires PairFree(s, a, b)
    ensures ReplaceAll(s, [a, b], [n]) == s
    decreases |s|
  {
    if |s| >= 2 {
      assert s[..2] != [a, b] by {
        assert !(s[0] == a && s[1] == b);
      }
      ReplaceAllAbsent(s[1..], a, b, n);
    }
  }

  /** Drops the leading `\s` characters. */
  function DropRegexSpace(s: string): (r: string)
    ensures |r| <= |s|
  {
    if s != [] && IsRegexSpace(s[0]) then DropRegexSpace(s[1..]) else s
  }

  /** DropRegexSpace cuts off exactly the `\s` characters at the front. */
  lemma {:induction false} DropRegexSpaceSpec(s: string)
    ensures var r := DropRegexSpace(s);
      && r == s[|s| - |r|..]
      && (forall k :: 0 <= k < |s| - |r| ==> IsRegexSpace(s[k]))
      && (r == [] || !IsRegexSpace(r[0]))
    decreases |s|
  {
    if s != [] && IsRegexSpace(s[0]) {
      DropRegexSpaceSpec(s[1..]);
    }
  }

  /** Whether every `\s` character of s is a plain space and no two of them are adjacent. */
  predicate SpacesCollapsed(s: string) {
    && (forall i :: 0 <= i < |s| && IsRegexSpace(s[i]) ==> s[i] == ' ')
    && (forall i :: 0 <= i < |s| - 1 ==> !(IsRegexSpace(s[i]) && IsRegexSpace(s[i + 1])))
  }

  /**
   * regexp.MustCompile(`\s+`).ReplaceAllString(s, " "): every maximal run of
   * `\s` characters becomes a single space; all other characters stay.
   */
  function CollapseSpace(s: string): (r: string)
    ensures |r| <= |s|
    decreases |s|
  {
    if s == [] then []
    else if IsRegexSpace(s[0]) then " " + CollapseSpace(DropRegexSpace(s[1..]))
    else [s[0]] + CollapseSpace(s[1..])
  }

  /** CollapseSpace keeps the ends: empty only for "", and a first or last character that is not `\s` stays. */
  lemma {:induction false} CollapseSpaceEnds(s: string)
    ensures var r := CollapseSpace(s);
      && (r == [] <==> s == [])
      && (s != [] && !IsRegexSpace(s[0]) ==> r[0] == s[0])
      && (s != [] && !IsRegexSpace(s[|s| - 1]) ==> r[|r| - 1] == s[|s| - 1])
    decreases |s|
  {
    if s != [] {
      var r := CollapseSpace(s);
      if IsRegexSpace(s[0]) {
        var d := DropRegexSpace(s[1..]);
        DropRegexSpaceSpec(s[1..]);
        CollapseSpaceEnds(d);
        assert r == [' '] + CollapseSpace(d);
        if !IsRegexSpace(s[|s| - 1]) {
          assert d != [] && d[|d| - 1] == s[|s| - 1];
        }
      } else {
        CollapseSpaceEnds(s[1..]);
        assert r == [s[0]] + CollapseSpace(s[1..]);
      }
    }
  }

  /**
   * What CollapseSpace keeps inside: no `\s` but single plain spaces, and no
   * other new character.
   */
  lemma {:induction false} CollapseSpaceSpec(s: string)
    ensures var r := CollapseSpace(s);
      && (forall i :: 0 <= i < |r| ==> r[i] == ' ' || (!IsRegexSpace(r[i]) && r[i] in s))
      && SpacesCollapsed(r)
    decreases |s|
  {
    if s != [] {
      var r := CollapseSpace(s);
      if IsRegexSpace(s[0]) {
        var d := DropRegexSpace(s[1..]);
        DropRegexSpaceSpec(s[1..]);
        CollapseSpaceSpec(d);
        CollapseSpaceEnds(d);
        var t := CollapseSpace(d);
        assert r == [' '] + t;
        assert forall c :: c in d ==> c in s;
      } else {
        CollapseSpaceSpec(s[1..]);
        var t := CollapseSpace(s[1..]);
        assert r == [s[0]] + t;
        assert forall c :: c in s[1..] ==> c in s;
      }
    }
  }

  /** A string whose spaces are already collapsed is left unchanged, so CollapseSpace is idempotent. */
  lemma {:induction false} CollapseSpaceOfCollapsed(s: string)
    requires SpacesCollapsed(s)
    ensures CollapseSpace(s) == s
    decreases |s|
  {
    if s != [] {
      assert SpacesCollapsed(s[1..]);
      if IsRegexSpace(s[0]) {
        assert s[0] == ' ';
        assert s[1..] == [] || !IsRegexSpace(s[1]);
        assert DropRegexSpace(s[1..]) == s[1..];
      }
      CollapseSpaceOfCollapsed(s[1..]);
    }
  }

  /** Collapsing runs of `\s` cannot place a b directly after an a when neither is a `\s` character. */
  lemma {:induction false} CollapseSpaceKeepsPairFree(s: string, a: char, b: char)
    requires !IsRegexSpace(a) && !IsRegexSpace(b) && a != ' ' && b != ' '
    requires PairFree(s, a, b)
    ensures PairFree(CollapseSpace(s), a, b)
    decreases |s|
  {
    if s != [] {
      if IsRegexSpace(s[0]) {
        var d := DropRegexSpace(s[1..]);
        DropRegexSpaceSpec(s[1..]);
        assert PairFree(d, a, b) by {
          forall i | 0 <= i < |d| - 1 ensures !(d[i] == a && d[i + 1] == b) {
            assert d[i] == s[|s| - |d| + i] && d[i + 1] == s[|s| - |d| + i + 1];
          }
        }
        CollapseSpaceKeepsPairFree(d, a, b);
      } else {
        assert PairFree(s[1..], a, b);
        CollapseSpaceKeepsPairFree(s[1..], a, b);
        var t := CollapseSpace(s[1..]);
        CollapseSpaceEnds(s[1..]);
        assert CollapseSpace(s) == [s[0]] + t;
        if s[0] == a && |s| > 1 && !IsRegexSpace(s[1]) {
          assert t[0] == s[1];
        }
      }
    }
  }

  /** Whether p occurs in s at offset k. */
  predicate OccursAt(s: string, p: string, k: int) {
    0 <= k && k + |p| <= |s| && s[k..k + |p|] == p
  }

  /**
   * strings.Index: the offset of the first occurrence of p in s, or -1 when
   * p does not occur.
   */
  function IndexOf(s: string, p: string): (r: int)
    ensures r == -1 || OccursAt(s, p, r)
    ensures forall k :: (r == -1 || k < r) ==> !OccursAt(s, p, k)
    decreases |s|
  {
    if |s| < |p| then -1
    else if s[..|p|] == p then 0
    else
      var k := IndexOf(s[1..], p);
      assert forall j :: OccursAt(s, p, j) && j >= 1 ==> OccursAt(s[1..], p, j - 1) by {
        forall j | OccursAt(s, p, j) && j >= 1 ensures OccursAt(s[1..], p, j - 1) {
          assert s[1..][j - 1..j - 1 + |p|] == s[j..j + |p|];
        }
      }
      assert k != -1 ==> s[k + 1..k + 1 + |p|] == s[1..][k..k + |p|];
      if k == -1 then -1 else k + 1
  }

  /** IndexOf for a one-character pattern: -1 exactly when c is absent, otherwise the first c. */
  lemma IndexOfChar(s: string, c: char)
    ensures IndexOf(s, [c]) == -1 <==> c !in s
    ensures IndexOf(s, [c]) != -1 ==> s[IndexOf(s, [c])] == c && c !in s[..IndexOf(s, [c])]
  {
    var r := IndexOf(s, [c]);
    forall k | 0 <= k < |s| ensures s[k] == c <==> OccursAt(s, [c], k) {
      assert s[k..k + 1] == [s[k]];
    }
    if r != -1 {
      assert s[r..r + 1] == [c];
    }
  }

  /**
   * strings.Split(s, sep) for a one-character separator: the pieces between
   * the separators, so one more piece than there are separators.
   */
  function Split(s: string, sep: char): (r: seq<string>)
    ensures |r| >= 1
    ensures forall i :: 0 <= i < |r| ==> sep !in r[i]
    decreases |s|
  {
    if s == [] then [[]]
    else
      var rest := Split(s[1..], sep);
      if s[0] == sep then [[]] + rest
      else [[s[0]] + rest[0]] + rest[1..]
  }

  /** strings.Join(parts, sep) for a one-character separator. */
  function Join(parts: seq<string>, sep: char): string
    requires |parts| >= 1
  {
    if |parts| == 1 then parts[0] else parts[0] + [sep] + Join(parts[1..], sep)
  }

  /** Joining the pieces of a split puts the string back together. */
  lemma {:induction false} SplitJoin(s: string, sep: char)
    ensures Join(Split(s, sep), sep) == s
    decreases |s|
  {
    if s != [] {
      var rest := Split(s[1..], sep);
      SplitJoin(s[1..], sep);
      var parts := Split(s, sep);
      if s[0] == sep {
        assert parts[1..] == rest;
        assert s == [] + [sep] + s[1..];
      } else if |rest| == 1 {
        assert parts == [[s[0]] + rest[0]];
      } else {
        assert parts[1..] == rest[1..];
        assert Join(rest, sep) == rest[0] + [sep] + Join(rest[1..], sep);
        assert s == [s[0]] + s[1..];
      }
    }
  }

  /** A split into a single piece leaves s whole. */
  lemma {:induction false} SplitSingle(s: string, sep: char)
    ensures |Split(s, sep)| == 1 ==> Split(s, sep) == [s]
    decreases |s|
  {
    if s != [] && s[0] != sep {
      SplitSingle(s[1..], sep);
      assert [s[0]] + s[1..] == s;
    }
  }

  /**
   * The last piece of a split is the suffix of s after its last separator,
   * or all of s when it holds no separator.
   */
  lemma {:induction false} SplitLast(s: string, sep: char)
    ensures var l := Split(s, sep)[|Split(s, sep)| - 1];
      && |l| <= |s| && l == s[|s| - |l|..] && sep !in l
      && (|l| == |s| || s[|s| - |l| - 1] == sep)
      && (|Split(s, sep)| > 1 ==> |l| < |s|)
    decreases |s|
  {
    if s != [] {
      var t := s[1..];
      SplitLast(t, sep);
      var rest := Split(t, sep);
      var l := rest[|rest| - 1];
      assert t[|t| - |l|..] == s[|s| - |l|..];
      if s[0] == sep {
        assert Split(s, sep)[|Split(s, sep)| - 1] == l;
        if |l| == |t| {
          assert s[|s| - |l| - 1] == s[0];
        } else {
          assert s[|s| - |l| - 1] == t[|t| - |l| - 1];
        }
      } else if |rest| == 1 {
        SplitSingle(t, sep);
        assert Split(s, sep) == [[s[0]] + t];
        assert [s[0]] + t == s;
      } else {
        assert Split(s, sep)[|Split(s, sep)| - 1] == l;
        assert s[|s| - |l| - 1] == t[|t| - |l| - 1];
      }
    }
  }
}
