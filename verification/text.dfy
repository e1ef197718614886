/** The string primitives the helper relies on: case-insensitive equality
    and prefix tests, `String.Split(char)`, `String.Join(char, ...)` and
    `String.Trim()`.

    Case folding is ASCII folding. The non-ASCII case mappings of the
    ordinal comparison and the culture-aware prefix test are not modelled:
    the classifier accepts any text, and text that does not normalise to
    dotted decimal reaches the prefix test unchanged.
 */
module Text {

  /** Maps an upper-case ASCII letter to its lower-case form; every other
      character is its own folding. */
  function Fold(c: char): (f: char)
    ensures 'A' <= c <= 'Z' ==> 'a' <= f <= 'z' && f as int - c as int == 32
    ensures !('A' <= c <= 'Z') ==> f == c
  {
    if 'A' <= c <= 'Z' then (c as int + 32) as char else c
  }

  /** `a.Equals(b, StringComparison.OrdinalIgnoreCase)`. */
  predicate EqualsIgnoreCase(a: string, b: string) {
    |a| == |b| && forall i :: 0 <= i < |a| ==> Fold(a[i]) == Fold(b[i])
  }

  /** `s.StartsWith(p, StringComparison.InvariantCultureIgnoreCase)`, with
      ASCII folding in place of the invariant culture's comparison. */
  predicate StartsWithIgnoreCase(s: string, p: string) {
    |p| <= |s| && EqualsIgnoreCase(s[..|p|], p)
  }

  /** A string with no upper-case ASCII letter: folding leaves it unchanged. */
  predicate FoldStable(s: string) {
    forall i :: 0 <= i < |s| ==> Fold(s[i]) == s[i]
  }

  /** Between strings that folding leaves alone, the case-insensitive
      comparisons are the ordinal ones. */
  lemma EqualsIgnoreCaseStable(a: string, b: string)
    requires FoldStable(a) && FoldStable(b)
    ensures EqualsIgnoreCase(a, b) <==> a == b
  {
    if EqualsIgnoreCase(a, b) {
      assert forall i :: 0 <= i < |a| ==> a[i] == b[i] by {
        forall i | 0 <= i < |a| ensures a[i] == b[i] {
          assert Fold(a[i]) == Fold(b[i]);
        }
      }
    }
  }

  lemma StartsWithIgnoreCaseStable(s: string, p: string)
    requires FoldStable(s) && FoldStable(p)
    ensures StartsWithIgnoreCase(s, p) <==> p <= s
  {
    if |p| <= |s| {
      EqualsIgnoreCaseStable(s[..|p|], p);
    }
  }

  /** Folding acts character by character, so a concatenation is stable
      exactly when both halves are. */
  lemma FoldStableAppend(a: string, b: string)
    ensures FoldStable(a + b) <==> FoldStable(a) && FoldStable(b)
  {
    var ab := a + b;
    if FoldStable(ab) {
      forall i | 0 <= i < |a| ensures Fold(a[i]) == a[i] {
        assert a[i] == ab[i];
      }
      forall i | 0 <= i < |b| ensures Fold(b[i]) == b[i] {
        assert b[i] == ab[|a| + i];
      }
    }
  }

  /** Two strings that agree as prefix and string agree at each position
      of the prefix. */
  lemma PrefixAgrees(p: string, s: string, k: int)
    requires p <= s && 0 <= k < |p|
    ensures p[k] == s[k]
  {
  }

  /** When neither `a` nor `x` contains the separator, `a`, the separator
      and `b` start `x`, the separator and `rest` exactly when `a` is `x`
      and `b` starts `rest`. */
  lemma SeparatedPrefix(a: string, b: string, x: string, rest: string, sep: char)
    requires sep !in a && sep !in x
    ensures a + [sep] + b <= x + [sep] + rest <==> a == x && b <= rest
  {
    var p := a + [sep] + b;
    var s := x + [sep] + rest;
    if p <= s {
      if |a| != |x| {
        PrefixAgrees(p, s, if |a| < |x| then |a| else |x|);
        assert false;
      }
      assert a == p[..|a|] == s[..|a|] == x;
      assert b == p[|a| + 1..] == s[|a| + 1..|p|] == rest[..|b|];
    }
    if a == x && b <= rest {
      assert s[..|p|] == p;
    }
  }

  /** A separator-free string starts `x`, the separator and `rest` exactly
      when it starts the separator-free `x`. */
  lemma SeparatorFreePrefix(e: string, x: string, rest: string, sep: char)
    requires sep !in e && sep !in x
    ensures e <= x + [sep] + rest <==> e <= x
  {
    var s := x + [sep] + rest;
    if e <= s && |x| < |e| {
      PrefixAgrees(e, s, |x|);
      assert false;
    }
    if e <= x {
      assert s[..|e|] == x[..|e|];
    }
  }

  /** `s.Split(sep)`: the pieces between separators, empty pieces included. */
  function Split(s: string, sep: char): (parts: seq<string>)
    ensures |parts| >= 1
    ensures forall i :: 0 <= i < |parts| ==> sep !in parts[i]
    decreases |s|
  {
    if |s| == 0 then [""]
    else
      var rest := Split(s[1..], sep);
      if s[0] == sep then [""] + rest
      else [[s[0]] + rest[0]] + rest[1..]
  }

  /** `String.Join(sep, parts)`. */
  function Join(parts: seq<string>, sep: char): string
    decreases |parts|
  {
    if |parts| == 0 then ""
    else if |parts| == 1 then parts[0]
    else parts[0] + [sep] + Join(parts[1..], sep)
  }

  /** The number of occurrences of `c` in `s`. */
  function Count(s: string, c: char): nat
    decreases |s|
  {
    if |s| == 0 then 0
    else (if s[0] == c then 1 else 0) + Count(s[1..], c)
  }

  /** Joining the pieces of a split restores the string. */
  lemma {:induction false} JoinSplit(s: string, sep: char)
    ensures Join(Split(s, sep), sep) == s
    decreases |s|
  {
    if |s| > 0 {
      var rest := Split(s[1..], sep);
      JoinSplit(s[1..], sep);
      if s[0] == sep {
        assert Split(s, sep) == [""] + rest;
      } else {
        var parts := Split(s, sep);
        assert parts == [[s[0]] + rest[0]] + rest[1..];
        if |rest| == 1 {
          assert Join(parts, sep) == [s[0]] + rest[0];
        } else {
          assert parts[1..] == rest[1..];
          assert Join(rest, sep) == rest[0] + [sep] + Join(rest[1..], sep);
        }
      }
    }
  }

  /** Joining fold-stable pieces with a fold-stable separator gives a
      fold-stable string. */
  lemma {:induction false} JoinFoldStable(parts: seq<string>, sep: char)
    requires forall i :: 0 <= i < |parts| ==> FoldStable(parts[i])
    requires Fold(sep) == sep
    ensures FoldStable(Join(parts, sep))
    decreases |parts|
  {
    if |parts| > 1 {
      JoinFoldStable(parts[1..], sep);
      FoldStableAppend(parts[0], [sep]);
      FoldStableAppend(parts[0] + [sep], Join(parts[1..], sep));
    }
  }

  /** A split yields one more piece than there are separators. */
  lemma {:induction false} SplitCount(s: string, sep: char)
    ensures |Split(s, sep)| == Count(s, sep) + 1
    decreases |s|
  {
    if |s| > 0 {
      SplitCount(s[1..], sep);
    }
  }

  /** Splitting `p + [sep] + t` cuts at the first separator when `p` has none. */
  lemma {:induction false} SplitAfterPiece(p: string, t: string, sep: char)
    requires sep !in p
    ensures Split(p + [sep] + t, sep) == [p] + Split(t, sep)
    decreases |p|
  {
    var s := p + [sep] + t;
    if |p| == 0 {
      assert s == [sep] + t;
      assert s[1..] == t;
    } else {
      assert s[1..] == p[1..] + [sep] + t;
      SplitAfterPiece(p[1..], t, sep);
      assert [p[0]] + p[1..] == p;
    }
  }

  /** A string without separators splits into itself. */
  lemma {:induction false} SplitNoSeparator(p: string, sep: char)
    requires sep !in p
    ensures Split(p, sep) == [p]
    decreases |p|
  {
    if |p| > 0 {
      SplitNoSeparator(p[1..], sep);
      assert [p[0]] + p[1..] == p;
    }
  }

  /** Splitting a join of separator-free pieces gives the pieces back. */
  lemma {:induction false} SplitJoin(parts: seq<string>, sep: char)
    requires |parts| >= 1
    requires forall i :: 0 <= i < |parts| ==> sep !in parts[i]
    ensures Split(Join(parts, sep), sep) == parts
    decreases |parts|
  {
    if |parts| == 1 {
      SplitNoSeparator(parts[0], sep);
    } else {
      SplitJoin(parts[1..], sep);
      SplitAfterPiece(parts[0], Join(parts[1..], sep), sep);
      assert [parts[0]] + parts[1..] == parts;
    }
  }

  /** The characters `Char.IsWhiteSpace` accepts, which `String.Trim()`
      removes from both ends. */
  predicate IsWhiteSpace(c: char) {
    var n := c as int;
    || 0x09 <= n <= 0x0D || n == 0x20 || n == 0x85 || n == 0xA0 || n == 0x1680
    || 0x2000 <= n <= 0x200A || n == 0x2028 || n == 0x2029 || n == 0x202F
    || n == 0x205F || n == 0x3000
  }

  /** Drops leading white space. */
  function TrimStart(s: string): (r: string)
    ensures |r| <= |s| && forall k :: 0 <= k < |r| ==> r[k] == s[|s| - |r| + k]
    ensures forall i :: 0 <= i < |s| - |r| ==> IsWhiteSpace(s[i])
    ensures |r| > 0 ==> !IsWhiteSpace(r[0])
    decreases |s|
  {
    if |s| > 0 && IsWhiteSpace(s[0]) then TrimStart(s[1..]) else s
  }

  /** Drops trailing white space. */
  function TrimEnd(s: string): (r: string)
    ensures |r| <= |s| && forall k :: 0 <= k < |r| ==> r[k] == s[k]
    ensures forall i :: |r| <= i < |s| ==> IsWhiteSpace(s[i])
    ensures |r| > 0 ==> !IsWhiteSpace(r[|r| - 1])
    decreases |s|
  {
    if |s| > 0 && IsWhiteSpace(s[|s| - 1]) then TrimEnd(s[..|s| - 1]) else s
  }

  /** `s.Trim()`: what is left after removing white space at both ends; it
      neither starts nor ends with white space. */
  function Trim(s: string): (r: string)
    ensures |r| <= |s|
    ensures |r| > 0 ==> !IsWhiteSpace(r[0]) && !IsWhiteSpace(r[|r| - 1])
  {
    TrimEnd(TrimStart(s))
  }

  /** `Trim` removes white space only: `s` is a run of `i` white-space
      characters, then the trimmed text, then white space to the end. */
  lemma TrimCut(s: string)
    ensures var i, r := |s| - |TrimStart(s)|, Trim(s);
            && 0 <= i <= |s| - |r|
            && (forall k :: 0 <= k < i ==> IsWhiteSpace(s[k]))
            && (forall k :: 0 <= k < |r| ==> r[k] == s[i + k])
            && (forall k :: i + |r| <= k < |s| ==> IsWhiteSpace(s[k]))
  {
    var t := TrimStart(s);
    var i := |s| - |t|;
    var r := TrimEnd(t);
    forall k | i + |r| <= k < |s|
      ensures IsWhiteSpace(s[k])
    {
      assert s[k] == t[k - i];
    }
  }

  /** A string that has no white space at either end is its own trim. */
  lemma TrimUntouched(s: string)
    requires |s| > 0 ==> !IsWhiteSpace(s[0]) && !IsWhiteSpace(s[|s| - 1])
    ensures Trim(s) == s
  {
  }
}
