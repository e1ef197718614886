/** What the prefix table says about a dotted-decimal address: an address
    `a.b.c.d` starts with some entry of a table of the helper's shape exactly
    when it is in 10/8, in 172.16/12 extended to the table's last class-B
    octet, in 192.168/16, or is 127.0.0.d with `d` written starting with 1.
 */
module PrefixFacts {
  import opened Text
  import opened Decimal
  import opened IpAddress
  import opened IpHelper

  /** The addresses a table whose class-B block ends at `lastClassB` treats
      as inner, stated on the numbers. The loopback entry `"127.0.0.1"` is
      a prefix, so it also covers 127.0.0.10 through 127.0.0.19 and
      127.0.0.100 through 127.0.0.199. */
  predicate InnerByTable(lastClassB: nat, v: seq<nat>)
    requires |v| == 4
  {
    || v[0] == 10
    || (v[0] == 172 && 16 <= v[1] <= lastClassB)
    || (v[0] == 192 && v[1] == 168)
    || (v[0] == 127 && v[1] == 0 && v[2] == 0 && Show(v[3])[0] == '1')
  }

  /** Matching a concatenated table is matching either half. */
  lemma MatchesAnyPrefixAppend(a: seq<string>, b: seq<string>, s: string)
    ensures MatchesAnyPrefix(a + b, s) <==> MatchesAnyPrefix(a, s) || MatchesAnyPrefix(b, s)
  {
    var ab := a + b;
    if MatchesAnyPrefix(ab, s) {
      var i :| 0 <= i < |ab| && StartsWithIgnoreCase(s, ab[i]);
      if i < |a| {
        assert ab[i] == a[i];
      } else {
        assert ab[i] == b[i - |a|];
      }
    }
    if MatchesAnyPrefix(a, s) {
      var i :| 0 <= i < |a| && StartsWithIgnoreCase(s, a[i]);
      assert ab[i] == a[i];
    }
    if MatchesAnyPrefix(b, s) {
      var i :| 0 <= i < |b| && StartsWithIgnoreCase(s, b[i]);
      assert ab[|a| + i] == b[i];
    }
  }

  lemma MatchesSingle(e: string, s: string)
    ensures MatchesAnyPrefix([e], s) <==> StartsWithIgnoreCase(s, e)
  {
    assert [e][0] == e;
  }

  /** Numerals are equal exactly when the numbers are. */
  lemma ShowEqual(a: nat, b: nat)
    ensures Show(a) == Show(b) <==> a == b
  {
    ValueShow(a);
    ValueShow(b);
  }

  /** Against a dotted address, a table entry without upper-case letters
      matches ignoring case exactly when it is an ordinal prefix. */
  lemma EntryOnDotted(e: string, v: seq<nat>)
    requires FoldStable(e)
    ensures StartsWithIgnoreCase(Dotted(v), e) <==> e <= Dotted(v)
  {
    DottedFoldStable(v);
    StartsWithIgnoreCaseStable(Dotted(v), e);
  }

  /** `"10."` starts exactly the addresses in 10/8. */
  lemma ClassAOnQuad(v: seq<nat>)
    requires |v| == 4
    ensures "10." <= Dotted(v) <==> v[0] == 10
  {
    hide Dotted;
    DottedQuad(v);
    var s0 := Show(v[0]);
    DigitsHaveNoDot(s0);
    assert "10." == "10" + "." + "";
    SeparatedPrefix("10", "", s0, Show(v[1]) + "." + (Show(v[2]) + "." + Show(v[3])), '.');
    assert Show(10) == "10";
    ShowEqual(v[0], 10);
  }

  /** `"010."` starts no address written in canonical decimal. */
  lemma PaddedClassAOnQuad(v: seq<nat>)
    requires |v| == 4
    ensures !("010." <= Dotted(v))
  {
    hide Dotted;
    DottedQuad(v);
    var s0 := Show(v[0]);
    DigitsHaveNoDot(s0);
    assert "010." == "010" + "." + "";
    SeparatedPrefix("010", "", s0, Show(v[1]) + "." + (Show(v[2]) + "." + Show(v[3])), '.');
  }

  /** `"192.168."` starts exactly the addresses in 192.168/16. */
  lemma ClassCOnQuad(v: seq<nat>)
    requires |v| == 4
    ensures "192.168." <= Dotted(v) <==> v[0] == 192 && v[1] == 168
  {
    hide Dotted;
    DottedQuad(v);
    var s0, s1 := Show(v[0]), Show(v[1]);
    var rest := Show(v[2]) + "." + Show(v[3]);
    DigitsHaveNoDot(s0);
    DigitsHaveNoDot(s1);
    assert "192.168." == "192" + "." + ("168" + "." + "");
    SeparatedPrefix("192", "168" + "." + "", s0, s1 + "." + rest, '.');
    SeparatedPrefix("168", "", s1, rest, '.');
    assert Show(192) == "192" && Show(168) == "168";
    ShowEqual(v[0], 192);
    ShowEqual(v[1], 168);
  }

  /** `"127.0.0.1"` starts exactly the addresses 127.0.0.d whose last
      number is written starting with the digit 1. */
  lemma LoopbackOnQuad(v: seq<nat>)
    requires |v| == 4
    ensures "127.0.0.1" <= Dotted(v) <==> v[0] == 127 && v[1] == 0 && v[2] == 0 && Show(v[3])[0] == '1'
  {
    hide Dotted;
    DottedQuad(v);
    var s0, s1, s2, s3 := Show(v[0]), Show(v[1]), Show(v[2]), Show(v[3]);
    DigitsHaveNoDot(s0);
    DigitsHaveNoDot(s1);
    DigitsHaveNoDot(s2);
    assert "127.0.0.1" == "127" + "." + ("0" + "." + ("0" + "." + "1"));
    SeparatedPrefix("127", "0" + "." + ("0" + "." + "1"), s0, s1 + "." + (s2 + "." + s3), '.');
    SeparatedPrefix("0", "0" + "." + "1", s1, s2 + "." + s3, '.');
    SeparatedPrefix("0", "1", s2, s3, '.');
    assert "1" <= s3 <==> s3[0] == '1';
    assert Show(127) == "127" && Show(0) == "0";
    ShowEqual(v[0], 127);
    ShowEqual(v[1], 0);
    ShowEqual(v[2], 0);
  }

  /** An entry that does not start with a digit starts no dotted address;
      `"localhost"` and `"::1"` are such entries. */
  lemma NameOnQuad(e: string, v: seq<nat>)
    requires |v| == 4 && |e| > 0 && !IsDigit(e[0])
    ensures !(e <= Dotted(v))
  {
    DottedStartsWithDigit(v);
    if e <= Dotted(v) {
      PrefixAgrees(e, Dotted(v), 0);
      assert false;
    }
  }

  /** The plain class-B entry for second octet `n` starts exactly the
      addresses 172.n.x.y. */
  lemma ClassBEntryOnQuad(n: nat, v: seq<nat>)
    requires |v| == 4
    ensures "172." + Show(n) + "." <= Dotted(v) <==> v[0] == 172 && v[1] == n
  {
    hide Dotted;
    DottedQuad(v);
    var s0, s1 := Show(v[0]), Show(v[1]);
    var rest := Show(v[2]) + "." + Show(v[3]);
    DigitsHaveNoDot(s0);
    DigitsHaveNoDot(s1);
    DigitsHaveNoDot(Show(n));
    assert "172." + Show(n) + "." == "172" + "." + (Show(n) + "." + "");
    SeparatedPrefix("172", Show(n) + "." + "", s0, s1 + "." + rest, '.');
    SeparatedPrefix(Show(n), "", s1, rest, '.');
    assert Show(172) == "172";
    ShowEqual(v[0], 172);
    ShowEqual(v[1], n);
  }

  /** The zero-padded class-B entry for second octet `n` starts no address
      written in canonical decimal. */
  lemma PaddedClassBEntryOnQuad(n: nat, v: seq<nat>)
    requires |v| == 4
    ensures !("172.0" + Show(n) + "." <= Dotted(v))
  {
    hide Dotted;
    DottedQuad(v);
    var s0, s1 := Show(v[0]), Show(v[1]);
    var rest := Show(v[2]) + "." + Show(v[3]);
    var padded := "0" + Show(n);
    DigitsHaveNoDot(s0);
    DigitsHaveNoDot(s1);
    DigitsHaveNoDot(Show(n));
    assert '.' !in padded;
    assert "172.0" + Show(n) + "." == "172" + "." + (padded + "." + "");
    SeparatedPrefix("172", padded + "." + "", s0, s1 + "." + rest, '.');
    SeparatedPrefix(padded, "", s1, rest, '.');
    assert padded != s1 by {
      assert |padded| >= 2 && padded[0] == '0';
    }
  }

  lemma DigitsFoldStable(s: string)
    requires IsDigits(s)
    ensures FoldStable(s)
  {
  }

  /** The class-B entries for `lo` through `hi` start exactly the addresses
      172.n.x.y with `lo <= n <= hi`. */
  lemma {:induction false} ClassBOnQuad(lo: nat, hi: nat, v: seq<nat>)
    requires |v| == 4
    ensures MatchesAnyPrefix(ClassBStarts(lo, hi), Dotted(v)) <==> v[0] == 172 && lo <= v[1] <= hi
    decreases hi + 1 - lo
  {
    var s := Dotted(v);
    if hi < lo {
      assert ClassBStarts(lo, hi) == [];
    } else {
      var plain := "172." + Show(lo) + ".";
      var padded := "172.0" + Show(lo) + ".";
      var later := ClassBStarts(lo + 1, hi);
      assert ClassBStarts(lo, hi) == [plain] + [padded] + later;
      ClassBOnQuad(lo + 1, hi, v);
      MatchesAnyPrefixAppend([plain] + [padded], later, s);
      MatchesAnyPrefixAppend([plain], [padded], s);
      MatchesSingle(plain, s);
      MatchesSingle(padded, s);
      DigitsFoldStable(Show(lo));
      FoldStableAppend("172.", Show(lo));
      FoldStableAppend("172." + Show(lo), ".");
      FoldStableAppend("172.0", Show(lo));
      FoldStableAppend("172.0" + Show(lo), ".");
      EntryOnDotted(plain, v);
      EntryOnDotted(padded, v);
      ClassBEntryOnQuad(lo, v);
      PaddedClassBEntryOnQuad(lo, v);
    }
  }

  /** The class-A entries start exactly the addresses in 10/8. */
  lemma ClassAEntriesOnQuad(v: seq<nat>)
    requires |v| == 4
    ensures MatchesAnyPrefix(["10.", "010."], Dotted(v)) <==> v[0] == 10
  {
    hide Dotted;
    var s := Dotted(v);
    assert ["10.", "010."] == ["10."] + ["010."];
    MatchesAnyPrefixAppend(["10."], ["010."], s);
    MatchesSingle("10.", s);
    MatchesSingle("010.", s);
    EntryOnDotted("10.", v);
    EntryOnDotted("010.", v);
    ClassAOnQuad(v);
    PaddedClassAOnQuad(v);
  }

  /** The class-C entry and the three loopback spellings start exactly the
      addresses in 192.168/16 and the addresses 127.0.0.d with `d` written
      starting with 1. */
  lemma LastEntriesOnQuad(v: seq<nat>)
    requires |v| == 4
    ensures MatchesAnyPrefix(["192.168.", "127.0.0.1", "localhost", "::1"], Dotted(v)) <==>
              (v[0] == 192 && v[1] == 168) || (v[0] == 127 && v[1] == 0 && v[2] == 0 && Show(v[3])[0] == '1')
  {
    hide Dotted;
    var s := Dotted(v);
    assert ["192.168.", "127.0.0.1", "localhost", "::1"] == ["192.168.", "127.0.0.1"] + (["localhost"] + ["::1"]);
    assert ["192.168.", "127.0.0.1"] == ["192.168."] + ["127.0.0.1"];
    MatchesAnyPrefixAppend(["192.168.", "127.0.0.1"], ["localhost"] + ["::1"], s);
    MatchesAnyPrefixAppend(["192.168."], ["127.0.0.1"], s);
    MatchesAnyPrefixAppend(["localhost"], ["::1"], s);
    MatchesSingle("192.168.", s);
    MatchesSingle("127.0.0.1", s);
    MatchesSingle("localhost", s);
    MatchesSingle("::1", s);
    EntryOnDotted("192.168.", v);
    EntryOnDotted("127.0.0.1", v);
    EntryOnDotted("localhost", v);
    EntryOnDotted("::1", v);
    ClassCOnQuad(v);
    LoopbackOnQuad(v);
    NameOnQuad("localhost", v);
    NameOnQuad("::1", v);
  }

  /** A table of the helper's shape, read against a dotted address, says
      exactly what `InnerByTable` says. */
  lemma StartsTableOnQuad(lastClassB: nat, v: seq<nat>)
    requires |v| == 4
    ensures MatchesAnyPrefix(StartsTable(lastClassB), Dotted(v)) <==> InnerByTable(lastClassB, v)
  {
    hide Dotted, ClassBStarts;
    var s := Dotted(v);
    var classA := ["10.", "010."];
    var classB := ClassBStarts(16, lastClassB);
    var last := ["192.168.", "127.0.0.1", "localhost", "::1"];
    assert StartsTable(lastClassB) == classA + classB + last;
    MatchesAnyPrefixAppend(classA + classB, last, s);
    MatchesAnyPrefixAppend(classA, classB, s);
    ClassAEntriesOnQuad(v);
    ClassBOnQuad(16, lastClassB, v);
    LastEntriesOnQuad(v);
  }

  /** The class-B block for second octets `lo` to `hi` holds, for each
      octet in turn, its plain entry and then its zero-padded entry. */
  lemma {:induction false} ClassBEntries(lo: nat, hi: nat)
    ensures forall n :: lo <= n <= hi ==>
              && ClassBStarts(lo, hi)[2 * (n - lo)] == "172." + Show(n) + "."
              && ClassBStarts(lo, hi)[2 * (n - lo) + 1] == "172.0" + Show(n) + "."
    decreases hi + 1 - lo
  {
    if lo <= hi {
      ClassBEntries(lo + 1, hi);
      var b := ClassBStarts(lo, hi);
      var rest := ClassBStarts(lo + 1, hi);
      assert b == ["172." + Show(lo) + ".", "172.0" + Show(lo) + "."] + rest;
      forall k | 2 <= k < |b|
        ensures b[k] == rest[k - 2]
      {
      }
    }
  }

  /** The two class-B entries for a two-digit second octet `n`, spelled out
      digit by digit. */
  lemma ClassBPairAt(lo: nat, hi: nat, n: nat, plain: string, padded: string)
    requires lo <= n <= hi && 10 <= n < 100
    requires plain == "172." + [DigitChar(n / 10), DigitChar(n % 10)] + "."
    requires padded == "172.0" + [DigitChar(n / 10), DigitChar(n % 10)] + "."
    ensures ClassBStarts(lo, hi)[2 * (n - lo)] == plain
    ensures ClassBStarts(lo, hi)[2 * (n - lo) + 1] == padded
  {
    hide ClassBStarts, Show;
    ClassBEntries(lo, hi);
    ShowDigits(n);
  }

  /** The first half of the helper's class-B block: 172.16 to 172.25. */
  lemma ClassBLowAsWritten()
    ensures ClassBStarts(16, 35)[..20] ==
              [ "172.16.", "172.016."
              , "172.17.", "172.017."
              , "172.18.", "172.018."
              , "172.19.", "172.019."
              , "172.20.", "172.020."
              , "172.21.", "172.021."
              , "172.22.", "172.022."
              , "172.23.", "172.023."
              , "172.24.", "172.024."
              , "172.25.", "172.025." ]
  {
    hide ClassBStarts, Show;
    ClassBPairAt(16, 35, 16, "172.16.", "172.016.");
    ClassBPairAt(16, 35, 17, "172.17.", "172.017.");
    ClassBPairAt(16, 35, 18, "172.18.", "172.018.");
    ClassBPairAt(16, 35, 19, "172.19.", "172.019.");
    ClassBPairAt(16, 35, 20, "172.20.", "172.020.");
    ClassBPairAt(16, 35, 21, "172.21.", "172.021.");
    ClassBPairAt(16, 35, 22, "172.22.", "172.022.");
    ClassBPairAt(16, 35, 23, "172.23.", "172.023.");
    ClassBPairAt(16, 35, 24, "172.24.", "172.024.");
    ClassBPairAt(16, 35, 25, "172.25.", "172.025.");
  }

  /** The second half of the helper's class-B block: 172.26 to 172.35. */
  lemma ClassBHighAsWritten()
    ensures ClassBStarts(16, 35)[20..] ==
              [ "172.26.", "172.026."
              , "172.27.", "172.027."
              , "172.28.", "172.028."
              , "172.29.", "172.029."
              , "172.30.", "172.030."
              , "172.31.", "172.031."
              , "172.32.", "172.032."
              , "172.33.", "172.033."
              , "172.34.", "172.034."
              , "172.35.", "172.035." ]
  {
    hide ClassBStarts, Show;
    ClassBPairAt(16, 35, 26, "172.26.", "172.026.");
    ClassBPairAt(16, 35, 27, "172.27.", "172.027.");
    ClassBPairAt(16, 35, 28, "172.28.", "172.028.");
    ClassBPairAt(16, 35, 29, "172.29.", "172.029.");
    ClassBPairAt(16, 35, 30, "172.30.", "172.030.");
    ClassBPairAt(16, 35, 31, "172.31.", "172.031.");
    ClassBPairAt(16, 35, 32, "172.32.", "172.032.");
    ClassBPairAt(16, 35, 33, "172.33.", "172.033.");
    ClassBPairAt(16, 35, 34, "172.34.", "172.034.");
    ClassBPairAt(16, 35, 35, "172.35.", "172.035.");
  }

  /** The helper's table is, string for string and in order, the 46 entries
      its constructor lists: the class-A entries, the class-B block from
      172.16 to 172.35, plain and zero-padded, then the class-C entry and the
      loopback spellings. */
  lemma InnerIpStartsAsWritten()
    ensures InnerIpStarts ==
              ["10.", "010."]
              + (
                 [ "172.16.", "172.016."
                 , "172.17.", "172.017."
                 , "172.18.", "172.018."
                 , "172.19.", "172.019."
                 , "172.20.", "172.020."
                 , "172.21.", "172.021."
                 , "172.22.", "172.022."
                 , "172.23.", "172.023."
                 , "172.24.", "172.024."
                 , "172.25.", "172.025." ]
                 +
                 [ "172.26.", "172.026."
                 , "172.27.", "172.027."
                 , "172.28.", "172.028."
                 , "172.29.", "172.029."
                 , "172.30.", "172.030."
                 , "172.31.", "172.031."
                 , "172.32.", "172.032."
                 , "172.33.", "172.033."
                 , "172.34.", "172.034."
                 , "172.35.", "172.035." ])
              + ["192.168.", "127.0.0.1", "localhost", "::1"]
  {
    hide ClassBStarts, Show;
    var b := ClassBStarts(16, 35);
    ClassBLowAsWritten();
    ClassBHighAsWritten();
    assert b == b[..20] + b[20..];
  }
}
