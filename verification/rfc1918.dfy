/** The prefix table against section 3 of RFC 1918. The comments beside the
    table promise the private blocks 10/8, 172.16/12 and 192.168/16, with the
    class-B block ending at 172.31.255.255, but the table runs on to
    `172.35.`: the helper's classifier calls 172.32.0.0 through
    172.35.255.255 inner. The corrected classifier, whose table stops at
    `172.31.`, says inner exactly for the private blocks and the loopback
    prefix.
 */
module Rfc1918 {
  import opened Results
  import opened Decimal
  import opened Bits
  import opened IpAddress
  import opened IpHelper
  import opened NormaliseFacts
  import opened PrefixFacts
  import opened ClassifyFacts

  /** The private address space of section 3 of RFC 1918. */
  predicate IsPrivate(v: seq<nat>)
    requires |v| == 4
  {
    || v[0] == 10
    || (v[0] == 172 && 16 <= v[1] <= 31)
    || (v[0] == 192 && v[1] == 168)
  }

  /** The addresses the entry `"127.0.0.1"` starts. */
  predicate LoopbackByPrefix(v: seq<nat>)
    requires |v| == 4
  {
    v[0] == 127 && v[1] == 0 && v[2] == 0 && Show(v[3])[0] == '1'
  }

  /** As written: with no rules, an address in dotted form is inner exactly
      when it is private, starts with the loopback entry, or lies in
      172.32.0.0 through 172.35.255.255, which is not private. */
  lemma AsWrittenOverreaches(order: ByteOrder, ipToMatch: string, v: seq<nat>)
    requires |v| == 4 && FixIpV4(ipToMatch) == Ok(Dotted(v))
    ensures IsInnerIp(order, ipToMatch, [])
         == Ok(IsPrivate(v) || LoopbackByPrefix(v) || (v[0] == 172 && 32 <= v[1] <= 35))
  {
    hide FixIpV4, Dotted, IsInnerIpWith, StartsTable, MatchesAnyPrefix, Verdict, AnySettingMatches;
    ClassifyQuad(35, order, ipToMatch, v, []);
  }

  /** The dotted text of the first address past the class-B block. */
  lemma OverreachText()
    ensures Dotted([172, 32, 0, 1]) == "172.32.0.1"
  {
    hide Dotted, Show;
    DottedQuad([172, 32, 0, 1]);
    ShowDigits(172);
    ShowDigits(32);
    ShowDigits(0);
    ShowDigits(1);
  }

  /** The witness: 172.32.0.1 is not private, yet the helper calls it
      inner. */
  lemma AsWrittenCounterexample(order: ByteOrder)
    ensures !IsPrivate([172, 32, 0, 1])
    ensures IsInnerIp(order, "172.32.0.1", []) == Ok(true)
  {
    hide FixIpV4, Dotted, IsInnerIp;
    var o: Octets := [172, 32, 0, 1];
    OverreachText();
    FixOctets(o);
    AsWrittenOverreaches(order, "172.32.0.1", o);
  }

  /** Corrected: with no rules, an address in dotted form is inner exactly
      when it is private or starts with the loopback entry. */
  lemma CorrectedIsRfc1918(order: ByteOrder, ipToMatch: string, v: seq<nat>)
    requires |v| == 4 && FixIpV4(ipToMatch) == Ok(Dotted(v))
    ensures IsInnerIpRfc1918(order, ipToMatch, []) == Ok(IsPrivate(v) || LoopbackByPrefix(v))
  {
    hide FixIpV4, Dotted, IsInnerIpWith, StartsTable, MatchesAnyPrefix, Verdict, AnySettingMatches;
    ClassifyQuad(31, order, ipToMatch, v, []);
  }

  /** Corrected: every private address is inner, whatever the rules. */
  lemma CorrectedPrivateIsInner(order: ByteOrder, ipToMatch: string, v: seq<nat>,
                                innerNetSettings: seq<InnerNetSetting>)
    requires |v| == 4 && FixIpV4(ipToMatch) == Ok(Dotted(v)) && IsPrivate(v)
    ensures IsInnerIpRfc1918(order, ipToMatch, innerNetSettings) == Ok(true)
  {
    hide FixIpV4, Dotted, IsInnerIpWith, StartsTable, MatchesAnyPrefix, Verdict, AnySettingMatches;
    ClassifyQuad(31, order, ipToMatch, v, innerNetSettings);
  }

  /** Corrected: the class-B block ends where RFC 1918 ends it. */
  lemma CorrectedBoundary(order: ByteOrder)
    ensures IsInnerIpRfc1918(order, "172.32.0.1", []) == Ok(false)
  {
    hide FixIpV4, Dotted, IsInnerIpRfc1918;
    var o: Octets := [172, 32, 0, 1];
    OverreachText();
    FixOctets(o);
    CorrectedIsRfc1918(order, "172.32.0.1", o);
  }
}
