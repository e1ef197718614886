/** What `IsInnerIp` answers: for an address that normalises to dotted
    decimal, the prefix table decides first and the rules decide the rest.
    Text that normalises, starts with no entry of the table and that the
    canonical IPv4 parse refuses is outer without rules and a format error
    with them. Text that fails to normalise is a format or overflow error,
    rules or not. The host's byte order never matters.
 */
module ClassifyFacts {
  import opened Results
  import opened Text
  import opened Decimal
  import opened Bits
  import opened IpAddress
  import opened IpHelper
  import opened NormaliseFacts
  import opened PrefixFacts
  import opened MatchFacts

  /** The classifier gives the same answer on hosts of either byte order. */
  lemma InnerIgnoresByteOrder(table: seq<string>, ipToMatch: string, innerNetSettings: seq<InnerNetSetting>)
    ensures IsInnerIpWith(table, LittleEndian, ipToMatch, innerNetSettings)
         == IsInnerIpWith(table, BigEndian, ipToMatch, innerNetSettings)
  {
    hide IsMatchIpV4, MatchesAnyPrefix, FirstDecisive;
    var fixed := FixIpV4(ipToMatch);
    if fixed.Ok? {
      var ip := fixed.value;
      forall i | 0 <= i < |innerNetSettings|
        ensures Verdict(LittleEndian, innerNetSettings[i], ip) == Verdict(BigEndian, innerNetSettings[i], ip)
      {
        MatchIgnoresByteOrder(innerNetSettings[i].subNetMask, innerNetSettings[i].defaultGateway, ip);
      }
      assert Verdicts(LittleEndian, innerNetSettings, ip) == Verdicts(BigEndian, innerNetSettings, ip);
    }
  }

  /** An address that normalises to the dotted form of four numbers: the
      table, read as `InnerByTable`, decides first; without rules the
      answer is then no, and with rules it is what the rules say. */
  lemma ClassifyQuad(lastClassB: nat, order: ByteOrder, ipToMatch: string, v: seq<nat>,
                     innerNetSettings: seq<InnerNetSetting>)
    requires |v| == 4 && FixIpV4(ipToMatch) == Ok(Dotted(v))
    ensures IsInnerIpWith(StartsTable(lastClassB), order, ipToMatch, innerNetSettings)
         == if InnerByTable(lastClassB, v) then Ok(true)
            else if |innerNetSettings| == 0 then Ok(false)
            else AnySettingMatches(order, innerNetSettings, Dotted(v))
  {
    hide FixIpV4, Dotted, StartsTable, AnySettingMatches, InnerByTable;
    StartsTableOnQuad(lastClassB, v);
  }

  /** Every class-B entry starts with the digit 1. */
  lemma {:induction false} ClassBStartsWithOne(lo: nat, hi: nat)
    ensures forall i :: 0 <= i < |ClassBStarts(lo, hi)| ==>
              |ClassBStarts(lo, hi)[i]| > 0 && ClassBStarts(lo, hi)[i][0] == '1'
    decreases hi + 1 - lo
  {
    if lo <= hi {
      ClassBStartsWithOne(lo + 1, hi);
      var b := ClassBStarts(lo, hi);
      assert b == ["172." + Show(lo) + ".", "172.0" + Show(lo) + "."] + ClassBStarts(lo + 1, hi);
      forall i | 2 <= i < |b|
        ensures b[i] == ClassBStarts(lo + 1, hi)[i - 2]
      {
      }
    }
  }

  /** Every entry of a table of the helper's shape starts with a digit, an
      `l` or a colon. */
  lemma TableEntryStart(lastClassB: nat, i: nat)
    requires i < |StartsTable(lastClassB)|
    ensures var e := StartsTable(lastClassB)[i];
            |e| > 0 && (IsDigit(e[0]) || e[0] == 'l' || e[0] == ':')
  {
    var b := ClassBStarts(16, lastClassB);
    var t := StartsTable(lastClassB);
    ClassBStartsWithOne(16, lastClassB);
    if 2 <= i < 2 + |b| {
      assert t[i] == b[i - 2];
    } else if 2 + |b| <= i {
      assert t[i] == ["192.168.", "127.0.0.1", "localhost", "::1"][i - 2 - |b|];
    }
  }

  /** Text that starts, ignoring case, with anything but a digit, an `l` or
      a colon starts with no entry of the table. */
  lemma NoEntryStarts(lastClassB: nat, s: string)
    requires |s| > 0 && !IsDigit(Fold(s[0])) && Fold(s[0]) != 'l' && Fold(s[0]) != ':'
    ensures !MatchesAnyPrefix(StartsTable(lastClassB), s)
  {
    var t := StartsTable(lastClassB);
    forall i | 0 <= i < |t|
      ensures !StartsWithIgnoreCase(s, t[i])
    {
      TableEntryStart(lastClassB, i);
      var e := t[i];
      assert Fold(e[0]) == e[0];
      assert Fold(s[0]) != Fold(e[0]);
      if |e| <= |s| {
        assert s[..|e|][0] == s[0];
      }
    }
  }

  /** The canonical IPv4 parse refuses text that does not start with a digit. */
  lemma NotDotted(s: string)
    requires |s| > 0 && !IsDigit(s[0])
    ensures ParseIpV4(s).Err?
  {
    if ParseIpV4(s).Ok? {
      DottedStartsWithDigit(ParseIpV4(s).value);
      assert false;
    }
  }

  /** A rule whose mask is not an address fails whenever it is tried. */
  lemma BrokenRuleFails(order: ByteOrder, ip: string)
    ensures Verdict(order, InnerNetSetting("none", "203.0.113.1"), ip) == Err(FormatError)
  {
    hide IsMatchIpV4, ParseIpV4, Trim;
    TrimUntouched("none");
    NotDotted("none");
  }

  /** The rule for 203.0.113.0/24 matches 203.0.113.200. */
  lemma InsideRuleMatches(order: ByteOrder)
    ensures Verdict(order, InnerNetSetting("255.255.255.0", "203.0.113.1"), "203.0.113.200") == Ok(true)
  {
    hide IsMatchIpV4;
    SubnetExample(order);
  }

  /** With a malformed rule among them, the order of the rules does matter:
      a matching rule before it hides it, a matching rule after it is never
      reached. */
  lemma RuleOrderMattersWithErrors(order: ByteOrder)
    ensures AnySettingMatches(order, [InnerNetSetting("255.255.255.0", "203.0.113.1"),
                                      InnerNetSetting("none", "203.0.113.1")], "203.0.113.200")
         == Ok(true)
    ensures AnySettingMatches(order, [InnerNetSetting("none", "203.0.113.1"),
                                      InnerNetSetting("255.255.255.0", "203.0.113.1")], "203.0.113.200")
         == Err(FormatError)
  {
    hide *;
    var inside := InnerNetSetting("255.255.255.0", "203.0.113.1");
    var broken := InnerNetSetting("none", "203.0.113.1");
    var ip := "203.0.113.200";
    InsideRuleMatches(order);
    BrokenRuleFails(order, ip);
    assert [inside, broken] == [] + [inside] + [broken];
    assert [broken, inside] == [] + [broken] + [inside];
    AnyStopsAtFirstMatch(order, [], inside, [broken], ip);
    AnyStopsAtFirstError(order, [], broken, [inside], ip);
  }

  /** Text that normalises to something neither in the table nor readable
      as an IPv4 address: without rules it is outer, and with rules the
      first rule raises a format error. */
  lemma NonIpV4Classified(table: seq<string>, order: ByteOrder, ipToMatch: string, t: string,
                           innerNetSettings: seq<InnerNetSetting>)
    requires FixIpV4(ipToMatch) == Ok(t)
    requires !MatchesAnyPrefix(table, t)
    requires ParseIpV4(Trim(t)).Err?
    ensures IsInnerIpWith(table, order, ipToMatch, innerNetSettings)
         == if |innerNetSettings| == 0 then Ok(false) else Err(FormatError)
  {
    hide FixIpV4, MatchesAnyPrefix, ParseIpV4, Trim, IsMatchIpV4;
    if |innerNetSettings| > 0 {
      var v := Verdicts(order, innerNetSettings, t);
      assert forall i :: 0 <= i < |v| ==> v[i] == Err(FormatError);
      assert v[0].Err?;
    }
  }

  /** The dotted text of the example addresses. */
  lemma ClassBEdgeText()
    ensures Dotted([172, 31, 255, 255]) == "172.31.255.255"
  {
    hide Dotted, Show;
    DottedQuad([172, 31, 255, 255]);
    ShowDigits(172);
    ShowDigits(31);
    ShowDigits(255);
  }

  lemma PublicText()
    ensures Dotted([8, 8, 8, 8]) == "8.8.8.8"
  {
    hide Dotted, Show;
    DottedQuad([8, 8, 8, 8]);
    ShowDigits(8);
  }

  lemma LoopbackTenText()
    ensures Dotted([127, 0, 0, 10]) == "127.0.0.10"
  {
    hide Dotted, Show;
    DottedQuad([127, 0, 0, 10]);
    ShowDigits(127);
    ShowDigits(0);
    ShowDigits(10);
  }

  lemma LoopbackTwoText()
    ensures Dotted([127, 0, 0, 2]) == "127.0.0.2"
  {
    hide Dotted, Show;
    DottedQuad([127, 0, 0, 2]);
    ShowDigits(127);
    ShowDigits(0);
    ShowDigits(2);
  }

  lemma LoopbackText()
    ensures Dotted([127, 0, 0, 1]) == "127.0.0.1"
  {
    hide Dotted, Show;
    DottedQuad([127, 0, 0, 1]);
    ShowDigits(127);
    ShowDigits(0);
    ShowDigits(1);
  }

  /** Four octets written in dotted form normalise to themselves, unless
      they spell the alias `0.0.0.1`. */
  lemma FixOctets(o: Octets)
    requires Dotted(o) != "0.0.0.1"
    ensures FixIpV4(Dotted(o)) == Ok(Dotted(o))
  {
    hide FixIpV4, Dotted;
    FixDotted(o);
  }

  /** The last class-B network of the private range is inner whatever the
      rules say, with either table. */
  lemma ClassBEdgeIsInner(order: ByteOrder, innerNetSettings: seq<InnerNetSetting>)
    ensures IsInnerIp(order, "172.31.255.255", innerNetSettings) == Ok(true)
    ensures IsInnerIpRfc1918(order, "172.31.255.255", innerNetSettings) == Ok(true)
  {
    hide FixIpV4, Dotted, IsInnerIpWith, StartsTable, MatchesAnyPrefix, Verdict, AnySettingMatches;
    var o: Octets := [172, 31, 255, 255];
    ClassBEdgeText();
    FixOctets(o);
    ClassifyQuad(35, order, "172.31.255.255", o, innerNetSettings);
    ClassifyQuad(31, order, "172.31.255.255", o, innerNetSettings);
  }

  /** The dotted text of the private example addresses. */
  lemma ClassAText()
    ensures Dotted([10, 0, 0, 1]) == "10.0.0.1"
  {
    hide Dotted, Show;
    DottedQuad([10, 0, 0, 1]);
    ShowDigits(10);
    ShowDigits(0);
    ShowDigits(1);
  }

  lemma ClassCText()
    ensures Dotted([192, 168, 1, 100]) == "192.168.1.100"
  {
    hide Dotted, Show;
    DottedQuad([192, 168, 1, 100]);
    ShowDigits(192);
    ShowDigits(168);
    ShowDigits(1);
    ShowDigits(100);
  }

  /** Addresses in the class-A and class-C private blocks are inner whatever
      the rules say. */
  lemma PrivateIsInner(order: ByteOrder, innerNetSettings: seq<InnerNetSetting>)
    ensures IsInnerIp(order, "10.0.0.1", innerNetSettings) == Ok(true)
    ensures IsInnerIp(order, "192.168.1.100", innerNetSettings) == Ok(true)
  {
    hide FixIpV4, Dotted, IsInnerIpWith, StartsTable, MatchesAnyPrefix, Verdict, AnySettingMatches;
    var a: Octets := [10, 0, 0, 1];
    var c: Octets := [192, 168, 1, 100];
    ClassAText();
    ClassCText();
    FixOctets(a);
    FixOctets(c);
    ClassifyQuad(35, order, "10.0.0.1", a, innerNetSettings);
    ClassifyQuad(35, order, "192.168.1.100", c, innerNetSettings);
  }

  /** A public address with no rules configured is outer. */
  lemma PublicIsOuter(order: ByteOrder)
    ensures IsInnerIp(order, "8.8.8.8", []) == Ok(false)
    ensures IsInnerIpRfc1918(order, "8.8.8.8", []) == Ok(false)
  {
    hide FixIpV4, Dotted, IsInnerIpWith, StartsTable, MatchesAnyPrefix, Verdict, AnySettingMatches;
    var o: Octets := [8, 8, 8, 8];
    PublicText();
    FixOctets(o);
    ClassifyQuad(35, order, "8.8.8.8", o, []);
    ClassifyQuad(31, order, "8.8.8.8", o, []);
  }

  /** The entry `"127.0.0.1"` is a prefix, not an address: 127.0.0.10 is
      inner by the table, while 127.0.0.2 is not. */
  lemma LoopbackEntryIsAPrefix(order: ByteOrder, innerNetSettings: seq<InnerNetSetting>)
    ensures IsInnerIp(order, "127.0.0.10", innerNetSettings) == Ok(true)
    ensures IsInnerIp(order, "127.0.0.2", []) == Ok(false)
  {
    hide FixIpV4, Dotted, IsInnerIpWith, StartsTable, MatchesAnyPrefix, Verdict, AnySettingMatches;
    var ten: Octets := [127, 0, 0, 10];
    var two: Octets := [127, 0, 0, 2];
    LoopbackTenText();
    LoopbackTwoText();
    FixOctets(ten);
    FixOctets(two);
    ClassifyQuad(35, order, "127.0.0.10", ten, innerNetSettings);
    ClassifyQuad(35, order, "127.0.0.2", two, []);
    assert Show(10)[0] == '1' && Show(2)[0] == '2';
  }

  /** `localhost`, in any case, is inner whatever the rules say. */
  lemma LocalhostIsInner(order: ByteOrder, innerNetSettings: seq<InnerNetSetting>)
    ensures IsInnerIp(order, "LOCALHOST", innerNetSettings) == Ok(true)
    ensures IsInnerIpRfc1918(order, "LOCALHOST", innerNetSettings) == Ok(true)
  {
    hide FixIpV4, Dotted, IsInnerIpWith, StartsTable, MatchesAnyPrefix, Verdict, AnySettingMatches;
    FixShoutedLocalhost();
    LoopbackText();
    ClassifyQuad(35, order, "LOCALHOST", [127, 0, 0, 1], innerNetSettings);
    ClassifyQuad(31, order, "LOCALHOST", [127, 0, 0, 1], innerNetSettings);
    assert Show(1)[0] == '1';
  }

  /** The zero-padded entries matter off the dotted path: `"172.016.1"` has
      three parts, so normalisation hands it back as it is, and it starts
      with the entry `"172.016."`. */
  lemma PaddedThreePartsIsInner(order: ByteOrder, innerNetSettings: seq<InnerNetSetting>)
    ensures IsInnerIp(order, "172.016.1", innerNetSettings) == Ok(true)
  {
    hide FixIpV4, IsInnerIpWith, StartsTable, ClassBStarts, Show, Verdict, AnySettingMatches;
    var ip := "172.016.1";
    FixKeepsPaddedThreeParts();
    InnerIpStartsAsWritten();
    assert InnerIpStarts[3] == "172.016.";
    assert StartsWithIgnoreCase(ip, InnerIpStarts[3]);
  }

  /** An IPv6 literal without a dotted IPv4 part, such as `fe80::1`, is
      outer without rules. With rules the model raises a format error,
      because its IPv4 parse is canonical-only; the program's
      `IPAddress.Parse` accepts the literal and answers true or false. */
  lemma IpV6Classified(order: ByteOrder, innerNetSettings: seq<InnerNetSetting>)
    ensures IsInnerIp(order, "fe80::1", innerNetSettings)
         == if |innerNetSettings| == 0 then Ok(false) else Err(FormatError)
    ensures IsInnerIpRfc1918(order, "fe80::1", innerNetSettings)
         == if |innerNetSettings| == 0 then Ok(false) else Err(FormatError)
  {
    hide FixIpV4, IsInnerIpWith, StartsTable, ParseIpV4, MatchesAnyPrefix, Verdict;
    var s := "fe80::1";
    FixKeepsIpV6();
    NoEntryStarts(35, s);
    NoEntryStarts(31, s);
    TrimUntouched(s);
    NotDotted(s);
    NonIpV4Classified(InnerIpStarts, order, s, s, innerNetSettings);
    NonIpV4Classified(Rfc1918Starts, order, s, s, innerNetSettings);
  }

  /** An IPv4-mapped IPv6 address fails to normalise, so classifying it is a
      format error even without rules, though the IPv4 address it carries is
      in the table. */
  lemma MappedIpV6Fails(order: ByteOrder, innerNetSettings: seq<InnerNetSetting>)
    ensures IsInnerIp(order, "::ffff:10.0.0.1", innerNetSettings) == Err(FormatError)
    ensures IsInnerIpRfc1918(order, "::ffff:10.0.0.1", innerNetSettings) == Err(FormatError)
  {
    hide FixIpV4, StartsTable, MatchesAnyPrefix, Verdict, AnySettingMatches;
    FixRejectsMappedIpV6();
  }
}
