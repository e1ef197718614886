/** What a configured rule does: `IsMatchIpV4` compares addresses octet by
    octet under the mask, whatever the host's byte order, and the rules are
    tried in order until one matches or one fails.
 */
module MatchFacts {
  import opened Results
  import opened Text
  import opened Decimal
  import opened Bits
  import opened IpAddress
  import opened IpHelper

  /** The host's byte order never shows in the outcome of a rule. */
  lemma MatchIgnoresByteOrder(subnetMask: string, defaultGateway: string, ipToMatch: string)
    ensures IsMatchIpV4(LittleEndian, subnetMask, defaultGateway, ipToMatch)
         == IsMatchIpV4(BigEndian, subnetMask, defaultGateway, ipToMatch)
  {
    hide IsMatchIpV4, ParseIpV4, Trim, SameSubnet;
  }

  /** Gateway and candidate play symmetric parts. */
  lemma MatchSymmetric(order: ByteOrder, subnetMask: string, a: string, b: string)
    ensures IsMatchIpV4(order, subnetMask, a, b) == IsMatchIpV4(order, subnetMask, b, a)
  {
    hide IsMatchIpV4, ParseIpV4, Trim, Masked;
  }

  /** Dotted text has nothing for `Trim` to remove. */
  lemma TrimDotted(o: Octets)
    ensures Trim(Dotted(o)) == Dotted(o)
  {
    hide Dotted;
    DottedQuad(o);
    DottedStartsWithDigit(o);
    var s := Dotted(o);
    var last := Show(o[3]);
    assert s[|s| - 1] == last[|last| - 1];
    assert IsDigit(s[|s| - 1]);
    TrimUntouched(s);
  }

  /** The three addresses written out in dotted form: the rule matches
      exactly when they are in the same subnet. */
  lemma MatchDotted(order: ByteOrder, mask: Octets, gateway: Octets, candidate: Octets)
    ensures IsMatchIpV4(order, Dotted(mask), Dotted(gateway), Dotted(candidate))
         == Ok(SameSubnet(mask, gateway, candidate))
  {
    hide IsMatchIpV4, ParseIpV4, Trim, Dotted, SameSubnet;
    TrimDotted(mask);
    TrimDotted(gateway);
    TrimDotted(candidate);
    ParseDotted(mask);
    ParseDotted(gateway);
    ParseDotted(candidate);
  }

  lemma ZeroMaskText()
    ensures Dotted([0, 0, 0, 0]) == "0.0.0.0"
  {
    hide Dotted, Show;
    DottedQuad([0, 0, 0, 0]);
    ShowDigits(0);
  }

  lemma FullMaskText()
    ensures Dotted([255, 255, 255, 255]) == "255.255.255.255"
  {
    hide Dotted, Show;
    DottedQuad([255, 255, 255, 255]);
    ShowDigits(255);
  }

  /** The mask `0.0.0.0` puts every pair of addresses in the same subnet. */
  lemma ZeroMaskMatchesAll(order: ByteOrder, defaultGateway: string, ipToMatch: string)
    ensures IsMatchIpV4(order, "0.0.0.0", defaultGateway, ipToMatch)
         == if ParseIpV4(Trim(defaultGateway)).Ok? && ParseIpV4(Trim(ipToMatch)).Ok? then Ok(true)
            else Err(FormatError)
  {
    hide IsMatchIpV4, ParseIpV4, Trim, Dotted, AndByte;
    var zero: Octets := [0, 0, 0, 0];
    ZeroMaskText();
    TrimDotted(zero);
    ParseDotted(zero);
    forall x: Byte
      ensures AndByte(x, 0) == 0
    {
      AndByteUnits(x);
    }
  }

  /** The mask `255.255.255.255` makes the rule an equality test. */
  lemma FullMaskIsEquality(order: ByteOrder, defaultGateway: string, ipToMatch: string)
    ensures IsMatchIpV4(order, "255.255.255.255", defaultGateway, ipToMatch)
         == if ParseIpV4(Trim(defaultGateway)).Ok? && ParseIpV4(Trim(ipToMatch)).Ok?
            then Ok(ParseIpV4(Trim(defaultGateway)) == ParseIpV4(Trim(ipToMatch)))
            else Err(FormatError)
  {
    hide IsMatchIpV4, ParseIpV4, Trim, Dotted, AndByte;
    var full: Octets := [255, 255, 255, 255];
    FullMaskText();
    TrimDotted(full);
    ParseDotted(full);
    var g, c := ParseIpV4(Trim(defaultGateway)), ParseIpV4(Trim(ipToMatch));
    if g.Ok? && c.Ok? {
      forall i | 0 <= i < 4
        ensures Masked(g.value, full, i) == g.value[i] && Masked(c.value, full, i) == c.value[i]
      {
        AndByteUnits(g.value[i]);
        AndByteUnits(c.value[i]);
      }
      if SameSubnet(full, g.value, c.value) {
        assert g.value == c.value;
      }
    }
  }

  /** The dotted text of the subnet example. */
  lemma MaskText()
    ensures Dotted([255, 255, 255, 0]) == "255.255.255.0"
  {
    hide Dotted, Show;
    DottedQuad([255, 255, 255, 0]);
    ShowDigits(255);
    ShowDigits(0);
  }

  lemma GatewayText()
    ensures Dotted([203, 0, 113, 1]) == "203.0.113.1"
  {
    hide Dotted, Show;
    DottedQuad([203, 0, 113, 1]);
    ShowDigits(203);
    ShowDigits(0);
    ShowDigits(113);
    ShowDigits(1);
  }

  lemma InsideText()
    ensures Dotted([203, 0, 113, 200]) == "203.0.113.200"
  {
    hide Dotted, Show;
    DottedQuad([203, 0, 113, 200]);
    ShowDigits(203);
    ShowDigits(0);
    ShowDigits(113);
    ShowDigits(200);
  }

  lemma OutsideText()
    ensures Dotted([203, 0, 114, 1]) == "203.0.114.1"
  {
    hide Dotted, Show;
    DottedQuad([203, 0, 114, 1]);
    ShowDigits(203);
    ShowDigits(0);
    ShowDigits(114);
    ShowDigits(1);
  }

  /** A rule for 203.0.113.0/24: a host of that network matches, a host of
      the next network does not. */
  lemma SubnetExample(order: ByteOrder)
    ensures IsMatchIpV4(order, "255.255.255.0", "203.0.113.1", "203.0.113.200") == Ok(true)
    ensures IsMatchIpV4(order, "255.255.255.0", "203.0.113.1", "203.0.114.1") == Ok(false)
  {
    hide IsMatchIpV4, ParseIpV4, Trim, Dotted, AndByte;
    MaskText();
    GatewayText();
    InsideText();
    OutsideText();
    var mask: Octets := [255, 255, 255, 0];
    var gateway: Octets := [203, 0, 113, 1];
    var inside: Octets := [203, 0, 113, 200];
    var outside: Octets := [203, 0, 114, 1];
    MatchDotted(order, mask, gateway, inside);
    MatchDotted(order, mask, gateway, outside);
    AndByteUnits(203);
    AndByteUnits(0);
    AndByteUnits(113);
    AndByteUnits(114);
    AndByteUnits(1);
    AndByteUnits(200);
    assert Masked(gateway, mask, 0) == Masked(inside, mask, 0);
    assert Masked(gateway, mask, 1) == Masked(inside, mask, 1);
    assert Masked(gateway, mask, 2) == Masked(inside, mask, 2);
    assert Masked(gateway, mask, 3) == Masked(inside, mask, 3);
    assert Masked(gateway, mask, 2) != Masked(outside, mask, 2);
  }

  /** One step of the search: a plain no moves on, anything else ends it. */
  lemma FirstDecisiveStep(verdicts: seq<Result<bool>>)
    requires |verdicts| > 0
    ensures FirstDecisive(verdicts)
         == if verdicts[0] == Ok(false) then FirstDecisive(verdicts[1..]) else verdicts[0]
  {
  }

  /** Reading verdicts one list after another: the second list is only
      consulted when the first is a plain no. */
  lemma {:induction false} FirstDecisiveAppend(a: seq<Result<bool>>, b: seq<Result<bool>>)
    ensures FirstDecisive(a + b) == if FirstDecisive(a) == Ok(false) then FirstDecisive(b) else FirstDecisive(a)
    decreases |a|
  {
    hide FirstDecisive;
    if |a| == 0 {
      assert a + b == b;
    } else {
      FirstDecisiveStep(a);
      FirstDecisiveStep(a + b);
      assert (a + b)[0] == a[0];
      assert (a + b)[1..] == a[1..] + b;
      FirstDecisiveAppend(a[1..], b);
    }
  }

  /** The verdicts on a list of rules that is one list after another are
      the first list's verdicts followed by the second's. */
  lemma VerdictsAppend(order: ByteOrder, a: seq<InnerNetSetting>, b: seq<InnerNetSetting>, ip: string)
    ensures Verdicts(order, a + b, ip) == Verdicts(order, a, ip) + Verdicts(order, b, ip)
  {
    hide Verdict;
    var ab := a + b;
    forall i | |a| <= i < |ab|
      ensures ab[i] == b[i - |a|]
    {
    }
  }

  /** When no rule fails, the outcome is whether some rule matches. */
  lemma AnySettingWithoutErrors(order: ByteOrder, settings: seq<InnerNetSetting>, ip: string)
    requires forall i :: 0 <= i < |settings| ==> Verdict(order, settings[i], ip).Ok?
    ensures AnySettingMatches(order, settings, ip)
         == Ok(exists s :: s in settings && Verdict(order, s, ip) == Ok(true))
  {
    hide Verdict, Verdicts, FirstDecisive;
    var v := Verdicts(order, settings, ip);
    var r := AnySettingMatches(order, settings, ip);
    if exists s :: s in settings && Verdict(order, s, ip) == Ok(true) {
      var s :| s in settings && Verdict(order, s, ip) == Ok(true);
      var i :| 0 <= i < |settings| && settings[i] == s;
      assert v[i] == Ok(true);
      assert r.Ok? && r.value;
    } else {
      forall i | 0 <= i < |settings|
        ensures v[i] == Ok(false)
      {
        var s := settings[i];
        assert s in settings;
        assert Verdict(order, s, ip) != Ok(true);
        assert v[i].Ok? && !v[i].value;
      }
    }
  }

  /** When no rule fails, neither the order of the rules nor repeating a
      rule changes the outcome: only which rules there are matters. */
  lemma AnySettingIgnoresOrder(order: ByteOrder, s1: seq<InnerNetSetting>, s2: seq<InnerNetSetting>, ip: string)
    requires forall i :: 0 <= i < |s1| ==> Verdict(order, s1[i], ip).Ok?
    requires forall s :: s in s1 <==> s in s2
    ensures AnySettingMatches(order, s1, ip) == AnySettingMatches(order, s2, ip)
  {
    hide Verdict, Verdicts, FirstDecisive;
    forall i | 0 <= i < |s2|
      ensures Verdict(order, s2[i], ip).Ok?
    {
      assert s2[i] in s1;
    }
    AnySettingWithoutErrors(order, s1, ip);
    AnySettingWithoutErrors(order, s2, ip);
  }

  /** `Any` stops at the first rule that matches: the rules after it are
      never read, so a malformed one raises nothing. */
  lemma AnyStopsAtFirstMatch(order: ByteOrder, before: seq<InnerNetSetting>, s: InnerNetSetting,
                             after: seq<InnerNetSetting>, ip: string)
    requires forall i :: 0 <= i < |before| ==> Verdict(order, before[i], ip) == Ok(false)
    requires Verdict(order, s, ip) == Ok(true)
    ensures AnySettingMatches(order, before + [s] + after, ip) == Ok(true)
  {
    hide Verdict, FirstDecisive;
    var all := before + [s] + after;
    var v := Verdicts(order, all, ip);
    assert all[|before|] == s;
    forall j | 0 <= j < |before|
      ensures v[j] == Ok(false)
    {
      assert all[j] == before[j];
    }
    assert v[|before|] == Ok(true);
  }

  /** A rule that fails before any rule has matched ends the search with
      its error. */
  lemma AnyStopsAtFirstError(order: ByteOrder, before: seq<InnerNetSetting>, s: InnerNetSetting,
                             after: seq<InnerNetSetting>, ip: string)
    requires forall i :: 0 <= i < |before| ==> Verdict(order, before[i], ip) == Ok(false)
    requires Verdict(order, s, ip).Err?
    ensures AnySettingMatches(order, before + [s] + after, ip) == Verdict(order, s, ip)
  {
    hide Verdict, FirstDecisive;
    var all := before + [s] + after;
    var v := Verdicts(order, all, ip);
    var n := |before|;
    var head, tail := v[..n], v[n..];
    assert all[n] == s;
    forall j | 0 <= j < n
      ensures head[j] == Ok(false)
    {
      assert all[j] == before[j];
    }
    assert FirstDecisive(head) == Ok(false);
    assert tail[0] == Verdict(order, s, ip);
    FirstDecisiveStep(tail);
    FirstDecisiveAppend(head, tail);
    assert head + tail == v;
  }
}
