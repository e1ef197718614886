/** `MyIpHelper`: normalising an address string (`FixIpV4`), the prefix table
    of addresses that are inner by convention (`InnerIpStarts`), the
    configured (subnet mask, default gateway) rules (`InnerNetSetting`,
    `IsMatchIpV4`) and the classifier that combines them (`IsInnerIp`).

    Exceptions become `Err` results. The host's byte order, which the
    subnet comparison reads through `BitConverter`, is a parameter.
 */
module IpHelper {
  import opened Results
  import opened Text
  import opened Decimal
  import opened Bits
  import opened IpAddress

  /** One configured rule: addresses in the same subnet as the gateway,
      under the mask, are inner. */
  datatype InnerNetSetting = InnerNetSetting(subNetMask: string, defaultGateway: string)

  /** The class-B entries of the prefix table for second octets `lo` through
      `hi`, each written plainly (`"172.16."`) and with a zero-padded second
      octet (`"172.016."`). */
  function ClassBStarts(lo: nat, hi: nat): (t: seq<string>)
    ensures |t| == if hi < lo then 0 else 2 * (hi + 1 - lo)
    decreases hi + 1 - lo
  {
    if hi < lo then []
    else ["172." + Show(lo) + ".", "172.0" + Show(lo) + "."] + ClassBStarts(lo + 1, hi)
  }

  /** A prefix table of the helper's shape whose class-B block ends at
      second octet `lastClassB`: the class-A entries, the class-B block, the
      class-C entry and the three loopback spellings. */
  function StartsTable(lastClassB: nat): (t: seq<string>)
    ensures |t| == if lastClassB < 16 then 6 else 2 * lastClassB - 24
  {
    ["10.", "010."] + ClassBStarts(16, lastClassB) + ["192.168.", "127.0.0.1", "localhost", "::1"]
  }

  /** The last second octet of the constructor's class-B block. */
  const LastClassB: nat := 35

  /** `InnerIpStarts` as the constructor fills it: the class-B block runs
      from `172.16.` to `172.35.`. */
  const InnerIpStarts: seq<string> := StartsTable(LastClassB)

  /** Does `s` start, ignoring case, with some entry of `table`? */
  predicate MatchesAnyPrefix(table: seq<string>, s: string) {
    exists i :: 0 <= i < |table| && StartsWithIgnoreCase(s, table[i])
  }

  /** The spellings `FixIpV4` maps to `"127.0.0.1"`, compared ignoring case. */
  predicate IsLoopbackAlias(ip: string) {
    || EqualsIgnoreCase("127.0.0.1", ip)
    || EqualsIgnoreCase("localhost", ip)
    || EqualsIgnoreCase("::1", ip)
    || EqualsIgnoreCase("0.0.0.1", ip)
  }

  /** `Convert.ToInt32` applied to each part in turn; the first part that
      fails decides the error. */
  function ParseParts(parts: seq<string>): (r: Result<seq<nat>>)
    ensures r.Ok? <==> forall i :: 0 <= i < |parts| ==> ParseInt32(parts[i]).Ok?
    ensures r.Ok? ==> |r.value| == |parts|
                      && forall i :: 0 <= i < |parts| ==> r.value[i] == ParseInt32(parts[i]).value
    ensures r.Err? ==> exists i :: 0 <= i < |parts| && ParseInt32(parts[i]) == Err(r.error)
                                   && forall j :: 0 <= j < i ==> ParseInt32(parts[j]).Ok?
    decreases |parts|
  {
    if |parts| == 0 then Ok([])
    else
      var n :- ParseInt32(parts[0]);
      var rest :- ParseParts(parts[1..]);
      assert forall i :: 1 <= i < |parts| ==> parts[1..][i - 1] == parts[i];
      Ok([n] + rest)
  }

  /** `FixIpV4`: the loopback spellings become `"127.0.0.1"`; a string that
      does not have exactly three dots is returned as it is; otherwise the
      four parts are read as numbers and written back, which drops leading
      zeros. */
  function FixIpV4(ip: string): (r: Result<string>)
    ensures !IsLoopbackAlias(ip) && Count(ip, '.') != 3 ==> r == Ok(ip)
  {
    SplitCount(ip, '.');
    if IsLoopbackAlias(ip) then Ok("127.0.0.1")
    else
      var items := Split(ip, '.');
      if |items| != 4 then Ok(ip)
      else
        var numbers :- ParseParts(items);
        Ok(Dotted(numbers))
  }

  /** `IsMatchIpV4`: mask, gateway and candidate are trimmed and parsed, in
      that order, and the candidate matches when it agrees with the gateway
      on every bit the mask selects. */
  function IsMatchIpV4(order: ByteOrder, subnetMask: string, defaultGateway: string, ipToMatch: string): (r: Result<bool>)
    ensures r.Ok? <==> ParseIpV4(Trim(subnetMask)).Ok? && ParseIpV4(Trim(defaultGateway)).Ok?
                       && ParseIpV4(Trim(ipToMatch)).Ok?
    ensures r.Ok? ==> (r.value <==> SameSubnet(ParseIpV4(Trim(subnetMask)).value,
                                               ParseIpV4(Trim(defaultGateway)).value,
                                               ParseIpV4(Trim(ipToMatch)).value))
    ensures r.Err? ==> r.error == FormatError
  {
    var mask :- ParseIpV4(Trim(subnetMask));
    var gateway :- ParseIpV4(Trim(defaultGateway));
    var candidate :- ParseIpV4(Trim(ipToMatch));
    MaskedEqualIsSameSubnet(order, mask, gateway, candidate);
    Ok(MaskedEqual(order, mask, gateway, candidate))
  }

  /** What one rule says about an address. */
  function Verdict(order: ByteOrder, setting: InnerNetSetting, ip: string): Result<bool> {
    IsMatchIpV4(order, setting.subNetMask, setting.defaultGateway, ip)
  }

  /** `Any` over verdicts taken in order: the first match, or the first
      error, ends the search; running out of verdicts is a no. */
  function FirstDecisive(verdicts: seq<Result<bool>>): (r: Result<bool>)
    ensures r == Ok(false) <==> forall i :: 0 <= i < |verdicts| ==> verdicts[i] == Ok(false)
    ensures r == Ok(true) <==> exists i :: 0 <= i < |verdicts| && verdicts[i] == Ok(true)
                                 && forall j :: 0 <= j < i ==> verdicts[j] == Ok(false)
    ensures r.Err? <==> exists i :: 0 <= i < |verdicts| && verdicts[i].Err?
                          && forall j :: 0 <= j < i ==> verdicts[j] == Ok(false)
    ensures r.Err? ==> exists i :: 0 <= i < |verdicts| && verdicts[i] == r
                                   && forall j :: 0 <= j < i ==> verdicts[j] == Ok(false)
    decreases |verdicts|
  {
    if |verdicts| == 0 then Ok(false)
    else
      var rest := verdicts[1..];
      assert forall i :: 1 <= i < |verdicts| ==> rest[i - 1] == verdicts[i];
      match verdicts[0]
      case Err(e) => Err(e)
      case Ok(true) => Ok(true)
      case Ok(false) => FirstDecisive(rest)
  }

  /** The verdicts of the rules on one address, in the rules' order. */
  function Verdicts(order: ByteOrder, settings: seq<InnerNetSetting>, ip: string): (v: seq<Result<bool>>)
    ensures |v| == |settings|
    ensures forall i :: 0 <= i < |settings| ==> v[i] == Verdict(order, settings[i], ip)
  {
    seq(|settings|, i requires 0 <= i < |settings| => Verdict(order, settings[i], ip))
  }

  /** `FirstDecisive`'s contract read through `Verdicts`, rule by rule. */
  lemma AnyVerdict(order: ByteOrder, settings: seq<InnerNetSetting>, ip: string)
    ensures var r := FirstDecisive(Verdicts(order, settings, ip));
            && (r == Ok(true) <==>
                  exists i :: 0 <= i < |settings| && Verdict(order, settings[i], ip) == Ok(true)
                    && forall j :: 0 <= j < i ==> Verdict(order, settings[j], ip) == Ok(false))
            && (r == Ok(false) <==> forall i :: 0 <= i < |settings| ==> Verdict(order, settings[i], ip) == Ok(false))
            && (r.Err? ==>
                  exists i :: 0 <= i < |settings| && Verdict(order, settings[i], ip) == r
                    && forall j :: 0 <= j < i ==> Verdict(order, settings[j], ip) == Ok(false))
  {
    hide Verdict, FirstDecisive;
    var v := Verdicts(order, settings, ip);
    var r := FirstDecisive(v);
    if r.Err? {
      var i :| 0 <= i < |v| && v[i] == r && forall j :: 0 <= j < i ==> v[j] == Ok(false);
      assert Verdict(order, settings[i], ip) == r;
    }
  }

  /** `innerNetSettings.Any(s => IsMatchIpV4(...))`: true when some rule
      matches before any rule throws, false when every rule says no, and
      otherwise the exception of the first rule that throws. */
  function AnySettingMatches(order: ByteOrder, settings: seq<InnerNetSetting>, ip: string): (r: Result<bool>)
    ensures r == Ok(true) <==> exists i :: 0 <= i < |settings| && Verdict(order, settings[i], ip) == Ok(true)
                                 && forall j :: 0 <= j < i ==> Verdict(order, settings[j], ip) == Ok(false)
    ensures r == Ok(false) <==> forall i :: 0 <= i < |settings| ==> Verdict(order, settings[i], ip) == Ok(false)
    ensures r.Err? ==> exists i :: 0 <= i < |settings| && Verdict(order, settings[i], ip) == r
                                   && forall j :: 0 <= j < i ==> Verdict(order, settings[j], ip) == Ok(false)
  {
    AnyVerdict(order, settings, ip);
    FirstDecisive(Verdicts(order, settings, ip))
  }

  /** The classifier over a given prefix table: an address whose normalised
      form starts with a table entry is inner; otherwise, with no rules it
      is outer, and with rules it is inner when some rule matches. */
  function IsInnerIpWith(table: seq<string>, order: ByteOrder, ipToMatch: string, innerNetSettings: seq<InnerNetSetting>): (r: Result<bool>)
    ensures FixIpV4(ipToMatch).Err? ==> r == Err(FixIpV4(ipToMatch).error)
    ensures FixIpV4(ipToMatch).Ok? && MatchesAnyPrefix(table, FixIpV4(ipToMatch).value) ==> r == Ok(true)
    ensures FixIpV4(ipToMatch).Ok? && !MatchesAnyPrefix(table, FixIpV4(ipToMatch).value) ==>
              r == if |innerNetSettings| == 0 then Ok(false)
                   else AnySettingMatches(order, innerNetSettings, FixIpV4(ipToMatch).value)
    ensures r == Ok(true) ==>
              FixIpV4(ipToMatch).Ok?
              && (|| MatchesAnyPrefix(table, FixIpV4(ipToMatch).value)
                  || exists i :: 0 <= i < |innerNetSettings|
                                 && Verdict(order, innerNetSettings[i], FixIpV4(ipToMatch).value) == Ok(true))
    ensures r == Ok(false) ==>
              FixIpV4(ipToMatch).Ok? && !MatchesAnyPrefix(table, FixIpV4(ipToMatch).value)
              && forall i :: 0 <= i < |innerNetSettings| ==>
                   Verdict(order, innerNetSettings[i], FixIpV4(ipToMatch).value) == Ok(false)
  {
    var ipV4 :- FixIpV4(ipToMatch);
    if MatchesAnyPrefix(table, ipV4) then Ok(true)
    else if |innerNetSettings| == 0 then Ok(false)
    else AnySettingMatches(order, innerNetSettings, ipV4)
  }

  /** `IsInnerIp` with the helper's own table. A missing settings list is
      the empty sequence. Inner means: the normalised address starts with a
      table entry, or some rule matches it; outer means: no entry and every
      rule says no. Without rules the table alone decides. */
  function IsInnerIp(order: ByteOrder, ipToMatch: string, innerNetSettings: seq<InnerNetSetting>): (r: Result<bool>)
    ensures |innerNetSettings| == 0 ==>
              r == if FixIpV4(ipToMatch).Ok? then Ok(MatchesAnyPrefix(InnerIpStarts, FixIpV4(ipToMatch).value))
                   else Err(FixIpV4(ipToMatch).error)
    ensures FixIpV4(ipToMatch).Err? ==> r == Err(FixIpV4(ipToMatch).error)
    ensures FixIpV4(ipToMatch).Ok? && MatchesAnyPrefix(InnerIpStarts, FixIpV4(ipToMatch).value) ==> r == Ok(true)
    ensures FixIpV4(ipToMatch).Ok? && !MatchesAnyPrefix(InnerIpStarts, FixIpV4(ipToMatch).value) && |innerNetSettings| > 0 ==>
              r == AnySettingMatches(order, innerNetSettings, FixIpV4(ipToMatch).value)
    ensures r == Ok(true) ==>
              FixIpV4(ipToMatch).Ok?
              && (|| MatchesAnyPrefix(InnerIpStarts, FixIpV4(ipToMatch).value)
                  || exists i :: 0 <= i < |innerNetSettings|
                                 && Verdict(order, innerNetSettings[i], FixIpV4(ipToMatch).value) == Ok(true))
    ensures r == Ok(false) ==>
              FixIpV4(ipToMatch).Ok? && !MatchesAnyPrefix(InnerIpStarts, FixIpV4(ipToMatch).value)
              && forall i :: 0 <= i < |innerNetSettings| ==>
                   Verdict(order, innerNetSettings[i], FixIpV4(ipToMatch).value) == Ok(false)
  {
    IsInnerIpWith(InnerIpStarts, order, ipToMatch, innerNetSettings)
  }

  /** The prefix table the comments beside it describe, following section 3
      of RFC 1918: the class-B block ends at `172.31.`. */
  const Rfc1918Starts: seq<string> := StartsTable(31)

  /** `IsInnerIp` with the class-B block ending at 172.31, as intended. */
  function IsInnerIpRfc1918(order: ByteOrder, ipToMatch: string, innerNetSettings: seq<InnerNetSetting>): Result<bool> {
    IsInnerIpWith(Rfc1918Starts, order, ipToMatch, innerNetSettings)
  }
}
