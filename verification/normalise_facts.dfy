/** What `FixIpV4` does to the strings it is given: the loopback spellings,
    the pass-through of anything without exactly three dots, the numeric
    rewrite of four-part strings, and how close it comes to being idempotent.
 */
module NormaliseFacts {
  import opened Results
  import opened Text
  import opened Decimal
  import opened IpAddress
  import opened IpHelper

  /** The dotted form of numbers is a loopback alias only when it is
      `"127.0.0.1"` or `"0.0.0.1"`: the named aliases start with a letter or
      a colon, and dotted numerals have no letters to fold. */
  lemma DottedAlias(v: seq<nat>)
    requires |v| >= 1
    ensures IsLoopbackAlias(Dotted(v)) <==> Dotted(v) == "127.0.0.1" || Dotted(v) == "0.0.0.1"
  {
    var s := Dotted(v);
    DottedFoldStable(v);
    DottedStartsWithDigit(v);
    EqualsIgnoreCaseStable("127.0.0.1", s);
    EqualsIgnoreCaseStable("localhost", s);
    EqualsIgnoreCaseStable("::1", s);
    EqualsIgnoreCaseStable("0.0.0.1", s);
  }

  /** Four numbers that `Convert.ToInt32` can hold, written in dotted form,
      come back unchanged, except for `"0.0.0.1"`, which is an alias. */
  lemma FixDotted(v: seq<nat>)
    requires |v| == 4 && forall i :: 0 <= i < 4 ==> v[i] <= Int32Max
    ensures FixIpV4(Dotted(v)) == if Dotted(v) == "0.0.0.1" then Ok("127.0.0.1") else Ok(Dotted(v))
  {
    var s := Dotted(v);
    DottedAlias(v);
    if !IsLoopbackAlias(s) {
      SplitDotted(v);
      var parts := Shows(v);
      forall i | 0 <= i < 4
        ensures ParseInt32(parts[i]) == Ok(v[i])
      {
        ValueShow(v[i]);
      }
      var numbers := ParseParts(parts);
      assert numbers.Ok?;
      assert numbers.value == v;
    }
  }

  /** A string with three dots that is not an alias: it normalises exactly
      when each of its four parts is a numeral `Convert.ToInt32` can hold,
      the normalised parts are the parts without their leading zeros, and
      otherwise the first part that fails decides the error. */
  lemma FixFourParts(ip: string)
    requires !IsLoopbackAlias(ip) && Count(ip, '.') == 3
    ensures |Split(ip, '.')| == 4
    ensures FixIpV4(ip).Ok? <==>
              forall i :: 0 <= i < 4 ==> (IsDigits(Split(ip, '.')[i]) && Value(Split(ip, '.')[i]) <= Int32Max)
    ensures FixIpV4(ip).Ok? ==>
              |Split(FixIpV4(ip).value, '.')| == 4
              && forall i :: 0 <= i < 4 ==>
                   (IsDigits(Split(ip, '.')[i])
                    && Split(FixIpV4(ip).value, '.')[i] == StripLeadingZeros(Split(ip, '.')[i]))
    ensures FixIpV4(ip).Err? ==>
              exists i :: 0 <= i < 4 && ParseInt32(Split(ip, '.')[i]) == Err(FixIpV4(ip).error)
                          && forall j :: 0 <= j < i ==> ParseInt32(Split(ip, '.')[j]).Ok?
  {
    SplitCount(ip, '.');
    var parts := Split(ip, '.');
    var numbers := ParseParts(parts);
    if numbers.Ok? {
      var v := numbers.value;
      SplitDotted(v);
      forall i | 0 <= i < 4
        ensures Show(v[i]) == StripLeadingZeros(parts[i])
      {
        ShowValueStrips(parts[i]);
      }
    }
  }

  /** Normalising twice changes nothing, except when the first pass
      produced `"0.0.0.1"`, which the second pass turns into the loopback
      address. */
  lemma FixNearlyIdempotent(ip: string)
    requires FixIpV4(ip).Ok?
    ensures FixIpV4(FixIpV4(ip).value) == Ok(FixIpV4(ip).value) <==> FixIpV4(ip).value != "0.0.0.1"
  {
    var r := FixIpV4(ip).value;
    assert EqualsIgnoreCase("0.0.0.1", "0.0.0.1");
    if IsLoopbackAlias(ip) {
      assert r == "127.0.0.1";
      assert EqualsIgnoreCase("127.0.0.1", r);
    } else if Count(ip, '.') == 3 {
      SplitCount(ip, '.');
      var numbers := ParseParts(Split(ip, '.')).value;
      assert r == Dotted(numbers);
      FixDotted(numbers);
    } else {
      assert Count("0.0.0.1", '.') == 3;
    }
  }

  /** A third pass never changes anything. */
  lemma FixSettles(ip: string)
    requires FixIpV4(ip).Ok?
    ensures FixIpV4(FixIpV4(ip).value).Ok?
    ensures FixIpV4(FixIpV4(FixIpV4(ip).value).value) == FixIpV4(FixIpV4(ip).value)
  {
    var r := FixIpV4(ip).value;
    FixNearlyIdempotent(ip);
    if r == "0.0.0.1" {
      assert EqualsIgnoreCase("0.0.0.1", r);
      assert EqualsIgnoreCase("127.0.0.1", "127.0.0.1");
    }
  }

  /** Any spelling of `localhost`, whatever its case, is the loopback
      address. */
  lemma FixShoutedLocalhost()
    ensures FixIpV4("LOCALHOST") == Ok("127.0.0.1")
  {
    hide FixIpV4;
    assert EqualsIgnoreCase("localhost", "LOCALHOST");
    FixAlias("LOCALHOST");
  }

  lemma FixAlias(ip: string)
    requires IsLoopbackAlias(ip)
    ensures FixIpV4(ip) == Ok("127.0.0.1")
  {
  }

  /** An IPv6 literal without a dotted IPv4 part, other than `::1`, has no
      dots and passes through. */
  lemma FixKeepsIpV6()
    ensures FixIpV4("fe80::1") == Ok("fe80::1")
  {
    hide FixIpV4;
    var s := "fe80::1";
    assert Fold(s[0]) != Fold("0.0.0.1"[0]);
    assert !IsLoopbackAlias(s);
  }

  /** Text with fewer than four parts passes through. */
  lemma FixKeepsThreeParts()
    ensures FixIpV4("1.2.3") == Ok("1.2.3")
  {
    hide FixIpV4;
    assert Count("1.2.3", '.') == 2;
    assert !IsLoopbackAlias("1.2.3");
  }

  /** A three-part address keeps its zero padding. */
  lemma FixKeepsPaddedThreeParts()
    ensures FixIpV4("172.016.1") == Ok("172.016.1")
  {
    hide FixIpV4;
    assert Count("172.016.1", '.') == 2;
    assert !IsLoopbackAlias("172.016.1");
  }

  /** The parts are read as `Int32`, not as octets: a part above 255 is
      kept. */
  lemma FixKeepsLargeParts()
    ensures FixIpV4("1.2.3.300") == Ok("1.2.3.300")
  {
    hide FixIpV4;
    assert Dotted([1, 2, 3, 300]) == "1.2.3.300";
    FixDotted([1, 2, 3, 300]);
  }

  /** Four numerals joined with dots normalise to the same numerals
      without their leading zeros. */
  lemma FixPieces(parts: seq<string>, stripped: seq<string>)
    requires |parts| == 4 && |stripped| == 4
    requires forall i :: 0 <= i < 4 ==>
               (IsDigits(parts[i]) && Value(parts[i]) <= Int32Max && StripLeadingZeros(parts[i]) == stripped[i])
    requires !IsLoopbackAlias(Join(parts, '.'))
    ensures FixIpV4(Join(parts, '.')) == Ok(Join(stripped, '.'))
  {
    hide FixIpV4;
    var s := Join(parts, '.');
    forall i | 0 <= i < 4
      ensures '.' !in parts[i]
    {
      DigitsHaveNoDot(parts[i]);
    }
    SplitJoin(parts, '.');
    SplitCount(s, '.');
    FixFourParts(s);
    var r := FixIpV4(s).value;
    assert Split(r, '.') == stripped;
    JoinSplit(r, '.');
  }

  /** A written number reads back as itself and has no zeros to strip. */
  lemma Numeral(n: nat)
    ensures IsDigits(Show(n)) && Value(Show(n)) == n && StripLeadingZeros(Show(n)) == Show(n)
  {
    ValueShow(n);
  }

  /** A written number with one zero put in front reads back as the number,
      and stripping removes that zero. */
  lemma PaddedNumeral(n: nat)
    ensures IsDigits("0" + Show(n)) && Value("0" + Show(n)) == n
    ensures StripLeadingZeros("0" + Show(n)) == Show(n)
  {
    var s := Show(n);
    ValueShow(n);
    ValueLeadingZero(s);
    assert ("0" + s)[1..] == s;
  }

  // Facts about literals, each established on its own.
  lemma PaddedPieces() ensures "0.0.0.01" == Join(["0", "0", "0", "01"], '.') { }
  lemma PaddedNotAlias() ensures !IsLoopbackAlias("0.0.0.01") { }
  lemma ZeroNumerals() ensures Show(0) == "0" && Show(1) == "1" && "01" == "0" + Show(1) { }
  lemma Int32MaxBound() ensures 192 <= Int32Max { }
  lemma LoopbackPieces() ensures Join(["0", "0", "0", "1"], '.') == "0.0.0.1" { }

  /** The exception to idempotence is reachable: a zero-padded last part
      normalises to `"0.0.0.1"`, which a second pass turns into
      `"127.0.0.1"`. */
  lemma FixNotIdempotent()
    ensures FixIpV4("0.0.0.01") == Ok("0.0.0.1")
    ensures FixIpV4("0.0.0.1") == Ok("127.0.0.1")
  {
    hide *;
    PaddedPieces();
    PaddedNotAlias();
    ZeroNumerals();
    Numeral(0);
    PaddedNumeral(1);
    Int32MaxBound();
    LoopbackPieces();
    FixPieces(["0", "0", "0", "01"], ["0", "0", "0", "1"]);
    FixAliasZero();
  }

  lemma ClassCPieces() ensures "192.168.1.010" == Join(["192", "168", "1", "010"], '.') { }
  lemma ClassCNotAlias() ensures !IsLoopbackAlias("192.168.1.010") { }
  lemma ClassCNumerals()
    ensures Show(192) == "192" && Show(168) == "168" && Show(1) == "1"
    ensures Show(10) == "10" && "010" == "0" + Show(10)
  { }
  lemma ClassCStripped() ensures Join(["192", "168", "1", "10"], '.') == "192.168.1.10" { }

  /** Leading zeros are dropped part by part. */
  lemma FixStripsLeadingZeros()
    ensures FixIpV4("192.168.1.010") == Ok("192.168.1.10")
  {
    hide *;
    ClassCPieces();
    ClassCNotAlias();
    ClassCNumerals();
    Numeral(192);
    Numeral(168);
    Numeral(1);
    PaddedNumeral(10);
    Int32MaxBound();
    ClassCStripped();
    FixPieces(["192", "168", "1", "010"], ["192", "168", "1", "10"]);
  }

  lemma EmptyPartPieces() ensures "1..2.3" == Join(["1", "", "2", "3"], '.') { }
  lemma EmptyPartNotAlias() ensures !IsLoopbackAlias("1..2.3") { }
  lemma EmptyIsNotDigits() ensures !IsDigits("") && Show(1) == "1" { }

  /** An empty part is a format error. */
  lemma FixRejectsEmptyPart()
    ensures FixIpV4("1..2.3") == Err(FormatError)
  {
    hide *;
    var s := "1..2.3";
    var parts := ["1", "", "2", "3"];
    EmptyPartPieces();
    EmptyPartNotAlias();
    EmptyIsNotDigits();
    Numeral(1);
    Int32MaxBound();
    SplitJoin(parts, '.');
    SplitCount(s, '.');
    FixFourParts(s);
    var p := Split(s, '.');
    assert p[0] == "1" && p[1] == "";
    assert ParseInt32("1").Ok?;
    assert ParseInt32("") == Err(FormatError);
    assert !IsDigits(p[1]);
    var e := FixIpV4(s).error;
    var i :| 0 <= i < 4 && ParseInt32(p[i]) == Err(e) && forall j :: 0 <= j < i ==> ParseInt32(p[j]).Ok?;
    assert i == 1 by {
      assert i != 0;
    }
  }

  lemma MappedPieces() ensures "::ffff:10.0.0.1" == Join(["::ffff:10", "0", "0", "1"], '.') { }
  lemma MappedNotAlias() ensures !IsLoopbackAlias("::ffff:10.0.0.1") { }
  lemma MappedHeadNotDigits() ensures !IsDigits("::ffff:10") {
    assert !IsDigit("::ffff:10"[0]);
  }

  /** An IPv4-mapped IPv6 address, the form a dual-stack listener reports
      for an IPv4 client, has three dots: its first part `"::ffff:10"` is
      not a number, so normalisation fails with a format error. */
  lemma FixRejectsMappedIpV6()
    ensures FixIpV4("::ffff:10.0.0.1") == Err(FormatError)
  {
    hide *;
    var s := "::ffff:10.0.0.1";
    var parts := ["::ffff:10", "0", "0", "1"];
    MappedPieces();
    MappedNotAlias();
    MappedHeadNotDigits();
    SplitJoin(parts, '.');
    SplitCount(s, '.');
    FixFourParts(s);
    var p := Split(s, '.');
    assert p[0] == "::ffff:10";
    assert ParseInt32(p[0]) == Err(FormatError);
    var e := FixIpV4(s).error;
    var i :| 0 <= i < 4 && ParseInt32(p[i]) == Err(e) && forall j :: 0 <= j < i ==> ParseInt32(p[j]).Ok?;
    assert i == 0;
  }

  lemma FixAliasZero()
    ensures FixIpV4("0.0.0.1") == Ok("127.0.0.1")
  {
    hide FixIpV4;
    assert EqualsIgnoreCase("0.0.0.1", "0.0.0.1");
    FixAlias("0.0.0.1");
  }
}
