/** Dotted-decimal IPv4 text: writing numbers as `a.b.c.d` and the part of
    `IPAddress.Parse` the helper relies on, reading four canonical decimal
    octets back.
 */
module IpAddress {
  import opened Results
  import opened Text
  import opened Decimal
  import opened Bits

  /** The decimal numerals of a sequence of numbers. */
  function Shows(v: seq<nat>): (parts: seq<string>)
    ensures |parts| == |v|
    ensures forall i :: 0 <= i < |v| ==> parts[i] == Show(v[i])
  {
    seq(|v|, i requires 0 <= i < |v| => Show(v[i]))
  }

  /** Numbers written in decimal and joined with dots, as
      `string.Join('.', numbers)` writes them. */
  function Dotted(v: seq<nat>): string {
    Join(Shows(v), '.')
  }

  /** A decimal numeral never contains a dot. */
  lemma DigitsHaveNoDot(s: string)
    requires IsDigits(s)
    ensures '.' !in s
  {
  }

  /** The pieces of a dotted numeral list are the numerals. */
  lemma SplitDotted(v: seq<nat>)
    requires |v| >= 1
    ensures Split(Dotted(v), '.') == Shows(v)
  {
    var parts := Shows(v);
    forall i | 0 <= i < |parts|
      ensures '.' !in parts[i]
    {
      DigitsHaveNoDot(parts[i]);
    }
    SplitJoin(parts, '.');
  }

  /** Dotted numerals contain no upper-case letter. */
  lemma DottedFoldStable(v: seq<nat>)
    ensures FoldStable(Dotted(v))
  {
    var parts := Shows(v);
    forall i | 0 <= i < |parts|
      ensures FoldStable(parts[i])
    {
      assert IsDigits(parts[i]);
    }
    JoinFoldStable(parts, '.');
  }

  /** Four numbers written out: numeral, dot, numeral, dot, numeral, dot,
      numeral. */
  lemma DottedQuad(v: seq<nat>)
    requires |v| == 4
    ensures Dotted(v) == Show(v[0]) + "." + (Show(v[1]) + "." + (Show(v[2]) + "." + Show(v[3])))
  {
    var p := Shows(v);
    assert p[1..][1..] == p[2..] && p[2..][1..] == p[3..] && p[3..] == [Show(v[3])];
    assert Join(p[2..], '.') == Show(v[2]) + "." + Show(v[3]);
    assert Join(p[1..], '.') == Show(v[1]) + "." + Join(p[2..], '.');
  }

  /** A non-empty list of numbers is written starting with a digit. */
  lemma DottedStartsWithDigit(v: seq<nat>)
    requires |v| >= 1
    ensures |Dotted(v)| > 0 && IsDigit(Dotted(v)[0])
  {
    var p := Shows(v);
    assert IsDigits(p[0]);
    if |p| > 1 {
      assert Dotted(v) == p[0] + ['.'] + Join(p[1..], '.');
    }
  }

  /** One octet as `IPAddress.Parse` reads it in canonical form: a decimal
      numeral without leading zeros whose value is at most 255. */
  predicate IsOctetText(p: string) {
    Canonical(p) && Value(p) <= 255
  }

  /** `IPAddress.Parse(s)` for IPv4 text in canonical dotted-decimal form:
      four canonical octets separated by dots. Whatever it accepts is
      exactly the dotted form of the octets it returns; everything else is
      a format error. */
  function ParseIpV4(s: string): (r: Result<Octets>)
    ensures r.Ok? ==> Dotted(r.value) == s
    ensures r.Err? ==> r.error == FormatError
  {
    var parts := Split(s, '.');
    if |parts| == 4 && IsOctetText(parts[0]) && IsOctetText(parts[1])
       && IsOctetText(parts[2]) && IsOctetText(parts[3])
    then
      var o: Octets := [Value(parts[0]), Value(parts[1]), Value(parts[2]), Value(parts[3])];
      ShowValue(parts[0]);
      ShowValue(parts[1]);
      ShowValue(parts[2]);
      ShowValue(parts[3]);
      assert Shows(o) == parts;
      JoinSplit(s, '.');
      Ok(o)
    else
      Err(FormatError)
  }

  /** Reading the dotted form of four octets gives the octets back. */
  lemma ParseDotted(o: Octets)
    ensures ParseIpV4(Dotted(o)) == Ok(o)
  {
    SplitDotted(o);
    var parts := Shows(o);
    ValueShow(o[0]);
    ValueShow(o[1]);
    ValueShow(o[2]);
    ValueShow(o[3]);
    assert IsOctetText(parts[0]) && IsOctetText(parts[1]);
    assert IsOctetText(parts[2]) && IsOctetText(parts[3]);
    assert [Value(parts[0]), Value(parts[1]), Value(parts[2]), Value(parts[3])] == o;
  }

  /** `IPAddress.Parse` accepts a string exactly when it is the dotted form
      of some octets, and then returns those octets. */
  lemma ParseIpV4Exactly(s: string, o: Octets)
    ensures ParseIpV4(s) == Ok(o) <==> s == Dotted(o)
  {
    if s == Dotted(o) {
      ParseDotted(o);
    }
  }
}
