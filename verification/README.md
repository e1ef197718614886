# MyIpHelper in Dafny

A model of the IPv4 helper `MyIpHelper` in `src/Demo.Web/Common/MyIpHelper.cs`. It covers:

- the prefix table `InnerIpStarts`, which lists addresses that are inner by convention;
- `FixIpV4`, which normalises an address string;
- `IsMatchIpV4` and `GetIpAddressLong`, which decide whether an address lies in the subnet of a (subnet mask, default gateway) rule;
- `IsInnerIp`, which combines the table and the rules to call an address inner or outer;
- the `InnerNetSetting` record that holds one rule.

A .NET exception is modelled as an `Err` result: `FormatException` becomes `FormatError` and `OverflowException` becomes `OverflowError`. The host's byte order, which `BitConverter` and `IPAddress.HostToNetworkOrder` depend on, is a parameter `ByteOrder`. Every classification is proved independent of it.

Modules:

- `Results`: the `Result` type.
- `Text`: ASCII case folding, `Split`, `Join` and `Trim`.
- `Decimal`: digit strings and numbers, `Convert.ToInt32` and `Int32.ToString`.
- `Bits`: bytes, `BitConverter.ToInt32`, widening to `long`, the byte swaps and the masked comparison.
- `IpAddress`: dotted-decimal text and canonical `IPAddress.Parse`.
- `IpHelper`: the helper's operations.
- The properties live in `NormaliseFacts`, `PrefixFacts`, `MatchFacts`, `ClassifyFacts` and `Rfc1918`.

The prefix table is built by `StartsTable(lastClassB)`. It has the same 46 entries in the same order as the constructor:

- `"10."` and `"010."`;
- for every second octet from 16 to `lastClassB`, `"172.N."` and `"172.0N."`;
- `"192.168."`, `"127.0.0.1"`, `"localhost"` and `"::1"`.

The helper's table is `StartsTable(LastClassB)`, with `LastClassB` 35. `PrefixFacts.InnerIpStartsAsWritten` states that it is exactly the constructor's 46 strings.

Three behaviours of the code are easy to miss:

- Normalisation is not idempotent: `"0.0.0.01"` normalises to `"0.0.0.1"`, and that normalises to `"127.0.0.1"`. The alias check runs before the leading zeros are stripped. `NormaliseFacts.FixNearlyIdempotent` proves this is the only exception.
- The comments beside the table (`:48`, `:71`) end the class-B block at 172.31. The table itself reaches `172.35.`, so `"172.32.0.1"` is inner even when no rules are given. See Findings.
- An IPv4-mapped IPv6 address such as `"::ffff:10.0.0.1"` has three dots, so normalisation splits it into four parts. Its first part `"::ffff:10"` is not a number, so `Convert.ToInt32` throws a `FormatException` at `:109`. Classifying it is therefore an error even without rules (`ClassifyFacts.MappedIpV6Fails`). A dual-stack listener reports IPv4 clients in this form, and `GetRemoteIpV4` (`:54-55`) passes the remote address to `FixIpV4` without mapping it to IPv4 first.

## Model

| member | source | states |
|---|---|---|
| Decimal.ParseInt32 | src/Demo.Web/Common/MyIpHelper.cs:109 | `Convert.ToInt32` on one part succeeds exactly for a non-empty digit string of value at most `int.MaxValue`, and then returns that value; a non-digit or empty part is a format error, a too-large value an overflow |
| Decimal.ValueShow | src/Demo.Web/Common/MyIpHelper.cs:109 | reading back the decimal text of a number gives the number |
| Decimal.ShowValue | src/Demo.Web/Common/MyIpHelper.cs:109 | writing the value of a numeral without leading zeros gives the numeral back |
| Decimal.CanonicalInjective | src/Demo.Web/Common/MyIpHelper.cs:109 | two numerals without leading zeros are equal exactly when their values are |
| Decimal.ValueStripLeadingZeros | src/Demo.Web/Common/MyIpHelper.cs:89 | leading zeros do not change a numeral's value |
| Decimal.ShowValueStrips | src/Demo.Web/Common/MyIpHelper.cs:89 | parsing a part and printing it again strips its leading zeros (`"010"` to `"10"`) |
| Decimal.Show | src/Demo.Web/Common/MyIpHelper.cs:109 | `Int32.ToString` writes a number as a numeral without leading zeros; with `ValueShow` it reads back as the number |
| Decimal.StripLeadingZeros | src/Demo.Web/Common/MyIpHelper.cs:89 | the stripped numeral is canonical, is a suffix of the input, and only zeros were removed |
| Text.EqualsIgnoreCaseStable | src/Demo.Web/Common/MyIpHelper.cs:95-98 | on strings with no upper-case letter, the case-insensitive equality used for the aliases is plain equality |
| Text.StartsWithIgnoreCaseStable | src/Demo.Web/Common/MyIpHelper.cs:75 | on strings with no upper-case letter, the modelled case-insensitive prefix test is the plain prefix test |
| Text.Split | src/Demo.Web/Common/MyIpHelper.cs:103 | `Split('.')` yields at least one piece and no piece contains a dot |
| Text.SplitCount | src/Demo.Web/Common/MyIpHelper.cs:103-104 | a split has one more piece than the string has dots, so four parts means exactly three dots |
| Text.JoinSplit | src/Demo.Web/Common/MyIpHelper.cs:103-109 | joining the pieces of a split with the separator restores the string |
| Text.SplitJoin | src/Demo.Web/Common/MyIpHelper.cs:103-109 | splitting a join of dot-free pieces gives the pieces back |
| Text.TrimStart | src/Demo.Web/Common/MyIpHelper.cs:114-116 | the result is a suffix of the input; everything dropped is white space, and the result does not start with white space |
| Text.TrimEnd | src/Demo.Web/Common/MyIpHelper.cs:114-116 | the result is a prefix of the input; everything dropped is white space, and the result does not end with white space |
| Text.Trim | src/Demo.Web/Common/MyIpHelper.cs:114-116 | the trimmed text is no longer than the input and neither starts nor ends with white space |
| Text.TrimCut | src/Demo.Web/Common/MyIpHelper.cs:114-116 | `Trim` removes only white space: the input is white space, then the trimmed text, then white space |
| Text.TrimUntouched | src/Demo.Web/Common/MyIpHelper.cs:114-116 | a string with no white space at either end is its own trim |
| IpAddress.SplitDotted | src/Demo.Web/Common/MyIpHelper.cs:103-109 | the dot-separated pieces of numbers joined with dots are their numerals |
| IpAddress.ParseIpV4 | src/Demo.Web/Common/MyIpHelper.cs:114-116 | what `IPAddress.Parse` accepts is exactly the dotted text of the octets it returns; anything else is a format error |
| IpAddress.ParseDotted | src/Demo.Web/Common/MyIpHelper.cs:114-116 | parsing the dotted text of four octets returns those octets |
| IpAddress.ParseIpV4Exactly | src/Demo.Web/Common/MyIpHelper.cs:114-116 | the modelled `IPAddress.Parse(s)` returns octets `o` if and only if `s` is the dotted text of `o` |
| Bits.FromToBinary | src/Demo.Web/Common/MyIpHelper.cs:118-119 | splitting a byte into bits and summing the bits restores the byte |
| Bits.SignAnd | src/Demo.Web/Common/MyIpHelper.cs:118-119 | the top bit of `x & y` is set exactly when it is set in both bytes |
| Bits.AndByteUnits | src/Demo.Web/Common/MyIpHelper.cs:118-119 | `x & 0xFF` is `x`, and `x & 0` and `0 & x` are 0 |
| Bits.GetBytesToInt32 | src/Demo.Web/Common/MyIpHelper.cs:126-127 | `BitConverter.ToInt32` reads the address bytes losslessly: writing the `int` back in host order gives the bytes |
| Bits.ToInt32GetBytes | src/Demo.Web/Common/MyIpHelper.cs:126-127 | reading the host-order bytes of an `int` gives the `int` |
| Bits.WidenKeepsValue | src/Demo.Web/Common/MyIpHelper.cs:127 | returning the `int` as a `long` keeps its signed value |
| Bits.GetIpAddressLong | src/Demo.Web/Common/MyIpHelper.cs:124-128 | the low four bytes of the `long` are the address bytes in host order |
| Bits.GetIpAddressLongValue | src/Demo.Web/Common/MyIpHelper.cs:124-128 | the `long` denotes the signed number the address bytes denote in host order |
| Bits.NetworkHostRoundTrip | src/Demo.Web/Common/MyIpHelper.cs:118-119 | `NetworkToHostOrder` undoes `HostToNetworkOrder`, and the reverse |
| Bits.HostToNetworkOrderAnd | src/Demo.Web/Common/MyIpHelper.cs:118-119 | reordering bytes commutes with bitwise and |
| Bits.ConversionChainCancels | src/Demo.Web/Common/MyIpHelper.cs:118-121 | the byte-order conversions cancel: the comparison holds exactly when `gateway & mask == candidate & mask` on the `long` values |
| Bits.WidenAnd | src/Demo.Web/Common/MyIpHelper.cs:118-119 | and-ing two widened `int`s is widening their `int` and |
| Bits.ToInt32AndAgree | src/Demo.Web/Common/MyIpHelper.cs:118-121 | the masked `int` readings agree exactly when every octet agrees under its mask octet |
| Bits.MaskedEqualIsSameSubnet | src/Demo.Web/Common/MyIpHelper.cs:118-128 | on every host byte order the comparison `IsMatchIpV4` performs is per-octet equality `g[i] & m[i] == c[i] & m[i]` |
| IpHelper.ClassBStarts | src/Demo.Web/Common/MyIpHelper.cs:18-37 | the class-B block has two entries for each second octet from `lo` to `hi`; the contract states the count, and `PrefixFacts.ClassBEntries` states the strings |
| IpHelper.StartsTable | src/Demo.Web/Common/MyIpHelper.cs:15-42 | the table has six fixed entries plus the class-B block, 46 when the block ends at 35; the contract states the count, and `PrefixFacts.InnerIpStartsAsWritten` states the strings |
| IpHelper.ParseParts | src/Demo.Web/Common/MyIpHelper.cs:109 | converting every part succeeds exactly when each part converts, and gives their values in order; a failure is the error of the first part that fails |
| IpHelper.FixIpV4 | src/Demo.Web/Common/MyIpHelper.cs:95-107 | a non-alias string without exactly three dots comes back unchanged |
| IpHelper.IsMatchIpV4 | src/Demo.Web/Common/MyIpHelper.cs:112-122 | succeeds exactly when mask, gateway and candidate all parse after trimming; the answer is then whether gateway and candidate are in the same subnet under the mask; every failure is a format error |
| IpHelper.FirstDecisive | src/Demo.Web/Common/MyIpHelper.cs:86 | `Any` over throwing verdicts: false iff every verdict is false; true iff a true verdict comes before any error; an error iff an error comes before any true, and then it is the first failing verdict |
| IpHelper.AnySettingMatches | src/Demo.Web/Common/MyIpHelper.cs:86 | `Any` over the rules: true iff some rule matches and every rule before it says no; false iff every rule says no; otherwise the exception of the first rule that throws |
| IpHelper.IsInnerIpWith | src/Demo.Web/Common/MyIpHelper.cs:65-87 | a failed normalisation is the result; a normalised address that starts with a table entry is inner; otherwise no rules means outer and rules mean their `Any`; true needs a prefix or a matching rule, and false means no prefix and every rule said no |
| IpHelper.IsInnerIp | src/Demo.Web/Common/MyIpHelper.cs:65-87 | a normalisation error is the result; a normalised address that starts with an entry of the helper's table is inner, with or without rules; otherwise without rules it is outer, and with rules the result is the rules' `Any`; inner means a prefix or a matching rule; outer means no prefix and every rule said no |
| NormaliseFacts.FixAlias | src/Demo.Web/Common/MyIpHelper.cs:95-101 | every spelling of `127.0.0.1`, `localhost`, `::1` and `0.0.0.1`, in any case, normalises to `"127.0.0.1"` |
| NormaliseFacts.FixShoutedLocalhost | src/Demo.Web/Common/MyIpHelper.cs:96 | `"LOCALHOST"` normalises to `"127.0.0.1"` |
| NormaliseFacts.DottedAlias | src/Demo.Web/Common/MyIpHelper.cs:95-98 | dotted numbers are an alias exactly when they read `127.0.0.1` or `0.0.0.1` |
| NormaliseFacts.FixKeepsIpV6 | src/Demo.Web/Common/MyIpHelper.cs:103-107 | an IPv6 literal without a dotted IPv4 part, such as `"fe80::1"`, comes back unchanged |
| NormaliseFacts.FixRejectsMappedIpV6 | src/Demo.Web/Common/MyIpHelper.cs:103-109 | the IPv4-mapped `"::ffff:10.0.0.1"` splits into four parts, and its non-numeric first part makes normalisation a format error |
| NormaliseFacts.FixKeepsThreeParts | src/Demo.Web/Common/MyIpHelper.cs:103-107 | `"1.2.3"` comes back unchanged |
| NormaliseFacts.FixKeepsPaddedThreeParts | src/Demo.Web/Common/MyIpHelper.cs:103-107 | `"172.016.1"` comes back unchanged, zero padding included |
| NormaliseFacts.FixFourParts | src/Demo.Web/Common/MyIpHelper.cs:103-109 | a non-alias string with three dots normalises exactly when each of its four parts is a digit string no larger than `int.MaxValue`; part `i` of the result is part `i` without leading zeros; a failure is the first failing part's error |
| NormaliseFacts.FixPieces | src/Demo.Web/Common/MyIpHelper.cs:103-109 | four numeric parts are re-joined from their leading-zero-stripped forms |
| NormaliseFacts.FixStripsLeadingZeros | src/Demo.Web/Common/MyIpHelper.cs:89 | `"192.168.1.010"` normalises to `"192.168.1.10"` |
| NormaliseFacts.FixKeepsLargeParts | src/Demo.Web/Common/MyIpHelper.cs:109 | there is no octet range check: `"1.2.3.300"` comes back unchanged |
| NormaliseFacts.FixRejectsEmptyPart | src/Demo.Web/Common/MyIpHelper.cs:109 | an empty part is a format error: `"1..2.3"` fails |
| NormaliseFacts.FixDotted | src/Demo.Web/Common/MyIpHelper.cs:95-109 | dotted numbers, each at most `int.MaxValue`, normalise to themselves, except `"0.0.0.1"`, which becomes `"127.0.0.1"` |
| NormaliseFacts.FixNearlyIdempotent | src/Demo.Web/Common/MyIpHelper.cs:95-109 | normalising a normalised address changes it exactly when it is `"0.0.0.1"` |
| NormaliseFacts.FixSettles | src/Demo.Web/Common/MyIpHelper.cs:95-109 | a second normalisation always succeeds, and a third changes nothing |
| NormaliseFacts.FixNotIdempotent | src/Demo.Web/Common/MyIpHelper.cs:95-109 | `"0.0.0.01"` normalises to `"0.0.0.1"`, which normalises to `"127.0.0.1"` |
| NormaliseFacts.FixAliasZero | src/Demo.Web/Common/MyIpHelper.cs:98-100 | `"0.0.0.1"` normalises to `"127.0.0.1"` |
| PrefixFacts.MatchesAnyPrefixAppend | src/Demo.Web/Common/MyIpHelper.cs:75 | an address matches a concatenated table iff it matches one of the parts |
| PrefixFacts.EntryOnDotted | src/Demo.Web/Common/MyIpHelper.cs:75 | on dotted numbers, the case-insensitive prefix test against a table entry with no upper-case letter is the plain one |
| PrefixFacts.ClassAOnQuad | src/Demo.Web/Common/MyIpHelper.cs:17 | `"10."` starts a dotted address iff its first octet is 10 |
| PrefixFacts.PaddedClassAOnQuad | src/Demo.Web/Common/MyIpHelper.cs:17 | `"010."` never starts a normalised dotted address |
| PrefixFacts.ClassBEntryOnQuad | src/Demo.Web/Common/MyIpHelper.cs:18-37 | `"172.N."` starts a dotted address iff its octets begin 172, N |
| PrefixFacts.PaddedClassBEntryOnQuad | src/Demo.Web/Common/MyIpHelper.cs:18-37 | `"172.0N."` never starts a normalised dotted address |
| PrefixFacts.ClassBOnQuad | src/Demo.Web/Common/MyIpHelper.cs:18-37 | the class-B block from `lo` to `hi` matches a dotted address iff it is 172.x with `lo <= x <= hi` |
| PrefixFacts.ClassCOnQuad | src/Demo.Web/Common/MyIpHelper.cs:38 | `"192.168."` starts a dotted address iff it begins 192.168 |
| PrefixFacts.LoopbackOnQuad | src/Demo.Web/Common/MyIpHelper.cs:39 | `"127.0.0.1"` starts a dotted address iff it is 127.0.0.x with x written starting with 1, such as 127.0.0.10 |
| PrefixFacts.NameOnQuad | src/Demo.Web/Common/MyIpHelper.cs:40-41 | an entry not starting with a digit (`"localhost"`, `"::1"`) never starts a dotted address |
| PrefixFacts.ClassAEntriesOnQuad | src/Demo.Web/Common/MyIpHelper.cs:17 | the two class-A entries together match exactly the 10.x.x.x addresses |
| PrefixFacts.LastEntriesOnQuad | src/Demo.Web/Common/MyIpHelper.cs:38-41 | the last four entries match exactly 192.168.x.x and 127.0.0.x with x starting with 1 |
| PrefixFacts.ClassBEntries | src/Demo.Web/Common/MyIpHelper.cs:18-37 | for each second octet N from `lo` to `hi`, in order, the block holds `"172.N."` and then `"172.0N."` |
| PrefixFacts.InnerIpStartsAsWritten | src/Demo.Web/Common/MyIpHelper.cs:15-42 | the helper's table is, string for string and in order, the 46 entries the constructor lists |
| PrefixFacts.StartsTableOnQuad | src/Demo.Web/Common/MyIpHelper.cs:15-42 | the whole table matches a dotted address iff it is 10.x, 172.16 to 172.`lastClassB`, 192.168, or 127.0.0.x with x starting with 1 |
| MatchFacts.MatchIgnoresByteOrder | src/Demo.Web/Common/MyIpHelper.cs:112-128 | the subnet test gives the same result on little- and big-endian hosts |
| MatchFacts.MatchSymmetric | src/Demo.Web/Common/MyIpHelper.cs:118-121 | swapping gateway and candidate does not change the result |
| MatchFacts.TrimDotted | src/Demo.Web/Common/MyIpHelper.cs:114-116 | dotted text has nothing for `Trim` to remove |
| MatchFacts.MatchDotted | src/Demo.Web/Common/MyIpHelper.cs:112-122 | on dotted octets the test succeeds and answers same-subnet |
| MatchFacts.ZeroMaskMatchesAll | src/Demo.Web/Common/MyIpHelper.cs:112-122 | mask `0.0.0.0` matches every parsable gateway and candidate |
| MatchFacts.FullMaskIsEquality | src/Demo.Web/Common/MyIpHelper.cs:112-122 | mask `255.255.255.255` matches only the gateway itself |
| MatchFacts.SubnetExample | src/Demo.Web/Common/MyIpHelper.cs:112-122 | under `255.255.255.0` with gateway `203.0.113.1`, `203.0.113.200` matches and `203.0.114.1` does not |
| MatchFacts.FirstDecisiveStep | src/Demo.Web/Common/MyIpHelper.cs:86 | `Any` looks past the first verdict only when it is a plain no |
| MatchFacts.FirstDecisiveAppend | src/Demo.Web/Common/MyIpHelper.cs:86 | over two lists of verdicts, the second is read only when the first ends in no |
| MatchFacts.VerdictsAppend | src/Demo.Web/Common/MyIpHelper.cs:86 | the rules are judged one by one: the verdicts on two lists of rules joined are the two lists of verdicts joined |
| MatchFacts.AnySettingWithoutErrors | src/Demo.Web/Common/MyIpHelper.cs:86 | when no rule fails, the result is whether some rule matches |
| MatchFacts.AnySettingIgnoresOrder | src/Demo.Web/Common/MyIpHelper.cs:86 | when no rule fails, reordering or repeating rules does not change the result |
| MatchFacts.AnyStopsAtFirstMatch | src/Demo.Web/Common/MyIpHelper.cs:86 | rules after the first match are never evaluated, so a malformed one raises nothing |
| MatchFacts.AnyStopsAtFirstError | src/Demo.Web/Common/MyIpHelper.cs:86 | a rule that fails before any match ends the search with its error |
| ClassifyFacts.InnerIgnoresByteOrder | src/Demo.Web/Common/MyIpHelper.cs:65-87 | the classification is the same on little- and big-endian hosts |
| ClassifyFacts.ClassifyQuad | src/Demo.Web/Common/MyIpHelper.cs:65-87 | for an address that normalises to dotted numbers: inner if the table matches; otherwise outer without rules, and the rules' `Any` with them |
| ClassifyFacts.ClassBStartsWithOne | src/Demo.Web/Common/MyIpHelper.cs:18-37 | every class-B entry starts with `'1'` |
| ClassifyFacts.TableEntryStart | src/Demo.Web/Common/MyIpHelper.cs:15-42 | every table entry starts with a digit, `'l'` or `':'` |
| ClassifyFacts.NoEntryStarts | src/Demo.Web/Common/MyIpHelper.cs:75 | an address whose first character folds to something else matches no entry |
| ClassifyFacts.NotDotted | src/Demo.Web/Common/MyIpHelper.cs:114-116 | text not starting with a digit is refused by the model's canonical IPv4 parse |
| ClassifyFacts.NonIpV4Classified | src/Demo.Web/Common/MyIpHelper.cs:81-86 | an unmatched address that the canonical parse refuses is outer without rules and a format error with any rule |
| ClassifyFacts.RuleOrderMattersWithErrors | src/Demo.Web/Common/MyIpHelper.cs:86 | once a rule is malformed the order of the rules matters: a matching rule before it gives true, the same rule after it gives a format error |
| ClassifyFacts.FixOctets | src/Demo.Web/Common/MyIpHelper.cs:95-109 | dotted octets other than `0.0.0.1` normalise to themselves |
| ClassifyFacts.ClassBEdgeIsInner | src/Demo.Web/Common/MyIpHelper.cs:33 | `"172.31.255.255"` is inner whatever the rules |
| ClassifyFacts.PrivateIsInner | src/Demo.Web/Common/MyIpHelper.cs:75-79 | `"10.0.0.1"` and `"192.168.1.100"` are inner whatever the rules |
| ClassifyFacts.PublicIsOuter | src/Demo.Web/Common/MyIpHelper.cs:81-84 | `"8.8.8.8"` is outer without rules |
| ClassifyFacts.LoopbackEntryIsAPrefix | src/Demo.Web/Common/MyIpHelper.cs:39 | `"127.0.0.10"` is inner because `"127.0.0.1"` is a prefix of it; `"127.0.0.2"` is outer without rules |
| ClassifyFacts.LocalhostIsInner | src/Demo.Web/Common/MyIpHelper.cs:96 | `"LOCALHOST"` is inner whatever the rules |
| ClassifyFacts.PaddedThreePartsIsInner | src/Demo.Web/Common/MyIpHelper.cs:65-79 | `"172.016.1"`, which has three parts and so is not normalised, is inner whatever the rules, through the padded entry `"172.016."` |
| ClassifyFacts.IpV6Classified | src/Demo.Web/Common/MyIpHelper.cs:81-86 | `"fe80::1"` is outer without rules; with rules the model's canonical IPv4 parse refuses it, where the program answers true or false |
| ClassifyFacts.MappedIpV6Fails | src/Demo.Web/Common/MyIpHelper.cs:65-67 | `"::ffff:10.0.0.1"` is a format error whatever the rules, with either table, although the IPv4 address it carries is in the table |
| Rfc1918.AsWrittenOverreaches | src/Demo.Web/Common/MyIpHelper.cs:15-42 | without rules, a dotted address is inner iff it is private under section 3 of RFC 1918, or 127.0.0.x with x starting with 1, or 172.32 to 172.35 |
| Rfc1918.AsWrittenCounterexample | src/Demo.Web/Common/MyIpHelper.cs:34 | `172.32.0.1` is not private under RFC 1918, yet the helper calls it inner |
| Rfc1918.CorrectedIsRfc1918 | src/Demo.Web/Common/MyIpHelper.cs:46-49 | with the class-B block ending at 172.31, a dotted address is inner without rules iff it is private under RFC 1918 or a 127.0.0.1 prefix |
| Rfc1918.CorrectedPrivateIsInner | src/Demo.Web/Common/MyIpHelper.cs:46-49 | with the corrected table, every RFC 1918 private address is inner whatever the rules |
| Rfc1918.CorrectedBoundary | src/Demo.Web/Common/MyIpHelper.cs:48 | with the corrected table, `"172.32.0.1"` is outer without rules |

## Left out

- `GetRemoteIpV4` (`MyIpHelper.cs:52-56`) reads the connection and then calls `FixIpV4`. Connections are framework state, so only `FixIpV4` is modelled. A null address is not representable, because strings are sequences.
- `GetHostAddresses` (`:58-63`) and `GetNetInfo` (`:159-177`) do DNS lookups and framework formatting. This is I/O.
- The static `Instance` (`:11`) and the `InnerIpStarts` setter (`:50`) are left out. The table is a constant.
- The `NetInfo` and `HttpConnectionInfo` records (`:131-148`) only carry data for serialisation.
- `src/Demo.Web/Startup.cs` and `src/Demo.Web/Controllers/NetController.cs` are web hosting and routing. They are not part of this model.
- A null settings list is the empty sequence. Both give `false` at `:81-84`.
- A null element of the settings list, or a null `SubNetMask` or `DefaultGateway`, throws `NullReferenceException` at `:86` and `:114-115`. The model has no null rules or null strings, so these exceptions are not modelled.
- IpAddress.ParseIpV4Exactly: the "only if" direction holds for the modelled canonical-only parse, not for `IPAddress.Parse`, which also accepts the forms listed on the next line.
- IpAddress.ParseIpV4: accepts only canonical dotted decimal. That is four octets, each at most 255, with no leading zeros. The other forms `IPAddress.Parse` accepts are format errors in the model: octal, hexadecimal, fewer parts and IPv6.
- Decimal.ParseInt32: accepts only ASCII digit strings. `Convert.ToInt32` also accepts a sign, in the current culture's spelling, surrounding white space and trailing NUL characters; the model treats all of these as format errors. So the program normalises `"10.0.0.1\0"` to `"10.0.0.1"` and calls it inner, where the model gives a format error.
- Text.StartsWithIgnoreCaseStable: it is about the modelled prefix test, which uses ASCII folding; the next line says how the program's culture-aware test at `:75` differs.
- Text.EqualsIgnoreCaseStable: case folding is ASCII only. The alias test at `:95-98` also folds non-ASCII letters, and the prefix test at `:75` uses `InvariantCultureIgnoreCase`, a culture-aware comparison that also ignores characters such as the soft hyphen U+00AD. Both are modelled as ASCII case folding, so an address carrying such characters may be classified differently.
- ClassifyFacts.IpV6Classified: with rules, the format error comes from the canonical-only IPv4 parse. `IPAddress.Parse` accepts `"fe80::1"`, and `GetIpAddressLong` then reads the first four of its sixteen bytes, so the program answers true or false instead of failing.

## Findings

| source | as written | input that shows it | evidently intended | confidence | as-written member | corrected member |
|---|---|---|---|---|---|---|
| src/Demo.Web/Common/MyIpHelper.cs:34-37 | the prefix table lists `172.32.` to `172.35.` (and their padded forms) as inner | `IsInnerIp("172.32.0.1")` with no rules returns true | class B ends at 172.31.255.255, as the comments at `:48` and `:71` and section 3 of RFC 1918 say | not executed | Rfc1918.AsWrittenCounterexample | Rfc1918.CorrectedIsRfc1918 |
