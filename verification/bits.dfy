/** The byte-level arithmetic behind the subnet comparison: the address bytes
    read as an `int` by `BitConverter.ToInt32`, the implicit widening of that
    `int` to a `long`, and the `long` overloads of
    `IPAddress.HostToNetworkOrder` / `IPAddress.NetworkToHostOrder`.

    An `int` is represented by its four bytes and a `long` by its eight, most
    significant byte first; `Int32Value` and `Int64Value` give the signed
    numbers they denote. The host's byte order, which
    `BitConverter.IsLittleEndian` reports, is a parameter.
 */
module Bits {

  /** A byte, as the number it denotes. */
  type Byte = n: int | 0 <= n < 256

  /** The four bytes `IPAddress.GetAddressBytes()` returns for an IPv4
      address, in address order (first octet first). */
  type Octets = s: seq<Byte> | |s| == 4 witness [0, 0, 0, 0]

  /** The eight bits of a byte, most significant first. */
  datatype Binary = Binary(b7: bool, b6: bool, b5: bool, b4: bool, b3: bool, b2: bool, b1: bool, b0: bool)

  function Weight(bit: bool, w: nat): nat {
    if bit then w else 0
  }

  /** The byte a bit pattern denotes. */
  function FromBinary(x: Binary): Byte {
    Weight(x.b7, 0x80) + Weight(x.b6, 0x40) + Weight(x.b5, 0x20) + Weight(x.b4, 0x10)
    + Weight(x.b3, 0x08) + Weight(x.b2, 0x04) + Weight(x.b1, 0x02) + Weight(x.b0, 0x01)
  }

  /** The bits of a byte, taken off from the top weight down. */
  function ToBinary(n: Byte): Binary {
    var b7 := n >= 0x80;
    var r6 := n - Weight(b7, 0x80);
    var b6 := r6 >= 0x40;
    var r5 := r6 - Weight(b6, 0x40);
    var b5 := r5 >= 0x20;
    var r4 := r5 - Weight(b5, 0x20);
    var b4 := r4 >= 0x10;
    var r3 := r4 - Weight(b4, 0x10);
    var b3 := r3 >= 0x08;
    var r2 := r3 - Weight(b3, 0x08);
    var b2 := r2 >= 0x04;
    var r1 := r2 - Weight(b2, 0x04);
    var b1 := r1 >= 0x02;
    var r0 := r1 - Weight(b1, 0x02);
    Binary(b7, b6, b5, b4, b3, b2, b1, r0 >= 0x01)
  }

  /** Taking a byte apart into bits and adding the bits up gives the byte. */
  lemma FromToBinary(n: Byte)
    ensures FromBinary(ToBinary(n)) == n
  {
  }

  /** The `&` operator on one byte: bit by bit. */
  function AndByte(x: Byte, y: Byte): Byte {
    var a := ToBinary(x);
    var b := ToBinary(y);
    FromBinary(Binary(a.b7 && b.b7, a.b6 && b.b6, a.b5 && b.b5, a.b4 && b.b4,
                      a.b3 && b.b3, a.b2 && b.b2, a.b1 && b.b1, a.b0 && b.b0))
  }

  /** The top bit of `x & y` is set exactly when it is set in both. */
  lemma SignAnd(x: Byte, y: Byte)
    ensures AndByte(x, y) >= 0x80 <==> x >= 0x80 && y >= 0x80
  {
  }

  /** And-ing with `0xFF` keeps a byte; and-ing with `0` clears it. */
  lemma AndByteUnits(x: Byte)
    ensures AndByte(x, 0xFF) == x
    ensures AndByte(x, 0) == 0 && AndByte(0, x) == 0
  {
    FromToBinary(x);
  }

  datatype ByteOrder = LittleEndian | BigEndian

  /** A 32-bit `int`, most significant byte first. */
  datatype Int32 = Int32(b0: Byte, b1: Byte, b2: Byte, b3: Byte)

  /** A 64-bit `long`, most significant byte first. */
  datatype Int64 = Int64(b0: Byte, b1: Byte, b2: Byte, b3: Byte, b4: Byte, b5: Byte, b6: Byte, b7: Byte)

  /** The unsigned number four bytes denote, most significant first. */
  function Unsigned32(b0: Byte, b1: Byte, b2: Byte, b3: Byte): int {
    b0 * 0x100_0000 + b1 * 0x1_0000 + b2 * 0x100 + b3
  }

  /** The two's-complement value of an `int`. */
  function Int32Value(x: Int32): int {
    var u := Unsigned32(x.b0, x.b1, x.b2, x.b3);
    if x.b0 < 0x80 then u else u - 0x1_0000_0000
  }

  /** The two's-complement value of a `long`. */
  function Int64Value(x: Int64): int {
    var u := Unsigned32(x.b0, x.b1, x.b2, x.b3) * 0x1_0000_0000
           + Unsigned32(x.b4, x.b5, x.b6, x.b7);
    if x.b0 < 0x80 then u else u - 0x1_0000_0000_0000_0000
  }

  /** `BitConverter.ToInt32(bytes, 0)`: the four bytes read as an `int` the
      way the host lays one out in memory. */
  function ToInt32(order: ByteOrder, b: Octets): Int32 {
    match order
    case LittleEndian => Int32(b[3], b[2], b[1], b[0])
    case BigEndian => Int32(b[0], b[1], b[2], b[3])
  }

  /** `BitConverter.GetBytes(int)`: the bytes of an `int` in memory order. */
  function GetBytes(order: ByteOrder, x: Int32): Octets {
    match order
    case LittleEndian => [x.b3, x.b2, x.b1, x.b0]
    case BigEndian => [x.b0, x.b1, x.b2, x.b3]
  }

  /** Reading an `int` from bytes and writing it back gives the bytes. */
  lemma GetBytesToInt32(order: ByteOrder, b: Octets)
    ensures GetBytes(order, ToInt32(order, b)) == b
  {
  }

  /** Writing an `int` to bytes and reading it back gives the `int`. */
  lemma ToInt32GetBytes(order: ByteOrder, x: Int32)
    ensures ToInt32(order, GetBytes(order, x)) == x
  {
  }

  /** The implicit conversion from `int` to `long`: sign extension. */
  function Widen(x: Int32): Int64 {
    var s: Byte := if x.b0 < 0x80 then 0 else 0xFF;
    Int64(s, s, s, s, x.b0, x.b1, x.b2, x.b3)
  }

  /** Widening keeps the value. */
  lemma WidenKeepsValue(x: Int32)
    ensures Int64Value(Widen(x)) == Int32Value(x)
  {
  }

  /** Bitwise and of two `int`s. */
  function And32(x: Int32, y: Int32): Int32 {
    Int32(AndByte(x.b0, y.b0), AndByte(x.b1, y.b1), AndByte(x.b2, y.b2), AndByte(x.b3, y.b3))
  }

  /** Bitwise and of two `long`s. */
  function And64(x: Int64, y: Int64): Int64 {
    Int64(AndByte(x.b0, y.b0), AndByte(x.b1, y.b1), AndByte(x.b2, y.b2), AndByte(x.b3, y.b3),
          AndByte(x.b4, y.b4), AndByte(x.b5, y.b5), AndByte(x.b6, y.b6), AndByte(x.b7, y.b7))
  }

  /** `BinaryPrimitives.ReverseEndianness(long)`: the eight bytes in the
      opposite order. */
  function ReverseBytes(x: Int64): Int64 {
    Int64(x.b7, x.b6, x.b5, x.b4, x.b3, x.b2, x.b1, x.b0)
  }

  /** `IPAddress.HostToNetworkOrder(long)`: network order is big-endian, so a
      little-endian host reverses the bytes and a big-endian host keeps them. */
  function HostToNetworkOrder(order: ByteOrder, host: Int64): Int64 {
    match order
    case LittleEndian => ReverseBytes(host)
    case BigEndian => host
  }

  /** `IPAddress.NetworkToHostOrder(long)`. */
  function NetworkToHostOrder(order: ByteOrder, network: Int64): Int64 {
    match order
    case LittleEndian => ReverseBytes(network)
    case BigEndian => network
  }

  /** Converting to network order and back is the identity. */
  lemma NetworkHostRoundTrip(order: ByteOrder, x: Int64)
    ensures NetworkToHostOrder(order, HostToNetworkOrder(order, x)) == x
    ensures HostToNetworkOrder(order, NetworkToHostOrder(order, x)) == x
  {
  }

  /** The byte-order conversion moves whole bytes, so it commutes with a
      bitwise and. */
  lemma HostToNetworkOrderAnd(order: ByteOrder, a: Int64, b: Int64)
    ensures HostToNetworkOrder(order, And64(a, b))
         == And64(HostToNetworkOrder(order, a), HostToNetworkOrder(order, b))
  {
    hide AndByte;
  }

  /** `GetIpAddressLong`: the address bytes read as an `int` and widened to
      a `long`, so its value is the signed reading of the bytes and its low
      half gives the bytes back. */
  function GetIpAddressLong(order: ByteOrder, b: Octets): (r: Int64)
    ensures GetBytes(order, Int32(r.b4, r.b5, r.b6, r.b7)) == b
  {
    Widen(ToInt32(order, b))
  }

  /** The `long` denotes the signed number the bytes denote in host order. */
  lemma GetIpAddressLongValue(order: ByteOrder, b: Octets)
    ensures Int64Value(GetIpAddressLong(order, b)) == Int32Value(ToInt32(order, b))
  {
    WidenKeepsValue(ToInt32(order, b));
  }

  /** The comparison `IsMatchIpV4` performs on the three `long` values:
      gateway and candidate, each and-ed with the mask in network order and
      converted back to host order, must agree. */
  predicate MaskedLongsEqual(order: ByteOrder, mask: Int64, gateway: Int64, candidate: Int64) {
    var m := HostToNetworkOrder(order, mask);
    NetworkToHostOrder(order, And64(HostToNetworkOrder(order, gateway), m))
      == NetworkToHostOrder(order, And64(HostToNetworkOrder(order, candidate), m))
  }

  /** `IsMatchIpV4`'s comparison on the three parsed addresses. */
  predicate MaskedEqual(order: ByteOrder, mask: Octets, gateway: Octets, candidate: Octets) {
    MaskedLongsEqual(order, GetIpAddressLong(order, mask),
                     GetIpAddressLong(order, gateway), GetIpAddressLong(order, candidate))
  }

  /** Octet `i` of `a` with the bits of mask octet `i` kept. */
  function Masked(a: Octets, mask: Octets, i: nat): Byte
    requires i < 4
  {
    AndByte(a[i], mask[i])
  }

  /** The meaning of subnet membership: octet by octet, gateway and
      candidate agree on every bit the mask selects. */
  predicate SameSubnet(mask: Octets, gateway: Octets, candidate: Octets) {
    forall i :: 0 <= i < 4 ==> Masked(gateway, mask, i) == Masked(candidate, mask, i)
  }

  /** The conversion chain cancels out: the comparison is between the
      masked values themselves. */
  lemma ConversionChainCancels(order: ByteOrder, mask: Int64, gateway: Int64, candidate: Int64)
    ensures MaskedLongsEqual(order, mask, gateway, candidate)
        <==> And64(gateway, mask) == And64(candidate, mask)
  {
    hide AndByte;
    HostToNetworkOrderAnd(order, gateway, mask);
    NetworkHostRoundTrip(order, And64(gateway, mask));
    HostToNetworkOrderAnd(order, candidate, mask);
    NetworkHostRoundTrip(order, And64(candidate, mask));
  }

  /** The sign byte of `x & y` is the and of the sign bytes. */
  lemma SignByteAnd(x: Byte, y: Byte)
    ensures AndByte(if x < 0x80 then 0 else 0xFF, if y < 0x80 then 0 else 0xFF)
         == (if AndByte(x, y) < 0x80 then 0 else 0xFF)
  {
    hide AndByte;
    SignAnd(x, y);
    AndByteUnits(0);
    AndByteUnits(0xFF);
  }

  /** Sign extension commutes with a bitwise and. */
  lemma WidenAnd(x: Int32, y: Int32)
    ensures And64(Widen(x), Widen(y)) == Widen(And32(x, y))
  {
    hide AndByte;
    SignByteAnd(x.b0, y.b0);
  }

  /** Read as `int`s in either byte order, two addresses agree under the
      mask exactly when they agree octet by octet. */
  lemma ToInt32AndAgree(order: ByteOrder, mask: Octets, gateway: Octets, candidate: Octets)
    ensures And32(ToInt32(order, gateway), ToInt32(order, mask))
         == And32(ToInt32(order, candidate), ToInt32(order, mask))
        <==> SameSubnet(mask, gateway, candidate)
  {
    hide AndByte;
    if SameSubnet(mask, gateway, candidate) {
      assert Masked(gateway, mask, 0) == Masked(candidate, mask, 0);
      assert Masked(gateway, mask, 1) == Masked(candidate, mask, 1);
      assert Masked(gateway, mask, 2) == Masked(candidate, mask, 2);
      assert Masked(gateway, mask, 3) == Masked(candidate, mask, 3);
    } else {
      var i :| 0 <= i < 4 && Masked(gateway, mask, i) != Masked(candidate, mask, i);
    }
  }

  /** Whatever the host's byte order, `IsMatchIpV4`'s comparison is octet-wise
      agreement under the mask. */
  lemma MaskedEqualIsSameSubnet(order: ByteOrder, mask: Octets, gateway: Octets, candidate: Octets)
    ensures MaskedEqual(order, mask, gateway, candidate) <==> SameSubnet(mask, gateway, candidate)
  {
    hide AndByte;
    var m := ToInt32(order, mask);
    var g := ToInt32(order, gateway);
    var c := ToInt32(order, candidate);
    ConversionChainCancels(order, Widen(m), Widen(g), Widen(c));
    WidenAnd(g, m);
    WidenAnd(c, m);
    assert Widen(And32(g, m)) == Widen(And32(c, m)) <==> And32(g, m) == And32(c, m);
    ToInt32AndAgree(order, mask, gateway, candidate);
  }
}
