/** The STUN client's codec (RFC 5389): the binding request it builds, the
    attribute loop of the response parser, and the two address attributes. */
module Stun {
  import opened Bytes

  const MAGIC_COOKIE: nat := 0x2112_A442
  const BINDING_REQUEST: nat := 0x0001
  const BINDING_RESPONSE: nat := 0x0101
  const XOR_MAPPED_ADDRESS: nat := 0x0020
  const MAPPED_ADDRESS: nat := 0x0001
  const HEADER_LEN: nat := 20

  datatype Address = Address(ip: nat, port: nat)

  datatype Error =
    | TooShort | UnexpectedType | BadCookie | TransactionMismatch
    | AddressTooShort | NotIpv4 | NoMappedAddress

  datatype Result = Ok(address: Address) | Err(error: Error)

  // ----- Address attributes -----

  function ParseXorMapped(value: Octets): Result {
    if |value| < 8 then Err(AddressTooShort)
    else if value[1] != 0x01 then Err(NotIpv4)
    else Ok(Address(Xor(Word32(value[4], value[5], value[6], value[7]), MAGIC_COOKIE),
                    Xor(Word16(value[2], value[3]), MAGIC_COOKIE / 0x1_0000)))
  }

  function ParseMapped(value: Octets): Result {
    if |value| < 8 then Err(AddressTooShort)
    else if value[1] != 0x01 then Err(NotIpv4)
    else Ok(Address(Word32(value[4], value[5], value[6], value[7]), Word16(value[2], value[3])))
  }

  /** An IPv4 address as XOR-MAPPED-ADDRESS carries it (section 15.2). */
  function XorMappedValue(a: Address): Octets {
    [0, 1] + Octets16(Xor(a.port, MAGIC_COOKIE / 0x1_0000)) + Octets32(Xor(a.ip, MAGIC_COOKIE))
  }

  /** An IPv4 address as MAPPED-ADDRESS carries it (section 15.1). */
  function MappedValue(a: Address): Octets {
    [0, 1] + Octets16(a.port) + Octets32(a.ip)
  }

  predicate IsIpv4(a: Address) {
    a.ip < 0x1_0000_0000 && a.port < 0x1_0000
  }

  lemma Widths()
    ensures Pow2(16) == 0x1_0000 && Pow2(32) == 0x1_0000_0000
  {
    assert Pow2(4) == 16;
    assert Pow2(8) == 256;
    assert Pow2(12) == 4096;
    assert Pow2(16) == 65536;
    assert Pow2(20) == 1048576;
    assert Pow2(24) == 16777216;
    assert Pow2(28) == 268435456;
  }

  /** Where the port and the address stand in either attribute. */
  lemma FieldsRoundTrip(port: nat, ip: nat, two: Octets, four: Octets, rest: Octets)
    requires |two| == 2 && Word16(two[0], two[1]) == port
    requires |four| == 4 && Word32(four[0], four[1], four[2], four[3]) == ip
    ensures var value := [0, 1] + two + four + rest;
      && |value| >= 8 && value[1] == 1
      && Word16(value[2], value[3]) == port && Word32(value[4], value[5], value[6], value[7]) == ip
  {
    hide Word16, Word32;
    var value := [0, 1] + two + four + rest;
    assert value[2] == two[0] && value[3] == two[1];
    assert value[4] == four[0] && value[5] == four[1] && value[6] == four[2] && value[7] == four[3];
  }

  /** Both parsers invert their encoding, for every IPv4 address and port,
      whatever follows the eight octets. */
  lemma AddressRoundTrip(a: Address, rest: Octets)
    requires IsIpv4(a)
    ensures ParseXorMapped(XorMappedValue(a) + rest) == Ok(a)
    ensures ParseMapped(MappedValue(a) + rest) == Ok(a)
  {
    hide Xor, Octets16, Octets32, Word16, Word32;
    Widths();
    XorWidth(a.port, MAGIC_COOKIE / 0x1_0000, 16);
    XorWidth(a.ip, MAGIC_COOKIE, 32);
    XorTwice(a.port, MAGIC_COOKIE / 0x1_0000);
    XorTwice(a.ip, MAGIC_COOKIE);
    var p, i := Xor(a.port, MAGIC_COOKIE / 0x1_0000), Xor(a.ip, MAGIC_COOKIE);
    FieldsRoundTrip(p, i, Octets16(p), Octets32(i), rest);
    FieldsRoundTrip(a.port, a.ip, Octets16(a.port), Octets32(a.ip), rest);
  }

  // ----- The attribute loop -----

  /** Attributes are padded to a multiple of four octets. */
  function Padded(n: nat): (r: nat)
    ensures n <= r < n + 4 && r % 4 == 0
  {
    (n + 3) / 4 * 4
  }

  predicate IsAddressKind(kind: nat) {
    kind == XOR_MAPPED_ADDRESS || kind == MAPPED_ADDRESS
  }

  function ParseAddress(kind: nat, value: Octets): Result {
    if kind == XOR_MAPPED_ADDRESS then ParseXorMapped(value) else ParseMapped(value)
  }

  /** The first address attribute at or after `offset`. */
  function FindAddress(attrs: Octets, offset: nat): Result
    decreases |attrs| - offset
  {
    if offset + 4 > |attrs| then Err(NoMappedAddress) else
      var kind, len := Word16(attrs[offset], attrs[offset + 1]), Word16(attrs[offset + 2], attrs[offset + 3]);
      if offset + 4 + len > |attrs| then Err(NoMappedAddress)
      else if IsAddressKind(kind) then ParseAddress(kind, attrs[offset + 4..offset + 4 + len])
      else FindAddress(attrs, offset + 4 + Padded(len))
  }

  function Least(x: nat, y: nat): nat {
    if x < y then x else y
  }

  function ParseResponse(data: Octets, txId: Octets): Result {
    if |data| < HEADER_LEN then Err(TooShort)
    else if Word16(data[0], data[1]) != BINDING_RESPONSE then Err(UnexpectedType)
    else if Word32(data[4], data[5], data[6], data[7]) != MAGIC_COOKIE then Err(BadCookie)
    else if data[8..20] != txId then Err(TransactionMismatch)
    else FindAddress(data[HEADER_LEN..Least(HEADER_LEN + Word16(data[2], data[3]), |data|)], 0)
  }

  method ParseBindingResponse(data: Octets, txId: Octets) returns (r: Result)
    ensures r == ParseResponse(data, txId)
  {
    if |data| < HEADER_LEN {
      return Err(TooShort);
    }
    var msgType, msgLen := Word16(data[0], data[1]), Word16(data[2], data[3]);
    if msgType != BINDING_RESPONSE {
      return Err(UnexpectedType);
    }
    if Word32(data[4], data[5], data[6], data[7]) != MAGIC_COOKIE {
      return Err(BadCookie);
    }
    if data[8..20] != txId {
      return Err(TransactionMismatch);
    }
    var attrs := data[HEADER_LEN..Least(HEADER_LEN + msgLen, |data|)];
    var offset := 0;
    while offset + 4 <= |attrs|
      invariant FindAddress(attrs, offset) == FindAddress(attrs, 0)
    {
      var kind, len := Word16(attrs[offset], attrs[offset + 1]), Word16(attrs[offset + 2], attrs[offset + 3]);
      if offset + 4 + len > |attrs| {
        break;
      }
      if IsAddressKind(kind) {
        return ParseAddress(kind, attrs[offset + 4..offset + 4 + len]);
      }
      offset := offset + 4 + Padded(len);
    }
    return Err(NoMappedAddress);
  }

  lemma {:induction false} FindAddressErrors(attrs: Octets, offset: nat)
    ensures var r := FindAddress(attrs, offset);
      r.Err? ==> r.error in {AddressTooShort, NotIpv4, NoMappedAddress}
    decreases |attrs| - offset
  {
    if offset + 4 <= |attrs| {
      FindAddressErrors(attrs, offset + 4 + Padded(Word16(attrs[offset + 2], attrs[offset + 3])));
    }
  }

  /** What is rejected, in this order: fewer than 20 octets; a type other than 0x0101;
      octets 4 to 8 other than the magic cookie; and a transaction id other than the
      one asked with. Nothing else is rejected before the attributes are read. */
  lemma ResponseRejections(data: Octets, txId: Octets)
    ensures var r := ParseResponse(data, txId);
      && (r == Err(TooShort) <==> |data| < 20)
      && (r == Err(UnexpectedType) <==> |data| >= 20 && data[..2] != [0x01, 0x01])
      && (r == Err(BadCookie) <==>
            |data| >= 20 && data[..2] == [0x01, 0x01] && data[4..8] != [0x21, 0x12, 0xA4, 0x42])
      && (r == Err(TransactionMismatch) <==>
            |data| >= 20 && data[..2] == [0x01, 0x01] && data[4..8] == [0x21, 0x12, 0xA4, 0x42] && data[8..20] != txId)
  {
    if |data| >= 20 {
      TypeAndCookie(data);
      hide FindAddress;
      FindAddressErrors(data[HEADER_LEN..Least(HEADER_LEN + Word16(data[2], data[3]), |data|)], 0);
    }
  }

  lemma TypeAndCookie(data: Octets)
    requires |data| >= 20
    ensures Word16(data[0], data[1]) == BINDING_RESPONSE <==> data[..2] == [0x01, 0x01]
    ensures Word32(data[4], data[5], data[6], data[7]) == MAGIC_COOKIE <==> data[4..8] == [0x21, 0x12, 0xA4, 0x42]
  {
    BigEndian(data[0], data[1], 0, 0);
    BigEndian(data[4], data[5], data[6], data[7]);
    assert data[..2] == [data[0], data[1]] && data[4..8] == [data[4], data[5], data[6], data[7]];
  }

  /** The sample response of RFC 5769, section 2.2: 192.0.2.1, port 32853. */
  lemma SampleAddress()
    ensures ParseXorMapped([0x00, 0x01, 0xA1, 0x47, 0xE1, 0x12, 0xA6, 0x43]) == Ok(Address(0xC000_0201, 32853))
    ensures ParseMapped([0x00, 0x01, 0x80, 0x55, 0xC0, 0x00, 0x02, 0x01]) == Ok(Address(0xC000_0201, 32853))
  {
    hide Xor;
    BigEndian(0xE1, 0x12, 0xA6, 0x43);
    BigEndian(0xA1, 0x47, 0, 0);
    BigEndian(0xC0, 0x00, 0x02, 0x01);
    BigEndian(0x80, 0x55, 0, 0);
    SampleXor();
  }

  lemma SampleXor()
    ensures Xor(0xE112_A643, 0x2112_A442) == 0xC000_0201 && Xor(0xA147, 0x2112) == 0x8055
  {
    SampleOctets();
    XorOctet(0xE1, 0x12, 0x21, 0x12);
    XorOctet(0xE112, 0xA6, 0x2112, 0xA4);
    XorOctet(0xE112A6, 0x43, 0x2112A4, 0x42);
    XorOctet(0xA1, 0x47, 0x21, 0x12);
  }

  /** Exclusive or of numbers that end in the octets `l` and `m`. */
  lemma {:induction false} XorOctet(h: nat, l: Octet, g: nat, m: Octet)
    ensures Xor(0x100 * h + l, 0x100 * g + m) == 0x100 * Xor(h, g) + Xor(l, m)
  {
    assert Pow2(2) == 4;
    assert Pow2(4) == 0x10;
    assert Pow2(6) == 0x40;
    assert Pow2(8) == 0x100;
    ShiftOctet(h);
    ShiftOctet(g);
    ShiftOctet(Xor(h, g));
    hide Xor;
    XorParts(h, l, g, m, 8);
  }

  lemma {:induction false} ShiftOctet(x: nat)
    ensures Shifted(x, 4) == 0x10 * x && Shifted(x, 8) == 0x100 * x
  {
    assert Shifted(x, 1) == 2 * x;
    assert Shifted(x, 3) == 8 * x;
    assert Shifted(x, 5) == 0x20 * x;
    assert Shifted(x, 7) == 0x80 * x;
  }

  lemma SampleOctets()
    ensures Xor(0xE1, 0x21) == 0xC0 && Xor(0x12, 0x12) == 0x00 && Xor(0xA6, 0xA4) == 0x02 && Xor(0x43, 0x42) == 0x01
    ensures Xor(0xA1, 0x21) == 0x80 && Xor(0x47, 0x12) == 0x55
  {
    SampleDigits();
    XorHexDigit(0xE, 1, 2, 1);
    XorHexDigit(1, 2, 1, 2);
    XorHexDigit(0xA, 6, 0xA, 4);
    XorHexDigit(4, 3, 4, 2);
    XorHexDigit(0xA, 1, 2, 1);
    XorHexDigit(4, 7, 1, 2);
  }

  lemma {:induction false} XorHexDigit(h: nat, l: nat, g: nat, m: nat)
    requires l < 0x10 && m < 0x10
    ensures Xor(0x10 * h + l, 0x10 * g + m) == 0x10 * Xor(h, g) + Xor(l, m)
  {
    assert Pow2(4) == 0x10;
    ShiftOctet(h);
    ShiftOctet(g);
    ShiftOctet(Xor(h, g));
    hide Xor;
    XorParts(h, l, g, m, 4);
  }

  lemma SampleDigits()
    ensures Xor(0xE, 0x2) == 0xC && Xor(0x1, 0x1) == 0 && Xor(0xA, 0xA) == 0 && Xor(0x6, 0x4) == 2 && Xor(0x2, 0x2) == 0
    ensures Xor(0x4, 0x4) == 0 && Xor(0x3, 0x2) == 1 && Xor(0xA, 0x2) == 8 && Xor(0x4, 0x1) == 5 && Xor(0x7, 0x2) == 5
  {
  }

  // ----- Encoding, and the round trip -----

  /** One attribute; the padding octets may be anything. */
  datatype Attribute = Attribute(kind: nat, value: Octets, padding: Octets) {
    predicate Valid() {
      kind < 0x1_0000 && |value| < 0x1_0000 && |padding| == Padded(|value|) - |value|
    }
  }

  function EncodeAttribute(a: Attribute): Octets {
    Octets16(a.kind) + Octets16(|a.value|) + a.value + a.padding
  }

  function Encode(attributes: seq<Attribute>): Octets {
    if attributes == [] then [] else EncodeAttribute(attributes[0]) + Encode(attributes[1..])
  }

  /** What the response means: the decoding of its first address attribute. */
  function FirstAddress(attributes: seq<Attribute>): Result {
    if attributes == [] then Err(NoMappedAddress)
    else if IsAddressKind(attributes[0].kind) then ParseAddress(attributes[0].kind, attributes[0].value)
    else FirstAddress(attributes[1..])
  }

  predicate AllValid(attributes: seq<Attribute>) {
    forall i :: 0 <= i < |attributes| ==> attributes[i].Valid()
  }

  /** Skipping a prefix of the attribute octets. */
  lemma {:induction false} FindInTail(front: Octets, attrs: Octets, offset: nat)
    ensures FindAddress(front + attrs, |front| + offset) == FindAddress(attrs, offset)
    decreases |attrs| - offset
  {
    hide ParseAddress, Word16;
    if offset + 4 <= |attrs| {
      var len := Word16(attrs[offset + 2], attrs[offset + 3]);
      if offset + 4 + len <= |attrs| {
        assert (front + attrs)[|front| + offset + 4..|front| + offset + 4 + len] == attrs[offset + 4..offset + 4 + len];
        FindInTail(front, attrs, offset + 4 + Padded(len));
      }
    }
  }

  /** The fields of an encoded attribute at the front of some octets. */
  lemma EncodedFields(a: Attribute, rest: Octets)
    requires a.Valid()
    ensures var attrs := EncodeAttribute(a) + rest;
      && |attrs| >= 4 + |a.value| && |EncodeAttribute(a)| == 4 + Padded(|a.value|)
      && Word16(attrs[0], attrs[1]) == a.kind && Word16(attrs[2], attrs[3]) == |a.value|
      && attrs[4..4 + |a.value|] == a.value
  {
    hide Octets16, Word16;
    var attrs := EncodeAttribute(a) + rest;
    assert attrs[..2] == Octets16(a.kind) && attrs[2..4] == Octets16(|a.value|);
    assert attrs[0] == Octets16(a.kind)[0] && attrs[1] == Octets16(a.kind)[1];
    assert attrs[2] == Octets16(|a.value|)[0] && attrs[3] == Octets16(|a.value|)[1];
  }

  /** Reading one encoded attribute. */
  lemma {:induction false} FindInEncoded(a: Attribute, rest: Octets)
    requires a.Valid()
    ensures FindAddress(EncodeAttribute(a) + rest, 0)
      == if IsAddressKind(a.kind) then ParseAddress(a.kind, a.value) else FindAddress(rest, 0)
  {
    hide ParseAddress, Octets16, Word16, EncodeAttribute, Padded;
    EncodedFields(a, rest);
    FindInTail(EncodeAttribute(a), rest, 0);
  }

  lemma {:induction false} FindInList(attributes: seq<Attribute>)
    requires AllValid(attributes)
    ensures FindAddress(Encode(attributes), 0) == FirstAddress(attributes)
  {
    hide ParseAddress, EncodeAttribute;
    if attributes != [] {
      FindInList(attributes[1..]);
      FindInEncoded(attributes[0], Encode(attributes[1..]));
    }
  }

  function EncodeResponse(attributes: seq<Attribute>, txId: Octets): Octets {
    Octets16(BINDING_RESPONSE) + Octets16(|Encode(attributes)|) + Octets32(MAGIC_COOKIE) + txId + Encode(attributes)
  }

  /** For every list of attributes that fits the length field, any padding and
      anything after the message, parsing returns the decoding of the first
      address attribute. */
  lemma {:induction false} ResponseRoundTrip(attributes: seq<Attribute>, txId: Octets, trailer: Octets)
    requires AllValid(attributes) && |Encode(attributes)| < 0x1_0000 && |txId| == 12
    ensures ParseResponse(EncodeResponse(attributes, txId) + trailer, txId) == FirstAddress(attributes)
  {
    hide FindAddress, FirstAddress, Encode, Octets16, Octets32, Word16, Word32;
    var body := Encode(attributes);
    var data := EncodeResponse(attributes, txId) + trailer;
    assert data[..2] == Octets16(BINDING_RESPONSE) && data[2..4] == Octets16(|body|)
      && data[4..8] == Octets32(MAGIC_COOKIE);
    assert data[8..20] == txId;
    assert data[HEADER_LEN..HEADER_LEN + |body|] == body;
    FindInList(attributes);
  }

  lemma {:induction false} FirstOfKind(others: seq<Attribute>, rest: seq<Attribute>)
    requires forall i :: 0 <= i < |others| ==> !IsAddressKind(others[i].kind)
    ensures FirstAddress(others + rest) == FirstAddress(rest)
  {
    if others == [] {
      assert others + rest == rest;
    } else {
      FirstOfKind(others[1..], rest);
      assert (others + rest)[1..] == others[1..] + rest;
    }
  }

  /** An attribute of either kind that carries an address. */
  function Reporting(a: Address, xored: bool): Attribute {
    if xored then Attribute(0x0020, XorMappedValue(a), []) else Attribute(0x0001, MappedValue(a), [])
  }

  predicate NoAddresses(attributes: seq<Attribute>) {
    forall i :: 0 <= i < |attributes| ==> attributes[i].kind != 0x0020 && attributes[i].kind != 0x0001
  }

  /** The first attribute of either kind decides, and no other kind is mistaken for
      one: without any the client reports that there was none. */
  lemma {:induction false} FirstReportDecides(a: Address, others: seq<Attribute>, after: seq<Attribute>, xored: bool)
    requires IsIpv4(a) && NoAddresses(others)
    ensures FirstAddress(others + [Reporting(a, xored)] + after) == Ok(a)
    ensures FirstAddress(others) == Err(NoMappedAddress)
  {
    var first := Reporting(a, xored);
    FirstOfKind(others, [first] + after);
    assert others + ([first] + after) == others + [first] + after;
    FirstOfKind(others, []);
    assert others + [] == others;
    AddressRoundTrip(a, []);
    assert XorMappedValue(a) + [] == XorMappedValue(a) && MappedValue(a) + [] == MappedValue(a);
  }

  /** So the address a server reports first, by either attribute, is the address the
      client learns, and without any it learns that there was none. */
  lemma {:induction false} ReportedAddressIsLearned(a: Address, others: seq<Attribute>, after: seq<Attribute>,
      xored: bool, txId: Octets, trailer: Octets)
    requires IsIpv4(a) && |txId| == 12 && AllValid(others) && AllValid(after) && NoAddresses(others)
    requires |Encode(others + [Reporting(a, xored)] + after)| < 0x1_0000 && |Encode(others)| < 0x1_0000
    ensures ParseResponse(EncodeResponse(others + [Reporting(a, xored)] + after, txId) + trailer, txId) == Ok(a)
    ensures ParseResponse(EncodeResponse(others, txId) + trailer, txId) == Err(NoMappedAddress)
  {
    hide *;
    ReportIsValid(a, xored);
    ValidInRow(others, Reporting(a, xored), after);
    FirstReportDecides(a, others, after, xored);
    ResponseRoundTrip(others + [Reporting(a, xored)] + after, txId, trailer);
    ResponseRoundTrip(others, txId, trailer);
  }

  lemma ReportIsValid(a: Address, xored: bool)
    ensures Reporting(a, xored).Valid()
  {
    hide Octets16, Octets32, Xor;
  }

  lemma ValidInRow(front: seq<Attribute>, a: Attribute, rest: seq<Attribute>)
    requires AllValid(front) && a.Valid() && AllValid(rest)
    ensures AllValid(front + [a] + rest)
  {
  }

  // ----- The request -----

  method BuildBindingRequest(txId: Octets) returns (msg: array<Octet>)
    requires |txId| == 12
    ensures fresh(msg)
    ensures msg[..] == [0x00, 0x01, 0x00, 0x00, 0x21, 0x12, 0xA4, 0x42] + txId
  {
    BigEndian(0x00, 0x01, 0x00, 0x00);
    BigEndian(0x21, 0x12, 0xA4, 0x42);
    assert Octets16(BINDING_REQUEST) == [0x00, 0x01] && Octets16(0) == [0x00, 0x00];
    hide Octets16, Octets32;
    msg := new Octet[20](_ => 0);
    CopyAt(msg, 0, Octets16(BINDING_REQUEST));
    assert msg[..2] == Octets16(BINDING_REQUEST);
    CopyAt(msg, 2, Octets16(0));
    assert msg[..4] == msg[..2] + Octets16(0);
    CopyAt(msg, 4, Octets32(MAGIC_COOKIE));
    assert msg[..8] == msg[..4] + Octets32(MAGIC_COOKIE);
    CopyAt(msg, 8, txId);
    assert msg[..] == msg[..8] + txId;
  }

  /** Copies `from` into the buffer, leaving what comes before it unchanged. */
  method CopyAt(msg: array<Octet>, at: nat, from: Octets)
    requires at + |from| <= msg.Length
    modifies msg
    ensures msg[..at] == old(msg[..at]) && msg[..at + |from|] == old(msg[..at]) + from
    ensures msg[at + |from|..] == old(msg[at + |from|..])
  {
    for i := 0 to |from|
      invariant msg[..at] == old(msg[..at]) && msg[..at + i] == old(msg[..at]) + from[..i]
      invariant msg[at + |from|..] == old(msg[at + |from|..])
    {
      msg[at + i] := from[i];
      assert msg[..at + i + 1] == msg[..at + i] + [from[i]];
    }
  }
}
