/** The message stream between two peers: padding, encryption, length-prefixed
    frames, and reading a stream back. The cipher is a parameter. */
module Framing {
  import opened Bytes
  import opened Options

  const PADDING_BLOCK: nat := 256
  const NONCE_LEN: nat := 12

  // ----- Padding -----

  /** The length of `size` octets with their two-octet prefix, rounded up. */
  function PaddedLength(size: nat): nat {
    (size + 2 + PADDING_BLOCK - 1) / PADDING_BLOCK * PADDING_BLOCK
  }

  /** The padded length is the least multiple of the block that has room. */
  lemma PaddedLengthIsLeast(size: nat, k: nat)
    ensures PaddedLength(size) % PADDING_BLOCK == 0 && PaddedLength(size) >= size + 2
    ensures k * PADDING_BLOCK >= size + 2 ==> k * PADDING_BLOCK >= PaddedLength(size)
  {
  }

  /** `fill` supplies the random octets. */
  function Pad(data: Octets, fill: Octets): (r: Octets)
    requires |fill| == PaddedLength(|data|) - |data| - 2
    ensures |r| == PaddedLength(|data|)
  {
    Octets16(|data|) + data + fill
  }

  method PadMessage(data: Octets) returns (out: Octets)
    ensures |out| == PaddedLength(|data|)
    ensures exists fill :: |fill| == PaddedLength(|data|) - |data| - 2 && out == Pad(data, fill)
    ensures Unpad(out) == Some(data[..|data| % 0x1_0000])
  {
    var contentLen := 2 + |data|;
    var paddedLen := (contentLen + PADDING_BLOCK - 1) / PADDING_BLOCK * PADDING_BLOCK;
    var padOctets := paddedLen - contentLen;
    out := Octets16(|data|);
    out := out + data;
    var zeros: Octets := seq(padOctets, _ => 0);
    assert |zeros| == padOctets;
    var fill: Octets :| |fill| == padOctets;
    UnpadPad(data, fill);
    out := out + fill;
  }

  function Unpad(padded: Octets): Option<Octets> {
    if |padded| < 2 then None else
      var size := Word16(padded[0], padded[1]);
      if 2 + size > |padded| then None else Some(padded[2..2 + size])
  }

  /** Unpadding recovers exactly the data that fits the length prefix; of anything
      longer it returns a shorter prefix, because the length has wrapped. */
  lemma UnpadPad(data: Octets, fill: Octets)
    requires |fill| == PaddedLength(|data|) - |data| - 2
    ensures Unpad(Pad(data, fill)) == Some(data[..|data| % 0x1_0000])
    ensures Unpad(Pad(data, fill)) == Some(data) <==> |data| < 0x1_0000
  {
    hide Octets16, Word16;
    var padded := Pad(data, fill);
    assert padded[..2] == Octets16(|data|);
    assert padded[0] == Octets16(|data|)[0] && padded[1] == Octets16(|data|)[1];
    var size := |data| % 0x1_0000;
    assert padded[2..2 + size] == data[..size];
  }

  /** The layout on the wire: the length in two octets, most significant first, then
      the data, then fill up to a multiple of the block. */
  lemma PadLayout(data: Octets, fill: Octets)
    requires |fill| == PaddedLength(|data|) - |data| - 2 && |data| < 0x1_0000
    ensures var padded := Pad(data, fill);
      Value(padded[..2]) == |data| && padded[2..2 + |data|] == data && |padded| % 256 == 0
  {
    hide Octets16, PaddedLength, Value;
    PaddedLengthIsLeast(|data|, 0);
    var padded, two := Pad(data, fill), Octets16(|data|);
    assert padded == two + data + fill;
    hide Pad;
    assert padded[..2] == two;
    assert padded[2..2 + |data|] == data;
    assert two == [two[0], two[1]];
  }

  /** Cut short anywhere before the fill, a padded message cannot be unpadded. */
  lemma CutShort(data: Octets, fill: Octets, k: nat)
    requires |fill| == PaddedLength(|data|) - |data| - 2 && |data| < 0x1_0000 && k < 2 + |data|
    ensures Unpad(Pad(data, fill)[..k]) == None
  {
    hide Octets16, Word16;
    var padded, two := Pad(data, fill), Octets16(|data|);
    assert padded[0] == two[0] && padded[1] == two[1];
  }

  // ----- Frames -----

  datatype Frame = Frame(length: nat, payload: Octets, encrypted: bool)

  function PlainFrame(payload: Octets): Frame {
    Frame(|payload| % 0x1_0000_0000, payload, false)
  }

  function EncryptedFrame(nonce: Octets, data: Octets): Frame {
    Frame(|nonce + data| % 0x1_0000_0000, nonce + data, true)
  }

  function FrameOctets(f: Frame): Octets {
    Octets32(f.length) + f.payload
  }

  /** Reads one frame off the front of `data`. */
  function ReadFrame(data: Octets): Option<Frame> {
    if |data| < 4 then None else
      var length := Word32(data[0], data[1], data[2], data[3]);
      if |data| < 4 + length then None else Some(Frame(length, data[4..4 + length], false))
  }

  function ReadEncryptedFrame(data: Octets): Option<Frame> {
    if |data| < 4 then None else
      var length := Word32(data[0], data[1], data[2], data[3]);
      if |data| < 4 + length || length < NONCE_LEN then None else Some(Frame(length, data[4..4 + length], true))
  }

  function ExtractEncrypted(f: Frame): Option<(Octets, Octets)> {
    if !f.encrypted || |f.payload| < NONCE_LEN then None
    else Some((f.payload[..NONCE_LEN], f.payload[NONCE_LEN..]))
  }

  lemma ReadPayload(payload: Octets, rest: Octets)
    requires |payload| < 0x1_0000_0000
    ensures var data := Octets32(|payload|) + payload + rest;
      && |data| >= 4 + |payload| && Word32(data[0], data[1], data[2], data[3]) == |payload|
      && data[4..4 + |payload|] == payload && data[4 + |payload|..] == rest
  {
    hide Octets32, Word32;
    var data := Octets32(|payload|) + payload + rest;
    assert data[..4] == Octets32(|payload|);
    assert data[0] == Octets32(|payload|)[0] && data[1] == Octets32(|payload|)[1];
    assert data[2] == Octets32(|payload|)[2] && data[3] == Octets32(|payload|)[3];
  }

  /** A frame reads back as itself, whatever follows it in the stream, and an
      encrypted one splits back into its nonce and ciphertext. */
  lemma FrameRoundTrip(payload: Octets, nonce: Octets, data: Octets, rest: Octets)
    requires |payload| < 0x1_0000_0000 && |nonce| == NONCE_LEN && |nonce + data| < 0x1_0000_0000
    ensures ReadFrame(FrameOctets(PlainFrame(payload)) + rest) == Some(PlainFrame(payload))
    ensures ReadEncryptedFrame(FrameOctets(EncryptedFrame(nonce, data)) + rest) == Some(EncryptedFrame(nonce, data))
    ensures ExtractEncrypted(EncryptedFrame(nonce, data)) == Some((nonce, data))
  {
    hide Octets32, Word32;
    ReadPayload(payload, rest);
    ReadPayload(nonce + data, rest);
  }

  /** The layout on the wire: the length of what follows in four octets, most
      significant first, and then the payload, for an encrypted frame the twelve
      octets of the nonce before the ciphertext. */
  lemma FrameLayout(nonce: Octets, data: Octets)
    requires |nonce| == 12 && 12 + |data| < 0x1_0000_0000
    ensures var o := FrameOctets(EncryptedFrame(nonce, data));
      |o| == 16 + |data| && Value(o[..4]) == 12 + |data| && o[4..16] == nonce && o[16..] == data
  {
    hide Octets32, Value;
    var length := |nonce + data|;
    var o := FrameOctets(EncryptedFrame(nonce, data));
    assert o[..4] == Octets32(length);
    assert o[0] == Octets32(length)[0] && o[1] == Octets32(length)[1];
    assert o[2] == Octets32(length)[2] && o[3] == Octets32(length)[3];
    assert o[..4] == [o[0], o[1], o[2], o[3]];
  }

  /** No part of a frame is taken for a frame, and what is too short to hold a nonce
      is not taken for an encrypted one. */
  lemma PartialFrame(payload: Octets, k: nat)
    requires |payload| < 0x1_0000_0000 && k <= 4 + |payload|
    ensures var o := FrameOctets(PlainFrame(payload));
      && (ReadFrame(o[..k]) == None <==> k < |o|)
      && (ReadEncryptedFrame(o[..k]) == None <==> k < |o| || |payload| < 12)
    ensures ExtractEncrypted(PlainFrame(payload)) == None
    ensures ExtractEncrypted(Frame(|payload|, payload, true)) == None <==> |payload| < 12
  {
    hide Octets32, Word32;
    ReadPayload(payload, []);
    var o := FrameOctets(PlainFrame(payload));
    assert o == Octets32(|payload|) + payload + [];
  }

  // ----- Sessions -----

  type Key = Octets

  /** An authenticated cipher: decryption is given the ciphertext, key and nonce. */
  datatype Cipher = Cipher(
    encrypt: (Octets, Key, Octets) -> Octets,
    decrypt: (Octets, Key, Octets) -> Option<Octets>)

  /** Decryption inverts encryption, and ciphertexts of padded messages fit a frame. */
  ghost predicate Invertible(c: Cipher) {
    forall plain, key, nonce :: c.decrypt(c.encrypt(plain, key, nonce), key, nonce) == Some(plain)
  }

  ghost predicate FitsFrame(c: Cipher, plain: Octets, key: Key, nonce: Octets) {
    |nonce| == NONCE_LEN && NONCE_LEN + |c.encrypt(plain, key, nonce)| < 0x1_0000_0000
  }

  /** One payload to send, with the random octets chosen for it. */
  datatype Sending = Sending(payload: Octets, fill: Octets, nonce: Octets)

  /** The fill is as long as the padding needs. */
  predicate Filled(s: Sending) {
    |s.fill| == PaddedLength(|s.payload|) - |s.payload| - 2
  }

  /** What is written fits the four-octet length of a frame. */
  ghost predicate CanSend(c: Cipher, key: Option<Key>, s: Sending) {
    && (key.None? ==> |s.payload| < 0x1_0000_0000)
    && (key.Some? ==> Filled(s) && FitsFrame(c, Pad(s.payload, s.fill), key.value, s.nonce))
  }

  ghost predicate CanSendAll(c: Cipher, key: Option<Key>, sendings: seq<Sending>) {
    && (forall i :: 0 <= i < |sendings| ==> CanSend(c, key, sendings[i]))
    && (key.Some? ==> forall i :: 0 <= i < |sendings| ==> Filled(sendings[i]))
  }

  /** The octets written for one payload: encrypted under the session key, or
      plain without one. */
  function Write(c: Cipher, key: Option<Key>, s: Sending): Octets
    requires key.Some? ==> Filled(s)
  {
    match key
    case None => FrameOctets(PlainFrame(s.payload))
    case Some(k) => FrameOctets(EncryptedFrame(s.nonce, c.encrypt(Pad(s.payload, s.fill), k, s.nonce)))
  }

  /** What the reader makes of one frame's payload: decrypt and unpad if it can,
      otherwise take the octets as they are. */
  function Open(c: Cipher, key: Option<Key>, payload: Octets): Octets {
    if key.None? || |payload| < NONCE_LEN then payload else
      var plain := c.decrypt(payload[NONCE_LEN..], key.value, payload[..NONCE_LEN]);
      if plain.None? then payload else
        var unpadded := Unpad(plain.value);
        if unpadded.None? then plain.value else unpadded.value
  }

  /** Without a key, or when it is too short or cannot be decrypted, a payload is
      taken as it is; when what it decrypts to is not padded, that is taken whole. */
  lemma OpenFallsBack(c: Cipher, key: Option<Key>, payload: Octets)
    ensures key.None? || |payload| < 12 ==> Open(c, key, payload) == payload
    ensures key.Some? && |payload| >= 12 ==>
      var plain := c.decrypt(payload[12..], key.value, payload[..12]);
      && (plain.None? ==> Open(c, key, payload) == payload)
      && (plain.Some? && |plain.value| < 2 ==> Open(c, key, payload) == plain.value)
      && (plain.Some? && |plain.value| >= 2 ==>
            var p, size := plain.value, Value(plain.value[..2]);
            Open(c, key, payload) == if 2 + size > |p| then p else p[2..2 + size])
  {
    if key.Some? && |payload| >= 12 {
      var plain := c.decrypt(payload[12..], key.value, payload[..12]);
      if plain.Some? && |plain.value| >= 2 {
        assert plain.value[..2] == [plain.value[0], plain.value[1]];
      }
    }
  }

  /** What a payload is to the reader: no message, a message that closes the
      connection, or any other message. */
  datatype Kind = Malformed | Close | Other

  type Parser = Octets -> Kind

  /** The messages taken from the complete frames, up to the first that is malformed
      or the first that closes the connection, which is the last one taken. */
  function Received(c: Cipher, key: Option<Key>, kind: Parser, stream: Octets): seq<Octets>
    decreases |stream|
  {
    var f := ReadFrame(stream);
    if f.None? then [] else
      var message := Open(c, key, f.value.payload);
      match kind(message)
      case Malformed => []
      case Close => [message]
      case Other => [message] + Received(c, key, kind, stream[4 + f.value.length..])
  }

  /** Why the reader stopped. */
  datatype Ending = OutOfFrames | BadMessage | Closed

  function EndingOf(c: Cipher, key: Option<Key>, kind: Parser, stream: Octets): Ending
    decreases |stream|
  {
    var f := ReadFrame(stream);
    if f.None? then OutOfFrames else
      match kind(Open(c, key, f.value.payload))
      case Malformed => BadMessage
      case Close => Closed
      case Other => EndingOf(c, key, kind, stream[4 + f.value.length..])
  }

  /** One turn of the read loop. */
  lemma {:induction false} ReceiveOne(c: Cipher, key: Option<Key>, kind: Parser, messages: seq<Octets>, rest: Octets)
    ensures var f := ReadFrame(rest);
      if f.None? then Received(c, key, kind, rest) == [] && EndingOf(c, key, kind, rest) == OutOfFrames
      else
        var message, later := Open(c, key, f.value.payload), rest[4 + f.value.length..];
        match kind(message)
        case Malformed => Received(c, key, kind, rest) == [] && EndingOf(c, key, kind, rest) == BadMessage
        case Close => Received(c, key, kind, rest) == [message] && EndingOf(c, key, kind, rest) == Closed
        case Other =>
          && messages + Received(c, key, kind, rest) == messages + [message] + Received(c, key, kind, later)
          && EndingOf(c, key, kind, rest) == EndingOf(c, key, kind, later)
  {
    hide Open, ReadFrame;
  }

  lemma {:induction false} TooShortToRead(c: Cipher, key: Option<Key>, kind: Parser, rest: Octets)
    requires |rest| < 4
    ensures Received(c, key, kind, rest) == [] && EndingOf(c, key, kind, rest) == OutOfFrames
  {
  }

  /** The connection's read loop. */
  method ReadStream(c: Cipher, key: Option<Key>, kind: Parser, stream: Octets)
    returns (messages: seq<Octets>, ending: Ending)
    ensures messages == Received(c, key, kind, stream) && ending == EndingOf(c, key, kind, stream)
    ensures forall i :: 0 <= i < |messages| - 1 ==> kind(messages[i]).Other?
    ensures messages != [] && ending != Closed ==> kind(messages[|messages| - 1]).Other?
    ensures ending == Closed ==> messages != [] && kind(messages[|messages| - 1]).Close?
  {
    hide Open, Word32, Received, EndingOf;
    messages, ending := [], OutOfFrames;
    var rest := stream;
    while |rest| >= 4
      invariant messages + Received(c, key, kind, rest) == Received(c, key, kind, stream)
      invariant ending == OutOfFrames && EndingOf(c, key, kind, rest) == EndingOf(c, key, kind, stream)
      invariant forall i :: 0 <= i < |messages| ==> kind(messages[i]).Other?
      decreases |rest|
    {
      var length := Word32(rest[0], rest[1], rest[2], rest[3]);
      assert ReadFrame(rest) == if |rest| < 4 + length then None else Some(Frame(length, rest[4..4 + length], false));
      ReceiveOne(c, key, kind, messages, rest);
      if |rest| < 4 + length {
        return;
      }
      var message := Open(c, key, rest[4..4 + length]);
      if kind(message).Malformed? {
        return messages, BadMessage;
      }
      messages, rest := messages + [message], rest[4 + length..];
      if kind(message).Close? {
        return messages, Closed;
      }
    }
    TooShortToRead(c, key, kind, rest);
  }

  function WriteAll(c: Cipher, key: Option<Key>, sendings: seq<Sending>): Octets
    requires key.Some? ==> forall i :: 0 <= i < |sendings| ==> Filled(sendings[i])
  {
    if sendings == [] then [] else Write(c, key, sendings[0]) + WriteAll(c, key, sendings[1..])
  }

  /** What arrives of one payload: all of it without a key; under a key, what the
      padding's length prefix can count. */
  function Arrives(key: Option<Key>, payload: Octets): Octets {
    if key.None? then payload else payload[..|payload| % 0x1_0000]
  }

  lemma OpenWritten(c: Cipher, key: Option<Key>, s: Sending, rest: Octets)
    requires Invertible(c) && CanSend(c, key, s)
    ensures var f := ReadFrame(Write(c, key, s) + rest);
      && f.Some? && Open(c, key, f.value.payload) == Arrives(key, s.payload)
      && |Write(c, key, s)| == 4 + f.value.length
  {
    hide Octets32, Word32, Octets16, Word16, Pad, Unpad, PaddedLength;
    match key
    case None =>
      ReadPayload(s.payload, rest);
    case Some(k) =>
      var sealed := c.encrypt(Pad(s.payload, s.fill), k, s.nonce);
      ReadPayload(s.nonce + sealed, rest);
      UnpadPad(s.payload, s.fill);
      assert (s.nonce + sealed)[NONCE_LEN..] == sealed && (s.nonce + sealed)[..NONCE_LEN] == s.nonce;
  }

  lemma {:induction false} ReceivedFirst(c: Cipher, key: Option<Key>, kind: Parser, sendings: seq<Sending>)
    requires Invertible(c) && sendings != [] && CanSendAll(c, key, sendings)
    ensures var first := Arrives(key, sendings[0].payload);
      Received(c, key, kind, WriteAll(c, key, sendings)) ==
        match kind(first)
        case Malformed => []
        case Close => [first]
        case Other => [first] + Received(c, key, kind, WriteAll(c, key, sendings[1..]))
  {
    hide Write, Open, ReadFrame, Pad, PaddedLength, Arrives;
    var s, rest := sendings[0], WriteAll(c, key, sendings[1..]);
    var stream := Write(c, key, s) + rest;
    OpenWritten(c, key, s, rest);
    var f := ReadFrame(stream);
    assert stream[4 + f.value.length..] == rest;
  }

  function Payloads(sendings: seq<Sending>): (r: seq<Octets>)
    ensures |r| == |sendings| && forall i :: 0 <= i < |r| ==> r[i] == sendings[i].payload
  {
    seq(|sendings|, i requires 0 <= i < |sendings| => sendings[i].payload)
  }

  /** Nothing is sealed, or every payload fits the padding's length prefix. */
  predicate Recoverable(key: Option<Key>, sendings: seq<Sending>) {
    key.None? || forall i :: 0 <= i < |sendings| ==> |sendings[i].payload| < 0x1_0000
  }

  /** At most the last message closes the connection. */
  predicate ClosesLast(kind: Parser, sendings: seq<Sending>) {
    forall i :: 0 <= i < |sendings| - 1 ==> kind(sendings[i].payload).Other?
  }

  lemma RecoverableFirst(key: Option<Key>, kind: Parser, sendings: seq<Sending>)
    requires sendings != []
    ensures Recoverable(key, sendings) <==>
      Arrives(key, sendings[0].payload) == sendings[0].payload && Recoverable(key, sendings[1..])
    ensures ClosesLast(kind, sendings) <==>
      (kind(sendings[0].payload).Other? || |sendings| == 1) && ClosesLast(kind, sendings[1..])
  {
    var first, rest := sendings[0].payload, sendings[1..];
    if key.Some? && |first| >= 0x1_0000 {
      assert |Arrives(key, first)| < |first|;
    } else {
      assert Arrives(key, first) == first;
    }
    assert forall i :: 1 <= i < |sendings| ==> sendings[i] == rest[i - 1];
    assert forall i :: 0 <= i < |rest| ==> rest[i] == sendings[i + 1];
  }

  lemma SameCons<T>(x: T, s: seq<T>, y: T, t: seq<T>)
    ensures [x] + s == [y] + t <==> x == y && s == t
  {
    if [x] + s == [y] + t {
      assert ([x] + s)[0] == ([y] + t)[0] && ([x] + s)[1..] == ([y] + t)[1..];
    }
  }

  /** With the same key on both sides, or none, and an invertible cipher, a sequence
      of messages reads back as itself, for every choice of random fill and nonces,
      if and only if none but the last closes the connection, and there is no key or
      every payload is shorter than 65536 octets. */
  lemma {:induction false} StreamRoundTrip(c: Cipher, key: Option<Key>, kind: Parser, sendings: seq<Sending>)
    requires Invertible(c) && CanSendAll(c, key, sendings)
    requires forall i :: 0 <= i < |sendings| ==> !kind(sendings[i].payload).Malformed?
    ensures Received(c, key, kind, WriteAll(c, key, sendings)) == Payloads(sendings)
      <==> Recoverable(key, sendings) && ClosesLast(kind, sendings)
  {
    assert WriteAll(c, key, []) == [] && Payloads([]) == [];
    TooShortToRead(c, key, kind, []);
    hide *;
    if sendings == [] {
      NothingToRecover(key, kind);
    } else {
      var first, rest := sendings[0].payload, sendings[1..];
      var later := Received(c, key, kind, WriteAll(c, key, rest));
      RestCanBeSent(c, key, sendings);
      ReceivedFirst(c, key, kind, sendings);
      StreamRoundTrip(c, key, kind, rest);
      RecoverableFirst(key, kind, sendings);
      NothingToRecover(key, kind);
      var arrived := Arrives(key, first);
      SameCons(arrived, if kind(arrived).Other? then later else [], first, Payloads(rest));
      assert [arrived] + [] == [arrived];
    }
  }

  lemma RestCanBeSent(c: Cipher, key: Option<Key>, sendings: seq<Sending>)
    requires CanSendAll(c, key, sendings) && sendings != []
    ensures CanSendAll(c, key, sendings[1..])
    ensures Payloads(sendings) == [sendings[0].payload] + Payloads(sendings[1..])
  {
    hide CanSend, Filled;
  }

  lemma NothingToRecover(key: Option<Key>, kind: Parser)
    ensures Recoverable(key, []) && ClosesLast(kind, [])
  {
  }
}
