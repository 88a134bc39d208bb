/**
 * Hardware auth tokens as 69 byte vectors: a version byte, three fields in the byte order of the
 * host, two in network order, and a MAC.
 */
module AuthTokens {
  import opened Bytes

  datatype Host = LittleEndianHost | BigEndianHost

  datatype Token = Token(challenge: uint64, userId: uint64, authenticatorId: uint64,
                         authenticatorType: uint32, timestamp: uint64, mac: seq<byte>)

  const MAC_SIZE := 32
  const TOKEN_SIZE := 69
  const NO_TOKEN := Token(0, 0, 0, 0, 0, [])

  /** The bytes of an integer in memory. */
  function Native(host: Host, v: nat, n: nat): (s: seq<byte>)
    ensures |s| == n
  {
    match host case LittleEndianHost => LittleEndian(v, n) case BigEndianHost => BigEndian(v, n)
  }

  function NativeValue(host: Host, s: seq<byte>): nat {
    match host case LittleEndianHost => LittleEndianValue(s) case BigEndianHost => BigEndianValue(s)
  }

  /** `htonl`, `htonq` and their inverses: the integer whose bytes in memory are those of `v` in
      network order. */
  function HostToNetwork(host: Host, v: nat, n: nat): nat {
    match host case LittleEndianHost => LittleEndianValue(BigEndian(v, n)) case BigEndianHost => v
  }

  lemma NativeRoundTrip(host: Host, v: nat, s: seq<byte>)
    ensures v < Pow256(|s|) ==> NativeValue(host, Native(host, v, |s|)) == v
    ensures Native(host, NativeValue(host, s), |s|) == s && NativeValue(host, s) < Pow256(|s|)
  {
    if v < Pow256(|s|) {
      ValueOfLittleEndian(v, |s|);
      ValueOfBigEndian(v, |s|);
    }
    LittleEndianOfValue(s);
    ValueBounded(s);
    BigEndianOfValue(s);
  }

  /** On either host the network-order fields are big-endian on the wire. */
  lemma NetworkFieldsAreBigEndian(host: Host, v: nat, n: nat)
    requires v < Pow256(n)
    ensures Native(host, HostToNetwork(host, v, n), n) == BigEndian(v, n)
    ensures HostToNetwork(host, v, n) < Pow256(n)
    ensures HostToNetwork(host, HostToNetwork(host, v, n), n) == v
  {
    var s := BigEndian(v, n);
    LittleEndianOfValue(s);
    ValueBounded(s);
    ValueOfBigEndian(v, n);
    ReverseTwice(LittleEndian(v, n));
    ValueOfLittleEndian(v, n);
  }

  /** The layout of `hw_auth_token_t`. */
  function Layout(host: Host, t: Token): (s: seq<byte>)
    ensures |s| == TOKEN_SIZE
  {
    [0] + Native(host, t.challenge, 8) + Native(host, t.userId, 8) + Native(host, t.authenticatorId, 8)
    + BigEndian(t.authenticatorType, 4) + BigEndian(t.timestamp, 8)
    + if |t.mac| == MAC_SIZE then t.mac else Zeros(MAC_SIZE)
  }

  /** The layout by offsets, on a host of either kind. */
  lemma LayoutExactly(host: Host, t: Token)
    ensures var s := Layout(host, t);
      && |s| == 69 && s[0] == 0
      && (host == LittleEndianHost ==>
            s[1..9] == LittleEndian(t.challenge, 8) && s[9..17] == LittleEndian(t.userId, 8)
            && s[17..25] == LittleEndian(t.authenticatorId, 8))
      && (host == BigEndianHost ==>
            s[1..9] == BigEndian(t.challenge, 8) && s[9..17] == BigEndian(t.userId, 8)
            && s[17..25] == BigEndian(t.authenticatorId, 8))
      && s[25..29] == BigEndian(t.authenticatorType, 4) && s[29..37] == BigEndian(t.timestamp, 8)
      && (|t.mac| == 32 ==> s[37..69] == t.mac)
      && (|t.mac| != 32 ==> forall i :: 37 <= i < 69 ==> s[i] == 0)
  {
    hide LittleEndian, BigEndian;
  }

  /** The bytes `dest[pos..]` become `bytes`, and the iterator moves behind them. */
  method CopyBytes(dest: array<byte>, pos: nat, bytes: seq<byte>) returns (next: nat)
    requires pos + |bytes| <= dest.Length
    modifies dest
    ensures next == pos + |bytes|
    ensures dest[..next] == old(dest[..pos]) + bytes && dest[next..] == old(dest[pos + |bytes|..])
  {
    forall i | 0 <= i < |bytes| {
      dest[pos + i] := bytes[i];
    }
    next := pos + |bytes|;
  }

  method AuthTokenToVec(host: Host, token: Token) returns (result: seq<byte>)
    ensures result == Layout(host, token)
  {
    hide Native, BigEndian, HostToNetwork, Zeros;
    Powers();
    NetworkFieldsAreBigEndian(host, token.authenticatorType, 4);
    NetworkFieldsAreBigEndian(host, token.timestamp, 8);
    var buffer := new byte[TOKEN_SIZE](i => 0);
    var pos := CopyBytes(buffer, 0, [0]);
    pos := CopyBytes(buffer, pos, Native(host, token.challenge, 8));
    pos := CopyBytes(buffer, pos, Native(host, token.userId, 8));
    pos := CopyBytes(buffer, pos, Native(host, token.authenticatorId, 8));
    assert pos == 25;
    ghost var native := buffer[..pos];
    assert native == [0] + Native(host, token.challenge, 8) + Native(host, token.userId, 8)
      + Native(host, token.authenticatorId, 8);
    pos := CopyBytes(buffer, pos, Native(host, HostToNetwork(host, token.authenticatorType, 4), 4));
    pos := CopyBytes(buffer, pos, Native(host, HostToNetwork(host, token.timestamp, 8), 8));
    pos := CopyBytes(buffer, pos, if |token.mac| != MAC_SIZE then Zeros(MAC_SIZE) else token.mac);
    assert buffer[..] == buffer[..pos];
    result := buffer[..];
  }

  function Field(host: Host, s: seq<byte>, at: nat, n: nat): (v: nat)
    requires at + n <= |s|
    ensures v < Pow256(n)
  {
    NativeRoundTrip(host, 0, s[at..at + n]);
    NativeValue(host, s[at..at + n])
  }

  function NetworkField(host: Host, s: seq<byte>, at: nat, n: nat): (v: nat)
    requires at + n <= |s|
    ensures v < Pow256(n)
  {
    NetworkFieldsAreBigEndian(host, Field(host, s, at, n), n);
    HostToNetwork(host, Field(host, s, at, n), n)
  }

  function VecToAuthToken(host: Host, buffer: seq<byte>): Token {
    if |buffer| != TOKEN_SIZE then NO_TOKEN
    else
      Powers();
      Token(Field(host, buffer, 1, 8), Field(host, buffer, 9, 8), Field(host, buffer, 17, 8),
            NetworkField(host, buffer, 25, 4), NetworkField(host, buffer, 29, 8), buffer[37..])
  }

  lemma FieldAt(host: Host, s: seq<byte>, at: nat, n: nat, v: nat)
    requires at + n <= |s| && v < Pow256(n)
    ensures s[at..at + n] == Native(host, v, n) ==> Field(host, s, at, n) == v
    ensures s[at..at + n] == BigEndian(v, n) ==> NetworkField(host, s, at, n) == v
  {
    hide Native, NativeValue, BigEndian, HostToNetwork, Pow256;
    NativeRoundTrip(host, v, s[at..at + n]);
    NetworkFieldsAreBigEndian(host, v, n);
    NativeRoundTrip(host, HostToNetwork(host, v, n), s[at..at + n]);
  }

  /** Decoding an encoded token gives it back; a MAC of any other size than 32 comes back as zeros. */
  lemma DecodeEncode(host: Host, t: Token)
    ensures VecToAuthToken(host, Layout(host, t)) == t.(mac := if |t.mac| == MAC_SIZE then t.mac else Zeros(MAC_SIZE))
  {
    hide Native, BigEndian, Field, NetworkField;
    var s := Layout(host, t);
    Powers();
    FieldAt(host, s, 1, 8, t.challenge);
    FieldAt(host, s, 9, 8, t.userId);
    FieldAt(host, s, 17, 8, t.authenticatorId);
    FieldAt(host, s, 25, 4, t.authenticatorType);
    FieldAt(host, s, 29, 8, t.timestamp);
  }

  /** A vector of any other size is no token. */
  lemma WrongSize(host: Host, s: seq<byte>)
    ensures |s| != 69 ==> VecToAuthToken(host, s) == Token(0, 0, 0, 0, 0, [])
  {
  }

  /** Encoding a decoded vector of the right size gives it back, except that the version byte becomes
      zero. */
  lemma EncodeDecode(host: Host, s: seq<byte>)
    requires |s| == TOKEN_SIZE
    ensures Layout(host, VecToAuthToken(host, s)) == s[0 := 0]
  {
    hide Native, BigEndian, HostToNetwork, NativeValue;
    var t := VecToAuthToken(host, s);
    NativeRoundTrip(host, 0, s[1..9]);
    NativeRoundTrip(host, 0, s[9..17]);
    NativeRoundTrip(host, 0, s[17..25]);
    NetworkBytes(host, s, 25, 4);
    NetworkBytes(host, s, 29, 8);
    assert s[0 := 0] == [0] + s[1..9] + s[9..17] + s[17..25] + s[25..29] + s[29..37] + s[37..];
  }

  lemma NetworkBytes(host: Host, s: seq<byte>, at: nat, n: nat)
    requires at + n <= |s|
    ensures BigEndian(NetworkField(host, s, at, n), n) == s[at..at + n]
  {
    var v := Field(host, s, at, n);
    NativeRoundTrip(host, 0, s[at..at + n]);
    NetworkFieldsAreBigEndian(host, v, n);
    NetworkFieldsAreBigEndian(host, HostToNetwork(host, v, n), n);
  }

  /** Hosts of different byte order agree on the type, the timestamp and the MAC of a vector. */
  lemma HostsAgree(s: seq<byte>)
    ensures var a, b := VecToAuthToken(LittleEndianHost, s), VecToAuthToken(BigEndianHost, s);
      a.authenticatorType == b.authenticatorType && a.timestamp == b.timestamp && a.mac == b.mac
  {
    if |s| == TOKEN_SIZE {
      forall at, n | (at == 25 && n == 4) || (at == 29 && n == 8)
        ensures NetworkField(LittleEndianHost, s, at, n) == NetworkField(BigEndianHost, s, at, n)
      {
        NetworkBytes(LittleEndianHost, s, at, n);
        NetworkBytes(BigEndianHost, s, at, n);
        ValueOfBigEndian(NetworkField(LittleEndianHost, s, at, n), n);
        ValueOfBigEndian(NetworkField(BigEndianHost, s, at, n), n);
      }
    }
  }
}
