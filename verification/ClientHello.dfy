/** Reading the server name out of a TLS ClientHello: section 7.4.1.2 of RFC 5246, section 3 of RFC 6066. */
module ClientHello {
  import opened Wrappers

  type byte = x: int | 0 <= x < 256

  datatype Error =
    | ShortRecordHeader | NotHandshakeRecord | RecordTruncated
    | ShortHandshake | NotClientHello | HandshakeTruncated
    | HelloTooShort | BadSessionId
    | MissingCipherSuitesLength | BadCipherSuites
    | MissingCompressionMethodsLength | BadCompressionMethods
    | MissingExtensionsLength | ExtensionsTruncated | ExtensionTruncated
    | ShortSniList | SniListTruncated | SniNameTruncated
    | NoSni

  datatype Sni = Name(host: seq<byte>) | Fail(error: Error)

  /** The big-endian number in the first two bytes. */
  function U16(b: seq<byte>): nat
    requires |b| >= 2
  {
    var hi: nat, lo: nat := b[0], b[1];
    hi * 256 + lo
  }

  function U8(b: seq<byte>): nat
    requires |b| >= 1
  {
    b[0]
  }

  function U24(b: seq<byte>): nat
    requires |b| >= 3
  {
    U8(b) * 65536 + U16(b[1..])
  }

  // ----- what the parser computes, one length-prefixed field after the other -----

  function FindName(list: seq<byte>): Sni {
    if |list| < 3 then Fail(NoSni)
    else
      var nameLen := U16(list[1..3]);
      if |list| < 3 + nameLen then Fail(SniNameTruncated)
      else if list[0] == 0 then Name(list[3..3 + nameLen])
      else FindName(list[3 + nameLen..])
  }

  function SniData(data: seq<byte>): Sni {
    if |data| < 2 then Fail(ShortSniList)
    else if |data| < 2 + U16(data) then Fail(SniListTruncated)
    else FindName(data[2..2 + U16(data)])
  }

  function FindExtension(exts: seq<byte>): Sni {
    if |exts| < 4 then Fail(NoSni)
    else
      var dataLen := U16(exts[2..4]);
      if |exts| < 4 + dataLen then Fail(ExtensionTruncated)
      else if U16(exts[0..2]) == 0 then SniData(exts[4..4 + dataLen])
      else FindExtension(exts[4 + dataLen..])
  }

  function Extensions(b: seq<byte>): Sni {
    if |b| < 2 then Fail(MissingExtensionsLength)
    else if |b| < 2 + U16(b) then Fail(ExtensionsTruncated)
    else FindExtension(b[2..2 + U16(b)])
  }

  function CompressionMethods(b: seq<byte>): Sni {
    if |b| < 1 then Fail(MissingCompressionMethodsLength)
    else if |b| < 1 + U8(b) then Fail(BadCompressionMethods)
    else Extensions(b[1 + U8(b)..])
  }

  function CipherSuites(b: seq<byte>): Sni {
    if |b| < 2 then Fail(MissingCipherSuitesLength)
    else if |b| < 2 + U16(b) then Fail(BadCipherSuites)
    else CompressionMethods(b[2 + U16(b)..])
  }

  function SessionId(b: seq<byte>): Sni
    requires |b| >= 1
  {
    if |b| < 1 + U8(b) then Fail(BadSessionId) else CipherSuites(b[1 + U8(b)..])
  }

  function Body(body: seq<byte>): Sni {
    if |body| < 35 then Fail(HelloTooShort) else SessionId(body[34..])
  }

  function Handshake(hs: seq<byte>): Sni {
    if |hs| < 4 then Fail(ShortHandshake)
    else if hs[0] != 1 then Fail(NotClientHello)
    else
      var hsLen := U24(hs[1..4]);
      if |hs| < 4 + hsLen then Fail(HandshakeTruncated) else Body(hs[4..4 + hsLen])
  }

  function Parse(data: seq<byte>): Sni {
    if |data| < 5 then Fail(ShortRecordHeader)
    else if data[0] != 0x16 then Fail(NotHandshakeRecord)
    else if |data| < 5 + U16(data[3..5]) then Fail(RecordTruncated)
    else Handshake(data[5..5 + U16(data[3..5])])
  }

  // ----- the parser -----

  method ParseSni(data: seq<byte>) returns (r: Sni)
    ensures r == Parse(data)
  {
    if |data| < 5 {
      return Fail(ShortRecordHeader);
    }
    if data[0] != 0x16 {
      return Fail(NotHandshakeRecord);
    }
    var recLen := U16(data[3..5]);
    if |data| < 5 + recLen {
      return Fail(RecordTruncated);
    }
    var hs := data[5..5 + recLen];
    if |hs| < 4 {
      return Fail(ShortHandshake);
    }
    if hs[0] != 1 {
      return Fail(NotClientHello);
    }
    var hsLen := U24(hs[1..4]);
    if |hs| < 4 + hsLen {
      return Fail(HandshakeTruncated);
    }
    r := ParseBody(hs[4..4 + hsLen]);
  }

  method ParseBody(body: seq<byte>) returns (r: Sni)
    ensures r == Body(body)
  {
    if |body| < 2 + 32 + 1 {
      return Fail(HelloTooShort);
    }
    var p := 2 + 32;
    var sidLen: nat := body[p];
    p := p + 1;
    if |body| < p + sidLen {
      return Fail(BadSessionId);
    }
    SliceAgain(body, p - 1, 1 + sidLen);
    p := p + sidLen;
    if |body| < p + 2 {
      return Fail(MissingCipherSuitesLength);
    }
    var csLen := U16(body[p..]);
    p := p + 2;
    if |body| < p + csLen {
      return Fail(BadCipherSuites);
    }
    SliceAgain(body, p - 2, 2 + csLen);
    p := p + csLen;
    r := ParseCompressionAndExtensions(body, p);
  }

  /** The rest of the body, from the compression methods on. */
  method ParseCompressionAndExtensions(body: seq<byte>, at: nat) returns (r: Sni)
    requires at <= |body|
    ensures r == CompressionMethods(body[at..])
  {
    var p := at;
    if |body| < p + 1 {
      return Fail(MissingCompressionMethodsLength);
    }
    var cmLen: nat := body[p];
    p := p + 1;
    if |body| < p + cmLen {
      return Fail(BadCompressionMethods);
    }
    SliceAgain(body, p - 1, 1 + cmLen);
    p := p + cmLen;
    if |body| < p + 2 {
      return Fail(MissingExtensionsLength);
    }
    var extLen := U16(body[p..]);
    p := p + 2;
    if |body| < p + extLen {
      return Fail(ExtensionsTruncated);
    }
    assert body[p - 2..][2..2 + extLen] == body[p..p + extLen];
    r := WalkExtensions(body[p..p + extLen]);
  }

  lemma SliceAgain(b: seq<byte>, i: nat, j: nat)
    requires i + j <= |b|
    ensures b[i..][j..] == b[i + j..]
  {
  }

  method WalkExtensions(all: seq<byte>) returns (r: Sni)
    ensures r == FindExtension(all)
  {
    var exts := all;
    while |exts| >= 4
      invariant FindExtension(all) == FindExtension(exts)
      decreases |exts|
    {
      var extType := U16(exts[0..2]);
      var extDataLen := U16(exts[2..4]);
      if |exts| < 4 + extDataLen {
        return Fail(ExtensionTruncated);
      }
      var extData := exts[4..4 + extDataLen];
      if extType == 0 {
        if |extData| < 2 {
          return Fail(ShortSniList);
        }
        var listLen := U16(extData[0..2]);
        if |extData| < 2 + listLen {
          return Fail(SniListTruncated);
        }
        var list := extData[2..2 + listLen];
        while |list| >= 3
          invariant FindExtension(all) == FindName(list)
          decreases |list|
        {
          var nameType := list[0];
          var nameLen := U16(list[1..3]);
          if |list| < 3 + nameLen {
            return Fail(SniNameTruncated);
          }
          if nameType == 0 {
            return Name(list[3..3 + nameLen]);
          }
          list := list[3 + nameLen..];
        }
        return Fail(NoSni);
      }
      exts := exts[4 + extDataLen..];
    }
    return Fail(NoSni);
  }

  /** The answer depends on the record alone: whatever follows it is not looked at. */
  lemma OnlyTheRecordMatters(data: seq<byte>, more: seq<byte>)
    requires |data| >= 5 && |data| >= 5 + U16(data[3..5])
    ensures Parse(data) == Parse(data[..5 + U16(data[3..5])]) == Parse(data[..5 + U16(data[3..5])] + more)
  {
    var n := 5 + U16(data[3..5]);
    var record := data[..n];
    assert record[3..5] == data[3..5] && (record + more)[3..5] == data[3..5];
    assert record[5..n] == data[5..n] && (record + more)[5..n] == data[5..n];
  }

  // ----- encoding -----

  /** A number in two bytes. */
  function Enc16(n: nat): (b: seq<byte>)
    requires n < 65536
    ensures |b| == 2 && U16(b) == n
  {
    [n / 256, n % 256]
  }

  function Vec8(x: seq<byte>): seq<byte>
    requires |x| < 256
  {
    [|x|] + x
  }

  function Vec16(x: seq<byte>): seq<byte>
    requires |x| < 65536
  {
    Enc16(|x|) + x
  }

  datatype ServerName = ServerName(nameType: byte, name: seq<byte>)

  function EncName(n: ServerName): seq<byte>
    requires |n.name| < 65536
  {
    [n.nameType] + Vec16(n.name)
  }

  ghost predicate NamesFit(ns: seq<ServerName>) {
    forall i :: 0 <= i < |ns| ==> |ns[i].name| < 65536
  }

  function EncNames(ns: seq<ServerName>): seq<byte>
    requires NamesFit(ns)
  {
    if ns == [] then [] else EncName(ns[0]) + EncNames(ns[1..])
  }

  /** An extension: a list of server names, or of another type and opaque. */
  datatype Extension = ServerNames(names: seq<ServerName>) | Other(extType: nat, data: seq<byte>)

  ghost predicate ExtensionFits(e: Extension) {
    match e
    case ServerNames(names) => NamesFit(names) && |EncNames(names)| < 65534
    case Other(t, data) => 0 < t < 65536 && |data| < 65536
  }

  ghost function EncExtension(e: Extension): seq<byte>
    requires ExtensionFits(e)
  {
    match e
    case ServerNames(names) => Enc16(0) + Vec16(Vec16(EncNames(names)))
    case Other(t, data) => Enc16(t) + Vec16(data)
  }

  ghost predicate ExtensionsFit(es: seq<Extension>) {
    forall i :: 0 <= i < |es| ==> ExtensionFits(es[i])
  }

  ghost function EncExtensions(es: seq<Extension>): seq<byte>
    requires ExtensionsFit(es)
  {
    if es == [] then [] else EncExtension(es[0]) + EncExtensions(es[1..])
  }

  /** A ClientHello; its extensions may be left out altogether. */
  datatype Hello = Hello(version: seq<byte>, random: seq<byte>, sessionId: seq<byte>, cipherSuites: seq<byte>,
                         compressionMethods: seq<byte>, extensions: Option<seq<Extension>>)

  ghost predicate BodyFits(h: Hello) {
    && |h.version| == 2 && |h.random| == 32 && |h.sessionId| < 256
    && |h.cipherSuites| < 65536 && |h.compressionMethods| < 256
    && (h.extensions.Some? ==> ExtensionsFit(h.extensions.value) && |EncExtensions(h.extensions.value)| < 65536)
  }

  ghost function EncBody(h: Hello): seq<byte>
    requires BodyFits(h)
  {
    h.version + h.random + (Vec8(h.sessionId) + (Vec16(h.cipherSuites) + (Vec8(h.compressionMethods) +
      match h.extensions
      case None => []
      case Some(es) => Vec16(EncExtensions(es)))))
  }

  function EncHandshake(body: seq<byte>): seq<byte>
    requires |body| < 65536 * 256
  {
    [1, |body| / 65536, |body| / 256 % 256, |body| % 256] + body
  }

  /** A record of handshake type around `hs`. */
  function EncRecord(version: seq<byte>, hs: seq<byte>): seq<byte>
    requires |version| == 2 && |hs| < 65536
  {
    [0x16] + version + Vec16(hs)
  }

  ghost predicate Fits(h: Hello) {
    BodyFits(h) && |EncBody(h)| + 4 < 65536
  }

  // ----- what the parser should find -----

  function FirstHostName(ns: seq<ServerName>): Sni {
    if ns == [] then Fail(NoSni)
    else if ns[0].nameType == 0 then Name(ns[0].name)
    else FirstHostName(ns[1..])
  }

  function FirstServerName(es: seq<Extension>): Sni {
    if es == [] then Fail(NoSni)
    else if es[0].ServerNames? then FirstHostName(es[0].names)
    else FirstServerName(es[1..])
  }

  // ----- told byte by byte -----

  predicate IsListError(e: Error) {
    e == NoSni || e == ShortSniList || e == SniListTruncated || e == SniNameTruncated
  }

  lemma {:induction false} ErrorsOfNames(list: seq<byte>)
    ensures FindName(list).Fail? ==> IsListError(FindName(list).error)
  {
    if |list| >= 3 && |list| >= 3 + U16(list[1..3]) && list[0] != 0 {
      ErrorsOfNames(list[3 + U16(list[1..3])..]);
    }
  }

  lemma {:induction false} ErrorsOfExtensions(exts: seq<byte>)
    ensures FindExtension(exts).Fail? ==> IsListError(FindExtension(exts).error) || FindExtension(exts).error == ExtensionTruncated
  {
    if |exts| >= 4 && |exts| >= 4 + U16(exts[2..4]) {
      var data := exts[4..4 + U16(exts[2..4])];
      if |data| >= 2 && |data| >= 2 + U16(data) {
        ErrorsOfNames(data[2..2 + U16(data)]);
      }
      ErrorsOfExtensions(exts[4 + U16(exts[2..4])..]);
    }
  }

  predicate IsBodyError(e: Error) {
    || IsListError(e) || e == ExtensionTruncated || e == MissingExtensionsLength || e == ExtensionsTruncated
    || e == MissingCompressionMethodsLength || e == BadCompressionMethods || e == MissingCipherSuitesLength || e == BadCipherSuites
  }

  predicate IsRecordError(e: Error) {
    e == ShortRecordHeader || e == NotHandshakeRecord || e == RecordTruncated
  }

  predicate IsHeaderError(e: Error) {
    IsRecordError(e) || e == ShortHandshake || e == NotClientHello || e == HandshakeTruncated
  }

  lemma ErrorsOfExtensionsField(b: seq<byte>)
    ensures Extensions(b).Fail? ==> IsBodyError(Extensions(b).error)
  {
    if |b| >= 2 && |b| >= 2 + U16(b) {
      ErrorsOfExtensions(b[2..2 + U16(b)]);
    }
  }

  lemma ErrorsOfCompressionMethods(b: seq<byte>)
    ensures CompressionMethods(b).Fail? ==> IsBodyError(CompressionMethods(b).error)
  {
    if |b| >= 1 && |b| >= 1 + U8(b) {
      ErrorsOfExtensionsField(b[1 + U8(b)..]);
    }
  }

  lemma ErrorsBehindSessionId(b: seq<byte>)
    ensures CipherSuites(b).Fail? ==> IsBodyError(CipherSuites(b).error)
  {
    if |b| >= 2 && |b| >= 2 + U16(b) {
      ErrorsOfCompressionMethods(b[2 + U16(b)..]);
    }
  }

  function ByteAt(b: seq<byte>, i: nat): int
    requires i < |b|
  {
    b[i]
  }

  /** Of a ClientHello: which are rejected for their first fields: version and random of 34 bytes, and a session
      identifier that fits. */
  lemma BodyErrorsExactly(body: seq<byte>)
    ensures Body(body) == Fail(HelloTooShort) <==> |body| < 35
    ensures |body| >= 35 ==> (Body(body) == Fail(BadSessionId) <==> |body| < 35 + ByteAt(body, 34))
    ensures Body(body).Fail? ==> !IsHeaderError(Body(body).error)
  {
    if |body| >= 35 && |body| >= 35 + ByteAt(body, 34) {
      ErrorsBehindSessionId(body[34..][1 + U8(body[34..])..]);
    }
  }

  lemma LengthBytes(b: seq<byte>, i: nat)
    ensures i + 2 <= |b| ==> U16(b[i..i + 2]) == 256 * ByteAt(b, i) + ByteAt(b, i + 1)
    ensures i + 3 <= |b| ==> U24(b[i..i + 3]) == 65536 * ByteAt(b, i) + 256 * ByteAt(b, i + 1) + ByteAt(b, i + 2)
  {
    if i + 3 <= |b| {
      var c := b[i..i + 3];
      assert U24(c) == U8(c) * 65536 + U16(c[1..]);
    }
  }

  lemma HandshakeIsBody(hs: seq<byte>, m: int)
    requires |hs| >= 4 && hs[0] == 1 && m == U24(hs[1..4]) && |hs| >= 4 + m
    ensures Handshake(hs) == Body(hs[4..4 + m])
    ensures Handshake(hs).Fail? ==> !IsHeaderError(Handshake(hs).error)
  {
    BodyErrorsExactly(hs[4..4 + m]);
  }

  /** Of a handshake: which are rejected before the body, told from the bytes: type 1, and a length in the next three. */
  lemma HandshakeErrorsExactly(hs: seq<byte>)
    ensures Handshake(hs) == Fail(ShortHandshake) <==> |hs| < 4
    ensures |hs| >= 4 ==> (Handshake(hs) == Fail(NotClientHello) <==> hs[0] != 1)
    ensures |hs| >= 4 && hs[0] == 1 ==>
      var m := 65536 * ByteAt(hs, 1) + 256 * ByteAt(hs, 2) + ByteAt(hs, 3);
      && (Handshake(hs) == Fail(HandshakeTruncated) <==> |hs| < 4 + m)
      && (|hs| >= 4 + m ==> 0 <= m && Handshake(hs) == Body(hs[4..4 + m]))
    ensures Handshake(hs).Fail? ==> !IsRecordError(Handshake(hs).error)
  {
    if |hs| >= 4 && hs[0] == 1 {
      LengthBytes(hs, 1);
      if |hs| >= 4 + U24(hs[1..4]) {
        HandshakeIsBody(hs, U24(hs[1..4]));
      }
    }
  }

  /** Which records are rejected for their header, told from the bytes: type 22, and a length in bytes 3 and 4. */
  lemma RecordErrorsExactly(data: seq<byte>)
    ensures Parse(data) == Fail(ShortRecordHeader) <==> |data| < 5
    ensures |data| >= 5 ==> (Parse(data) == Fail(NotHandshakeRecord) <==> data[0] != 22)
    ensures |data| >= 5 && data[0] == 22 ==>
      var n := 256 * ByteAt(data, 3) + ByteAt(data, 4);
      && (Parse(data) == Fail(RecordTruncated) <==> |data| < 5 + n)
      && (|data| >= 5 + n ==> 0 <= n && Parse(data) == Handshake(data[5..5 + n]))
  {
    if |data| >= 5 && data[0] == 22 {
      LengthBytes(data, 3);
      if |data| >= 5 + U16(data[3..5]) {
        HandshakeErrorsExactly(data[5..5 + U16(data[3..5])]);
      }
    }
  }

  lemma ListInBytes()
    ensures FindName([0, 0, 3, 97, 46, 98]) == Name([97, 46, 98])
  {
    var list: seq<byte> := [0, 0, 3, 97, 46, 98];
    assert list[1..3] == [0, 3] && list[3..6] == [97, 46, 98];
  }

  lemma DataInBytes()
    ensures SniData([0, 6, 0, 0, 3, 97, 46, 98]) == Name([97, 46, 98])
  {
    var list: seq<byte> := [0, 0, 3, 97, 46, 98];
    var data: seq<byte> := [0, 6, 0, 0, 3, 97, 46, 98];
    assert Vec16(list) == [0, 6] + list;
    assert data == [0, 6] + list + [];
    SniDataIsRead(list, []);
    ListInBytes();
  }

  /** The extension of type 0 with the host name "a.b", byte by byte. */
  lemma NameInBytes()
    ensures FindExtension([0, 0, 0, 8, 0, 6, 0, 0, 3, 97, 46, 98]) == Name([97, 46, 98])
  {
    var data: seq<byte> := [0, 6, 0, 0, 3, 97, 46, 98];
    var exts: seq<byte> := [0, 0, 0, 8, 0, 6, 0, 0, 3, 97, 46, 98];
    assert Enc16(0) == [0, 0] && Vec16(data) == [0, 8] + data;
    assert exts == [0, 0] + ([0, 8] + data) + [];
    ExtensionHead(0, data, []);
    DataInBytes();
  }

  // ----- one length-prefixed field -----

  lemma Vec16Then(x: seq<byte>, rest: seq<byte>)
    requires |x| < 65536
    ensures var b := Vec16(x) + rest;
      && |b| == 2 + |x| + |rest| && U16(b) == |x| && U16(b[..2]) == |x|
      && b[2..2 + |x|] == x && b[2 + |x|..] == rest
  {
    assert (Enc16(|x|) + x + rest)[..2] == Enc16(|x|);
  }

  lemma Vec8Then(x: seq<byte>, rest: seq<byte>)
    requires |x| < 256
    ensures var b := Vec8(x) + rest;
      && |b| == 1 + |x| + |rest| && U8(b) == |x| && b[1 + |x|..] == rest
  {
  }

  lemma {:induction false} NamesAreFound(ns: seq<ServerName>, rest: seq<byte>)
    requires NamesFit(ns)
    ensures FindName(EncNames(ns) + rest)
         == if FirstHostName(ns).Name? then FirstHostName(ns) else FindName(rest)
  {
    if ns == [] {
      assert [] + rest == rest;
    } else {
      var n, tail := ns[0], EncNames(ns[1..]) + rest;
      var list := EncNames(ns) + rest;
      assert list == [n.nameType] + (Vec16(n.name) + tail);
      Vec16Then(n.name, tail);
      assert list[1..3] == (Vec16(n.name) + tail)[..2];
      assert list[3..3 + |n.name|] == (Vec16(n.name) + tail)[2..2 + |n.name|];
      assert list[3 + |n.name|..] == (Vec16(n.name) + tail)[2 + |n.name|..];
      NamesAreFound(ns[1..], rest);
    }
  }

  lemma ExtensionHead(t: nat, data: seq<byte>, rest: seq<byte>)
    requires t < 65536 && |data| < 65536
    ensures var exts := Enc16(t) + Vec16(data) + rest;
      FindExtension(exts) == if t == 0 then SniData(data) else FindExtension(rest)
  {
    var exts, v := Enc16(t) + Vec16(data) + rest, Vec16(data) + rest;
    assert exts == Enc16(t) + v;
    Vec16Then(data, rest);
    assert exts[0..2] == Enc16(t) && exts[2..4] == v[..2];
    assert exts[4..4 + |data|] == v[2..2 + |data|] && exts[4 + |data|..] == v[2 + |data|..];
  }

  lemma SniDataIsRead(list: seq<byte>, rest: seq<byte>)
    requires |list| < 65536
    ensures SniData(Vec16(list) + rest) == FindName(list)
  {
    Vec16Then(list, rest);
  }

  /** Extensions of other types are stepped over, up to the first server name extension. */
  lemma {:induction false} ExtensionsAreFound(es: seq<Extension>)
    requires ExtensionsFit(es)
    ensures FindExtension(EncExtensions(es)) == FirstServerName(es)
  {
    if es != [] {
      var rest := EncExtensions(es[1..]);
      match es[0]
      case ServerNames(names) =>
        ExtensionHead(0, Vec16(EncNames(names)), rest);
        SniDataIsRead(EncNames(names), []);
        assert Vec16(EncNames(names)) + [] == Vec16(EncNames(names));
        NamesAreFound(names, []);
        assert EncNames(names) + [] == EncNames(names);
        HostNameOrNone(names);
      case Other(t, data) =>
        ExtensionHead(t, data, rest);
        ExtensionsAreFound(es[1..]);
    }
  }

  lemma {:induction false} HostNameOrNone(ns: seq<ServerName>)
    ensures FirstHostName(ns).Name? || FirstHostName(ns) == Fail(NoSni)
  {
    if ns != [] {
      HostNameOrNone(ns[1..]);
    }
  }

  lemma ExtensionsField(exts: seq<byte>, rest: seq<byte>)
    requires |exts| < 65536
    ensures Extensions(Vec16(exts) + rest) == FindExtension(exts)
  {
    Vec16Then(exts, rest);
  }

  /** The fields before the extensions are stepped over. */
  lemma FieldsAreSkipped(version: seq<byte>, random: seq<byte>, sid: seq<byte>, cs: seq<byte>, cm: seq<byte>, rest: seq<byte>)
    requires |version| == 2 && |random| == 32 && |sid| < 256 && |cs| < 65536 && |cm| < 256
    ensures Body(version + random + (Vec8(sid) + (Vec16(cs) + (Vec8(cm) + rest)))) == Extensions(rest)
  {
    var afterCs := Vec8(cm) + rest;
    var afterSid := Vec16(cs) + afterCs;
    var afterRandom := Vec8(sid) + afterSid;
    Vec8Then(cm, rest);
    Vec16Then(cs, afterCs);
    Vec8Then(sid, afterSid);
    assert (version + random + afterRandom)[34..] == afterRandom;
  }

  lemma HandshakeIsRead(body: seq<byte>, rest: seq<byte>)
    requires |body| < 65536 * 256
    ensures Handshake(EncHandshake(body) + rest) == Body(body)
  {
    var n := |body|;
    assert n / 65536 == n / 256 / 256;
    var hs := EncHandshake(body) + rest;
    assert hs[1..4] == [n / 65536, n / 256 % 256, n % 256];
    assert hs[4..4 + n] == body;
  }

  lemma RecordIsRead(version: seq<byte>, hs: seq<byte>, rest: seq<byte>)
    requires |version| == 2 && |hs| < 65536
    ensures Parse(EncRecord(version, hs) + rest) == Handshake(hs)
  {
    var data := EncRecord(version, hs) + rest;
    assert data == [0x16] + version + (Vec16(hs) + rest);
    Vec16Then(hs, rest);
    assert data[3..5] == (Vec16(hs) + rest)[..2];
    assert data[5..5 + |hs|] == (Vec16(hs) + rest)[2..2 + |hs|];
  }

  /** For every ClientHello that fits one record the parser returns the first host name of the first server
      name extension, and "no SNI" exactly when there is none; a ClientHello without an extensions field is
      reported as malformed instead. */
  lemma {:induction false} ParseOfEncoding(h: Hello, recordVersion: seq<byte>, rest: seq<byte>)
    requires Fits(h) && |recordVersion| == 2
    ensures Parse(EncRecord(recordVersion, EncHandshake(EncBody(h))) + rest)
         == match h.extensions
            case Some(es) => FirstServerName(es)
            case None => Fail(MissingExtensionsLength)
  {
    RecordIsRead(recordVersion, EncHandshake(EncBody(h)), rest);
    HandshakeIsRead(EncBody(h), []);
    assert EncHandshake(EncBody(h)) + [] == EncHandshake(EncBody(h));
    match h.extensions
    case None =>
      FieldsAreSkipped(h.version, h.random, h.sessionId, h.cipherSuites, h.compressionMethods, []);
    case Some(es) =>
      FieldsAreSkipped(h.version, h.random, h.sessionId, h.cipherSuites, h.compressionMethods, Vec16(EncExtensions(es)));
      ExtensionsField(EncExtensions(es), []);
      assert Vec16(EncExtensions(es)) + [] == Vec16(EncExtensions(es));
      ExtensionsAreFound(es);
  }

  // ----- on arbitrary bytes -----

  /** A name list that is read to the end: with a host name behind names of other types, or with names of other
      types and fewer bytes behind them than a name takes. */
  datatype NameList =
    | WithHost(before: seq<ServerName>, host: seq<byte>, after: seq<byte>)
    | WithoutHost(names: seq<ServerName>, tail: seq<byte>)

  /** The extensions: with a server name extension behind others, or with others and fewer bytes behind them than
      an extension takes. */
  datatype Content =
    | WithNames(before: seq<Extension>, list: NameList, afterList: seq<byte>, afterExtension: seq<byte>)
    | WithoutNames(others: seq<Extension>, tail: seq<byte>)

  /** The parts of a record that is read to the end. What comes behind in each of the nested fields is arbitrary. */
  datatype Anatomy = Anatomy(
    recordVersion: seq<byte>, lead: seq<byte>, sessionId: seq<byte>, cipherSuites: seq<byte>, compressionMethods: seq<byte>,
    content: Content, afterExtensions: seq<byte>, afterBody: seq<byte>, afterRecord: seq<byte>)

  ghost predicate NoHosts(ns: seq<ServerName>) {
    NamesFit(ns) && forall i :: 0 <= i < |ns| ==> ns[i].nameType != 0
  }

  ghost predicate ListOk(l: NameList) {
    match l
    case WithHost(before, host, _) => NoHosts(before) && |host| < 65536
    case WithoutHost(names, tail) => NoHosts(names) && |tail| < 3
  }

  ghost function ListBytes(l: NameList): seq<byte>
    requires ListOk(l)
  {
    match l
    case WithHost(before, host, after) => EncNames(before) + (EncName(ServerName(0, host)) + after)
    case WithoutHost(names, tail) => EncNames(names) + tail
  }

  function ListAnswer(l: NameList): Sni {
    if l.WithHost? then Name(l.host) else Fail(NoSni)
  }

  ghost predicate DataOk(c: Content)
    requires c.WithNames?
  {
    ListOk(c.list) && |ListBytes(c.list)| < 65536 && |Vec16(ListBytes(c.list)) + c.afterList| < 65536
  }

  ghost predicate NoServerNames(es: seq<Extension>) {
    ExtensionsFit(es) && forall i :: 0 <= i < |es| ==> es[i].Other?
  }

  ghost predicate ContentOk(c: Content) {
    match c
    case WithNames(before, _, _, _) => NoServerNames(before) && DataOk(c)
    case WithoutNames(others, tail) => NoServerNames(others) && |tail| < 4
  }

  ghost function ContentBytes(c: Content): seq<byte>
    requires ContentOk(c)
  {
    match c
    case WithNames(before, list, afterList, afterExtension) =>
      EncExtensions(before) + (Enc16(0) + Vec16(Vec16(ListBytes(list)) + afterList) + afterExtension)
    case WithoutNames(others, tail) => EncExtensions(others) + tail
  }

  function Answer(c: Content): Sni {
    if c.WithNames? then ListAnswer(c.list) else Fail(NoSni)
  }

  ghost predicate BodyOk(a: Anatomy) {
    && ContentOk(a.content) && |ContentBytes(a.content)| < 65536
    && |a.lead| == 34 && |a.sessionId| < 256 && |a.cipherSuites| < 65536 && |a.compressionMethods| < 256
  }

  ghost function BodyBytes(a: Anatomy): seq<byte>
    requires BodyOk(a)
  {
    a.lead + (Vec8(a.sessionId) + (Vec16(a.cipherSuites) + (Vec8(a.compressionMethods) +
      (Vec16(ContentBytes(a.content)) + a.afterExtensions))))
  }

  ghost predicate Ok(a: Anatomy) {
    BodyOk(a) && |a.recordVersion| == 2 && 4 + |BodyBytes(a)| + |a.afterBody| < 65536
  }

  /** The whole record, and what follows it. */
  ghost function Assemble(a: Anatomy): seq<byte>
    requires Ok(a)
  {
    EncRecord(a.recordVersion, EncHandshake(BodyBytes(a)) + a.afterBody) + a.afterRecord
  }

  lemma {:induction false} OthersAreSkipped(es: seq<Extension>, rest: seq<byte>)
    requires ExtensionsFit(es) && forall i :: 0 <= i < |es| ==> es[i].Other?
    ensures FindExtension(EncExtensions(es) + rest) == FindExtension(rest)
  {
    if es == [] {
      assert [] + rest == rest;
    } else {
      var more := EncExtensions(es[1..]);
      ExtensionHead(es[0].extType, es[0].data, more + rest);
      assert EncExtensions(es) + rest == Enc16(es[0].extType) + Vec16(es[0].data) + (more + rest);
      OthersAreSkipped(es[1..], rest);
    }
  }

  lemma {:induction false} NoHostNameBefore(ns: seq<ServerName>)
    requires forall i :: 0 <= i < |ns| ==> ns[i].nameType != 0
    ensures FirstHostName(ns) == Fail(NoSni)
  {
    if ns != [] {
      NoHostNameBefore(ns[1..]);
    }
  }

  lemma ListIsRead(l: NameList)
    requires ListOk(l)
    ensures FindName(ListBytes(l)) == ListAnswer(l)
  {
    match l
    case WithHost(before, host, after) =>
      var n := ServerName(0, host);
      NoHostNameBefore(before);
      NamesAreFound(before, EncName(n) + after);
      NamesAreFound([n], after);
      assert EncNames([n]) == EncName(n) + [] == EncName(n);
    case WithoutHost(names, tail) =>
      NoHostNameBefore(names);
      NamesAreFound(names, tail);
  }

  lemma ContentIsRead(c: Content)
    requires ContentOk(c)
    ensures FindExtension(ContentBytes(c)) == Answer(c)
  {
    match c
    case WithNames(before, list, afterList, afterExtension) =>
      var data := Vec16(ListBytes(list)) + afterList;
      ListIsRead(list);
      SniDataIsRead(ListBytes(list), afterList);
      ExtensionHead(0, data, afterExtension);
      OthersAreSkipped(before, Enc16(0) + Vec16(data) + afterExtension);
    case WithoutNames(others, tail) =>
      OthersAreSkipped(others, tail);
  }

  lemma CarriedBodyIsRead(a: Anatomy)
    requires BodyOk(a)
    ensures Body(BodyBytes(a)) == FindExtension(ContentBytes(a.content))
  {
    ExtensionsField(ContentBytes(a.content), a.afterExtensions);
    FieldsAreSkipped(a.lead[..2], a.lead[2..], a.sessionId, a.cipherSuites, a.compressionMethods,
                     Vec16(ContentBytes(a.content)) + a.afterExtensions);
    assert a.lead[..2] + a.lead[2..] == a.lead;
  }

  /** A record built this way is parsed to the name it carries, or to "no SNI" if it carries none. */
  lemma {:induction false} CarriedIsParsed(a: Anatomy)
    requires Ok(a)
    ensures Parse(Assemble(a)) == Answer(a.content)
  {
    ContentIsRead(a.content);
    CarriedBodyIsRead(a);
    HandshakeIsRead(BodyBytes(a), a.afterBody);
    RecordIsRead(a.recordVersion, EncHandshake(BodyBytes(a)) + a.afterBody, a.afterRecord);
  }

  // ----- taking a parsed record apart -----

  lemma Enc16OfU16(b: seq<byte>)
    requires |b| == 2
    ensures U16(b) < 65536 && Enc16(U16(b)) == b
  {
  }

  lemma Vec16Apart(b: seq<byte>)
    requires |b| >= 2 && |b| >= 2 + U16(b)
    ensures U16(b) < 65536 && b == Vec16(b[2..2 + U16(b)]) + b[2 + U16(b)..]
  {
    Enc16OfU16(b[..2]);
    assert b == b[..2] + b[2..2 + U16(b)] + b[2 + U16(b)..];
  }

  lemma Vec8Apart(b: seq<byte>)
    requires |b| >= 1 && |b| >= 1 + U8(b)
    ensures b == Vec8(b[1..1 + U8(b)]) + b[1 + U8(b)..]
  {
  }

  /** A name, or "no SNI": the record was read to the end. */
  predicate IsAnswer(r: Sni) {
    r.Name? || r == Fail(NoSni)
  }

  lemma FirstNameApart(list: seq<byte>)
    requires |list| >= 3 && |list| >= 3 + U16(list[1..3])
    ensures U16(list[1..3]) < 65536
    ensures var n := U16(list[1..3]); list == EncName(ServerName(list[0], list[3..3 + n])) + list[3 + n..]
  {
    var b := list[1..];
    var n := U16(list[1..3]);
    assert U16(b) == n;
    Vec16Apart(b);
    assert b[2..2 + n] == list[3..3 + n] && b[2 + n..] == list[3 + n..];
    assert list == [list[0]] + b;
  }

  lemma {:induction false} ListApart(list: seq<byte>) returns (l: NameList)
    requires IsAnswer(FindName(list))
    ensures ListOk(l) && ListBytes(l) == list
  {
    if |list| < 3 {
      l := WithoutHost([], list);
      assert EncNames([]) + list == list;
    } else {
      var n := U16(list[1..3]);
      var first := ServerName(list[0], list[3..3 + n]);
      FirstNameApart(list);
      if list[0] == 0 {
        l := WithHost([], first.name, list[3 + n..]);
        assert EncNames([]) + list == list;
      } else {
        var rest := ListApart(list[3 + n..]);
        match rest
        case WithHost(before, host, after) =>
          NamesCons(first, before, EncName(ServerName(0, host)) + after);
          l := WithHost([first] + before, host, after);
        case WithoutHost(names, tail) =>
          NamesCons(first, names, tail);
          l := WithoutHost([first] + names, tail);
      }
    }
  }

  lemma NamesCons(n: ServerName, ns: seq<ServerName>, rest: seq<byte>)
    requires |n.name| < 65536 && NamesFit(ns)
    ensures NamesFit([n] + ns) && EncNames([n] + ns) + rest == EncName(n) + (EncNames(ns) + rest)
  {
    assert ([n] + ns)[1..] == ns;
  }

  lemma ExtensionsCons(e: Extension, es: seq<Extension>, rest: seq<byte>)
    requires ExtensionFits(e) && ExtensionsFit(es)
    ensures ExtensionsFit([e] + es) && EncExtensions([e] + es) + rest == EncExtension(e) + (EncExtensions(es) + rest)
  {
    assert ([e] + es)[1..] == es;
  }

  lemma FirstExtensionApart(exts: seq<byte>)
    requires |exts| >= 4 && |exts| >= 4 + U16(exts[2..4])
    ensures U16(exts[2..4]) < 65536 && U16(exts[0..2]) < 65536
    ensures var n := U16(exts[2..4]); exts == Enc16(U16(exts[0..2])) + Vec16(exts[4..4 + n]) + exts[4 + n..]
  {
    var b, n := exts[2..], U16(exts[2..4]);
    assert U16(b) == n;
    Vec16Apart(b);
    Enc16OfU16(exts[0..2]);
    assert b[2..2 + n] == exts[4..4 + n] && b[2 + n..] == exts[4 + n..];
    assert exts == exts[0..2] + b;
  }

  lemma SniDataApart(data: seq<byte>) returns (list: NameList, after: seq<byte>)
    requires IsAnswer(SniData(data))
    ensures ListOk(list) && |ListBytes(list)| < 65536 && data == Vec16(ListBytes(list)) + after
  {
    Vec16Apart(data);
    list := ListApart(data[2..2 + U16(data)]);
    after := data[2 + U16(data)..];
  }

  lemma {:induction false} ContentApart(exts: seq<byte>) returns (c: Content)
    requires IsAnswer(FindExtension(exts))
    ensures ContentOk(c) && ContentBytes(c) == exts
  {
    if |exts| < 4 {
      c := WithoutNames([], exts);
      assert EncExtensions([]) + exts == exts;
    } else {
      var t, n := U16(exts[0..2]), U16(exts[2..4]);
      FirstExtensionApart(exts);
      if t == 0 {
        var list, afterList := SniDataApart(exts[4..4 + n]);
        c := WithNames([], list, afterList, exts[4 + n..]);
        assert EncExtensions([]) + exts == exts;
      } else {
        var rest := ContentApart(exts[4 + n..]);
        c := ContentBehind(Other(t, exts[4..4 + n]), exts, rest);
      }
    }
  }

  lemma ContentBehind(first: Extension, exts: seq<byte>, rest: Content) returns (c: Content)
    requires first.Other? && ExtensionFits(first) && ContentOk(rest)
    requires exts == EncExtension(first) + ContentBytes(rest)
    ensures ContentOk(c) && ContentBytes(c) == exts
  {
    match rest
    case WithNames(before, list, afterList, afterExtension) =>
      ExtensionsCons(first, before, Enc16(0) + Vec16(Vec16(ListBytes(list)) + afterList) + afterExtension);
      c := WithNames([first] + before, list, afterList, afterExtension);
    case WithoutNames(others, tail) =>
      ExtensionsCons(first, others, tail);
      c := WithoutNames([first] + others, tail);
  }

  lemma CompressionApart(b: seq<byte>) returns (cm: seq<byte>, exts: seq<byte>, after: seq<byte>)
    requires IsAnswer(CompressionMethods(b))
    ensures |cm| < 256 && |exts| < 65536 && FindExtension(exts) == CompressionMethods(b)
    ensures b == Vec8(cm) + (Vec16(exts) + after)
  {
    Vec8Apart(b);
    var rest := b[1 + U8(b)..];
    Vec16Apart(rest);
    cm, exts, after := b[1..1 + U8(b)], rest[2..2 + U16(rest)], rest[2 + U16(rest)..];
  }

  lemma CiphersApart(b: seq<byte>) returns (cs: seq<byte>, rest: seq<byte>)
    requires IsAnswer(CipherSuites(b))
    ensures |cs| < 65536 && CompressionMethods(rest) == CipherSuites(b) && b == Vec16(cs) + rest
  {
    Vec16Apart(b);
    cs, rest := b[2..2 + U16(b)], b[2 + U16(b)..];
  }

  /** The fields of a body that is read to the end. */
  lemma BodyApart(body: seq<byte>) returns (sid: seq<byte>, cs: seq<byte>, cm: seq<byte>, exts: seq<byte>, after: seq<byte>)
    requires IsAnswer(Body(body))
    ensures |body| >= 34 && |sid| < 256 && |cs| < 65536 && |cm| < 256 && |exts| < 65536
    ensures FindExtension(exts) == Body(body)
    ensures body == body[..34] + (Vec8(sid) + (Vec16(cs) + (Vec8(cm) + (Vec16(exts) + after))))
  {
    var b := body[34..];
    Vec8Apart(b);
    sid := b[1..1 + U8(b)];
    var rest;
    cs, rest := CiphersApart(b[1 + U8(b)..]);
    cm, exts, after := CompressionApart(rest);
    SplitAt34(body);
  }

  lemma SplitAt34(body: seq<byte>)
    requires |body| >= 34
    ensures body == body[..34] + body[34..]
  {
  }

  lemma HandshakeApart(hs: seq<byte>) returns (body: seq<byte>, after: seq<byte>)
    requires IsAnswer(Handshake(hs))
    ensures |body| < 65536 * 256 && hs == EncHandshake(body) + after && Handshake(hs) == Body(body)
  {
    var n := U24(hs[1..4]);
    body, after := hs[4..4 + n], hs[4 + n..];
    BytesOfU24(hs[1..4]);
    FourAndRest(hs, n);
  }

  lemma FourAndRest(hs: seq<byte>, n: nat)
    requires |hs| >= 4 + n
    ensures hs == [hs[0], hs[1..4][0], hs[1..4][1], hs[1..4][2]] + hs[4..4 + n] + hs[4 + n..]
  {
  }

  lemma BytesOfU24(b: seq<byte>)
    requires |b| == 3
    ensures U24(b) < 65536 * 256
    ensures b == [U24(b) / 65536, U24(b) / 256 % 256, U24(b) % 256]
  {
    var x: nat, y: nat, z: nat := b[0], b[1], b[2];
    assert U24(b) == (x * 256 + y) * 256 + z;
    assert U24(b) / 256 == x * 256 + y;
    assert U24(b) / 65536 == U24(b) / 256 / 256;
  }

  lemma SliceInside(b: seq<byte>, i: nat, j: nat, k: nat)
    requires j <= k && i + k <= |b|
    ensures b[i..][j..k] == b[i + j..i + k]
  {
  }

  lemma ThreeParts(data: seq<byte>)
    requires |data| >= 3
    ensures data == [data[0]] + data[1..3] + data[3..]
  {
  }

  lemma RecordApart(data: seq<byte>) returns (version: seq<byte>, hs: seq<byte>, after: seq<byte>)
    requires IsAnswer(Parse(data))
    ensures |version| == 2 && |hs| < 65536 && data == EncRecord(version, hs) + after && Parse(data) == Handshake(hs)
  {
    var b := data[3..];
    assert U16(b) == U16(data[3..5]);
    Vec16Apart(b);
    version, hs, after := data[1..3], b[2..2 + U16(b)], b[2 + U16(b)..];
    SliceInside(data, 3, 2, 2 + U16(b));
    ThreeParts(data);
    assert EncRecord(version, hs) + after == [0x16] + version + (Vec16(hs) + after);
  }

  /** An answer is only given if the record says so: for a name, behind a chain of whole extensions of other types, in
      a server name extension, behind a chain of whole names of other types, with its own length before it; for
      "no SNI", a chain of whole extensions of other types up to the end, or one with a server name extension
      that is a chain of whole names of other types up to the end. */
  lemma {:induction false} ParsedIsCarried(data: seq<byte>) returns (a: Anatomy)
    requires IsAnswer(Parse(data))
    ensures Ok(a) && Assemble(a) == data && Parse(data) == Answer(a.content)
  {
    var version, hs, afterRecord := RecordApart(data);
    var body, afterBody := HandshakeApart(hs);
    var sid, cs, cm, exts, afterExtensions := BodyApart(body);
    var content := ContentApart(exts);
    a := Anatomy(version, body[..34], sid, cs, cm, content, afterExtensions, afterBody, afterRecord);
    assert ContentBytes(content) == exts && BodyBytes(a) == body;
    ContentIsRead(content);
  }

  /** On arbitrary bytes: exactly when a name is returned, and exactly when "no SNI" is. */
  lemma {:induction false} ParseExactly(data: seq<byte>, answer: Sni)
    requires IsAnswer(answer)
    ensures Parse(data) == answer <==> exists a :: Ok(a) && Assemble(a) == data && Answer(a.content) == answer
  {
    if Parse(data) == answer {
      var a := ParsedIsCarried(data);
    }
    if a :| Ok(a) && Assemble(a) == data && Answer(a.content) == answer {
      CarriedIsParsed(a);
    }
  }
}
