/** Naming the TLS server of a TCP segment: the data offset (section 3.1 of RFC 9293), and the server_name extension
    (section 3 of RFC 6066) of a ClientHello (section 4.1.2 of RFC 8446). */
module Sni {
  import opened Octets
  import opened Wrappers

  const ACC_PROTO_TCP := 2
  const ACC_PROTO_HTTPS := 3

  // ---------------------------------------------------------------- what the parser finds

  predicate DomainChar(c: Byte) {
    97 <= c <= 122 || 65 <= c <= 90 || 45 <= c <= 46 || 48 <= c <= 57
  }

  predicate Legal(addr: Bytes) {
    forall i :: 0 <= i < |addr| ==> DomainChar(addr[i])
  }

  /** The first non-empty name in the extensions from position `c` on. A server_name extension whose name is empty is
      skipped twice: by its header, then by its length. */
  function NameIn(s: Bytes, c: nat): (r: Bytes)
    ensures |r| < 0x1_0000
    decreases |s| - c
  {
    if c + 4 >= |s| then []
    else if U16(s[c], s[c + 1]) != 0 then NameIn(s, c + 4 + U16(s[c + 2], s[c + 3]))
    else if c + 6 >= |s| || s[c + 6] != 0 || c + 8 >= |s| || c + 9 + U16(s[c + 7], s[c + 8]) >= |s| then []
    else if U16(s[c + 7], s[c + 8]) > 0 then s[c + 9..c + 9 + U16(s[c + 7], s[c + 8])]
    else NameIn(s, c + 9 + U16(s[c + 2], s[c + 3]))
  }

  /** Where the extensions of a handshake message start, from its compression methods, its cipher suites, its session
      id on. */
  function PastComps(s: Bytes, c: nat): Option<nat> {
    if c >= |s| || c + 1 + s[c] as nat >= |s| then None else Some(c + 1 + s[c] as nat + 2)
  }

  function PastCiphers(s: Bytes, c: nat): Option<nat> {
    if c + 1 >= |s| then None else PastComps(s, c + 2 + U16(s[c], s[c + 1]))
  }

  function PastSid(s: Bytes, c: nat): Option<nat> {
    if c >= |s| then None else PastCiphers(s, c + 1 + s[c] as nat)
  }

  function NameOf(rest: Bytes): Bytes {
    var exts := PastSid(rest, 38);
    if exts.None? then [] else NameIn(rest, exts.value)
  }

  predicate IsHello(b: Bytes) {
    |b| >= 6 && b[0] == 0x16 && b[1] == 0x03 && b[5] == 0x01
  }

  function Parsed(b: Bytes): (int, Bytes) {
    if !IsHello(b) then (ACC_PROTO_TCP, [])
    else
      var host := NameOf(b[5..]);
      (ACC_PROTO_HTTPS, if Legal(host) then host else [])
  }

  // ---------------------------------------------------------------- the parser

  method ValidDomainChar(addr: Bytes) returns (ok: bool)
    ensures ok == Legal(addr)
  {
    for i := 0 to |addr|
      invariant Legal(addr[..i])
    {
      var c := addr[i];
      if !((c >= 97 && c <= 122) || (c >= 65 && c <= 90) || (c >= 45 && c <= 46) || (c >= 48 && c <= 57)) {
        return false;
      }
    }
    assert addr[..|addr|] == addr;
    return true;
  }

  /** The loop over the extensions, from position `start` on. */
  method HostInExtensions(rest: Bytes, start: nat) returns (hostname: Bytes)
    ensures hostname == NameIn(rest, start)
  {
    var restLen := |rest|;
    var current := start;
    hostname := [];
    while current + 4 < restLen && hostname == []
      invariant hostname == [] ==> NameIn(rest, start) == NameIn(rest, current)
      invariant hostname != [] ==> NameIn(rest, start) == hostname
      decreases if hostname == [] then 1 else 0, restLen - current
    {
      var extensionType := (rest[current] as int) * 256 + rest[current + 1] as int;
      current := current + 2;
      var extensionDataLength := (rest[current] as int) * 256 + rest[current + 1] as int;
      current := current + 2;
      if extensionType == 0 {
        current := current + 2;
        if current >= restLen {
          return [];
        }
        var nameType := rest[current];
        current := current + 1;
        if nameType != 0 {
          return [];
        }
        if current + 1 >= restLen {
          return [];
        }
        var nameLen := (rest[current] as int) * 256 + rest[current + 1] as int;
        current := current + 2;
        if current + nameLen >= restLen {
          return [];
        }
        hostname := rest[current..current + nameLen];
      }
      current := current + extensionDataLength;
    }
  }

  method SniNewParser(b: Bytes) returns (proto: int, host: Bytes)
    ensures (proto, host) == Parsed(b)
  {
    if |b| < 6 || b[0] != 0x16 || b[1] != 0x03 {
      return ACC_PROTO_TCP, [];
    }
    var rest := b[5..];
    var restLen := |rest|;
    if restLen == 0 {
      return ACC_PROTO_TCP, [];
    }
    var current := 0;
    var handshakeType := rest[0];
    current := current + 1;
    if handshakeType != 0x1 {
      return ACC_PROTO_TCP, [];
    }
    current := current + 3;
    current := current + 2;
    current := current + 4 + 28;
    if current >= restLen {
      return ACC_PROTO_HTTPS, [];
    }
    var sessionIDLength := rest[current] as int;
    current := current + 1;
    current := current + sessionIDLength;
    if current + 1 >= restLen {
      return ACC_PROTO_HTTPS, [];
    }
    var cipherSuiteLength := (rest[current] as int) * 256 + rest[current + 1] as int;
    current := current + 2;
    current := current + cipherSuiteLength;
    if current >= restLen {
      return ACC_PROTO_HTTPS, [];
    }
    var compressionMethodLength := rest[current] as int;
    current := current + 1;
    current := current + compressionMethodLength;
    if current >= restLen {
      return ACC_PROTO_HTTPS, [];
    }
    current := current + 2;
    var hostname := HostInExtensions(rest, current);
    if hostname == [] {
      return ACC_PROTO_HTTPS, [];
    }
    var ok := ValidDomainChar(hostname);
    if !ok {
      return ACC_PROTO_HTTPS, [];
    }
    return ACC_PROTO_HTTPS, hostname;
  }

  // ---------------------------------------------------------------- the language of the parser

  /** An extension before the one that names the host: any other one, or a server_name extension with an empty name, in
      which the parser skips the `filler` of as many bytes as the extension's own length after the name's header. */
  datatype Extension = Other(typ: nat, data: Bytes) | EmptyName(list: Bytes, filler: Bytes)

  predicate ValidExtension(e: Extension) {
    match e
    case Other(typ, data) => 0 < typ < 0x1_0000 && |data| < 0x1_0000
    case EmptyName(list, filler) => |list| == 2 && |filler| < 0x1_0000
  }

  function EncodedExtension(e: Extension): Bytes
    requires ValidExtension(e)
  {
    match e
    case Other(typ, data) => TwoBytes(typ) + TwoBytes(|data|) + data
    case EmptyName(list, filler) => [0, 0] + TwoBytes(|filler|) + list + [0, 0, 0] + filler
  }

  predicate ValidExtensions(exts: seq<Extension>) {
    forall i :: 0 <= i < |exts| ==> ValidExtension(exts[i])
  }

  function EncodedExtensions(exts: seq<Extension>, sni: Bytes): Bytes
    requires ValidExtensions(exts)
  {
    if exts == [] then sni else EncodedExtension(exts[0]) + EncodedExtensions(exts[1..], sni)
  }

  /** The server_name extension that holds the host: type 0, two lengths, one name of type 0 and its length. */
  function EncodedName(lens: Bytes, host: Bytes): Bytes
    requires |lens| == 4 && |host| < 0x1_0000
  {
    [0, 0] + lens + [0] + TwoBytes(|host|) + host
  }

  /** A ClientHello as far as the parser looks at it, and the bytes that follow the host. What the parser skips unread
      is kept as it is. */
  datatype Hello = Hello(record: Bytes, fixed: Bytes, sid: Bytes, ciphers: Bytes, comps: Bytes, extsLen: Bytes,
                         exts: seq<Extension>, lens: Bytes, host: Bytes, tail: Bytes)

  predicate ValidHello(h: Hello) {
    && |h.record| == 3 && |h.fixed| == 37 && |h.sid| < 256 && |h.ciphers| < 0x1_0000 && |h.comps| < 256
    && |h.extsLen| == 2 && ValidExtensions(h.exts) && |h.lens| == 4 && 0 < |h.host| < 0x1_0000 && |h.tail| > 0
  }

  function FromComps(h: Hello): Bytes
    requires ValidHello(h)
  {
    [|h.comps| as Byte] + h.comps + h.extsLen + EncodedExtensions(h.exts, EncodedName(h.lens, h.host) + h.tail)
  }

  function FromCiphers(h: Hello): Bytes
    requires ValidHello(h)
  {
    TwoBytes(|h.ciphers|) + h.ciphers + FromComps(h)
  }

  function FromSid(h: Hello): Bytes
    requires ValidHello(h)
  {
    [|h.sid| as Byte] + h.sid + FromCiphers(h)
  }

  function Encoded(h: Hello): Bytes
    requires ValidHello(h)
  {
    [0x16, 0x03] + h.record + ([0x01] + h.fixed + FromSid(h))
  }

  // ---------------------------------------------------------------- the parser inverts the encoder

  /** The bytes of `s` from position `c` on are `x`, to the end. */
  ghost predicate Rest(s: Bytes, c: nat, x: Bytes) {
    c + |x| == |s| && forall i :: 0 <= i < |x| ==> s[c + i] == x[i]
  }

  lemma RestSplits(s: Bytes, c: nat, x: Bytes, y: Bytes)
    requires Rest(s, c, x + y)
    ensures Rest(s, c + |x|, y)
    ensures forall i :: 0 <= i < |x| ==> s[c + i] == x[i]
  {
    forall i | 0 <= i < |x| ensures s[c + i] == x[i] {
      assert (x + y)[i] == x[i];
    }
    forall i | 0 <= i < |y| ensures s[c + |x| + i] == y[i] {
      assert (x + y)[|x| + i] == y[i];
    }
  }

  lemma NameBytes(lens: Bytes, host: Bytes) returns (head: Bytes)
    requires |lens| == 4 && 0 < |host| < 0x1_0000
    ensures EncodedName(lens, host) == head + host && |head| == 9
    ensures head[0] == 0 && head[1] == 0 && head[6] == 0 && U16(head[7], head[8]) == |host|
  {
    var n := TwoBytes(|host|);
    head := [0, 0, lens[0], lens[1], lens[2], lens[3], 0, n[0], n[1]];
    assert [0, 0] + lens + [0] + n == head;
  }

  lemma ReadsHost(s: Bytes, c: nat, lens: Bytes, host: Bytes, tail: Bytes)
    requires |lens| == 4 && 0 < |host| < 0x1_0000 && |tail| > 0
    requires Rest(s, c, EncodedName(lens, host) + tail)
    ensures NameIn(s, c) == host
  {
    var head := NameBytes(lens, host);
    assert head + host + tail == head + (host + tail);
    RestSplits(s, c, head, host + tail);
    assert s[c + 0] == head[0] && s[c + 1] == head[1] && s[c + 6] == head[6];
    assert s[c + 7] == head[7] && s[c + 8] == head[8];
    RestSplits(s, c + 9, host, tail);
    assert s[c + 9..c + 9 + |host|] == host;
  }

  lemma PastOther(s: Bytes, c: nat, typ: nat, data: Bytes, more: Bytes)
    requires ValidExtension(Other(typ, data)) && |more| > 0
    requires Rest(s, c, EncodedExtension(Other(typ, data)) + more)
    ensures NameIn(s, c) == NameIn(s, c + 4 + |data|) && Rest(s, c + 4 + |data|, more)
  {
    var x := EncodedExtension(Other(typ, data));
    RestSplits(s, c, x, more);
    assert U16(x[0], x[1]) == typ && U16(x[2], x[3]) == |data|;
  }

  lemma EmptyNameBytes(list: Bytes, filler: Bytes) returns (x: Bytes)
    requires ValidExtension(EmptyName(list, filler))
    ensures x == EncodedExtension(EmptyName(list, filler)) && |x| == 9 + |filler|
    ensures x[0] == 0 && x[1] == 0 && U16(x[2], x[3]) == |filler| && x[6] == 0 && x[7] == 0 && x[8] == 0
  {
    var n := TwoBytes(|filler|);
    x := [0, 0, n[0], n[1], list[0], list[1], 0, 0, 0] + filler;
    assert x == EncodedExtension(EmptyName(list, filler));
  }

  lemma PastEmptyName(s: Bytes, c: nat, list: Bytes, filler: Bytes, more: Bytes)
    requires ValidExtension(EmptyName(list, filler)) && |more| > 0
    requires Rest(s, c, EncodedExtension(EmptyName(list, filler)) + more)
    ensures NameIn(s, c) == NameIn(s, c + 9 + |filler|) && Rest(s, c + 9 + |filler|, more)
  {
    var x := EmptyNameBytes(list, filler);
    RestSplits(s, c, x, more);
    assert s[c + 0] == x[0] && s[c + 1] == x[1] && s[c + 2] == x[2] && s[c + 3] == x[3];
    assert s[c + 6] == x[6] && s[c + 7] == x[7] && s[c + 8] == x[8];
  }

  lemma PastExtension(s: Bytes, c: nat, e: Extension, more: Bytes)
    requires ValidExtension(e) && |more| > 0 && Rest(s, c, EncodedExtension(e) + more)
    ensures var d := c + |EncodedExtension(e)|; NameIn(s, c) == NameIn(s, d) && Rest(s, d, more)
  {
    match e
    case Other(typ, data) => PastOther(s, c, typ, data, more);
    case EmptyName(list, filler) => PastEmptyName(s, c, list, filler, more);
  }

  lemma {:induction false} EndsNonEmpty(exts: seq<Extension>, sni: Bytes)
    requires ValidExtensions(exts)
    ensures |EncodedExtensions(exts, sni)| >= |sni|
    decreases |exts|
  {
    if exts != [] {
      EndsNonEmpty(exts[1..], sni);
    }
  }

  lemma PastFirst(s: Bytes, c: nat, e: Extension, more: Bytes, n: nat) returns (d: nat)
    requires ValidExtension(e) && |more| >= n > 0 && Rest(s, c, EncodedExtension(e) + more)
    ensures Rest(s, d, more) && NameIn(s, c) == NameIn(s, d)
  {
    d := c + |EncodedExtension(e)|;
    PastExtension(s, c, e, more);
  }

  /** The name is not in the extensions before the one that ends the message. */
  lemma {:induction false} ReadsExtensions(s: Bytes, c: nat, exts: seq<Extension>, sni: Bytes, host: Bytes)
    requires ValidExtensions(exts) && |sni| > 0 && Rest(s, c, EncodedExtensions(exts, sni))
    requires forall d :: Rest(s, d, sni) ==> NameIn(s, d) == host
    ensures NameIn(s, c) == host
    decreases |exts|
  {
    if exts != [] {
      var more := EncodedExtensions(exts[1..], sni);
      var d := PastFirst(s, c, exts[0], more, |sni|) by {
        EndsNonEmpty(exts[1..], sni);
      }
      ReadsExtensions(s, d, exts[1..], sni, host);
    }
  }

  lemma ReadsComps(s: Bytes, c: nat, comps: Bytes, extsLen: Bytes, more: Bytes)
    requires |comps| < 256 && |extsLen| == 2 && Rest(s, c, [|comps| as Byte] + comps + extsLen + more)
    ensures PastComps(s, c) == Some(c + 3 + |comps|) && Rest(s, c + 3 + |comps|, more)
  {
    var x := [|comps| as Byte] + comps + extsLen;
    RestSplits(s, c, x, more);
    assert x[0] as nat == |comps| && s[c + 0] == x[0];
  }

  lemma ReadsCiphers(s: Bytes, c: nat, ciphers: Bytes, more: Bytes)
    requires |ciphers| < 0x1_0000 && Rest(s, c, TwoBytes(|ciphers|) + ciphers + more)
    ensures PastCiphers(s, c) == PastComps(s, c + 2 + |ciphers|) && Rest(s, c + 2 + |ciphers|, more)
  {
    var x := TwoBytes(|ciphers|) + ciphers;
    RestSplits(s, c, x, more);
    assert U16(x[0], x[1]) == |ciphers|;
  }

  lemma ReadsSid(s: Bytes, c: nat, sid: Bytes, more: Bytes)
    requires |sid| < 256 && Rest(s, c, [|sid| as Byte] + sid + more)
    ensures PastSid(s, c) == PastCiphers(s, c + 1 + |sid|) && Rest(s, c + 1 + |sid|, more)
  {
    var x := [|sid| as Byte] + sid;
    RestSplits(s, c, x, more);
    assert x[0] as nat == |sid| && s[c + 0] == x[0];
  }

  lemma PastFixed(b: Bytes, record: Bytes, fixed: Bytes, more: Bytes)
    requires |record| == 3 && |fixed| == 37 && b == [0x16, 0x03] + record + ([0x01] + fixed + more)
    ensures IsHello(b) && Rest(b[5..], 38, more)
  {
  }

  /** The parser inverts the encoder. */
  lemma ParserInvertsEncoder(h: Hello)
    requires ValidHello(h)
    ensures Parsed(Encoded(h)) == (ACC_PROTO_HTTPS, if Legal(h.host) then h.host else [])
  {
    PastFixed(Encoded(h), h.record, h.fixed, FromSid(h));
    NameInverts(Encoded(h)[5..], h);
  }

  lemma ReadsUpToExtensions(s: Bytes, sid: Bytes, ciphers: Bytes, comps: Bytes, extsLen: Bytes, exts: Bytes)
    requires |sid| < 256 && |ciphers| < 0x1_0000 && |comps| < 256 && |extsLen| == 2
    requires Rest(s, 38, [|sid| as Byte] + sid + (TwoBytes(|ciphers|) + ciphers
                          + ([|comps| as Byte] + comps + extsLen + exts)))
    ensures PastSid(s, 38).Some? && Rest(s, PastSid(s, 38).value, exts)
  {
    var fromComps := [|comps| as Byte] + comps + extsLen + exts;
    ReadsSid(s, 38, sid, TwoBytes(|ciphers|) + ciphers + fromComps);
    var c := 39 + |sid|;
    ReadsCiphers(s, c, ciphers, fromComps);
    c := c + 2 + |ciphers|;
    ReadsComps(s, c, comps, extsLen, exts);
  }

  lemma NameInverts(s: Bytes, h: Hello)
    requires ValidHello(h) && Rest(s, 38, FromSid(h))
    ensures NameOf(s) == h.host
  {
    var sni := EncodedName(h.lens, h.host) + h.tail;
    ReadsUpToExtensions(s, h.sid, h.ciphers, h.comps, h.extsLen, EncodedExtensions(h.exts, sni));
    forall d | Rest(s, d, sni) ensures NameIn(s, d) == h.host {
      ReadsHost(s, d, h.lens, h.host, h.tail);
    }
    ReadsExtensions(s, PastSid(s, 38).value, h.exts, sni, h.host);
  }

  // ---------------------------------------------------------------- and only encodings name a host

  lemma RestJoins(s: Bytes, c: nat, x: Bytes, y: Bytes)
    requires Rest(s, c + |x|, y) && s[c..c + |x|] == x
    ensures Rest(s, c, x + y)
  {
    forall i | 0 <= i < |x + y| ensures s[c + i] == (x + y)[i] {
      if i < |x| {
        assert s[c..c + |x|][i] == x[i];
      } else {
        assert s[c + |x| + (i - |x|)] == y[i - |x|];
      }
    }
  }

  lemma NamesHost(s: Bytes, c: nat, n: nat) returns (lens: Bytes, tail: Bytes)
    requires c + 9 <= |s| && U16(s[c], s[c + 1]) == 0 && s[c + 6] == 0 && U16(s[c + 7], s[c + 8]) == n
    requires 0 < n < |s| - c - 9
    ensures |lens| == 4 && |tail| > 0 && Rest(s, c, EncodedName(lens, s[c + 9..c + 9 + n]) + tail)
  {
    lens, tail := s[c + 2..c + 6], s[c + 9 + n..];
    TwoBytesOf(s[c + 7], s[c + 8]);
    var head := [0, 0] + lens + [0] + TwoBytes(n);
    assert s[c..c + 9] == [s[c], s[c + 1]] + lens + [s[c + 6]] + [s[c + 7], s[c + 8]];
    RestJoins(s, c + 9, s[c + 9..c + 9 + n], tail);
    RestJoins(s, c, head, s[c + 9..c + 9 + n] + tail);
    assert EncodedName(lens, s[c + 9..c + 9 + n]) + tail == head + (s[c + 9..c + 9 + n] + tail);
  }

  lemma IsOther(s: Bytes, c: nat, n: nat, more: Bytes) returns (e: Extension)
    requires c + 4 <= |s| && U16(s[c], s[c + 1]) != 0 && U16(s[c + 2], s[c + 3]) == n && Rest(s, c + 4 + n, more)
    ensures ValidExtension(e) && Rest(s, c, EncodedExtension(e) + more)
  {
    e := Other(U16(s[c], s[c + 1]), s[c + 4..c + 4 + n]);
    TwoBytesOf(s[c], s[c + 1]);
    TwoBytesOf(s[c + 2], s[c + 3]);
    assert s[c..c + 4 + n] == EncodedExtension(e);
    RestJoins(s, c, EncodedExtension(e), more);
  }

  lemma IsEmptyName(s: Bytes, c: nat, n: nat, more: Bytes) returns (e: Extension)
    requires c + 9 <= |s| && U16(s[c], s[c + 1]) == 0 && s[c + 6] == 0 && U16(s[c + 7], s[c + 8]) == 0
    requires U16(s[c + 2], s[c + 3]) == n && Rest(s, c + 9 + n, more)
    ensures ValidExtension(e) && Rest(s, c, EncodedExtension(e) + more)
  {
    e := EmptyName(s[c + 4..c + 6], s[c + 9..c + 9 + n]);
    TwoBytesOf(s[c + 2], s[c + 3]);
    assert s[c..c + 9 + n] == EncodedExtension(e);
    RestJoins(s, c, EncodedExtension(e), more);
  }

  lemma IsExtension(s: Bytes, c: nat) returns (e: Extension, d: nat)
    requires NameIn(s, c) != [] && (U16(s[c], s[c + 1]) != 0 || U16(s[c + 7], s[c + 8]) == 0)
    ensures c < d <= |s| && NameIn(s, c) == NameIn(s, d) && ValidExtension(e)
    ensures forall more :: Rest(s, d, more) ==> Rest(s, c, EncodedExtension(e) + more)
  {
    var n := U16(s[c + 2], s[c + 3]);
    d := if U16(s[c], s[c + 1]) != 0 then c + 4 + n else c + 9 + n;
    assert Rest(s, d, s[d..]);
    if U16(s[c], s[c + 1]) != 0 {
      e := IsOther(s, c, n, s[d..]);
    } else {
      e := IsEmptyName(s, c, n, s[d..]);
    }
    forall more | Rest(s, d, more) ensures Rest(s, c, EncodedExtension(e) + more) {
      assert more == s[d..];
    }
  }

  lemma {:induction false} NameInIsEncoded(s: Bytes, c: nat) returns (exts: seq<Extension>, lens: Bytes, tail: Bytes)
    requires NameIn(s, c) != []
    ensures ValidExtensions(exts) && |lens| == 4 && |tail| > 0
    ensures Rest(s, c, EncodedExtensions(exts, EncodedName(lens, NameIn(s, c)) + tail))
    decreases |s| - c
  {
    if U16(s[c], s[c + 1]) == 0 && U16(s[c + 7], s[c + 8]) > 0 {
      exts := [];
      lens, tail := NamesHost(s, c, U16(s[c + 7], s[c + 8]));
    } else {
      var e, d := IsExtension(s, c);
      exts, lens, tail := NameInIsEncoded(s, d);
      exts := [e] + exts;
    }
  }

  lemma CompsAreEncoded(s: Bytes, c: nat, more: Bytes) returns (comps: Bytes, extsLen: Bytes)
    requires PastComps(s, c).Some? && Rest(s, PastComps(s, c).value, more)
    ensures |comps| < 256 && |extsLen| == 2 && Rest(s, c, [|comps| as Byte] + comps + extsLen + more)
  {
    var d := c + 1 + s[c] as nat;
    comps, extsLen := s[c + 1..d], s[d..d + 2];
    assert s[c..d + 2] == [|comps| as Byte] + comps + extsLen;
    RestJoins(s, c, [|comps| as Byte] + comps + extsLen, more);
  }

  lemma CiphersAreEncoded(s: Bytes, c: nat, d: nat, more: Bytes) returns (ciphers: Bytes)
    requires c + 1 < |s| && d == c + 2 + U16(s[c], s[c + 1]) && Rest(s, d, more)
    ensures |ciphers| < 0x1_0000 && Rest(s, c, TwoBytes(|ciphers|) + ciphers + more)
  {
    ciphers := s[c + 2..d];
    TwoBytesOf(s[c], s[c + 1]);
    assert s[c..d] == TwoBytes(|ciphers|) + ciphers;
    RestJoins(s, c, TwoBytes(|ciphers|) + ciphers, more);
  }

  lemma SidIsEncoded(s: Bytes, c: nat, d: nat, more: Bytes) returns (sid: Bytes)
    requires c < |s| && d == c + 1 + s[c] as nat && Rest(s, d, more)
    ensures |sid| < 256 && Rest(s, c, [|sid| as Byte] + sid + more)
  {
    sid := s[c + 1..d];
    assert s[c..d] == [|sid| as Byte] + sid;
    RestJoins(s, c, [|sid| as Byte] + sid, more);
  }

  lemma NamedFromSid(s: Bytes, fixed: Bytes, record: Bytes) returns (h: Hello)
    requires NameOf(s) != [] && |fixed| == 37 && |record| == 3
    ensures ValidHello(h) && h.host == NameOf(s) && h.fixed == fixed && h.record == record && Rest(s, 38, FromSid(h))
  {
    var c1 := 39 + s[38] as nat;
    var c2 := c1 + 2 + U16(s[c1], s[c1 + 1]);
    var exts, lens, tail := NameInIsEncoded(s, PastSid(s, 38).value);
    var more := EncodedExtensions(exts, EncodedName(lens, NameOf(s)) + tail);
    var comps, extsLen := CompsAreEncoded(s, c2, more);
    more := [|comps| as Byte] + comps + extsLen + more;
    var ciphers := CiphersAreEncoded(s, c1, c2, more);
    more := TwoBytes(|ciphers|) + ciphers + more;
    var sid := SidIsEncoded(s, 38, c1, more);
    h := Hello(record, fixed, sid, ciphers, comps, extsLen, exts, lens, NameOf(s), tail);
  }

  lemma NamedIsEncoded(b: Bytes) returns (h: Hello)
    requires IsHello(b) && NameOf(b[5..]) != []
    ensures ValidHello(h) && h.host == NameOf(b[5..]) && b == Encoded(h)
  {
    var s := b[5..];
    h := NamedFromSid(s, s[1..38], b[2..5]);
    WholeIs(b, h.record, h.fixed, FromSid(h));
  }

  lemma WholeIs(b: Bytes, record: Bytes, fixed: Bytes, more: Bytes)
    requires IsHello(b) && |b| >= 43 && record == b[2..5] && fixed == b[5..][1..38] && Rest(b[5..], 38, more)
    ensures b == [0x16, 0x03] + record + ([0x01] + fixed + more)
  {
    var s := b[5..];
    assert s[38..] == more;
    assert s == [0x01] + fixed + more;
  }

  /** The language of the parser, with the host it names. */
  predicate Names(b: Bytes, h: Hello) {
    ValidHello(h) && b == Encoded(h)
  }

  /** The parser names a host exactly when the bytes are a ClientHello with that host, legal and followed by
      something. */
  lemma HostExactlyWhenEncoded(b: Bytes, host: Bytes)
    requires host != []
    ensures Parsed(b) == (ACC_PROTO_HTTPS, host) <==> Legal(host) && exists h :: Names(b, h) && h.host == host
  {
    if Parsed(b) == (ACC_PROTO_HTTPS, host) {
      var h := NamedIsEncoded(b);
      assert Names(b, h);
    }
    forall h | Names(b, h) && h.host == host && Legal(host) ensures Parsed(b) == (ACC_PROTO_HTTPS, host) {
      ParserInvertsEncoder(h);
    }
  }

  /** The characters of a legal host. */
  lemma LegalCharacters(c: Byte)
    ensures var x := c as char;
            DomainChar(c) <==> 'a' <= x <= 'z' || 'A' <= x <= 'Z' || '0' <= x <= '9' || x == '-' || x == '.'
  {}

  /** What the parser answers, for all bytes: no TLS (2) without the first bytes of a ClientHello, TLS (3) with them,
      and the host if the rest of the ClientHello is there and the host is legal. */
  lemma ParsedExactly(b: Bytes)
    ensures var hello := |b| >= 6 && b[0] == 0x16 && b[1] == 0x03 && b[5] == 0x01;
      && Parsed(b).0 == (if hello then 3 else 2)
      && (Parsed(b).1 != [] <==> exists h :: Names(b, h) && h.host != [] && Legal(h.host))
      && forall h :: Names(b, h) && Legal(h.host) ==> Parsed(b).1 == h.host
  {
    if Parsed(b).1 != [] {
      HostExactlyWhenEncoded(b, Parsed(b).1);
    }
    forall h | Names(b, h) && Legal(h.host) ensures Parsed(b).1 == h.host {
      ParserInvertsEncoder(h);
    }
  }

  // ---------------------------------------------------------------- the segment

  /** The data offset of a TCP header, as the code masks and shifts it, is four times its upper half-byte. */
  lemma OffsetInBytes(x: bv8)
    ensures (x & 0xf0) >> 2 == x / 16 * 4
  {
  }

  function DataOffset(segment: Bytes): nat
    requires |segment| >= 13
  {
    segment[12] as nat / 16 * 4
  }

  /** `http` stands for the HTTP request parser. */
  function TcpParsed(segment: Bytes, http: Bytes -> (int, Bytes)): (int, Bytes)
    requires |segment| >= 13
  {
    if DataOffset(segment) > |segment| then (ACC_PROTO_TCP, [])
    else
      var data := segment[DataOffset(segment)..];
      if IsHello(data) then Parsed(data)
      else if http(data).0 != ACC_PROTO_TCP then http(data)
      else (ACC_PROTO_TCP, [])
  }

  /** onTCP, which its caller calls with at least 14 bytes. */
  method OnTCP(payload: Bytes, http: Bytes -> (int, Bytes)) returns (proto: int, info: Bytes)
    requires |payload| >= 14
    ensures (proto, info) == TcpParsed(payload, http)
  {
    var size := |payload|;
    var ihl := payload[12] as nat / 16 * 4;
    if ihl > size {
      return ACC_PROTO_TCP, [];
    }
    var data := payload[ihl..];
    proto, info := SniNewParser(data);
    if proto != ACC_PROTO_TCP {
      return;
    }
    proto, info := http(data).0, http(data).1;
    if proto != ACC_PROTO_TCP {
      return;
    }
    return ACC_PROTO_TCP, [];
  }

  lemma DataBehindHeader(header: Bytes, data: Bytes, words: nat)
    requires |header| == 4 * words && words >= 4 && header[12] as nat / 16 == words
    ensures var at := DataOffset(header + data); at <= |header + data| && (header + data)[at..] == data
  {
    assert (header + data)[12] == header[12];
  }

  /** A ClientHello behind a TCP header, whatever the header's options are, is named; the HTTP parser has no say. */
  lemma HelloBehindHeader(header: Bytes, words: nat, h: Hello, http: Bytes -> (int, Bytes))
    requires |header| == 4 * words && words >= 4 && header[12] as nat / 16 == words && ValidHello(h)
    ensures TcpParsed(header + Encoded(h), http) == (ACC_PROTO_HTTPS, if Legal(h.host) then h.host else [])
  {
    var data := Encoded(h);
    ParserInvertsEncoder(h);
    DataBehindHeader(header, data, words);
  }

  /** Every other segment: a header that reaches past its end is plain TCP (2), and data that is no ClientHello is what
      the HTTP parser says of it. */
  lemma OtherSegments(segment: Bytes, http: Bytes -> (int, Bytes))
    requires |segment| >= 14
    ensures var at := 4 * (segment[12] as nat / 16);
      && (at > |segment| ==> TcpParsed(segment, http) == (2, []))
      && (at <= |segment| && Parsed(segment[at..]).0 == 3 ==> TcpParsed(segment, http) == Parsed(segment[at..]))
      && (at <= |segment| && Parsed(segment[at..]).0 == 2 ==>
            TcpParsed(segment, http) == if http(segment[at..]).0 == 2 then (2, []) else http(segment[at..]))
  {}
}
