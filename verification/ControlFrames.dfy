/** The bytes of the frames and what each type leads to, with the numbers of section 2.2 of
    draft-mavrogiannopoulos-openconnect-02 written out. */
module ControlFrames {
  import opened Octets
  import opened Wrappers
  import opened Framing

  // ---------------------------------------------------------------- what a reader makes of each type

  /** CSTP: the byte behind the length is the type. Only data and the reason of a DISCONNECT depend on the rest. */
  lemma CstpTypes(b: Bytes, n: nat, cmp: Option<Codec>)
    requires |b| == 2048 && n <= 2048
    ensures b[6] == 3 ==> CstpReceived(b, n, cmp) == Reply(b)
    ensures b[6] == 4 ==> CstpReceived(b, n, cmp) == PeerAlive
    ensures b[6] == 5 ==> CstpReceived(b, n, cmp) == if n < 9 then Crash else Disconnect
    ensures b[6] == 7 ==> CstpReceived(b, n, cmp) == Alive
    ensures b[6] !in {0, 3, 4, 5, 7, 8} ==> CstpReceived(b, n, cmp) == Drop
    ensures CstpReceived(b, n, cmp).Reply? <==> b[6] == 3
    ensures CstpReceived(b, n, cmp).Disconnect? ==> b[6] == 5
    ensures CstpReceived(b, n, cmp).Deliver? ==> b[6] in {0, 8}
  {}

  /** DTLS: the first byte is the type. */
  lemma DtlsTypes(b: Bytes, n: nat, cmp: Option<Codec>)
    requires |b| == 2048 && n <= 2048
    ensures b[0] == 3 ==> DtlsReceived(b, n, cmp) == Reply(b[..n])
    ensures b[0] == 4 ==> DtlsReceived(b, n, cmp) == PeerAlive
    ensures b[0] == 5 ==> DtlsReceived(b, n, cmp) == Disconnect
    ensures b[0] == 7 ==> DtlsReceived(b, n, cmp) == Alive
    ensures b[0] !in {0, 3, 4, 5, 7, 8} ==> DtlsReceived(b, n, cmp) == Drop
    ensures DtlsReceived(b, n, cmp).Reply? <==> b[0] == 3
    ensures DtlsReceived(b, n, cmp).Disconnect? <==> b[0] == 5
    ensures DtlsReceived(b, n, cmp).Deliver? ==> b[0] in {0, 8}
    ensures DtlsReceived(b, n, cmp).Crash? <==> b[0] == 0 && n == 0
  {}

  // ---------------------------------------------------------------- what a writer sends

  /** The header of CSTP: 'S', 'T', 'F', 1, the length with its high byte first, the type, 0. */
  lemma CstpBytes(typ: Byte, p: Bytes)
    requires |p| < 65536
    ensures var f := CstpFrame(typ, p);
      && |f| == 8 + |p| && f[..4] == [0x53, 0x54, 0x46, 0x01] && f[6..8] == [typ, 0x00] && f[8..] == p
      && 256 * (f[4] as int) + f[5] as int == |p|
  {
    assert |p| % 0x1_0000 == |p|;
    var h := CstpHeader(typ, |p|);
    assert CstpFrame(typ, p) == h + p && h[..4] == [0x53, 0x54, 0x46, 0x01] && h[6..8] == [typ, 0x00];
    assert (h + p)[..4] == h[..4] && (h + p)[6..8] == h[6..8] && (h + p)[8..] == p;
  }

  /** A control frame is a bare header. */
  lemma CstpControl(typ: Byte, p: Bytes, room: nat, cmp: Option<Codec>, limit: int)
    requires typ != 0
    ensures CstpSent(2, typ, p, room, cmp, limit) == Frame([0x53, 0x54, 0x46, 0x01, 0x00, 0x00, typ, 0x00])
  {
    CstpBytes(typ, []);
    var f := CstpFrame(typ, []);
    assert f == f[..4] + [f[4], f[5]] + f[6..8];
    assert f[4] == 0 && f[5] == 0;
  }

  /** Over DTLS it is the bare type, but for an answer, which overwrites the first byte of what it answers and panics
      without one. */
  lemma DtlsControl(typ: Byte, p: Bytes, room: nat, cmp: Option<Codec>, limit: int)
    requires typ != 0
    ensures DtlsSent(2, typ, p, room, cmp, limit)
            == if typ != 4 then Frame([typ]) else if p == [] then Panic else Frame([4] + p[1..])
  {}

  /** Over CSTP a dead-peer request, whatever it holds and whatever is left in the buffer behind it, is answered with
      the bare header of type 4; and a peer that reads the answer knows the other end alive. */
  lemma CstpRequestIsAnswered(p: Bytes, junk: Bytes, n: nat, room: nat, left: Bytes, cmp: Option<Codec>, limit: int)
    requires |p| + 8 + |junk| == 2048 && n <= 2048 && |left| == 2040
    ensures var got := CstpReceived(CstpFrame(3, p) + junk, n, cmp);
            var answer := [0x53, 0x54, 0x46, 0x01, 0x00, 0x00, 0x04, 0x00];
      && got.Reply? && CstpSent(2, 4, got.p, room, cmp, limit) == Frame(answer)
      && CstpReceived(answer + left, 8, cmp) == PeerAlive
  {
    var b := CstpFrame(3, p) + junk;
    CstpBytes(3, p);
    assert b[6] == CstpFrame(3, p)[6..8][0];
    CstpTypes(b, n, cmp);
    CstpControl(4, b, room, cmp, limit);
    var answer: Bytes := [0x53, 0x54, 0x46, 0x01, 0x00, 0x00, 0x04, 0x00];
    assert (answer + left)[6] == 4;
    CstpTypes(answer + left, 8, cmp);
  }

  /** The same over DTLS, where the contents come back. */
  lemma DtlsRequestIsAnswered(p: Bytes, junk: Bytes, left: Bytes, cmp: Option<Codec>, limit: int)
    requires |p| + 1 + |junk| == 2048 && |p| + 1 + |left| == 2048
    ensures var got := DtlsReceived([3] + p + junk, |p| + 1, cmp);
      && got.Reply? && DtlsSent(2, 4, got.p, 2048, cmp, limit) == Frame([4] + p)
      && DtlsReceived([4] + p + left, |p| + 1, cmp) == PeerAlive
  {
    var b := [3] + p + junk;
    assert b[..|p| + 1] == [3] + p;
    assert ([3] + p)[0 := 4] == [4] + p;
    DtlsTypes(b, |p| + 1, cmp);
    DtlsTypes([4] + p + left, |p| + 1, cmp);
  }

  // ---------------------------------------------------------------- when data is compressed

  /** What the codec makes of a payload is sent exactly when there is a codec, the payload is longer than the limit, and
      the output fits beside the header and is shorter than the payload. */
  predicate GoesPacked(p: Bytes, cmp: Option<Codec>, limit: int, header: int) {
    && cmp.Some? && |p| > limit
    && var z := cmp.value.compress(p); z.Some? && |z.value| <= 2048 - header && |z.value| < |p|
  }

  lemma DataIsSentExactly(p: Bytes, room: nat, cmp: Option<Codec>, limit: int)
    ensures CstpSent(2, 0, p, room, cmp, limit)
            == if GoesPacked(p, cmp, limit, 8) then Frame(CstpFrame(8, cmp.value.compress(p).value))
               else if |p| + 8 > room then Panic
               else Frame(CstpFrame(0, p))
    ensures DtlsSent(2, 0, p, room, cmp, limit)
            == if GoesPacked(p, cmp, limit, 1) then Frame([8] + cmp.value.compress(p).value)
               else if |p| + 1 > room then Panic
               else Frame([0] + p)
  {}

  /** Frames of the link layer go out by neither tunnel. */
  lemma OnlyIpIsSent(ltype: int, ptype: Byte, p: Bytes, room: nat, cmp: Option<Codec>, limit: int)
    ensures CstpSent(ltype, ptype, p, room, cmp, limit).Ignored? <==> ltype != 2
    ensures DtlsSent(ltype, ptype, p, room, cmp, limit).Ignored? <==> ltype != 2
  {}
}
