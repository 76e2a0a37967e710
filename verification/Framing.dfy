/** Frames of the two tunnels (section 2.2 of draft-mavrogiannopoulos-openconnect-02), made and taken apart in place in
    pooled buffers. */
module Framing {
  import opened Octets
  import opened Wrappers

  const BUFFER_SIZE := 2048
  const LTYPE_IP_DATA := 2

  const DATA: Byte := 0x00
  const DPD_REQ: Byte := 0x03
  const DPD_RESP: Byte := 0x04
  const DISCONNECT: Byte := 0x05
  const KEEPALIVE: Byte := 0x07
  const COMPRESSED: Byte := 0x08

  // ---------------------------------------------------------------- the frames

  /** 'S', 'T', 'F', 1, the length modulo 2^16, the type and a zero. */
  function CstpHeader(typ: Byte, n: nat): (h: Bytes)
    ensures |h| == 8
  {
    var len := TwoBytes(n % 0x1_0000);
    [0x53, 0x54, 0x46, 0x01, len[0], len[1], typ, 0x00]
  }

  function CstpFrame(typ: Byte, p: Bytes): Bytes { CstpHeader(typ, |p|) + p }

  function DtlsFrame(typ: Byte, p: Bytes): Bytes { [typ] + p }

  /** The LZS codec: what it makes of its input, unless it reports an error. */
  datatype Codec = Codec(compress: Bytes -> Option<Bytes>, uncompress: Bytes -> Option<Bytes>)

  /** Output that is longer than its buffer is an error. */
  function Within(b: Option<Bytes>, room: nat): Option<Bytes> {
    if b.Some? && |b.value| <= room then b else None
  }

  /** What a writer sends for a payload. */
  datatype Sent = Frame(bytes: Bytes) | Ignored | Panic

  /** The compressed payload, if it is to be sent compressed behind a header of `header` bytes. */
  function Packed(p: Bytes, cmp: Option<Codec>, limit: int, header: nat): Option<Bytes>
    requires header <= BUFFER_SIZE
  {
    if cmp.Some? && |p| > limit then
      var z := Within(cmp.value.compress(p), BUFFER_SIZE - header);
      if z.Some? && |z.value| < |p| then z else None
    else None
  }

  function CstpSent(ltype: int, ptype: Byte, p: Bytes, room: nat, cmp: Option<Codec>, limit: int): Sent {
    if ltype != LTYPE_IP_DATA then Ignored
    else if ptype != DATA then Frame(CstpFrame(ptype, []))
    else match Packed(p, cmp, limit, 8)
      case Some(z) => Frame(CstpFrame(COMPRESSED, z))
      case None => if |p| + 8 > room then Panic else Frame(CstpFrame(DATA, p))
  }

  function DtlsSent(ltype: int, ptype: Byte, p: Bytes, room: nat, cmp: Option<Codec>, limit: int): Sent {
    if ltype != LTYPE_IP_DATA then Ignored
    else if ptype == DPD_RESP then if p == [] then Panic else Frame(p[0 := DPD_RESP])
    else if ptype != DATA then Frame([ptype])
    else match Packed(p, cmp, limit, 1)
      case Some(z) => Frame(DtlsFrame(COMPRESSED, z))
      case None => if |p| + 1 > room then Panic else Frame(DtlsFrame(DATA, p))
  }

  /** What a reader makes of its buffer. */
  datatype Received = Deliver(p: Bytes) | Reply(p: Bytes) | Alive | PeerAlive | Disconnect | Drop | Crash

  /** `b` is the whole buffer, of which the read filled the first `n` bytes. Data is taken by the length in its header,
      an addition modulo 2^16, and not by `n`. */
  function CstpReceived(b: Bytes, n: nat, cmp: Option<Codec>): Received
    requires |b| == BUFFER_SIZE && n <= BUFFER_SIZE
  {
    if b[6] == KEEPALIVE then Alive
    else if b[6] == DISCONNECT then if n < 9 then Crash else Disconnect
    else if b[6] == DPD_REQ then Reply(b)
    else if b[6] == DPD_RESP then PeerAlive
    else if b[6] == COMPRESSED then
      if cmp.None? then Drop else
      match Within(cmp.value.uncompress(b[8..]), BUFFER_SIZE)
      case None => Drop
      case Some(x) => if 8 + |x| > BUFFER_SIZE then Drop else Deliver(x)
    else if b[6] == DATA then
      var dataLen := U16(b[4], b[5]);
      if (8 + dataLen) % 0x1_0000 > BUFFER_SIZE then Drop
      else if (8 + dataLen) % 0x1_0000 < 8 then Crash
      else Deliver(b[8..8 + dataLen])
    else Drop
  }

  function DtlsReceived(b: Bytes, n: nat, cmp: Option<Codec>): Received
    requires |b| == BUFFER_SIZE && n <= BUFFER_SIZE
  {
    if b[0] == KEEPALIVE then Alive
    else if b[0] == DISCONNECT then Disconnect
    else if b[0] == DPD_REQ then Reply(b[..n])
    else if b[0] == DPD_RESP then PeerAlive
    else if b[0] == COMPRESSED then
      if cmp.None? then Drop else
      match Within(cmp.value.uncompress(b[1..]), BUFFER_SIZE)
      case None => Drop
      case Some(x) => Deliver(x)
    else if b[0] == DATA then if n < 1 then Crash else Deliver(b[1..n])
    else Drop
  }

  // ---------------------------------------------------------------- round trips

  /** The codec finds the end of its own blocks: what follows a block does not matter. */
  ghost predicate Honest(c: Codec, p: Bytes) {
    forall z, junk :: c.compress(p) == Some(z) ==> c.uncompress(z + junk) == Some(p)
  }

  lemma HeaderBytes(head: Bytes, p: Bytes, junk: Bytes)
    requires |head| == 8
    ensures var b := head + p + junk;
            b[4] == head[4] && b[5] == head[5] && b[6] == head[6] && b[8..] == p + junk && b[8..8 + |p|] == p
  {
    assert head + p + junk == head + (p + junk);
  }

  lemma CstpFields(typ: Byte, p: Bytes, junk: Bytes)
    requires |p| < 0x1_0000
    ensures var b := CstpFrame(typ, p) + junk;
            && |b| == 8 + |p| + |junk| && b[6] == typ && U16(b[4], b[5]) == |p|
            && b[8..] == p + junk && b[8..8 + |p|] == p
  {
    assert |p| % 0x1_0000 == |p|;
    HeaderBytes(CstpHeader(typ, |p|), p, junk);
  }

  lemma DataArrives(b: Bytes, p: Bytes, n: nat, cmp: Option<Codec>)
    requires |b| == BUFFER_SIZE && n <= BUFFER_SIZE && |p| <= BUFFER_SIZE - 8
    requires b[6] == DATA && U16(b[4], b[5]) == |p| && b[8..8 + |p|] == p
    ensures CstpReceived(b, n, cmp) == Deliver(p)
  {
    assert (8 + |p|) % 0x1_0000 == 8 + |p|;
    assert DATA != KEEPALIVE && DATA != DISCONNECT && DATA != DPD_REQ && DATA != DPD_RESP && DATA != COMPRESSED;
  }

  lemma PackedArrives(b: Bytes, p: Bytes, n: nat, cmp: Option<Codec>)
    requires |b| == BUFFER_SIZE && n <= BUFFER_SIZE && |p| <= BUFFER_SIZE
    requires b[6] == COMPRESSED && cmp.Some? && cmp.value.uncompress(b[8..]) == Some(p)
    ensures CstpReceived(b, n, cmp) == if |p| <= BUFFER_SIZE - 8 then Deliver(p) else Drop
  {
  }

  /** Over TLS: what one end sends for a data payload, the other delivers, behind any leftovers in its buffer, exactly
      when the payload fits beside its header; a longer one gets across in no form. */
  lemma CstpRoundTrip(p: Bytes, junk: Bytes, n: nat, cmp: Option<Codec>, limit: int)
    requires |p| <= BUFFER_SIZE && n <= BUFFER_SIZE && (cmp.Some? ==> Honest(cmp.value, p))
    ensures var sent := CstpSent(LTYPE_IP_DATA, DATA, p, BUFFER_SIZE, cmp, limit);
            && (|p| <= BUFFER_SIZE - 8 ==> sent.Frame?)
            && (sent == Panic <==> |p| > BUFFER_SIZE - 8 && Packed(p, cmp, limit, 8).None?)
            && (sent.Frame? && |sent.bytes| + |junk| == BUFFER_SIZE ==>
                  (CstpReceived(sent.bytes + junk, n, cmp) == Deliver(p) <==> |p| <= BUFFER_SIZE - 8))
  {
    match Packed(p, cmp, limit, 8)
    case Some(z) =>
      CstpFields(COMPRESSED, z, junk);
      assert cmp.value.uncompress(z + junk) == Some(p);
      if 8 + |z| + |junk| == BUFFER_SIZE {
        PackedArrives(CstpFrame(COMPRESSED, z) + junk, p, n, cmp);
      }
    case None =>
      CstpFields(DATA, p, junk);
      if 8 + |p| + |junk| == BUFFER_SIZE {
        DataArrives(CstpFrame(DATA, p) + junk, p, n, cmp);
      }
  }

  /** Over DTLS, where a record ends with its frame. */
  lemma DtlsRoundTrip(p: Bytes, junk: Bytes, cmp: Option<Codec>, limit: int)
    requires |p| <= BUFFER_SIZE && (cmp.Some? ==> Honest(cmp.value, p))
    ensures var sent := DtlsSent(LTYPE_IP_DATA, DATA, p, BUFFER_SIZE, cmp, limit);
            && (sent == Panic <==> |p| == BUFFER_SIZE && Packed(p, cmp, limit, 1).None?)
            && (sent.Frame? && |sent.bytes| + |junk| == BUFFER_SIZE ==>
                  DtlsReceived(sent.bytes + junk, |sent.bytes|, cmp) == Deliver(p))
  {
    match Packed(p, cmp, limit, 1)
    case Some(z) =>
      if |z| + 1 + |junk| == BUFFER_SIZE {
        assert (DtlsFrame(COMPRESSED, z) + junk)[1..] == z + junk;
        assert cmp.value.uncompress(z + junk) == Some(p);
      }
    case None =>
      if |p| + 1 + |junk| == BUFFER_SIZE {
        assert (DtlsFrame(DATA, p) + junk)[1..|p| + 1] == p;
      }
  }

  /** A dead-peer request over DTLS is answered with its own contents. */
  lemma DtlsReplyEchoes(p: Bytes, junk: Bytes, cmp: Option<Codec>, limit: int)
    requires |p| + 1 + |junk| == BUFFER_SIZE
    ensures var got := DtlsReceived(DtlsFrame(DPD_REQ, p) + junk, |p| + 1, cmp);
            got.Reply?
            && DtlsSent(LTYPE_IP_DATA, DPD_RESP, got.p, BUFFER_SIZE, cmp, limit) == Frame(DtlsFrame(DPD_RESP, p))
  {
    var b := DtlsFrame(DPD_REQ, p) + junk;
    assert b[..|p| + 1] == DtlsFrame(DPD_REQ, p);
  }

  /** A data frame crashes the reader exactly when its length wraps around, and is delivered exactly when it fits. */
  lemma CstpLengths(b: Bytes, n: nat, cmp: Option<Codec>)
    requires |b| == BUFFER_SIZE && n <= BUFFER_SIZE && b[6] == DATA
    ensures CstpReceived(b, n, cmp) == Crash <==> U16(b[4], b[5]) >= 65528
    ensures CstpReceived(b, n, cmp).Deliver? <==> U16(b[4], b[5]) <= BUFFER_SIZE - 8
  {
    assert U16(b[4], b[5]) < 0x1_0000;
  }

  /** No other buffer crashes the reader, but for a read that ends before the reason of a DISCONNECT. */
  lemma CstpCrashes(b: Bytes, n: nat, cmp: Option<Codec>)
    requires |b| == BUFFER_SIZE && n <= BUFFER_SIZE
    ensures CstpReceived(b, n, cmp) == Crash <==>
              (b[6] == DISCONNECT && n < 9) || (b[6] == DATA && U16(b[4], b[5]) >= 65528)
  {
    if b[6] == DATA {
      CstpLengths(b, n, cmp);
    }
  }

  // ---------------------------------------------------------------- slices

  /** What copying `n` bytes from `src` to `dst` makes of a buffer. */
  function Moved(s: Bytes, dst: nat, src: nat, n: nat): Bytes
    requires dst + n <= |s| && src + n <= |s|
  {
    s[..dst] + s[src..src + n] + s[dst + n..]
  }

  /** copy within one buffer, whether or not the parts overlap. */
  method Move(a: array<Byte>, dst: nat, src: nat, n: nat)
    requires dst + n <= a.Length && src + n <= a.Length
    modifies a
    ensures a[..] == Moved(old(a[..]), dst, src, n)
  {
    ghost var was := a[..];
    if dst <= src {
      for i := 0 to n
        invariant forall k :: dst <= k < dst + i ==> a[k] == was[src + (k - dst)]
        invariant forall k :: (0 <= k < dst || dst + i <= k < a.Length) ==> a[k] == was[k]
      {
        a[dst + i] := a[src + i];
      }
    } else {
      for i := n downto 0
        invariant forall k :: dst + i <= k < dst + n ==> a[k] == was[src + (k - dst)]
        invariant forall k :: (0 <= k < dst + i || dst + n <= k < a.Length) ==> a[k] == was[k]
      {
        a[dst + i] := a[src + i];
      }
    }
    MovedIs(was, a[..], dst, src, n);
  }

  lemma MovedIs(was: Bytes, now: Bytes, dst: nat, src: nat, n: nat)
    requires |now| == |was| && dst + n <= |was| && src + n <= |was|
    requires forall k :: dst <= k < dst + n ==> now[k] == was[src + (k - dst)]
    requires forall k :: (0 <= k < dst || dst + n <= k < |was|) ==> now[k] == was[k]
    ensures now == Moved(was, dst, src, n)
  {
  }

  /** Bytes from elsewhere, copied to position `dst`. */
  method Put(a: array<Byte>, dst: nat, b: Bytes)
    requires dst + |b| <= a.Length
    modifies a
    ensures forall k :: dst <= k < dst + |b| ==> a[k] == b[k - dst]
    ensures forall k :: (0 <= k < dst || dst + |b| <= k < a.Length) ==> a[k] == old(a[k])
  {
    ghost var was := a[..];
    for i := 0 to |b|
      invariant forall k :: dst <= k < dst + i ==> a[k] == b[k - dst]
      invariant forall k :: (0 <= k < dst || dst + i <= k < a.Length) ==> a[k] == was[k]
    {
      a[dst + i] := b[i];
    }
  }

  /** The frame of the first `l` bytes, made where they are: moved back by eight, the header copied in front, then the
      length set. */
  method Shift(a: array<Byte>, l: nat)
    requires l + 8 <= a.Length
    modifies a
    ensures a[..l + 8] == CstpFrame(DATA, old(a[..l]))
  {
    ghost var p := a[..l];
    Move(a, 8, 0, l);
    assert a[8..l + 8] == p;
    ghost var moved := a[8..l + 8];
    Put(a, 0, CstpHeader(DATA, 0));
    Put(a, 4, TwoBytes(l % 0x1_0000));
    assert forall k :: 8 <= k < l + 8 ==> a[k] == moved[k - 8];
    assert a[..l + 8] == a[..8] + a[8..l + 8];
    assert a[..8] == CstpHeader(DATA, l);
  }

  method ShiftDtls(a: array<Byte>, l: nat, typ: Byte)
    requires l + 1 <= a.Length
    modifies a
    ensures a[..l + 1] == DtlsFrame(typ, old(a[..l]))
  {
    ghost var p := a[..l];
    Move(a, 1, 0, l);
    assert a[1..l + 1] == p;
    a[0] := typ;
    assert a[..l + 1] == [a[0]] + a[1..l + 1];
  }

  /** A payload: a slice from the start of its array, whose length is the slice's capacity. */
  class Payload {
    var ltype: int
    var ptype: Byte
    var data: array<Byte>
    var len: nat

    constructor ()
      ensures Ready() && fresh(data)
    {
      data := new Byte[BUFFER_SIZE];
      ltype, ptype, len := LTYPE_IP_DATA, DATA, BUFFER_SIZE;
    }

    ghost predicate Valid()
      reads this
    {
      len <= data.Length
    }

    ghost function Bytes(): Octets.Bytes
      requires Valid()
      reads this, data
    {
      data[..len]
    }

    /** As every payload in the pool is. */
    ghost predicate Ready()
      reads this
    {
      ltype == LTYPE_IP_DATA && ptype == DATA && len == data.Length == BUFFER_SIZE
    }

    /** append(data[:keep], b...): in place if it fits, else into a new array of capacity `grown`. */
    method Append(keep: nat, b: Octets.Bytes, grown: nat)
      requires Valid() && keep <= data.Length && keep + |b| <= grown
      modifies this, data
      ensures Valid() && ltype == old(ltype) && ptype == old(ptype)
      ensures Bytes() == old(data[..keep]) + b
      ensures if keep + |b| <= old(data).Length then data == old(data) else fresh(data) && data.Length == grown
    {
      if keep + |b| > data.Length {
        var more := new Byte[grown];
        forall k | 0 <= k < keep {
          more[k] := data[k];
        }
        data := more;
      }
      Put(data, keep, b);
      len := keep + |b|;
    }

    /** A data payload in cstpWrite. */
    method EncodeCstpData(cmp: Option<Codec>, limit: int, grown: nat) returns (fits: bool)
      requires Valid() && grown >= BUFFER_SIZE && ltype == LTYPE_IP_DATA && ptype == DATA
      modifies this, data
      ensures Valid() && fits == (CstpSent(ltype, ptype, old(Bytes()), old(data).Length, cmp, limit) != Panic)
      ensures fits ==> Frame(Bytes()) == CstpSent(LTYPE_IP_DATA, DATA, old(Bytes()), old(data).Length, cmp, limit)
      ensures ltype == LTYPE_IP_DATA && ptype == DATA
      ensures data == old(data) || (fresh(data) && data.Length == grown && old(data).Length < BUFFER_SIZE)
    {
      var l := len;
      if cmp.Some? && l > limit {
        var z := Within(cmp.value.compress(data[..l]), BUFFER_SIZE - 8);
        if z.Some? && |z.value| < l {
          Append(0, CstpFrame(COMPRESSED, z.value), grown);
          return true;
        }
      }
      if l + 8 > data.Length {
        return false;
      }
      len := l + 8;
      Shift(data, l);
      return true;
    }

    /** cstpWrite up to the write: the frame is in the payload itself. */
    method EncodeCstp(cmp: Option<Codec>, limit: int, grown: nat) returns (sent: Sent)
      requires Valid() && grown >= BUFFER_SIZE
      modifies this, data
      ensures sent == CstpSent(old(ltype), old(ptype), old(Bytes()), old(data).Length, cmp, limit)
      ensures Valid() && (sent.Frame? ==> Bytes() == sent.bytes)
      ensures data == old(data) || (fresh(data) && data.Length == grown && old(data).Length < BUFFER_SIZE)
    {
      if ltype != LTYPE_IP_DATA {
        return Ignored;
      }
      if ptype == DATA {
        var fits := EncodeCstpData(cmp, limit, grown);
        if !fits {
          return Panic;
        }
      } else {
        Append(0, CstpHeader(DATA, 0), grown);
        data[6] := ptype;
      }
      return Frame(data[..len]);
    }

    /** A data payload in dtlsWrite. */
    method EncodeDtlsData(cmp: Option<Codec>, limit: int, grown: nat) returns (fits: bool)
      requires Valid() && grown >= BUFFER_SIZE && ltype == LTYPE_IP_DATA && ptype == DATA
      modifies this, data
      ensures Valid() && fits == (DtlsSent(ltype, ptype, old(Bytes()), old(data).Length, cmp, limit) != Panic)
      ensures fits ==> Frame(Bytes()) == DtlsSent(LTYPE_IP_DATA, DATA, old(Bytes()), old(data).Length, cmp, limit)
      ensures ltype == LTYPE_IP_DATA && ptype == DATA
      ensures data == old(data) || (fresh(data) && data.Length == grown && old(data).Length < BUFFER_SIZE)
    {
      var l := len;
      if cmp.Some? && l > limit {
        var z := Within(cmp.value.compress(data[..l]), BUFFER_SIZE - 1);
        if z.Some? && |z.value| < l {
          Append(0, DtlsFrame(COMPRESSED, z.value), grown);
          return true;
        }
      }
      if l + 1 > data.Length {
        return false;
      }
      len := l + 1;
      ShiftDtls(data, l, ptype);
      return true;
    }

    /** dtlsWrite up to the write. */
    method EncodeDtls(cmp: Option<Codec>, limit: int, grown: nat) returns (sent: Sent)
      requires Valid() && grown >= BUFFER_SIZE
      modifies this, data
      ensures sent == DtlsSent(old(ltype), old(ptype), old(Bytes()), old(data).Length, cmp, limit)
      ensures Valid() && (sent.Frame? ==> Bytes() == sent.bytes)
      ensures data == old(data) || (fresh(data) && data.Length == grown && old(data).Length < BUFFER_SIZE)
    {
      if ltype != LTYPE_IP_DATA {
        return Ignored;
      }
      if ptype == DATA {
        var fits := EncodeDtlsData(cmp, limit, grown);
        if !fits {
          return Panic;
        }
      } else if ptype == DPD_RESP {
        if len == 0 {
          return Panic;
        }
        data[0] := ptype;
      } else {
        Append(0, [ptype], grown);
      }
      return Frame(data[..len]);
    }

    /** Taking the frame out of the buffer: `header` bytes are dropped, `n` are kept. */
    method Unwrap(header: nat, n: nat)
      requires header + n <= data.Length
      modifies this`len, data
      ensures Valid() && Bytes() == old(data[header..header + n])
    {
      Move(data, 0, header, n);
      len := n;
    }

    /** The uncompressed form of a compressed frame, behind a header of `header` bytes; an error leaves all as it
        was. */
    method Expand(header: nat, cmp: Codec, grown: nat) returns (x: Option<Octets.Bytes>)
      requires Ready() && header <= BUFFER_SIZE && grown >= header + BUFFER_SIZE
      modifies this, data
      ensures x == Within(cmp.uncompress(old(Bytes())[header..]), BUFFER_SIZE)
      ensures ltype == old(ltype) && ptype == old(ptype) && (data == old(data) || (fresh(data) && data.Length == grown))
      ensures Valid() && Bytes() == if x.None? then old(Bytes()) else old(Bytes())[..header] + x.value
      ensures x.Some? && header + |x.value| <= BUFFER_SIZE ==> data == old(data)
    {
      ghost var b := data[..len];
      assert data[header..len] == b[header..] && data[..header] == b[..header];
      x := Within(cmp.uncompress(data[header..len]), BUFFER_SIZE);
      if x.Some? {
        Append(header, x.value, grown);
      }
    }

    /** The data case of LinkCstp: the length in the header, and as many bytes behind it. */
    method DeliverCstp() returns (got: Received)
      requires Valid() && len >= 8 && (8 + U16(data[4], data[5]) <= BUFFER_SIZE ==> 8 + U16(data[4], data[5]) <= len)
      modifies this`len, data
      ensures var b, d := old(Bytes()), U16(old(data[4]), old(data[5]));
              && got == (if (8 + d) % 0x1_0000 > BUFFER_SIZE then Drop
                         else if (8 + d) % 0x1_0000 < 8 then Crash
                         else Deliver(b[8..8 + d]))
      ensures Valid() && (got.Deliver? ==> Bytes() == got.p)
    {
      var dataLen := U16(data[4], data[5]);
      if (8 + dataLen) % 0x1_0000 > BUFFER_SIZE {
        return Drop;
      }
      if (8 + dataLen) % 0x1_0000 < 8 {
        return Crash;
      }
      ghost var b := data[..len];
      assert b[8..8 + dataLen] == data[8..8 + dataLen];
      Unwrap(8, dataLen);
      return Deliver(data[..len]);
    }

    /** LinkCstp after a read of `n` bytes into the whole buffer. */
    method DecodeCstp(n: nat, cmp: Option<Codec>, grown: nat) returns (got: Received)
      requires Ready() && n <= BUFFER_SIZE && grown >= 8 + BUFFER_SIZE
      modifies this, data
      ensures got == CstpReceived(old(Bytes()), n, cmp)
      ensures Valid() && ltype == LTYPE_IP_DATA && ptype == if got.Reply? then DPD_RESP else DATA
      ensures got.Deliver? || got.Reply? ==> Bytes() == got.p
      ensures data == old(data) || (fresh(data) && data.Length == grown)
    {
      var typ := data[6];
      if typ == KEEPALIVE {
        return Alive;
      }
      if typ == DISCONNECT {
        return if n < 9 then Crash else Disconnect;
      }
      if typ == DPD_REQ {
        ptype := DPD_RESP;
        return Reply(data[..len]);
      }
      if typ == DPD_RESP {
        return PeerAlive;
      }
      if typ == COMPRESSED || typ == DATA {
        got := DecodeCstpData(cmp, grown);
        return;
      }
      return Drop;
    }

    /** The case of a compressed frame in LinkCstp up to its fallthrough: the buffer then holds the frame of `x`. */
    method UnpackCstp(cmp: Codec, grown: nat) returns (x: Option<Octets.Bytes>)
      requires Ready() && grown >= 8 + BUFFER_SIZE
      modifies this, data
      ensures x == Within(cmp.uncompress(old(Bytes())[8..]), BUFFER_SIZE)
      ensures ltype == old(ltype) && ptype == old(ptype) && (data == old(data) || (fresh(data) && data.Length == grown))
      ensures Valid()
      ensures x.Some? ==> len == 8 + |x.value| && U16(data[4], data[5]) == |x.value| && Bytes()[8..] == x.value
    {
      x := Expand(8, cmp, grown);
      if x.Some? {
        ghost var p := Bytes()[8..];
        assert forall k :: 0 <= k < |p| ==> data[8 + k] == p[k];
        var z := TwoBytes(|x.value|);
        data[4], data[5] := z[0], z[1];
        assert Bytes()[8..] == p;
      }
    }

    /** The two data cases of LinkCstp. */
    method DecodeCstpData(cmp: Option<Codec>, grown: nat) returns (got: Received)
      requires Ready() && grown >= 8 + BUFFER_SIZE && (data[6] == COMPRESSED || data[6] == DATA)
      modifies this, data
      ensures got == CstpReceived(old(Bytes()), 0, cmp)
      ensures Valid() && ltype == LTYPE_IP_DATA && ptype == DATA && (got.Deliver? ==> Bytes() == got.p)
      ensures data == old(data) || (fresh(data) && data.Length == grown)
    {
      if data[6] == COMPRESSED {
        if cmp.None? {
          return Drop;
        }
        var x := UnpackCstp(cmp.value, grown);
        if x.None? {
          return Drop;
        }
        assert Bytes()[8..8 + |x.value|] == x.value;
      }
      got := DeliverCstp();
    }

    /** LinkDtls after a read of `n` bytes. */
    method DecodeDtls(n: nat, cmp: Option<Codec>, grown: nat) returns (got: Received)
      requires Ready() && n <= BUFFER_SIZE && grown >= 1 + BUFFER_SIZE
      modifies this, data
      ensures got == DtlsReceived(old(Bytes()), n, cmp)
      ensures Valid() && ltype == LTYPE_IP_DATA && ptype == if got.Reply? then DPD_RESP else DATA
      ensures got.Deliver? || got.Reply? ==> Bytes() == got.p
      ensures data == old(data) || (fresh(data) && data.Length == grown)
    {
      var typ := data[0];
      if typ == KEEPALIVE {
        return Alive;
      }
      if typ == DISCONNECT {
        return Disconnect;
      }
      if typ == DPD_REQ {
        ptype := DPD_RESP;
        len := n;
        return Reply(data[..len]);
      }
      if typ == DPD_RESP {
        return PeerAlive;
      }
      if typ == COMPRESSED || typ == DATA {
        got := DecodeDtlsData(n, cmp, grown);
        return;
      }
      return Drop;
    }

    /** The data case of LinkDtls: what the read brought behind the type byte. */
    method DeliverDtls(n: nat) returns (got: Received)
      requires Valid() && n <= len
      modifies this`len, data
      ensures got == if n < 1 then Crash else Deliver(old(Bytes())[1..n])
      ensures Valid() && (got.Deliver? ==> Bytes() == got.p)
    {
      if n < 1 {
        return Crash;
      }
      ghost var b := data[..len];
      assert b[1..n] == data[1..n];
      Unwrap(1, n - 1);
      return Deliver(data[..len]);
    }

    /** The case of a compressed frame in LinkDtls up to its fallthrough: the uncompressed data is behind the type
        byte. */
    method UnpackDtls(cmp: Codec, grown: nat) returns (x: Option<Octets.Bytes>)
      requires Ready() && grown >= 1 + BUFFER_SIZE
      modifies this, data
      ensures x == Within(cmp.uncompress(old(Bytes())[1..]), BUFFER_SIZE)
      ensures ltype == old(ltype) && ptype == old(ptype) && (data == old(data) || (fresh(data) && data.Length == grown))
      ensures Valid() && (x.Some? ==> len == 1 + |x.value| && Bytes()[1..len] == x.value)
    {
      x := Expand(1, cmp, grown);
      if x.Some? {
        assert Bytes()[1..len] == x.value;
      }
    }

    /** The two data cases of LinkDtls. */
    method DecodeDtlsData(n: nat, cmp: Option<Codec>, grown: nat) returns (got: Received)
      requires Ready() && n <= BUFFER_SIZE && grown >= 1 + BUFFER_SIZE && (data[0] == COMPRESSED || data[0] == DATA)
      modifies this, data
      ensures got == DtlsReceived(old(Bytes()), n, cmp)
      ensures Valid() && ltype == LTYPE_IP_DATA && ptype == DATA && (got.Deliver? ==> Bytes() == got.p)
      ensures data == old(data) || (fresh(data) && data.Length == grown)
    {
      if data[0] == COMPRESSED {
        if cmp.None? {
          return Drop;
        }
        var x := UnpackDtls(cmp.value, grown);
        if x.None? {
          return Drop;
        }
        got := DeliverDtls(|x.value| + 1);
      } else {
        got := DeliverDtls(n);
      }
    }
  }

  // ---------------------------------------------------------------- the pool

  /** plPool. A payload is in it at most once, and no two share an array. */
  class Pool {
    var free: set<Payload>

    constructor ()
      ensures Valid() && free == {}
    {
      free := {};
    }

    ghost predicate Valid()
      reads this, free
    {
      && (forall p :: p in free ==> p.Ready())
      && (forall p, q :: p in free && q in free && p != q ==> p.data != q.data)
    }

    /** Nothing in the pool can reach the payload or its array. */
    ghost predicate Apart(pl: Payload)
      reads this, free, pl
    {
      pl !in free && forall p :: p in free ==> p.data != pl.data
    }

    /** getPayload. A pool may keep its payloads to itself: `again` says whether it gives one back. */
    method GetPayload(again: bool) returns (pl: Payload)
      requires Valid()
      modifies this
      ensures Valid() && pl.Ready() && Apart(pl)
      ensures if again && old(free) != {} then pl in old(free) && free == old(free) - {pl}
              else fresh(pl) && fresh(pl.data) && free == old(free)
    {
      if again && free != {} {
        pl :| pl in free;
        free := free - {pl};
      } else {
        pl := new Payload();
      }
    }

    /** putPayload. */
    method PutPayload(pl: Payload)
      requires Valid() && Apart(pl)
      modifies this, pl
      ensures Valid() && pl.data == old(pl.data)
      ensures free == if pl.data.Length == BUFFER_SIZE then old(free) + {pl} else old(free)
      ensures pl in free ==> pl.Ready()
    {
      if pl.data.Length != BUFFER_SIZE {
        return;
      }
      pl.ltype := LTYPE_IP_DATA;
      pl.ptype := DATA;
      pl.len := BUFFER_SIZE;
      free := free + {pl};
    }

    /** One turn of LinkCstp up to the outcome: a payload from the pool, a read of `input`, its decoding. Whatever an
        earlier use left in the buffer, a frame that was read whole is understood as sent. */
    method ReadCstp(input: Bytes, cmp: Option<Codec>, again: bool, grown: nat) returns (pl: Payload, got: Received)
      requires Valid() && |input| <= BUFFER_SIZE && grown >= 8 + BUFFER_SIZE
      modifies this, free, set p | p in free :: p.data
      ensures Valid() && pl.Valid() && Apart(pl)
      ensures exists junk: Bytes :: |input + junk| == BUFFER_SIZE && got == CstpReceived(input + junk, |input|, cmp)
      ensures got.Deliver? ==> pl.Bytes() == got.p && pl.ltype == LTYPE_IP_DATA && pl.ptype == DATA
    {
      pl := GetPayload(again);
      Put(pl.data, 0, input);
      ghost var junk := pl.data[|input|..];
      assert pl.Bytes() == input + junk;
      got := pl.DecodeCstp(|input|, cmp, grown);
    }

    /** One turn of cstpWrite: the frame is made, `wire` is what goes out, and the payload returns to the pool. */
    method WriteCstp(pl: Payload, cmp: Option<Codec>, limit: int, grown: nat) returns (wire: Option<Bytes>)
      requires Valid() && Apart(pl) && pl.Valid() && grown >= BUFFER_SIZE
      modifies this, pl, pl.data
      ensures Valid()
      ensures var sent := CstpSent(old(pl.ltype), old(pl.ptype), old(pl.Bytes()), old(pl.data).Length, cmp, limit);
              && wire == (if sent.Frame? then Some(sent.bytes) else None)
              && (old(pl.data).Length == BUFFER_SIZE ==>
                    free == if sent.Frame? then old(free) + {pl} else old(free))
    {
      var sent := pl.EncodeCstp(cmp, limit, grown);
      if !sent.Frame? {
        return None;
      }
      wire := Some(pl.data[..pl.len]);
      PutPayload(pl);
    }
  }
}
