/** The wireless client: its requests, the nested signal lookup, and the station dump. */
module Stations {
  import opened Attributes
  import opened Options

  // Values of the kernel interface (linux/netlink.h, genetlink.h and nl80211.h).
  const NLMSG_HDRLEN := 16
  const GENL_HDRLEN := 4
  const NLMSG_DONE := 3
  const NLM_F_REQUEST := 0x1
  const NLM_F_DUMP := 0x300
  const GENL_ID_CTRL := 0x10
  const CTRL_CMD_GETFAMILY := 3
  const CTRL_ATTR_FAMILY_ID := 1
  const CTRL_ATTR_FAMILY_NAME := 2
  const NL80211_CMD_GET_INTERFACE := 5
  const NL80211_CMD_GET_STATION := 17
  const NL80211_ATTR_IFINDEX := 3
  const NL80211_ATTR_STA_INFO := 21
  const NL80211_STA_INFO_SIGNAL_AVG := 13
  const BODY := NLMSG_HDRLEN + GENL_HDRLEN

  /** "nl80211" with its NUL. */
  const FAMILY: seq<Byte> := [110, 108, 56, 48, 50, 49, 49, 0]

  /** RSSI_TO_PERC on the signed reading of a signal byte. */
  function Percent(signal: Byte): (p: int)
    ensures 0 <= p <= 100
  {
    var rssi := if signal < 128 then signal as int else signal as int - 256;
    if rssi >= -50 then 100 else if rssi <= -100 then 0 else 2 * (rssi + 100)
  }

  /** Stronger signals never map to smaller percentages. */
  lemma PercentMonotone(a: Byte, b: Byte)
    requires 128 <= a <= b || (a >= 128 && b < 128) || a <= b < 128
    ensures Percent(a) <= Percent(b)
  {
  }

  /** 100 from -50 dBm on, 0 up to -100 dBm (bytes 206 and 156), and two for every dBm between them. */
  lemma PercentSteps(signal: Byte)
    ensures signal < 128 || signal >= 206 ==> Percent(signal) == 100
    ensures 128 <= signal <= 156 ==> Percent(signal) == 0
    ensures 156 <= signal < 206 ==> Percent(signal + 1) == Percent(signal) + 2
  {
  }

  // ----- requests -----

  /** A request holds exactly one attribute after the two headers, and fills the buffer. */
  ghost predicate IsRequest(req: seq<Byte>, typ: int, flags: int, nlseq: int, cmd: Byte, attr: int, payload: seq<Byte>) {
    && |req| == BODY + NLA_HDRLEN + Align(|payload|)
    && Get32(req, 0) == |req| && Get16(req, 4) == typ && Get16(req, 6) == flags
    && Get32(req, 8) == nlseq && Get32(req, 12) == 0
    && req[16] == cmd && req[17] == 1
    && Scannable(req, BODY, |req|)
    && Payload(req, Scan(req, attr, BODY, |req|)) == Some(payload)
  }

  /** memcpy, with the cursor moved past it. */
  method Copy(dst: array<Byte>, p: nat, src: seq<Byte>) returns (q: nat)
    requires p + |src| <= dst.Length
    modifies dst
    ensures q == p + |src|
    ensures forall i {:trigger dst[i]} :: 0 <= i < dst.Length ==>
      dst[i] == if p <= i < q then src[i - p] else old(dst[i])
  {
    for i := 0 to |src|
      invariant forall j {:trigger dst[j]} :: 0 <= j < dst.Length ==>
        dst[j] == if p <= j < p + i then src[j - p] else old(dst[j])
    {
      dst[p + i] := src[i];
    }
    q := p + |src|;
  }

  function MessageHeader(n: int, typ: int, flags: int, nlseq: int): (h: seq<Byte>)
    requires 0 <= typ < 0x1_0000 && 0 <= flags < 0x1_0000
    requires 0 <= n < 0x1_0000_0000 && 0 <= nlseq < 0x1_0000_0000
    ensures |h| == NLMSG_HDRLEN
    ensures Get32(h, 0) == n && Get16(h, 4) == typ && Get16(h, 6) == flags
    ensures Get32(h, 8) == nlseq && Get32(h, 12) == 0
  {
    var h := Le32(n) + Le16(typ) + Le16(flags) + Le32(nlseq) + Le32(0);
    assert h[0..4] == Le32(n) && h[4..6] == Le16(typ) && h[6..8] == Le16(flags);
    assert h[8..12] == Le32(nlseq) && h[12..16] == Le32(0);
    Get32Le(h, 0, n);
    Get16Le(h, 4, typ);
    Get16Le(h, 6, flags);
    Get32Le(h, 8, nlseq);
    Get32Le(h, 12, 0);
    h
  }

  /** The three request builders: a zeroed buffer, then the two headers and the attribute copied in. */
  method BuildRequest(typ: int, flags: int, nlseq: int, cmd: Byte, attr: int, payload: seq<Byte>)
    returns (req: array<Byte>)
    requires 0 <= typ < 0x1_0000 && 0 <= flags < 0x1_0000 && 0 <= nlseq < 0x1_0000_0000
    requires 0 <= attr < 0x1_0000 && |payload| < 0x1000
    ensures fresh(req)
    ensures IsRequest(req[..], typ, flags, nlseq, cmd, attr, payload)
  {
    var n := BODY + NLA_HDRLEN + Align(|payload|);
    req := new Byte[n](_ => 0);
    var header := MessageHeader(n, typ, flags, nlseq);
    var genl := [cmd, 1, 0, 0];
    var nla := Le16(NLA_HDRLEN + |payload|) + Le16(attr);
    var p := Copy(req, 0, header);
    p := Copy(req, p, genl);
    p := Copy(req, p, nla);
    p := Copy(req, p, payload);
    RequestParses(req[..], typ, flags, nlseq, cmd, attr, payload);
  }

  lemma RequestParses(req: seq<Byte>, typ: int, flags: int, nlseq: int, cmd: Byte, attr: int, payload: seq<Byte>)
    requires 0 <= typ < 0x1_0000 && 0 <= flags < 0x1_0000 && 0 <= nlseq < 0x1_0000_0000
    requires 0 <= attr < 0x1_0000 && |payload| < 0x1000
    requires |req| == BODY + NLA_HDRLEN + Align(|payload|)
    requires forall i {:trigger req[i]} :: 0 <= i < 16 ==> req[i] == MessageHeader(|req|, typ, flags, nlseq)[i]
    requires req[16] == cmd && req[17] == 1
    requires forall i {:trigger req[i]} :: 20 <= i < 24 ==> req[i] == (Le16(NLA_HDRLEN + |payload|) + Le16(attr))[i - 20]
    requires forall i {:trigger req[i]} :: 24 <= i < 24 + |payload| ==> req[i] == payload[i - 24]
    ensures IsRequest(req, typ, flags, nlseq, cmd, attr, payload)
  {
    assert req[20..24] == Le16(NLA_HDRLEN + |payload|) + Le16(attr) && req[24..24 + |payload|] == payload;
    Peel(req, 20, Le16(NLA_HDRLEN + |payload|), Le16(attr));
    Get16Le(req, 20, NLA_HDRLEN + |payload|);
    Get16Le(req, 22, attr);
    OneAttribute(req, BODY, attr, payload);
  }

  lemma OneAttribute(b: seq<Byte>, p: nat, typ: int, payload: seq<Byte>)
    requires |b| == p + NLA_HDRLEN + Align(|payload|)
    requires Get16(b, p) == NLA_HDRLEN + |payload| && Get16(b, p + 2) == typ
    requires b[p + NLA_HDRLEN..p + NLA_HDRLEN + |payload|] == payload
    ensures Scannable(b, p, |b|) && Payload(b, Scan(b, typ, p, |b|)) == Some(payload)
  {
    var attrs := [Attr(typ, payload)];
    assert attrs[1..] == [] && Holds(b, p, attrs);
    ScanHolds(b, p, attrs, typ);
  }

  /** The request for the id of the nl80211 family. */
  method FamilyRequest(nlseq: int) returns (req: array<Byte>)
    requires 0 <= nlseq < 0x1_0000_0000
    ensures fresh(req) && req.Length == 32
    ensures IsRequest(req[..], GENL_ID_CTRL, NLM_F_REQUEST, nlseq, CTRL_CMD_GETFAMILY, CTRL_ATTR_FAMILY_NAME, FAMILY)
  {
    req := BuildRequest(GENL_ID_CTRL, NLM_F_REQUEST, nlseq, CTRL_CMD_GETFAMILY, CTRL_ATTR_FAMILY_NAME, FAMILY);
  }

  /** The requests about an interface: its description, or a dump of its stations. */
  method InterfaceRequest(family: int, dump: bool, nlseq: int, index: int) returns (req: array<Byte>)
    requires 0 <= family < 0x1_0000 && 0 <= nlseq < 0x1_0000_0000 && 0 <= index < 0x8000_0000
    ensures fresh(req) && req.Length == 28 && Get32(Le32(index), 0) == index
    ensures IsRequest(req[..], family, if dump then NLM_F_REQUEST + NLM_F_DUMP else NLM_F_REQUEST, nlseq,
                      if dump then NL80211_CMD_GET_STATION else NL80211_CMD_GET_INTERFACE, NL80211_ATTR_IFINDEX, Le32(index))
  {
    var flags := if dump then NLM_F_REQUEST + NLM_F_DUMP else NLM_F_REQUEST;
    var cmd: Byte := if dump then NL80211_CMD_GET_STATION else NL80211_CMD_GET_INTERFACE;
    Get32Le(Le32(index), 0, index);
    req := BuildRequest(family, flags, nlseq, cmd, NL80211_ATTR_IFINDEX, Le32(index));
  }

  /** A reply that names the family first: scanning past a request's length skips exactly that name. */
  lemma FamilyReply(reply: seq<Byte>, rest: seq<Attr>)
    requires Holds(reply, BODY, [Attr(CTRL_ATTR_FAMILY_NAME, FAMILY)] + rest)
    ensures 32 <= |reply| && Scannable(reply, 32, |reply|)
    ensures Payload(reply, Scan(reply, CTRL_ATTR_FAMILY_ID, 32, |reply|)) == PayloadOf(First(rest, CTRL_ATTR_FAMILY_ID))
  {
    HoldsStep(reply, BODY, Attr(CTRL_ATTR_FAMILY_NAME, FAMILY), rest);
    assert BODY + Align(NLA_HDRLEN + |FAMILY|) == 32;
    assert Holds(reply, 32, rest);
    ScanHolds(reply, 32, rest, CTRL_ATTR_FAMILY_ID);
  }

  /** The id in the attribute found: it must be two bytes long; 0 stands for none. */
  function FamilyId(attr: Option<Attr>): int {
    if attr.Some? && |attr.value.payload| == 2 then Get16(attr.value.payload, 0) else 0
  }

  /** The end of nl80211fam: r bytes of reply are in the buffer.  A reply no longer than the request has no
      id; in a longer one that names the family first, the id is the one of the first id attribute after the
      name. */
  method ReadFamilyId(resp: array<Byte>, r: nat, ghost rest: seq<Attr>) returns (id: int)
    requires r <= resp.Length
    requires r > 32 ==> Holds(resp[..r], BODY, [Attr(CTRL_ATTR_FAMILY_NAME, FAMILY)] + rest)
    ensures id == if r > 32 then FamilyId(First(rest, CTRL_ATTR_FAMILY_ID)) else 0
    ensures forall n ::
      r > 32 && 0 <= n < 0x1_0000 && First(rest, CTRL_ATTR_FAMILY_ID) == Some(Attr(CTRL_ATTR_FAMILY_ID, Le16(n)))
      ==> id == n
  {
    forall n | 0 <= n < 0x1_0000 ensures Get16(Le16(n), 0) == n {
      Get16Le(Le16(n), 0, n);
    }
    if r <= 32 {
      return 0;
    }
    FamilyIdFound(resp[..], r, rest);
    var found := FindAttr(resp, CTRL_ATTR_FAMILY_ID, 32, r);
    id := 0;
    if found.Some? && found.value.len == 2 {
      id := Load16(resp, found.value.start);
    }
  }

  lemma FamilyIdFound(b: seq<Byte>, r: nat, rest: seq<Attr>)
    requires 32 < r <= |b| && Holds(b[..r], BODY, [Attr(CTRL_ATTR_FAMILY_NAME, FAMILY)] + rest)
    ensures Scannable(b, 32, r)
    ensures var f := Scan(b, CTRL_ATTR_FAMILY_ID, 32, r);
      FamilyId(First(rest, CTRL_ATTR_FAMILY_ID)) == if f.Some? && f.value.len == 2 then Get16(b, f.value.start) else 0
  {
    FamilyReply(b[..r], rest);
    ScanPrefix(b, r, CTRL_ATTR_FAMILY_ID, 32);
    IdOfPayload(b, r, Scan(b, CTRL_ATTR_FAMILY_ID, 32, r), First(rest, CTRL_ATTR_FAMILY_ID));
  }

  lemma ScanPrefix(b: seq<Byte>, r: nat, typ: int, p: nat)
    requires r <= |b| && Scannable(b[..r], p, r)
    ensures Scannable(b, p, r) && Scan(b, typ, p, r) == Scan(b[..r], typ, p, r)
  {
    ScanShift(b, b[..r], 0, typ, p);
  }

  lemma IdOfPayload(b: seq<Byte>, r: nat, f: Option<Span>, attr: Option<Attr>)
    requires r <= |b| && (f.Some? ==> f.value.start + f.value.len <= r)
    requires Payload(b[..r], f) == PayloadOf(attr)
    ensures FamilyId(attr) == if f.Some? && f.value.len == 2 then Get16(b, f.value.start) else 0
  {
  }

  // ----- the nested lookup -----

  /** The two-step lookup: the second scan runs on to the end of the message. */
  predicate Searchable(m: seq<Byte>, p: nat) {
    Scannable(m, p, |m|)
    && var outer := Scan(m, NL80211_ATTR_STA_INFO, p, |m|);
       outer.Some? ==> Scannable(m, outer.value.start, |m|)
  }

  function Lookup(m: seq<Byte>, p: nat): (r: Option<Span>)
    requires Searchable(m, p)
    ensures r.Some? ==> r.value.start + r.value.len <= |m|
  {
    match Scan(m, NL80211_ATTR_STA_INFO, p, |m|)
    case None => None
    case Some(outer) => Scan(m, NL80211_STA_INFO_SIGNAL_AVG, outer.start, |m|)
  }

  /** On a message whose first STA_INFO nests `inner` and has the attributes `after` behind it, the lookup
      searches inner and then after; it is the nested lookup exactly when inner has the signal or no
      later sibling has its number. */
  lemma LookupNested(m: seq<Byte>, p: nat, before: seq<Attr>, inner: seq<Attr>, after: seq<Attr>)
    requires AllFit(inner) && First(before, NL80211_ATTR_STA_INFO).None?
    requires Holds(m, p, before + ([Attr(NL80211_ATTR_STA_INFO, EncodeAll(inner))] + after))
    ensures Searchable(m, p)
    ensures Payload(m, Lookup(m, p)) == PayloadOf(First(inner + after, NL80211_STA_INFO_SIGNAL_AVG))
    ensures Payload(m, Lookup(m, p)) == PayloadOf(First(inner, NL80211_STA_INFO_SIGNAL_AVG))
      <==> First(inner, NL80211_STA_INFO_SIGNAL_AVG).Some? || First(after, NL80211_STA_INFO_SIGNAL_AVG).None?
  {
    var sta := Attr(NL80211_ATTR_STA_INFO, EncodeAll(inner));
    var at := FoundAt(m, p, before, [sta] + after, NL80211_ATTR_STA_INFO);
    NestedHolds(m, at, sta, inner, after);
    LookupFrom(m, p, at, |sta.payload|, inner + after);
    FirstAppend(inner, after, NL80211_STA_INFO_SIGNAL_AVG);
  }

  /** The second scan, from the STA_INFO that the first one has found. */
  lemma LookupFrom(m: seq<Byte>, p: nat, at: nat, n: nat, rest: seq<Attr>)
    requires ScansTo(m, NL80211_ATTR_STA_INFO, p, at, n) && Holds(m, at + NLA_HDRLEN, rest)
    ensures Searchable(m, p)
    ensures Payload(m, Lookup(m, p)) == PayloadOf(First(rest, NL80211_STA_INFO_SIGNAL_AVG))
  {
    ScanHolds(m, at + NLA_HDRLEN, rest, NL80211_STA_INFO_SIGNAL_AVG);
  }

  /** Past the header of an attribute that nests inner, the region holds inner and then the siblings. */
  lemma NestedHolds(m: seq<Byte>, at: nat, nest: Attr, inner: seq<Attr>, after: seq<Attr>)
    requires AllFit(inner) && nest.payload == EncodeAll(inner)
    requires Holds(m, at, [nest] + after)
    ensures Holds(m, at + NLA_HDRLEN, inner + after)
  {
    HoldsStep(m, at, nest, after);
    WholeWords(inner);
    var q := at + Align(NLA_HDRLEN + |nest.payload|);
    EncodedThen(m, at + NLA_HDRLEN, inner, q, after);
  }

  /** The scan from p ends at the attribute at `at`, with n bytes of payload. */
  ghost predicate ScansTo(m: seq<Byte>, typ: int, p: nat, at: nat, n: nat) {
    p <= |m| && Scannable(m, p, |m|) && Scan(m, typ, p, |m|) == Some(Span(at + NLA_HDRLEN, n))
  }

  lemma FoundHere(m: seq<Byte>, p: nat, ys: seq<Attr>, typ: int)
    requires Holds(m, p, ys) && ys != [] && ys[0].typ == typ
    ensures ScansTo(m, typ, p, p, |ys[0].payload|)
  {
    ScanHolds(m, p, ys, typ);
  }

  lemma FoundPast(m: seq<Byte>, p: nat, attrs: seq<Attr>, typ: int, at: nat, n: nat)
    requires Holds(m, p, attrs) && attrs != [] && attrs[0].typ != typ
    requires ScansTo(m, typ, p + Align(NLA_HDRLEN + |attrs[0].payload|), at, n)
    ensures ScansTo(m, typ, p, at, n)
  {
  }

  /** The scan passes attributes of other types and stops at the first of the wanted type. */
  lemma {:induction false} FoundAt(m: seq<Byte>, p: nat, xs: seq<Attr>, ys: seq<Attr>, typ: int) returns (at: nat)
    requires First(xs, typ).None? && ys != [] && ys[0].typ == typ
    requires Holds(m, p, xs + ys)
    ensures ScansTo(m, typ, p, at, |ys[0].payload|) && Holds(m, at, ys)
    decreases |xs|
  {
    if xs == [] {
      assert xs + ys == ys;
      FoundHere(m, p, ys, typ);
      at := p;
    } else {
      var all, q := xs + ys, p + Align(NLA_HDRLEN + |xs[0].payload|);
      assert all[0] == xs[0] && all[1..] == xs[1..] + ys;
      assert Holds(m, q, xs[1..] + ys);
      at := FoundAt(m, q, xs[1..], ys, typ);
      FoundPast(m, p, all, typ, at, |ys[0].payload|);
    }
  }
}
