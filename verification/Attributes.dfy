/** Netlink attributes on the wire, little-endian as on the hosts the program runs on. */
module Attributes {
  import opened Options

  type Byte = b: int | 0 <= b < 256

  const NLA_HDRLEN := 4

  /** NLA_ALIGN: round up to a multiple of four. */
  function Align(n: nat): (m: nat)
    ensures n <= m < n + 4 && m % 4 == 0
  {
    (n + 3) / 4 * 4
  }

  function Le16(n: int): (s: seq<Byte>)
    requires 0 <= n < 0x1_0000
    ensures |s| == 2
  {
    [n % 256, n / 256]
  }

  function Le32(n: int): (s: seq<Byte>)
    requires 0 <= n < 0x1_0000_0000
    ensures |s| == 4
  {
    Le16(n % 0x1_0000) + Le16(n / 0x1_0000)
  }

  function Get16(b: seq<Byte>, p: nat): (n: int)
    requires p + 2 <= |b|
    ensures 0 <= n < 0x1_0000
  {
    b[p] as int + 256 * (b[p + 1] as int)
  }

  function Get32(b: seq<Byte>, p: nat): (n: int)
    requires p + 4 <= |b|
    ensures 0 <= n < 0x1_0000_0000
  {
    Get16(b, p) + 0x1_0000 * Get16(b, p + 2)
  }

  /** The number that some bytes are, the least significant first. */
  function Little(s: seq<Byte>): nat {
    if s == [] then 0 else s[0] as int + 256 * Little(s[1..])
  }

  lemma Get16Little(b: seq<Byte>, p: nat)
    requires p + 2 <= |b|
    ensures Get16(b, p) == Little(b[p..p + 2])
  {
    var s := b[p..p + 2];
    var hi := s[1..];
    assert s[0] == b[p] && hi[0] == b[p + 1] && hi[1..] == [];
    assert Little(hi) == b[p + 1] as int;
  }

  lemma Get32Little(b: seq<Byte>, p: nat)
    requires p + 4 <= |b|
    ensures Get32(b, p) == Little(b[p..p + 4])
  {
    var s := b[p..p + 4];
    var rest := s[1..];
    Get16Little(b, p + 2);
    assert rest[1..] == b[p + 2..p + 4] && rest[0] == b[p + 1];
    assert Little(rest) == b[p + 1] as int + 256 * Little(b[p + 2..p + 4]);
  }

  lemma Get16Le(b: seq<Byte>, p: nat, n: int)
    requires p + 2 <= |b| && 0 <= n < 0x1_0000 && b[p..p + 2] == Le16(n)
    ensures Get16(b, p) == n
  {
    assert b[p] == b[p..p + 2][0] && b[p + 1] == b[p..p + 2][1];
  }

  lemma Get32Le(b: seq<Byte>, p: nat, n: int)
    requires p + 4 <= |b| && 0 <= n < 0x1_0000_0000 && b[p..p + 4] == Le32(n)
    ensures Get32(b, p) == n
  {
    assert b[p..p + 2] == b[p..p + 4][..2] && b[p + 2..p + 4] == b[p..p + 4][2..];
    Get16Le(b, p, n % 0x1_0000);
    Get16Le(b, p + 2, n / 0x1_0000);
  }

  function Zeros(n: nat): (s: seq<Byte>)
    ensures |s| == n
  {
    if n == 0 then [] else [0] + Zeros(n - 1)
  }

  datatype Attr = Attr(typ: int, payload: seq<Byte>) {
    predicate Fits() {
      0 <= typ < 0x1_0000 && NLA_HDRLEN + |payload| < 0x1_0000
    }

    function Encode(): (s: seq<Byte>)
      requires Fits()
      ensures |s| == Align(NLA_HDRLEN + |payload|)
    {
      Le16(NLA_HDRLEN + |payload|) + Le16(typ) + payload + Zeros(Align(NLA_HDRLEN + |payload|) - NLA_HDRLEN - |payload|)
    }
  }

  /** How an attribute lies in memory: its length without the padding, its type, its payload, and zeros. */
  lemma EncodeLayout(a: Attr)
    requires a.Fits()
    ensures var s, n := a.Encode(), NLA_HDRLEN + |a.payload|;
      && |s| % 4 == 0 && n <= |s| < n + 4
      && Little(s[0..2]) == n && Little(s[2..4]) == a.typ && s[4..n] == a.payload
      && forall i :: n <= i < |s| ==> s[i] == 0
  {
    var s, n := a.Encode(), NLA_HDRLEN + |a.payload|;
    assert s[0..2] == Le16(n) && s[2..4] == Le16(a.typ);
    Get16Le(s, 0, n);
    Get16Le(s, 2, a.typ);
    Get16Little(s, 0);
    Get16Little(s, 2);
    AllZeros(|s| - n);
    assert s[n..] == Zeros(|s| - n);
    assert forall i :: n <= i < |s| ==> s[i] == s[n..][i - n];
  }

  lemma {:induction false} AllZeros(n: nat)
    ensures forall i :: 0 <= i < n ==> Zeros(n)[i] == 0
  {
    if n > 0 {
      AllZeros(n - 1);
    }
  }

  predicate AllFit(attrs: seq<Attr>) {
    forall a :: a in attrs ==> a.Fits()
  }

  function EncodeAll(attrs: seq<Attr>): (s: seq<Byte>)
    requires AllFit(attrs)
    ensures |s| % 4 == 0
  {
    if attrs == [] then []
    else
      var rest := EncodeAll(attrs[1..]);
      assert |rest| % 4 == 0 && |attrs[0].Encode()| % 4 == 0;
      attrs[0].Encode() + rest
  }

  /** No padding follows a payload that is itself encoded attributes. */
  lemma WholeWords(attrs: seq<Attr>)
    requires AllFit(attrs)
    ensures Align(NLA_HDRLEN + |EncodeAll(attrs)|) == NLA_HDRLEN + |EncodeAll(attrs)|
  {
  }

  /** The first attribute of a type. */
  function First(attrs: seq<Attr>, typ: int): Option<Attr> {
    if attrs == [] then None
    else if attrs[0].typ == typ then Some(attrs[0])
    else First(attrs[1..], typ)
  }

  /** It is the one that no other of the type precedes. */
  lemma {:induction false} FirstIs(attrs: seq<Attr>, typ: int) returns (k: nat)
    ensures First(attrs, typ).None? ==> forall j :: 0 <= j < |attrs| ==> attrs[j].typ != typ
    ensures First(attrs, typ).Some? ==>
      k < |attrs| && First(attrs, typ) == Some(attrs[k]) && attrs[k].typ == typ
      && forall j :: 0 <= j < k ==> attrs[j].typ != typ
  {
    k := 0;
    if attrs != [] && attrs[0].typ != typ {
      var i := FirstIs(attrs[1..], typ);
      k := i + 1;
      assert forall j :: 1 <= j < |attrs| ==> attrs[j] == attrs[1..][j - 1];
    }
  }

  lemma {:induction false} FirstAppend(xs: seq<Attr>, ys: seq<Attr>, typ: int)
    ensures First(xs + ys, typ) == if First(xs, typ).Some? then First(xs, typ) else First(ys, typ)
  {
    if xs == [] {
      assert xs + ys == ys;
    } else {
      FirstAppend(xs[1..], ys, typ);
      assert (xs + ys)[1..] == xs[1..] + ys;
    }
  }

  /** A payload inside a buffer. */
  datatype Span = Span(start: nat, len: nat)

  /** Every attribute header met from p on lies inside the region that ends at e, names at least its own
      four bytes, and its payload ends by e. */
  predicate Scannable(b: seq<Byte>, p: nat, e: nat)
    requires e <= |b|
    decreases e - p
  {
    p >= e || (
      && p + NLA_HDRLEN <= e
      && NLA_HDRLEN <= Get16(b, p) <= e - p
      && Scannable(b, p + Align(Get16(b, p)), e))
  }

  /** Where the scan from p ends. */
  function Scan(b: seq<Byte>, typ: int, p: nat, e: nat): (r: Option<Span>)
    requires e <= |b| && Scannable(b, p, e)
    ensures r.Some? ==> p + NLA_HDRLEN <= r.value.start && r.value.start + r.value.len <= e
    decreases e - p
  {
    if p >= e then None
    else if Get16(b, p + 2) == typ then Some(Span(p + NLA_HDRLEN, Get16(b, p) - NLA_HDRLEN))
    else Scan(b, typ, p + Align(Get16(b, p)), e)
  }

  method Load16(buf: array<Byte>, p: nat) returns (n: int)
    requires p + 2 <= buf.Length
    ensures n == Get16(buf[..], p)
  {
    n := buf[p] as int + 256 * (buf[p + 1] as int);
  }

  /** findattr */
  method FindAttr(buf: array<Byte>, typ: int, start: nat, e: nat) returns (r: Option<Span>)
    requires e <= buf.Length && Scannable(buf[..], start, e)
    ensures r == Scan(buf[..], typ, start, e)
  {
    ghost var b := buf[..];
    var p := start;
    while p < e
      invariant Scannable(b, p, e) && Scan(b, typ, p, e) == Scan(b, typ, start, e)
      decreases e - p
    {
      var nlaLen: int := Load16(buf, p);
      var nlaType: int := Load16(buf, p + 2);
      if nlaType == typ {
        return Some(Span(p + NLA_HDRLEN, nlaLen - NLA_HDRLEN));
      }
      p := p + Align(nlaLen);
    }
    r := None;
  }

  /** The payload a span denotes. */
  function Payload(b: seq<Byte>, r: Option<Span>): Option<seq<Byte>>
    requires r.Some? ==> r.value.start + r.value.len <= |b|
  {
    if r.None? then None else Some(b[r.value.start..r.value.start + r.value.len])
  }

  function PayloadOf(a: Option<Attr>): Option<seq<Byte>> {
    if a.None? then None else Some(a.value.payload)
  }

  /** From p to the end, b holds exactly these attributes. */
  ghost predicate Holds(b: seq<Byte>, p: nat, attrs: seq<Attr>)
    decreases |attrs|
  {
    if attrs == [] then p == |b|
    else
      var n := NLA_HDRLEN + |attrs[0].payload|;
      && p + n <= |b|
      && Get16(b, p) == n && Get16(b, p + 2) == attrs[0].typ
      && b[p + NLA_HDRLEN..p + n] == attrs[0].payload
      && Holds(b, p + Align(n), attrs[1..])
  }

  lemma Peel(b: seq<Byte>, p: nat, s: seq<Byte>, t: seq<Byte>)
    requires p + |s| + |t| <= |b| && b[p..p + |s| + |t|] == s + t
    ensures b[p..p + |s|] == s && b[p + |s|..p + |s| + |t|] == t
  {
    var st := s + t;
    assert b[p..p + |s|] == b[p..p + |s| + |t|][..|s|] == st[..|s|];
    assert b[p + |s|..p + |s| + |t|] == b[p..p + |s| + |t|][|s|..] == st[|s|..];
  }

  lemma EncodedHeader(b: seq<Byte>, p: nat, a: Attr)
    requires a.Fits() && p + |a.Encode()| <= |b| && b[p..p + |a.Encode()|] == a.Encode()
    ensures Get16(b, p) == NLA_HDRLEN + |a.payload| && Get16(b, p + 2) == a.typ
    ensures b[p + NLA_HDRLEN..p + NLA_HDRLEN + |a.payload|] == a.payload
  {
    var n, s := |a.payload|, a.Encode();
    assert forall i {:trigger s[i]} :: 0 <= i < |s| ==> b[p + i] == b[p..p + |s|][i] == s[i];
    assert s[..2] == Le16(NLA_HDRLEN + n) && s[2..4] == Le16(a.typ) && s[4..4 + n] == a.payload;
    assert b[p..p + 2] == s[..2] && b[p + 2..p + 4] == s[2..4] && b[p + 4..p + 4 + n] == s[4..4 + n];
    Get16Le(b, p, NLA_HDRLEN + n);
    Get16Le(b, p + 2, a.typ);
  }

  lemma EncodedSplit(b: seq<Byte>, p: nat, xs: seq<Attr>) returns (q: nat)
    requires xs != [] && AllFit(xs)
    requires p + |EncodeAll(xs)| <= |b| && b[p..p + |EncodeAll(xs)|] == EncodeAll(xs)
    ensures AllFit(xs[1..]) && p <= q && q + |EncodeAll(xs[1..])| == p + |EncodeAll(xs)|
    ensures b[p..q] == xs[0].Encode() && b[q..q + |EncodeAll(xs[1..])|] == EncodeAll(xs[1..])
  {
    Peel(b, p, xs[0].Encode(), EncodeAll(xs[1..]));
    q := p + |xs[0].Encode()|;
  }

  predicate Contains(b: seq<Byte>, p: nat, s: seq<Byte>) {
    p + |s| <= |b| && b[p..p + |s|] == s
  }

  /** The first attribute of a region, and the region behind it. */
  lemma HoldsStep(b: seq<Byte>, p: nat, a: Attr, rest: seq<Attr>)
    requires Holds(b, p, [a] + rest)
    ensures Contains(b, p + NLA_HDRLEN, a.payload)
    ensures Holds(b, p + Align(NLA_HDRLEN + |a.payload|), rest)
  {
    assert ([a] + rest)[1..] == rest;
  }

  lemma HoldsCons(b: seq<Byte>, p: nat, q: nat, a: Attr, rest: seq<Attr>)
    requires a.Fits() && p <= q <= |b| && b[p..q] == a.Encode() && Holds(b, q, rest)
    ensures Holds(b, p, [a] + rest)
  {
    EncodedHeader(b, p, a);
    assert ([a] + rest)[1..] == rest;
  }

  lemma HeadFirst(xs: seq<Attr>, ys: seq<Attr>)
    requires xs != []
    ensures [xs[0]] + (xs[1..] + ys) == xs + ys
  {
  }

  /** Encoded attributes followed by further ones. */
  lemma {:induction false} EncodedHolds(b: seq<Byte>, p: nat, xs: seq<Attr>, ys: seq<Attr>)
    requires AllFit(xs) && Contains(b, p, EncodeAll(xs)) && Holds(b, p + |EncodeAll(xs)|, ys)
    ensures Holds(b, p, xs + ys)
    decreases |xs|
  {
    if xs == [] {
      assert xs + ys == ys;
    } else {
      var q := EncodedSplit(b, p, xs);
      EncodedHolds(b, q, xs[1..], ys);
      HoldsCons(b, p, q, xs[0], xs[1..] + ys);
      HeadFirst(xs, ys);
    }
  }

  /** Over a region that holds attrs, the scan finds the payload of the first of the wanted type. */
  lemma {:induction false} ScanHolds(b: seq<Byte>, p: nat, attrs: seq<Attr>, typ: int)
    requires Holds(b, p, attrs)
    ensures p <= |b| && Scannable(b, p, |b|)
    ensures Payload(b, Scan(b, typ, p, |b|)) == PayloadOf(First(attrs, typ))
    decreases |attrs|
  {
    if attrs != [] {
      ScanHolds(b, p + Align(NLA_HDRLEN + |attrs[0].payload|), attrs[1..], typ);
    }
  }

  lemma EncodedThen(b: seq<Byte>, p: nat, xs: seq<Attr>, q: nat, ys: seq<Attr>)
    requires AllFit(xs) && Contains(b, p, EncodeAll(xs)) && q == p + |EncodeAll(xs)| && Holds(b, q, ys)
    ensures Holds(b, p, xs + ys)
  {
    EncodedHolds(b, p, xs, ys);
  }

  /** The scan undoes the encoding: over any concatenation of padded attributes it finds exactly the
      payload of the first attribute of the wanted type. */
  lemma ScanEncoded(b: seq<Byte>, p: nat, attrs: seq<Attr>, typ: int)
    requires p <= |b| && AllFit(attrs) && b[p..] == EncodeAll(attrs)
    ensures Scannable(b, p, |b|)
    ensures Payload(b, Scan(b, typ, p, |b|)) == PayloadOf(First(attrs, typ))
  {
    EncodedHolds(b, p, attrs, []);
    assert attrs + [] == attrs;
    ScanHolds(b, p, attrs, typ);
  }

  function Shift(r: Option<Span>, o: nat): Option<Span> {
    if r.None? then None else Some(Span(o + r.value.start, r.value.len))
  }

  /** A scan that stays inside a slice of the buffer does not notice the rest of it. */
  lemma {:induction false} ScanShift(b: seq<Byte>, m: seq<Byte>, o: nat, typ: int, p: nat)
    requires o + |m| <= |b| && Scannable(m, p, |m|)
    requires forall i {:trigger m[i]} :: 0 <= i < |m| ==> b[o + i] == m[i]
    ensures Scannable(b, o + p, o + |m|)
    ensures Scan(b, typ, o + p, o + |m|) == Shift(Scan(m, typ, p, |m|), o)
    decreases |m| - p
  {
    if p < |m| {
      assert Get16(b, o + p) == Get16(m, p) && Get16(b, o + p + 2) == Get16(m, p + 2);
      ScanShift(b, m, o, typ, p + Align(Get16(m, p)));
    }
  }
}
