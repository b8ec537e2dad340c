/** The dump loop over the datagrams of a station request. */
module StationDump {
  import opened Attributes
  import opened Options
  import opened Stations

  const RESP_SIZE := 4096

  /** A message: a byte string that starts with a header naming its length.  Its attributes, and those of
      the region the second scan reads, are well formed. */
  predicate Message(m: seq<Byte>) {
    && NLMSG_HDRLEN <= |m| && Get32(m, 0) == |m|
    && (|m| > BODY ==> Searchable(m, BODY))
  }

  predicate Messages(ms: seq<seq<Byte>>) {
    forall m :: m in ms ==> Message(m)
  }

  function Type(m: seq<Byte>): int
    requires Message(m)
  {
    Get16(m, 4)
  }

  /** The percentage a message yields: it must carry a signal of exactly one byte. */
  function Yield(m: seq<Byte>): (r: Option<int>)
    requires Message(m)
    ensures r.Some? ==> 0 <= r.value <= 100
  {
    if |m| <= BODY then None
    else match Lookup(m, BODY)
      case None => None
      case Some(s) => if s.len == 1 then Some(Percent(m[s.start])) else None
  }

  /** What the attributes of a message are: none; none that is STA_INFO; or a STA_INFO that nests `inner`,
      with further attributes before and behind it. */
  datatype Report = Bare | Other(attrs: seq<Attr>) | Station(before: seq<Attr>, inner: seq<Attr>, after: seq<Attr>)

  ghost predicate Reports(m: seq<Byte>, r: Report) {
    && Message(m)
    && match r
       case Bare => |m| <= BODY
       case Other(attrs) => |m| > BODY && Holds(m, BODY, attrs) && First(attrs, NL80211_ATTR_STA_INFO).None?
       case Station(before, inner, after) =>
         && AllFit(inner) && First(before, NL80211_ATTR_STA_INFO).None?
         && Holds(m, BODY, before + ([Attr(NL80211_ATTR_STA_INFO, EncodeAll(inner))] + after))
  }

  /** The percentage of a report: of the first attribute in STA_INFO or behind it that has the signal's
      number, if its payload is a single byte. */
  function SignalOf(r: Report): Option<int> {
    if !r.Station? then None
    else
      match First(r.inner + r.after, NL80211_STA_INFO_SIGNAL_AVG)
      case None => None
      case Some(a) => if |a.payload| == 1 then Some(Percent(a.payload[0])) else None
  }

  /** The report has a signal of one byte, s: in the first attribute with the signal's number, in STA_INFO or
      behind it. */
  ghost predicate OneByte(r: Report, s: Byte) {
    r.Station?
    && exists k :: 0 <= k < |r.inner + r.after| && (r.inner + r.after)[k] == Attr(NL80211_STA_INFO_SIGNAL_AVG, [s])
                   && forall j :: 0 <= j < k ==> (r.inner + r.after)[j].typ != NL80211_STA_INFO_SIGNAL_AVG
  }

  lemma SignalIs(r: Report) returns (s: Byte)
    ensures SignalOf(r).Some? ==> OneByte(r, s) && SignalOf(r) == Some(Percent(s))
    ensures SignalOf(r).None? ==> forall b :: !OneByte(r, b)
  {
    s := 0;
    if r.Station? {
      var k := FirstIs(r.inner + r.after, NL80211_STA_INFO_SIGNAL_AVG);
      var a := First(r.inner + r.after, NL80211_STA_INFO_SIGNAL_AVG);
      if a.Some? && |a.value.payload| == 1 {
        s := a.value.payload[0];
        assert a.value == Attr(NL80211_STA_INFO_SIGNAL_AVG, [s]);
      }
    }
  }

  /** A message yields what its report says. */
  lemma YieldIsSignal(m: seq<Byte>, r: Report)
    requires Reports(m, r)
    ensures Yield(m) == SignalOf(r)
  {
    match r
    case Bare =>
    case Other(attrs) =>
      ScanHolds(m, BODY, attrs, NL80211_ATTR_STA_INFO);
    case Station(before, inner, after) =>
      LookupNested(m, BODY, before, inner, after);
  }

  /** A body behind the two headers. */
  lemma Envelope(body: seq<Byte>) returns (m: seq<Byte>)
    requires |body| < 0x1000
    ensures |m| == BODY + |body| && Get32(m, 0) == |m| && m[BODY..] == body
  {
    var header, genl: seq<Byte> := MessageHeader(BODY + |body|, 0, 0, 0), [NL80211_CMD_GET_STATION, 1, 0, 0];
    m := header + genl + body;
    assert Get32(m, 0) == Get32(header, 0);
  }

  /** A message whose STA_INFO has no signal, and which yet yields a percentage: the second scan runs on to
      the sibling that has the signal's number. */
  lemma LookupEscapes() returns (m: seq<Byte>, r: Report)
    ensures Reports(m, r) && r.Station? && First(r.inner, NL80211_STA_INFO_SIGNAL_AVG).None?
    ensures Yield(m) == Some(100)
  {
    var inner, after := [Attr(7, [200])], [Attr(NL80211_STA_INFO_SIGNAL_AVG, [206])];
    r := Station([], inner, after);
    OneLong(inner);
    var sta := Attr(NL80211_ATTR_STA_INFO, EncodeAll(inner));
    var attrs := [sta] + after;
    OneLong(after);
    assert attrs[1..] == after;
    assert |EncodeAll(attrs)| == 20;
    m := Envelope(EncodeAll(attrs));
    EncodedHolds(m, BODY, attrs, []);
    assert [] + attrs == attrs == attrs + [];
    LookupNested(m, BODY, [], inner, after);
    YieldIsSignal(m, r);
    assert (inner + after)[0] == inner[0] && (inner + after)[1..] == after;
  }

  lemma OneLong(attrs: seq<Attr>)
    requires |attrs| == 1 && attrs[0].Fits() && |attrs[0].payload| == 1
    ensures AllFit(attrs) && |EncodeAll(attrs)| == 8
  {
    assert attrs[1..] == [];
  }

  /** What the caller gets for a sequence of messages: at the end-of-dump message the first percentage so
      far; nothing when the kernel stops before it. */
  function Answer(ms: seq<seq<Byte>>, strength: Option<int>): (r: Option<int>)
    requires Messages(ms) && (strength.Some? ==> 0 <= strength.value <= 100)
    ensures r.Some? ==> 0 <= r.value <= 100
  {
    if ms == [] then None
    else
      var s := if strength.Some? then strength else Yield(ms[0]);
      if Type(ms[0]) == NLMSG_DONE then s else Answer(ms[1..], s)
  }

  predicate Ends(ms: seq<seq<Byte>>, d: nat)
    requires Messages(ms)
  {
    d < |ms| && Type(ms[d]) == NLMSG_DONE && forall i :: 0 <= i < d ==> Type(ms[i]) != NLMSG_DONE
  }

  /** The first percentage among the messages, or none. */
  function FirstYield(ms: seq<seq<Byte>>): (r: Option<int>)
    requires Messages(ms)
    ensures r.Some? ==> exists i :: 0 <= i < |ms| && Yield(ms[i]) == r && forall j :: 0 <= j < i ==> Yield(ms[j]).None?
    ensures r.None? ==> forall m :: m in ms ==> Yield(m).None?
  {
    if ms == [] then None
    else if Yield(ms[0]).Some? then
      Yield(ms[0])
    else
      var r := FirstYield(ms[1..]);
      assert r.Some? ==> forall j :: 1 <= j < |ms| ==> ms[j] == ms[1..][j - 1];
      assert ms == [ms[0]] + ms[1..];
      r
  }

  /** The answer is the first percentage at or before the first end-of-dump message. */
  lemma {:induction false} AnswerIsFirst(ms: seq<seq<Byte>>, d: nat)
    requires Messages(ms) && Ends(ms, d)
    ensures Answer(ms, None) == FirstYield(ms[..d + 1])
  {
    AnswerKeeps(ms, d, Yield(ms[0]));
    if d == 0 {
      assert ms[..1] == [ms[0]] && ms[..1][1..] == [];
    } else {
      assert Ends(ms[1..], d - 1);
      assert ms[..d + 1][1..] == ms[1..][..d];
      AnswerIsFirst(ms[1..], d - 1);
    }
  }

  /** The first percentage among the reports, or none. */
  function FirstSignal(rs: seq<Report>): Option<int> {
    if rs == [] then None else if SignalOf(rs[0]).Some? then SignalOf(rs[0]) else FirstSignal(rs[1..])
  }

  /** In terms of what the messages encode: the answer is the percentage of the first report with a one-byte
      signal, up to the end of the dump. */
  lemma AnswerIsFirstSignal(ms: seq<seq<Byte>>, d: nat, rs: seq<Report>)
    requires Messages(ms) && Ends(ms, d)
    requires |rs| == d + 1 && forall i :: 0 <= i <= d ==> Reports(ms[i], rs[i])
    ensures Answer(ms, None) == FirstSignal(rs)
  {
    AnswerIsFirst(ms, d);
    FirstYieldIsSignal(ms[..d + 1], rs);
  }

  /** Report i is the first with a signal of one byte, s. */
  ghost predicate FirstOneByte(rs: seq<Report>, i: nat, s: Byte) {
    i < |rs| && OneByte(rs[i], s) && forall j, b :: 0 <= j < i ==> !OneByte(rs[j], b)
  }

  lemma {:induction false} FirstSignalIs(rs: seq<Report>) returns (i: nat, s: Byte)
    ensures FirstSignal(rs).Some? ==> FirstOneByte(rs, i, s) && FirstSignal(rs) == Some(Percent(s))
    ensures FirstSignal(rs).None? ==> forall j, b :: 0 <= j < |rs| ==> !OneByte(rs[j], b)
  {
    i, s := 0, 0;
    if rs != [] {
      s := SignalIs(rs[0]);
      if SignalOf(rs[0]).None? {
        i, s := FirstSignalIs(rs[1..]);
        assert forall j :: 1 <= j < |rs| ==> rs[j] == rs[1..][j - 1];
        i := i + 1;
      }
    }
  }

  lemma FirstOneByteUnique(rs: seq<Report>, i: nat, s: Byte, j: nat, t: Byte)
    requires FirstOneByte(rs, i, s) && FirstOneByte(rs, j, t)
    ensures i == j && s == t
  {
  }

  lemma {:induction false} FirstYieldIsSignal(ms: seq<seq<Byte>>, rs: seq<Report>)
    requires |rs| == |ms| && forall i :: 0 <= i < |ms| ==> Reports(ms[i], rs[i])
    ensures Messages(ms) && FirstYield(ms) == FirstSignal(rs)
  {
    assert forall i :: 0 <= i < |ms| ==> Reports(ms[i], rs[i]) && Message(ms[i]);
    if ms != [] {
      YieldIsSignal(ms[0], rs[0]);
      FirstYieldIsSignal(ms[1..], rs[1..]);
    }
  }

  /** One message more. */
  lemma AnswerStep(todo: seq<seq<Byte>>, rest: seq<seq<Byte>>, s: Option<int>)
    requires todo != [] && Messages(todo) && Messages(todo + rest) && (s.Some? ==> 0 <= s.value <= 100)
    ensures Message(todo[0]) && Messages(todo[1..]) && Messages(todo[1..] + rest)
    ensures var s' := if s.Some? then s else Yield(todo[0]);
      Answer(todo + rest, s) == if Type(todo[0]) == NLMSG_DONE then s' else Answer(todo[1..] + rest, s')
  {
    assert todo[0] in todo;
    assert (todo + rest)[0] == todo[0] && (todo + rest)[1..] == todo[1..] + rest;
  }

  /** Once found, the strength is what the caller gets. */
  lemma {:induction false} AnswerKeeps(ms: seq<seq<Byte>>, d: nat, s: Option<int>)
    requires Messages(ms) && Ends(ms, d) && (s.Some? ==> 0 <= s.value <= 100)
    ensures s.Some? ==> Answer(ms, s) == s
  {
    if d > 0 {
      assert Ends(ms[1..], d - 1);
      AnswerKeeps(ms[1..], d - 1, s);
    }
  }

  /** No end-of-dump message, no answer. */
  lemma {:induction false} AnswerNeedsEnd(ms: seq<seq<Byte>>, s: Option<int>)
    requires Messages(ms) && (forall m :: m in ms ==> Type(m) != NLMSG_DONE)
    requires s.Some? ==> 0 <= s.value <= 100
    ensures Answer(ms, s).None?
  {
    if ms != [] {
      AnswerNeedsEnd(ms[1..], if s.Some? then s else Yield(ms[0]));
    }
  }

  function Concat(ms: seq<seq<Byte>>): seq<Byte> {
    if ms == [] then [] else ms[0] + Concat(ms[1..])
  }

  lemma Whole(ms: seq<seq<Byte>>)
    requires Messages(ms)
    ensures ms != [] ==> |Concat(ms)| >= NLMSG_HDRLEN
  {
    if ms != [] {
      assert ms[0] in ms;
    }
  }

  /** A datagram carries whole messages, or is too short to carry any. */
  ghost predicate Carries(d: seq<Byte>, ms: seq<seq<Byte>>) {
    && |d| <= RESP_SIZE && Messages(ms)
    && if ms == [] then |d| < NLMSG_HDRLEN else d == Concat(ms)
  }

  ghost predicate Batched(ds: seq<seq<Byte>>, batches: seq<seq<seq<Byte>>>) {
    |ds| == |batches| && forall i :: 0 <= i < |ds| ==> Carries(ds[i], batches[i])
  }

  /** The messages received until the loop gives up: a datagram without a message ends it. */
  ghost function Received(batches: seq<seq<seq<Byte>>>): (ms: seq<seq<Byte>>)
    ensures (forall b :: b in batches ==> Messages(b)) ==> Messages(ms)
  {
    if batches == [] || batches[0] == [] then []
    else
      assert batches[0] in batches && forall b :: b in batches[1..] ==> b in batches;
      batches[0] + Received(batches[1..])
  }

  /** The decimal text of a percentage, as "%d" prints it. */
  function Decimal(n: int): (s: string)
    requires 0 <= n <= 100
    ensures 1 <= |s| <= 3
  {
    if n < 10 then [Digit(n)]
    else if n < 100 then [Digit(n / 10), Digit(n % 10)]
    else "100"
  }

  function Digit(n: int): char
    requires 0 <= n < 10
  {
    "0123456789"[n]
  }

  /** Reading a decimal numeral. */
  predicate IsNumeral(s: string) {
    && s != "" && (forall c :: c in s ==> '0' <= c <= '9')
    && (|s| > 1 ==> s[0] != '0')
  }

  function Numeral(s: string): int {
    if s == "" then 0 else 10 * Numeral(s[..|s| - 1]) + (s[|s| - 1] as int - '0' as int)
  }

  /** The text of a percentage reads as that percentage, without a leading zero. */
  lemma DecimalReads(n: int)
    requires 0 <= n <= 100
    ensures IsNumeral(Decimal(n)) && Numeral(Decimal(n)) == n
  {
    DigitReads(n % 10);
    if n < 10 {
      NumeralOf1(Digit(n));
    } else if n < 100 {
      DigitReads(n / 10);
      NumeralOf2(Digit(n / 10), Digit(n % 10));
    } else {
      assert "100"[..2] == "10";
      NumeralOf2('1', '0');
    }
  }

  lemma DigitReads(d: int)
    requires 0 <= d < 10
    ensures '0' <= Digit(d) <= '9' && Digit(d) as int - '0' as int == d && (d > 0 ==> Digit(d) != '0')
  {
  }

  lemma NumeralOf1(c: char)
    ensures Numeral([c]) == c as int - '0' as int
  {
    assert [c][..0] == [];
  }

  lemma NumeralOf2(c: char, d: char)
    ensures Numeral([c, d]) == 10 * (c as int - '0' as int) + (d as int - '0' as int)
  {
    assert [c, d][..1] == [c];
    NumeralOf1(c);
  }

  function Text(s: Option<int>): string
    requires s.Some? ==> 0 <= s.value <= 100
  {
    if s.None? then "" else Decimal(s.value)
  }

  class Client {
    const resp: array<Byte>
    var strength: string  // the static buffer's text, empty until a signal is found

    constructor ()
      ensures fresh(resp) && resp.Length == RESP_SIZE
    {
      resp := new Byte[RESP_SIZE](_ => 0);
      strength := "";
    }

    /** recv: a datagram over the front of the buffer; what lay behind it stays. */
    method Receive(d: seq<Byte>)
      requires |d| <= resp.Length
      modifies resp
      ensures resp[..|d|] == d
    {
      for i := 0 to |d|
        invariant resp[..i] == d[..i]
      {
        resp[i] := d[i];
      }
    }

    /** The percentage of the message at p, if its two scans end at a one-byte signal. */
    method Signal(p: nat, e: nat, ghost m: seq<Byte>) returns (r: Option<int>)
      requires p <= e <= resp.Length && resp[..][p..e] == m && Message(m)
      ensures r == Yield(m)
    {
      if e - p <= BODY {
        return None;
      }
      Within(resp[..], m, p);
      Pointwise(resp[..], m, p);
      var outer := FindAttr(resp, NL80211_ATTR_STA_INFO, p + BODY, e);
      if outer.None? {
        return None;
      }
      var signal := FindAttr(resp, NL80211_STA_INFO_SIGNAL_AVG, outer.value.start, e);
      if signal.None? || signal.value.len != 1 {
        return None;
      }
      r := Some(Percent(resp[signal.value.start]));
    }

    lemma Pointwise(b: seq<Byte>, m: seq<Byte>, p: nat)
      requires p + |m| <= |b| && b[p..p + |m|] == m
      ensures forall i {:trigger m[i]} :: 0 <= i < |m| ==> b[p + i] == m[i]
    {
      assert forall i {:trigger m[i]} :: 0 <= i < |m| ==> b[p + i] == b[p..p + |m|][i];
    }

    /** The two scans of the buffer inside a message see only the message. */
    lemma Within(b: seq<Byte>, m: seq<Byte>, p: nat)
      requires p + |m| <= |b| && b[p..p + |m|] == m && Searchable(m, BODY)
      ensures Scannable(b, p + BODY, p + |m|)
      ensures var o := Scan(m, NL80211_ATTR_STA_INFO, BODY, |m|);
        && Scan(b, NL80211_ATTR_STA_INFO, p + BODY, p + |m|) == Shift(o, p)
        && (o.Some? ==>
          && Scannable(b, p + o.value.start, p + |m|)
          && Scan(b, NL80211_STA_INFO_SIGNAL_AVG, p + o.value.start, p + |m|) == Shift(Lookup(m, BODY), p))
    {
      ScanSlice(b, m, p, NL80211_ATTR_STA_INFO, BODY);
      var o := Scan(m, NL80211_ATTR_STA_INFO, BODY, |m|);
      if o.Some? {
        ScanSlice(b, m, p, NL80211_STA_INFO_SIGNAL_AVG, o.value.start);
      }
    }

    lemma ScanSlice(b: seq<Byte>, m: seq<Byte>, p: nat, typ: int, from: nat)
      requires p + |m| <= |b| && b[p..p + |m|] == m && Scannable(m, from, |m|)
      ensures Scannable(b, p + from, p + |m|)
      ensures Scan(b, typ, p + from, p + |m|) == Shift(Scan(m, typ, from, |m|), p)
    {
      Pointwise(b, m, p);
      ScanShift(b, m, p, typ, from);
    }

    /** The strength after the message at p: looked for only while it is still empty. */
    method Note(p: nat, e: nat, ghost m: seq<Byte>, ghost s: Option<int>) returns (ghost s': Option<int>)
      requires p <= e <= resp.Length && resp[..][p..e] == m && Message(m)
      requires (s.Some? ==> 0 <= s.value <= 100) && strength == Text(s)
      modifies this
      ensures s' == (if s.Some? then s else Yield(m)) && strength == Text(s')
    {
      if strength == "" {
        var percent := Signal(p, e, m);
        if percent.Some? {
          strength := Decimal(percent.value);
        }
      }
      s' := if s.Some? then s else Yield(m);
    }

    /** The messages of one datagram; ended tells whether the last of them was the end of the dump. */
    method Datagram(d: seq<Byte>, ghost ms: seq<seq<Byte>>, ghost rest: seq<seq<Byte>>, ghost s: Option<int>)
      returns (ended: bool, ghost s': Option<int>)
      requires resp.Length == RESP_SIZE && Carries(d, ms) && ms != [] && Messages(ms + rest)
      requires s.Some? ==> 0 <= s.value <= 100
      requires strength == Text(s)
      modifies this, resp
      ensures s'.Some? ==> 0 <= s'.value <= 100
      ensures strength == Text(s')
      ensures Answer(ms + rest, s) == if ended then s' else Answer(rest, s')
    {
      Receive(d);
      ghost var b := resp[..];
      var r := |d|;
      var p := 0;
      ghost var todo := ms;
      s' := s;
      ended := false;
      assert b[..r] == d;
      while p != r && r - p >= NLMSG_HDRLEN
        invariant p <= r && resp[..] == b && b[..r][p..] == Concat(todo) && Messages(todo) && Messages(todo + rest)
        invariant s'.Some? ==> 0 <= s'.value <= 100
        invariant strength == Text(s')
        invariant Answer(todo + rest, s') == Answer(ms + rest, s)
        decreases r - p
      {
        ghost var m := todo[0];
        AnswerStep(todo, rest, s');
        HeadMessage(b, p, r, m, Concat(todo[1..]));
        var len := Load32(resp, p);
        var typ := Load16(resp, p + 4);
        var e := if r - p < len then r else p + len;
        s' := Note(p, e, m, s');
        if typ == NLMSG_DONE {
          ended := true;
          return;
        }
        todo := todo[1..];
        p := e;
      }
      Whole(todo);
      assert todo + rest == rest;
    }

    method Load32(buf: array<Byte>, p: nat) returns (n: int)
      requires p + 4 <= buf.Length
      ensures n == Get32(buf[..], p)
    {
      var lo := Load16(buf, p);
      var hi := Load16(buf, p + 2);
      n := lo + 0x1_0000 * hi;
    }

    lemma HeadMessage(b: seq<Byte>, p: nat, r: nat, m: seq<Byte>, tail: seq<Byte>)
      requires p <= r <= |b| && b[..r][p..] == m + tail && Message(m)
      ensures p + |m| <= r && b[p..p + |m|] == m && b[..r][p + |m|..] == tail
      ensures Get32(b, p) == |m| && Get16(b, p + 4) == Get16(m, 4)
    {
      assert |b[..r][p..]| == |m| + |tail|;
      assert b[p..p + |m|] == b[..r][p..][..|m|];
      assert b[..r][p + |m|..] == b[..r][p..][|m|..];
      Pointwise(b, m, p);
    }

    /** wifi_perc, from the point where the request has been sent; recv fails when no datagram is left. */
    method StationPercent(ds: seq<seq<Byte>>, ghost batches: seq<seq<seq<Byte>>>) returns (r: Option<string>)
      requires resp.Length == RESP_SIZE && Batched(ds, batches)
      modifies this, resp
      ensures Messages(Received(batches))
      ensures r == match Answer(Received(batches), None) case None => None case Some(n) => Some(Decimal(n))
    {
      strength := "";
      ghost var s: Option<int> := None;
      assert batches[0..] == batches;
      for i := 0 to |ds|
        invariant Batched(ds, batches) && Messages(Received(batches)) && Messages(Received(batches[i..]))
        invariant s.Some? ==> 0 <= s.value <= 100
        invariant strength == Text(s)
        invariant Answer(Received(batches[i..]), s) == Answer(Received(batches), None)
      {
        assert batches[i..][0] == batches[i] && batches[i..][1..] == batches[i + 1..];
        Whole(batches[i]);
        if |ds[i]| < NLMSG_HDRLEN {
          return None;
        }
        var ended;
        ended, s := Datagram(ds[i], batches[i], Received(batches[i + 1..]), s);
        if ended {
          return if strength != "" then Some(strength) else None;
        }
      }
      r := None;
    }
  }

  /** The dump in terms of what the messages encode and of what the text reads as: there is an answer if and
      only if a message up to the end of the dump has a signal of one byte, and then it is a numeral for the
      percentage of the first such signal. */
  method ReportedPercent(c: Client, ds: seq<seq<Byte>>, ghost batches: seq<seq<seq<Byte>>>, ghost rs: seq<Report>)
    returns (r: Option<string>)
    requires c.resp.Length == RESP_SIZE && Batched(ds, batches)
    requires |rs| == |Received(batches)| && forall i :: 0 <= i < |rs| ==> Reports(Received(batches)[i], rs[i])
    modifies c, c.resp
    ensures Messages(Received(batches))
    ensures r.Some? <==> exists d, i, s :: Ends(Received(batches), d) && i <= d && FirstOneByte(rs, i, s)
    ensures forall d, i, s :: Ends(Received(batches), d) && i <= d && FirstOneByte(rs, i, s) ==>
      r.Some? && IsNumeral(r.value) && Numeral(r.value) == Percent(s)
  {
    r := c.StationPercent(ds, batches);
    AnswerReported(Received(batches), rs);
    if r.Some? {
      DecimalReads(Answer(Received(batches), None).value);
    }
  }

  lemma {:induction false} EndOrNot(ms: seq<seq<Byte>>) returns (d: nat)
    requires Messages(ms)
    ensures Ends(ms, d) || forall m :: m in ms ==> Type(m) != NLMSG_DONE
  {
    d := 0;
    while d < |ms| && Type(ms[d]) != NLMSG_DONE
      invariant d <= |ms| && forall i :: 0 <= i < d ==> Type(ms[i]) != NLMSG_DONE
    {
      d := d + 1;
    }
  }

  lemma AnswerReported(ms: seq<seq<Byte>>, rs: seq<Report>)
    requires Messages(ms) && |rs| == |ms| && forall i :: 0 <= i < |rs| ==> Reports(ms[i], rs[i])
    ensures Answer(ms, None).Some? <==> exists d, i, s :: Ends(ms, d) && i <= d && FirstOneByte(rs, i, s)
    ensures forall d, i, s :: Ends(ms, d) && i <= d && FirstOneByte(rs, i, s) ==> Answer(ms, None) == Some(Percent(s))
  {
    var d := EndOrNot(ms);
    if Ends(ms, d) {
      AnswerIsFirstSignal(ms, d, rs[..d + 1]);
      var i, s := FirstSignalIs(rs[..d + 1]);
      if FirstSignal(rs[..d + 1]).Some? {
        assert FirstOneByte(rs, i, s);
      }
      forall e, j, t | Ends(ms, e) && j <= e && FirstOneByte(rs, j, t)
        ensures Answer(ms, None) == Some(Percent(t))
      {
        assert d == e;
        assert FirstOneByte(rs[..d + 1], j, t);
        if FirstSignal(rs[..d + 1]).Some? {
          FirstOneByteUnique(rs, i, s, j, t);
        }
      }
    } else {
      AnswerNeedsEnd(ms, None);
    }
  }

  ghost function Flatten(batches: seq<seq<seq<Byte>>>): seq<seq<Byte>> {
    if batches == [] then [] else batches[0] + Flatten(batches[1..])
  }

  /** The messages received are those of the datagrams before the first that is too short to carry any. */
  lemma {:induction false} ReceivedUpTo(batches: seq<seq<seq<Byte>>>, n: nat)
    requires n <= |batches| && (forall i :: 0 <= i < n ==> batches[i] != []) && (n < |batches| ==> batches[n] == [])
    ensures Received(batches) == Flatten(batches[..n])
  {
    if n > 0 {
      assert batches[..n][0] == batches[0] && batches[..n][1..] == batches[1..][..n - 1];
      ReceivedUpTo(batches[1..], n - 1);
    }
  }

  lemma ReceivedAll(batches: seq<seq<seq<Byte>>>)
    requires forall b :: b in batches ==> b != []
    ensures Received(batches) == Flatten(batches)
  {
    assert forall i :: 0 <= i < |batches| ==> batches[i] in batches;
    ReceivedUpTo(batches, |batches|);
    assert batches[..|batches|] == batches;
  }

  /** However the same messages are batched into datagrams, the caller gets the same answer. */
  method BatchingIrrelevant(c1: Client, ds1: seq<seq<Byte>>, ghost batches1: seq<seq<seq<Byte>>>,
                            c2: Client, ds2: seq<seq<Byte>>, ghost batches2: seq<seq<seq<Byte>>>)
    returns (r1: Option<string>, r2: Option<string>)
    requires c1.resp.Length == RESP_SIZE && Batched(ds1, batches1) && (forall b :: b in batches1 ==> b != [])
    requires c2.resp.Length == RESP_SIZE && Batched(ds2, batches2) && (forall b :: b in batches2 ==> b != [])
    requires Flatten(batches1) == Flatten(batches2)
    modifies c1, c1.resp, c2, c2.resp
    ensures r1 == r2
  {
    ReceivedAll(batches1);
    ReceivedAll(batches2);
    r1 := c1.StationPercent(ds1, batches1);
    r2 := c2.StationPercent(ds2, batches2);
  }
}
