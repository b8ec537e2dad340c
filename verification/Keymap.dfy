/** Picking the layout of a group out of an X symbols string, with in-place tokenising. */
module Keymap {
  import opened CStrings
  import opened Options

  const INVALID := ["evdev", "inet", "pc", "base"]

  predicate Separator(c: char) {
    c == '+' || c == ':' || c == '_'
  }

  /** The separators are the letters of the string that strtok is given. */
  lemma SeparatorIs(c: char)
    ensures Separator(c) <==> c in "+:_"
  {
  }

  /** The first index from p on that is no separator, and the first that is one. */
  function Skip(s: string, p: nat): (b: nat)
    requires p <= |s|
    ensures p <= b <= |s| && (b < |s| ==> !Separator(s[b]))
    decreases |s| - p
  {
    if p < |s| && Separator(s[p]) then Skip(s, p + 1) else p
  }

  function Span(s: string, p: nat): (e: nat)
    requires p <= |s|
    ensures p <= e <= |s| && (e < |s| ==> Separator(s[e]))
    decreases |s| - p
  {
    if p < |s| && !Separator(s[p]) then Span(s, p + 1) else p
  }

  /** Where the search goes on after a token that ends at e. */
  function After(s: string, e: nat): (p: nat)
    requires e <= |s|
    ensures e <= p <= |s|
  {
    if e == |s| then e else e + 1
  }

  /** The tokens of s from p on. */
  function Tokens(s: string, p: nat): seq<string>
    requires p <= |s|
    decreases |s| - p
  {
    var b := Skip(s, p);
    if b == |s| then []
    else
      var e := Span(s, b);
      [s[b..e]] + Tokens(s, After(s, e))
  }

  function Letters(s: string, p: nat): string
    requires p <= |s|
    decreases |s| - p
  {
    if p == |s| then "" else if Separator(s[p]) then Letters(s, p + 1) else [s[p]] + Letters(s, p + 1)
  }

  function Join(ts: seq<string>): string {
    if ts == [] then "" else ts[0] + Join(ts[1..])
  }

  lemma {:induction false} LettersSkip(s: string, p: nat)
    requires p <= |s|
    ensures Letters(s, p) == Letters(s, Skip(s, p))
    decreases |s| - p
  {
    if p < |s| && Separator(s[p]) {
      LettersSkip(s, p + 1);
    }
  }

  lemma {:induction false} LettersSpan(s: string, p: nat)
    requires p <= |s|
    ensures Letters(s, p) == s[p..Span(s, p)] + Letters(s, Span(s, p))
    decreases |s| - p
  {
    if p < |s| && !Separator(s[p]) {
      LettersSpan(s, p + 1);
      Uncons(s, p, Span(s, p), Letters(s, Span(s, p)));
    }
  }

  lemma Uncons(s: string, p: nat, e: nat, rest: string)
    requires p < e <= |s|
    ensures s[p..e] + rest == [s[p]] + (s[p + 1..e] + rest)
  {
  }

  /** Tokenising loses the separators and nothing else. */
  lemma {:induction false} TokensKeepLetters(s: string, p: nat)
    requires p <= |s|
    ensures Join(Tokens(s, p)) == Letters(s, p)
    decreases |s| - p
  {
    LettersSkip(s, p);
    var b := Skip(s, p);
    if b < |s| {
      LettersSpan(s, b);
      var e := Span(s, b);
      JoinCons(s[b..e], Tokens(s, After(s, e)));
      TokensKeepLetters(s, After(s, e));
    }
  }

  lemma JoinCons(t: string, ts: seq<string>)
    ensures Join([t] + ts) == t + Join(ts)
  {
    assert ([t] + ts)[1..] == ts;
  }

  lemma {:induction false} SpanIsRun(s: string, p: nat)
    requires p <= |s|
    ensures forall i :: p <= i < Span(s, p) ==> !Separator(s[i])
    ensures p < |s| && !Separator(s[p]) ==> p < Span(s, p)
    decreases |s| - p
  {
    if p < |s| && !Separator(s[p]) {
      SpanIsRun(s, p + 1);
    }
  }

  /** A non-empty stretch of s from p on without a separator, bounded by separators or the ends. */
  predicate MaximalRun(s: string, p: nat, b: nat, e: nat) {
    && p <= b < e <= |s|
    && (forall i :: b <= i < e ==> !Separator(s[i]))
    && (b == p || Separator(s[b - 1]))
    && (e == |s| || Separator(s[e]))
  }

  lemma {:induction false} SkipPasses(s: string, p: nat)
    requires p <= |s|
    ensures forall i :: p <= i < Skip(s, p) ==> Separator(s[i])
    decreases |s| - p
  {
    if p < |s| && Separator(s[p]) {
      SkipPasses(s, p + 1);
    }
  }

  /** The tokens are exactly the maximal runs without a separator, in order. */
  lemma {:induction false} TokensAreRuns(s: string, p: nat) returns (starts: seq<nat>, ends: seq<nat>)
    requires p <= |s|
    ensures |Tokens(s, p)| == |starts| == |ends|
    ensures forall k :: 0 <= k < |starts| ==>
      MaximalRun(s, p, starts[k], ends[k]) && Tokens(s, p)[k] == s[starts[k]..ends[k]]
    ensures forall k :: 0 < k < |starts| ==> ends[k - 1] < starts[k]
    ensures Covers(s, p, starts, ends)
    decreases |s| - p
  {
    SkipPasses(s, p);
    var b := Skip(s, p);
    if b == |s| {
      starts, ends := [], [];
      forall x: nat, y: nat ensures !MaximalRun(s, p, x, y) {
        assert p <= x < |s| ==> Separator(s[x]);
      }
    } else {
      SpanIsRun(s, b);
      var e := Span(s, b);
      var bs, es := TokensAreRuns(s, After(s, e));
      starts, ends := [b] + bs, [e] + es;
      forall k | 0 <= k < |starts|
        ensures MaximalRun(s, p, starts[k], ends[k]) && Tokens(s, p)[k] == s[starts[k]..ends[k]]
      {
        if k > 0 {
          LaterRun(s, p, e, bs[k - 1], es[k - 1]);
        }
      }
      CoversMore(s, p, b, e, bs, es);
    }
  }

  /** No maximal run is missing. */
  ghost predicate Covers(s: string, p: nat, starts: seq<nat>, ends: seq<nat>)
    requires |starts| == |ends|
  {
    forall b, e :: MaximalRun(s, p, b, e) ==> exists k :: 0 <= k < |starts| && starts[k] == b && ends[k] == e
  }

  lemma CoversMore(s: string, p: nat, b: nat, e: nat, bs: seq<nat>, es: seq<nat>)
    requires p <= b < e <= |s| && (e < |s| ==> Separator(s[e]))
    requires (forall i :: p <= i < b ==> Separator(s[i])) && forall i :: b <= i < e ==> !Separator(s[i])
    requires |bs| == |es| && Covers(s, After(s, e), bs, es)
    ensures Covers(s, p, [b] + bs, [e] + es)
  {
    var starts, ends := [b] + bs, [e] + es;
    forall x, y | MaximalRun(s, p, x, y)
      ensures exists k :: 0 <= k < |starts| && starts[k] == x && ends[k] == y
    {
      if x == b {
        SameEnd(s, b, e, y);
        assert starts[0] == x && ends[0] == y;
      } else {
        EarlierRun(s, p, b, e, x, y);
        var k :| 0 <= k < |bs| && bs[k] == x && es[k] == y;
        assert starts[k + 1] == x && ends[k + 1] == y;
      }
    }
  }

  /** A maximal run of the rest is one of the whole. */
  lemma LaterRun(s: string, p: nat, e: nat, x: nat, y: nat)
    requires p <= e <= |s| && (e < |s| ==> Separator(s[e]))
    requires MaximalRun(s, After(s, e), x, y)
    ensures MaximalRun(s, p, x, y)
  {
  }

  /** Two maximal runs with one start have one end. */
  lemma SameEnd(s: string, b: nat, e: nat, y: nat)
    requires b < e <= |s| && b < y <= |s| && (e < |s| ==> Separator(s[e])) && (y < |s| ==> Separator(s[y]))
    requires (forall i :: b <= i < e ==> !Separator(s[i])) && forall i :: b <= i < y ==> !Separator(s[i])
    ensures e == y
  {
  }

  /** A maximal run other than the first lies behind it. */
  lemma EarlierRun(s: string, p: nat, b: nat, e: nat, x: nat, y: nat)
    requires p <= b < e <= |s| && (e < |s| ==> Separator(s[e]))
    requires (forall i :: p <= i < b ==> Separator(s[i])) && forall i :: b <= i < e ==> !Separator(s[i])
    requires MaximalRun(s, p, x, y) && x != b
    ensures MaximalRun(s, After(s, e), x, y)
  {
    assert !Separator(s[x]) && (x == p || Separator(s[x - 1]));
    assert x > e;
  }

  predicate ValidLayout(t: string) {
    forall i :: 0 <= i < |INVALID| ==> !(INVALID[i] <= t)
  }

  predicate IsLayout(t: string) {
    ValidLayout(t) && !(|t| == 1 && '0' <= t[0] <= '9')
  }

  function Layouts(ts: seq<string>): seq<string> {
    if ts == [] then []
    else (if IsLayout(ts[0]) then [ts[0]] else []) + Layouts(ts[1..])
  }

  /** The layouts are, in their order, the tokens that begin with none of the symbols X adds and are no single
      digit. */
  lemma LayoutsAre(ts: seq<string>) returns (at: seq<nat>)
    ensures |at| == |Layouts(ts)|
    ensures forall j :: 0 <= j < |at| ==> at[j] < |ts| && Layouts(ts)[j] == ts[at[j]]
    ensures forall j, k :: 0 <= j < k < |at| ==> at[j] < at[k]
    ensures forall k: nat :: k in at <==>
      && k < |ts|
      && !("evdev" <= ts[k]) && !("inet" <= ts[k]) && !("pc" <= ts[k]) && !("base" <= ts[k])
      && !(|ts[k]| == 1 && ts[k][0] in "0123456789")
  {
    at := Positions(ts, 0);
    PositionsAre(ts, 0);
    assert ts[0..] == ts;
    forall k: nat
      ensures k in at <==>
        && k < |ts|
        && !("evdev" <= ts[k]) && !("inet" <= ts[k]) && !("pc" <= ts[k]) && !("base" <= ts[k])
        && !(|ts[k]| == 1 && ts[k][0] in "0123456789")
    {
      PositionsAll(ts, 0, k);
      if k < |ts| {
        LayoutIs(ts[k]);
      }
    }
  }

  /** Where the layouts are among the tokens from position p on. */
  function Positions(ts: seq<string>, p: nat): seq<nat>
    decreases |ts| - p
  {
    if p >= |ts| then [] else (if IsLayout(ts[p]) then [p] else []) + Positions(ts, p + 1)
  }

  lemma {:induction false} PositionsAre(ts: seq<string>, p: nat)
    requires p <= |ts|
    ensures |Positions(ts, p)| == |Layouts(ts[p..])|
    ensures forall j :: 0 <= j < |Positions(ts, p)| ==>
      p <= Positions(ts, p)[j] < |ts| && Layouts(ts[p..])[j] == ts[Positions(ts, p)[j]]
    ensures forall j, k :: 0 <= j < k < |Positions(ts, p)| ==> Positions(ts, p)[j] < Positions(ts, p)[k]
    decreases |ts| - p
  {
    if p < |ts| {
      PositionsAre(ts, p + 1);
      assert ts[p..][1..] == ts[p + 1..];
    }
  }

  lemma {:induction false} PositionsAll(ts: seq<string>, p: nat, k: nat)
    ensures k in Positions(ts, p) <==> p <= k < |ts| && IsLayout(ts[k])
    decreases |ts| - p
  {
    if p < |ts| {
      PositionsAll(ts, p + 1, k);
    }
  }

  lemma LayoutIs(t: string)
    ensures IsLayout(t) <==>
      && !("evdev" <= t) && !("inet" <= t) && !("pc" <= t) && !("base" <= t)
      && !(|t| == 1 && t[0] in "0123456789")
  {
    assert INVALID[0] == "evdev" && INVALID[1] == "inet" && INVALID[2] == "pc" && INVALID[3] == "base";
    if |t| == 1 {
      DigitIs(t[0]);
    }
  }

  lemma DigitIs(c: char)
    ensures c in "0123456789" <==> '0' <= c <= '9'
  {
  }

  /** From p on, the array still holds what the string s has there. */
  ghost predicate Rest(a: array<char>, p: nat, s: string)
    reads a
  {
    && p <= |s| < a.Length && a[|s|] == NUL
    && forall j {:trigger a[j]} :: p <= j < |s| ==> a[j] == s[j] && a[j] != NUL
  }

  /** strtok's memory of where to go on. */
  class Tokenizer {
    const syms: array<char>
    var save: nat

    constructor (syms: array<char>)
      ensures this.syms == syms && save == 0
    {
      this.syms, save := syms, 0;
    }

    method SkipSeparators(p: nat, ghost s: string) returns (q: nat)
      requires Rest(syms, p, s)
      ensures q == Skip(s, p)
    {
      q := p;
      while syms[q] != NUL && Separator(syms[q])
        invariant p <= q <= |s| && Skip(s, q) == Skip(s, p)
        decreases |s| - q
      {
        q := q + 1;
      }
    }

    method FindSeparator(p: nat, ghost s: string) returns (q: nat)
      requires Rest(syms, p, s)
      ensures q == Span(s, p)
    {
      q := p;
      while syms[q] != NUL && !Separator(syms[q])
        invariant p <= q <= |s| && Span(s, q) == Span(s, p)
        decreases |s| - q
      {
        q := q + 1;
      }
    }

    /** One call of strtok on the rest of the string s: it returns the next token, cut off by a NUL in place,
        and writes nowhere else. */
    method Next(ghost s: string) returns (tok: Option<nat>)
      requires Rest(syms, save, s)
      modifies this`save, syms
      ensures old(save) <= save && Rest(syms, save, s)
      ensures Found(s, old(save), tok)
      ensures forall i {:trigger syms[i]} :: 0 <= i <= old(save) ==> syms[i] == old(syms[i])
    {
      var b := SkipSeparators(save, s);
      if syms[b] == NUL {
        save := b;
        return None;
      }
      var e := FindSeparator(b, s);
      tok := Some(b);
      forall j | b <= j < e ensures s[j] != NUL {
        assert syms[j] == s[j];
      }
      if syms[e] == NUL {
        save := e;
      } else {
        syms[e] := NUL;
        save := e + 1;
      }
    }

    /** What a search from `from` has found. */
    ghost predicate Found(s: string, from: nat, tok: Option<nat>)
      requires from <= |s|
      reads this, syms
    {
      var b := Skip(s, from);
      var e := Span(s, b);
      if tok.None? then b == |s|
      else tok.value == b < e && HoldsAt(syms, b, s[b..e]) && save == After(s, e)
    }

    /** The same call; the layout accepted so far lies before the rest and is still there. */
    method NextAfter(ghost s: string, ghost layout: Option<nat>, ghost kept: seq<string>) returns (tok: Option<nat>)
      requires Rest(syms, save, s) && Accepted(syms, layout, kept, save)
      modifies this`save, syms
      ensures old(save) <= save && Rest(syms, save, s)
      ensures Found(s, old(save), tok)
      ensures Accepted(syms, layout, kept, old(save))
    {
      tok := Next(s);
    }
  }

  /** The layouts from p on, when the next token is t, are t (if it is one) and those after it. */
  lemma TakeToken(s: string, p: nat, b: nat, e: nat, kept: seq<string>)
    requires p <= |s| && b == Skip(s, p) < |s| && e == Span(s, b)
    ensures kept + Layouts(Tokens(s, p))
      == (if IsLayout(s[b..e]) then kept + [s[b..e]] else kept) + Layouts(Tokens(s, After(s, e)))
  {
    var t, rest := s[b..e], Tokens(s, After(s, e));
    assert Tokens(s, p) == [t] + rest && ([t] + rest)[1..] == rest;
  }

  /** valid_layout_or_variant */
  method CheckLayout(syms: array<char>, tok: nat, ghost t: string) returns (ok: bool)
    requires HoldsAt(syms, tok, t)
    ensures ok <==> ValidLayout(t)
  {
    for i := 0 to |INVALID|
      invariant forall j :: 0 <= j < i ==> !(INVALID[j] <= t)
    {
      var bad := Begins(syms, tok, t, INVALID[i]);
      if bad {
        return false;
      }
    }
    ok := true;
  }

  /** Whether a token names a layout. */
  method CheckToken(syms: array<char>, tok: nat, ghost t: string) returns (ok: bool)
    requires HoldsAt(syms, tok, t)
    ensures ok <==> IsLayout(t)
  {
    ok := CheckLayout(syms, tok, t);
    if ok {
      var n := Strlen(syms, tok, t);
      ok := !(n == 1 && '0' <= syms[tok] <= '9');
    }
  }

  /** The k-th of the layouts, or the last one there is. */
  function Pick(layouts: seq<string>, k: int): Option<string> {
    if layouts == [] || k < 0 then None
    else Some(layouts[if k < |layouts| then k else |layouts| - 1])
  }

  /** The last of the layouts kept is the pick, once they are enough or all there are. */
  lemma Picked(kept: seq<string>, rest: seq<string>, group: int)
    requires if group < 0 then kept == [] else |kept| <= group + 1
    requires rest == [] || |kept| > group
    ensures Pick(kept + rest, group) == if kept == [] then None else Some(kept[|kept| - 1])
  {
  }

  /** What the loop knows of the layout it last accepted: its text lies before the rest. */
  ghost predicate Accepted(syms: array<char>, layout: Option<nat>, kept: seq<string>, from: nat)
    reads syms
  {
    if kept == [] then layout == None
    else
      var t := kept[|kept| - 1];
      layout.Some? && HoldsAt(syms, layout.value, t) && layout.value + |t| <= from
  }

  /** The loop body: the token t at b becomes the layout unless it names none. */
  method Consider(syms: array<char>, b: nat, ghost t: string, layout: Option<nat>, grp: nat,
                  ghost kept: seq<string>, ghost from: nat, ghost to: nat)
    returns (newLayout: Option<nat>, newGrp: nat)
    requires HoldsAt(syms, b, t) && Accepted(syms, layout, kept, from) && |kept| == grp
    requires from <= to && b + |t| <= to
    ensures var k := if IsLayout(t) then kept + [t] else kept;
      |k| == newGrp && Accepted(syms, newLayout, k, to)
  {
    newLayout, newGrp := layout, grp;
    var good := CheckToken(syms, b, t);
    if good {
      newLayout, newGrp := Some(b), grp + 1;
    }
  }

  /** get_layout: the layout of the group, or the last one, or none; the result points at its NUL-terminated
      text in the array. */
  method GetLayout(syms: array<char>, group: int, ghost s: string) returns (layout: Option<nat>)
    requires HoldsString(syms, s)
    modifies syms
    ensures
      var layouts := Layouts(Tokens(s, 0));
      if layouts == [] || group < 0 then layout == None
      else layout.Some? && HoldsAt(syms, layout.value, layouts[if group < |layouts| then group else |layouts| - 1])
  {
    var strtok := new Tokenizer(syms);
    layout := None;
    var grp := 0;
    ghost var kept: seq<string> := [];
    ghost var from := 0;  // where the search for tok began
    var tok := strtok.Next(s);
    while tok.Some? && grp <= group
      invariant fresh(strtok) && strtok.syms == syms
      invariant from <= strtok.save && Rest(syms, strtok.save, s) && strtok.Found(s, from, tok)
      invariant kept + Layouts(Tokens(s, from)) == Layouts(Tokens(s, 0))
      invariant |kept| == grp && (if group < 0 then grp == 0 else grp <= group + 1)
      invariant Accepted(syms, layout, kept, from)
      decreases |s| - from, tok
    {
      var b := tok.value;
      ghost var t := s[b..Span(s, b)];
      TakeToken(s, from, b, Span(s, b), kept);
      layout, grp := Consider(syms, b, t, layout, grp, kept, from, strtok.save);
      kept, from := if IsLayout(t) then kept + [t] else kept, strtok.save;
      tok := strtok.NextAfter(s, layout, kept);
    }
    Picked(kept, Layouts(Tokens(s, from)), group);
  }
}
