/** Scaling a number to a unit prefix, over the reals. */
module Scaling {
  import opened Options

  const PREFIX_1000 := ["", "k", "M", "G", "T", "P", "E", "Z", "Y"]
  const PREFIX_1024 := ["", "Ki", "Mi", "Gi", "Ti", "Pi", "Ei", "Zi", "Yi"]
  const U64 := 0x1_0000_0000_0000_0000

  /** The prefixes are those of the International System of Units, each with the `i` of its binary twin. */
  lemma PrefixOrder(i: nat)
    requires i <= 8
    ensures |PREFIX_1000| == |PREFIX_1024| == 9
    ensures i == 0 ==> PREFIX_1000[i] == PREFIX_1024[i] == ""
    ensures i > 0 ==> PREFIX_1000[i] == ["kMGTPEZY"[i - 1]] && PREFIX_1024[i] == ["KMGTPEZY"[i - 1], 'i']
  {
    var k := if i == 0 then 0 else i - 1;
    assert k < |"kMGTPEZY"|;
  }

  function Pow(base: nat, i: nat): nat {
    if i == 0 then 1 else base * Pow(base, i - 1)
  }

  /** The exponent of a number: the least i with num < base^(i + 1). */
  predicate Exponent(num: nat, base: nat, i: nat) {
    num < Pow(base, i + 1) && forall j: nat {:trigger Pow(base, j)} :: 0 < j <= i ==> Pow(base, j) <= num
  }

  lemma ExponentUnique(num: nat, base: nat, i: nat, j: nat)
    requires Exponent(num, base, i) && Exponent(num, base, j)
    ensures i == j
  {
  }

  /** No 64-bit number reaches the seventh power. */
  lemma SeventhPower(base: nat)
    requires base == 1000 || base == 1024
    ensures Pow(base, 7) >= U64
  {
    assert Pow(base, 2) == base * base;
    assert Pow(base, 4) == base * (base * Pow(base, 2));
    assert Pow(base, 6) == base * (base * Pow(base, 4));
  }

  /** scaled is num scaled down i times. */
  ghost predicate AtScale(scaled: real, base: nat, i: nat, num: nat) {
    scaled * Pow(base, i) as real == num as real
  }

  lemma Divided(scaled: real, base: nat, i: nat, num: nat)
    requires base > 0 && AtScale(scaled, base, i, num)
    ensures AtScale(scaled / base as real, base, i + 1, num)
  {
    var b, p := base as real, Pow(base, i) as real;
    assert Pow(base, i + 1) as real == b * p;
    assert scaled / b * (b * p) == scaled / b * b * p;
  }

  lemma {:induction false} PowPositive(base: nat, i: nat)
    requires base > 0
    ensures Pow(base, i) > 0
  {
    if i > 0 {
      PowPositive(base, i - 1);
    }
  }

  /** Scaled down i times, the number still has a whole unit exactly when it reaches the next power. */
  lemma Compare(scaled: real, base: nat, i: nat, num: nat)
    requires base > 0 && AtScale(scaled, base, i, num)
    ensures scaled >= base as real <==> num >= Pow(base, i + 1)
  {
    PowPositive(base, i);
    var b, p := base as real, Pow(base, i) as real;
    assert Pow(base, i + 1) as real == b * p;
    Ordered(scaled, b, p);
  }

  lemma Ordered(x: real, y: real, p: real)
    requires p > 0.0
    ensures x >= y <==> x * p >= y * p
  {
    if x >= y {
      assert (x - y) * p >= 0.0;
    } else {
      assert (y - x) * p > 0.0;
    }
  }

  /** The pair is num scaled down by base^i, below the base, with the i-th prefix. */
  ghost predicate Shows(num: nat, base: nat, i: nat, shown: (real, string))
    requires i <= 6
  {
    && AtScale(shown.0, base, i, num)
    && shown.0 < base as real
    && shown.1 == (if base == 1000 then PREFIX_1000 else PREFIX_1024)[i]
  }

  /** The scaling loop, for any base whose seventh power the number does not reach. */
  method Scale(num: nat, base: nat, prefixes: nat) returns (scaled: real, i: nat)
    requires base > 0 && num < Pow(base, 7) && prefixes > 6
    ensures i <= 6 && AtScale(scaled, base, i, num) && scaled < base as real && Exponent(num, base, i)
  {
    scaled := num as real;
    i := 0;
    Compare(scaled, base, i, num);
    while i < prefixes && scaled >= base as real
      invariant i <= 6 && AtScale(scaled, base, i, num)
      invariant scaled >= base as real <==> num >= Pow(base, i + 1)
      invariant forall j: nat {:trigger Pow(base, j)} :: 0 < j <= i ==> Pow(base, j) <= num
      decreases 6 - i
    {
      Divided(scaled, base, i, num);
      scaled := scaled / base as real;
      i := i + 1;
      Compare(scaled, base, i, num);
    }
  }

  /** fmt_human, up to the printing: the scaled value and its prefix. */
  method FmtHuman(num: nat, base: int) returns (r: Option<(real, string)>)
    requires num < U64
    ensures r.None? <==> base != 1000 && base != 1024
    ensures r.Some? ==> exists i: nat :: i <= 6 && Exponent(num, base, i) && Shows(num, base, i, r.value)
  {
    var prefix;
    if base == 1000 {
      prefix := PREFIX_1000;
    } else if base == 1024 {
      prefix := PREFIX_1024;
    } else {
      return None;
    }
    SeventhPower(base);
    var scaled, i := Scale(num, base, |prefix|);
    r := Some((scaled, prefix[i]));
    assert Exponent(num, base, i) && Shows(num, base, i, r.value);
  }
}
