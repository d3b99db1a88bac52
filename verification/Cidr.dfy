/** CIDR matching of bin/yipd/src/control.rs. Masks are computed bit by bit; the specification is integer division. */
module Cidr {
  import opened Prelude

  function Pow2(k: nat): (p: nat)
    ensures p >= 1
  {
    if k == 0 then 1 else 2 * Pow2(k - 1)
  }

  /** Bitwise complement at a width. */
  function Not(a: nat, width: nat): nat
    requires a < Pow2(width)
  {
    Pow2(width) - 1 - a
  }

  datatype Ip = V4(bits: nat) | V6(bits: nat)

  function Width(ip: Ip): nat {
    if ip.V4? then 32 else 128
  }

  predicate Valid(ip: Ip) {
    ip.bits < Pow2(Width(ip))
  }

  lemma {:induction false} Pow2Grows(j: nat, k: nat)
    requires j <= k
    ensures Pow2(j) <= Pow2(k)
    decreases k - j
  {
    if j < k {
      Pow2Grows(j, k - 1);
    }
  }

  /** `!((1 << (width - prefix)) - 1)`, all ones for a full prefix. */
  function Mask(width: nat, prefix: nat): nat
    requires prefix <= width
  {
    Pow2Grows(width - prefix, width);
    Not(Pow2(width - prefix) - 1, width)
  }

  predicate IpMatchesCidr(target: Ip, net: Ip, prefix: nat)
    requires Valid(target) && Valid(net)
  {
    if target.V4? != net.V4? then false
    else if prefix == 0 then true
    else if prefix > Width(target) then false
    else And(target.bits, Mask(Width(target), prefix)) == And(net.bits, Mask(Width(target), prefix))
  }

  // ---- Masking is rounding down ----------------------------------------------------------------------------------

  lemma {:induction false} AllOnesKeep(a: nat, width: nat)
    requires a < Pow2(width)
    ensures And(a, Pow2(width) - 1) == a
    decreases width
  {
    if a > 0 {
      var ones := Pow2(width) - 1;
      assert ones == 2 * (Pow2(width - 1) - 1) + 1;
      AllOnesKeep(a / 2, width - 1);
    }
  }

  lemma DivTwice(a: nat, m: nat)
    requires m > 0
    ensures a / (2 * m) == (a / 2) / m
  {
    var q, r := (a / 2) / m, (a / 2) % m;
    assert a == 2 * (q * m + r) + a % 2;
    assert a == q * (2 * m) + (2 * r + a % 2);
    assert 2 * r + a % 2 < 2 * m;
    DivUnique(a, 2 * m, q, 2 * r + a % 2);
  }

  lemma DivUnique(a: nat, m: nat, q: nat, r: nat)
    requires r < m && a == q * m + r
    ensures a / m == q
  {
    if a / m > q {
      MulMonotone(q + 1, a / m, m);
    } else if a / m < q {
      MulMonotone(a / m + 1, q, m);
    }
  }

  lemma MulMonotone(x: nat, y: nat, m: nat)
    requires x <= y
    ensures x * m <= y * m
  {
    assert y * m == x * m + (y - x) * m;
  }

  lemma {:induction false} AndDoubles(a: nat, half: nat)
    ensures And(a, 2 * half) == 2 * And(a / 2, half)
  {
    if a > 0 && half > 0 {
      assert (2 * half) % 2 == 0 && (2 * half) / 2 == half;
    } else if a > 0 {
      assert And(a / 2, 0) == 0;
    }
  }

  lemma DoubleProduct(q: nat, p: nat)
    ensures 2 * (q * p) == q * (2 * p)
  {
  }

  /** `a` rounded down to a multiple of `p`. */
  function RoundDown(a: nat, p: nat): nat
    requires p > 0
  {
    a / p * p
  }

  /** Rounding down to a multiple of `2 * p` is doubling the rounded half. */
  lemma RoundHalf(a: nat, p: nat)
    requires p > 0
    ensures RoundDown(a, 2 * p) == 2 * RoundDown(a / 2, p)
  {
    DivTwice(a, p);
    DoubleProduct(a / 2 / p, p);
  }

  lemma Pow2Doubles(k: nat)
    requires k > 0
    ensures Pow2(k) == 2 * Pow2(k - 1)
  {
  }

  /** One bit more: `w` and `p` are the halves of the width's and the mask's powers of two. */
  lemma {:induction false} MaskStep(a: nat, w: nat, p: nat)
    requires 0 < p <= w && And(a / 2, w - p) == RoundDown(a / 2, p)
    ensures And(a, 2 * w - 2 * p) == RoundDown(a, 2 * p)
  {
    hide And, RoundDown;
    AndDoubles(a, w - p);
    assert 2 * w - 2 * p == 2 * (w - p);
    RoundHalf(a, p);
  }

  lemma {:induction false} MaskRoundsDown(a: nat, width: nat, k: nat)
    requires a < Pow2(width) && k <= width
    ensures Pow2(k) <= Pow2(width)
    ensures And(a, Pow2(width) - Pow2(k)) == RoundDown(a, Pow2(k))
    decreases k
  {
    if k == 0 {
      Pow2Grows(0, width);
      AllOnesKeep(a, width);
    } else {
      hide And, Pow2, RoundDown;
      Pow2Doubles(k);
      Pow2Doubles(width);
      MaskRoundsDown(a / 2, width - 1, k - 1);
      MaskStep(a, Pow2(width - 1), Pow2(k - 1));
    }
  }

  lemma SameMultiple(x: nat, y: nat, p: nat)
    requires p > 0
    ensures x * p == y * p <==> x == y
  {
    if x < y {
      MulMonotone(x + 1, y, p);
    } else if y < x {
      MulMonotone(y + 1, x, p);
    }
  }

  lemma {:induction false} MaskedEqualIff(a: nat, b: nat, width: nat, prefix: nat)
    requires a < Pow2(width) && b < Pow2(width) && prefix <= width
    ensures And(a, Mask(width, prefix)) == And(b, Mask(width, prefix)) <==>
            a / Pow2(width - prefix) == b / Pow2(width - prefix)
  {
    var p := Pow2(width - prefix);
    assert Mask(width, prefix) == Pow2(width) - p;
    hide And, Pow2, Mask;
    MaskRoundsDown(a, width, width - prefix);
    MaskRoundsDown(b, width, width - prefix);
    SameMultiple(a / p, b / p, p);
  }

  /**
   Exactness, on all inputs: an address matches iff it is of the network's family, the prefix is in range, and dividing
   both by 2^(width - prefix) agrees.
   */
  lemma MatchesIffQuotientsAgree(target: Ip, net: Ip, prefix: nat)
    requires Valid(target) && Valid(net)
    ensures IpMatchesCidr(target, net, prefix) <==>
            && (target.V4? <==> net.V4?) && prefix <= (if net.V4? then 32 else 128)
            && target.bits / Pow2(Width(target) - prefix) == net.bits / Pow2(Width(target) - prefix)
  {
    var width := Width(target);
    if target.V4? == net.V4? && prefix == 0 {
      DivUnique(target.bits, Pow2(width), 0, target.bits);
      DivUnique(net.bits, Pow2(width), 0, net.bits);
    } else if target.V4? == net.V4? && prefix <= width {
      MaskedEqualIff(target.bits, net.bits, width, prefix);
    }
    hide And, Mask, Pow2;
  }

  /** For a prefix in range, matching is an equivalence relation on the addresses of a family. */
  lemma MatchingIsEquivalence(a: Ip, b: Ip, c: Ip, prefix: nat)
    requires Valid(a) && Valid(b) && Valid(c) && a.V4? == b.V4? == c.V4? && prefix <= Width(a)
    ensures IpMatchesCidr(a, a, prefix)
    ensures IpMatchesCidr(a, b, prefix) ==> IpMatchesCidr(b, a, prefix)
    ensures IpMatchesCidr(a, b, prefix) && IpMatchesCidr(b, c, prefix) ==> IpMatchesCidr(a, c, prefix)
  {
    MatchesIffQuotientsAgree(a, b, prefix);
    MatchesIffQuotientsAgree(b, c, prefix);
    MatchesIffQuotientsAgree(a, c, prefix);
  }

  /** A longer prefix only narrows the match. */
  lemma {:induction false} LongerPrefixIsNarrower(target: Ip, net: Ip, short: nat, long: nat)
    requires Valid(target) && Valid(net) && short <= long <= Width(target)
    requires IpMatchesCidr(target, net, long)
    ensures IpMatchesCidr(target, net, short)
    decreases long - short
  {
    if short < long {
      var k := Width(target) - long;
      MatchesIffQuotientsAgree(target, net, long);
      MatchesIffQuotientsAgree(target, net, long - 1);
      HalveQuotient(target.bits, k);
      HalveQuotient(net.bits, k);
      LongerPrefixIsNarrower(target, net, short, long - 1);
    }
  }

  lemma Regroup(h: nat, o: nat, p: nat, r: nat)
    ensures (2 * h + o) * p + r == h * (2 * p) + (o * p + r)
  {
  }

  lemma HalveQuotient(a: nat, k: nat)
    ensures a / Pow2(k + 1) == (a / Pow2(k)) / 2
  {
    var p := Pow2(k);
    var q, r := a / p, a % p;
    var h, o := q / 2, q % 2;
    Regroup(h, o, p, r);
    if o == 0 {
      DivUnique(a, 2 * p, h, r);
    } else {
      DivUnique(a, 2 * p, h, p + r);
    }
  }

  // ---- Split tunnelling ------------------------------------------------------------------------------------------

  datatype Rule = Rule(net: Ip, prefix: nat)
  datatype Mode = Exclude | Include

  predicate ValidRules(rules: seq<Rule>) {
    forall i :: 0 <= i < |rules| ==> Valid(rules[i].net)
  }

  method MatchesIp(rules: seq<Rule>, ip: Ip) returns (r: bool)
    requires Valid(ip) && ValidRules(rules)
    ensures r <==> exists i :: 0 <= i < |rules| && IpMatchesCidr(ip, rules[i].net, rules[i].prefix)
  {
    for i := 0 to |rules|
      invariant forall j :: 0 <= j < i ==> !IpMatchesCidr(ip, rules[j].net, rules[j].prefix)
    {
      if IpMatchesCidr(ip, rules[i].net, rules[i].prefix) {
        return true;
      }
    }
    return false;
  }

  method ShouldBypass(enabled: bool, mode: Mode, rules: seq<Rule>, ip: Ip) returns (bypass: bool)
    requires Valid(ip) && ValidRules(rules)
    ensures
      var matched := exists i :: 0 <= i < |rules| && IpMatchesCidr(ip, rules[i].net, rules[i].prefix);
      bypass <==> enabled && (if mode == Exclude then matched else !matched)
  {
    if !enabled {
      return false;
    }
    var matched := MatchesIp(rules, ip);
    return if mode == Exclude then matched else !matched;
  }
}
