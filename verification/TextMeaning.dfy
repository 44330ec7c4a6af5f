/** Printed numbers digit by digit, and what the character classes and the address separator are. */
module TextMeaning {
  import opened Address
  import opened Bytes
  import opened Options
  import opened Sequences
  import opened Text

  lemma {:induction false} MulSmall(x: int, d: int)
    requires d > 0 && -d < x * d < d
    ensures x == 0
  {
  }

  lemma {:induction false} QuotientIs(n: nat, d: nat, q: nat, r: nat)
    requires d > 0 && n == q * d + r && r < d
    ensures n / d == q
  {
    var p, e := n / d, n % d;
    assert n == p * d + e;
    assert (p - q) * d == p * d - q * d == r - e;
    MulSmall(p - q, d);
  }

  lemma DivDiv(n: nat, p: nat)
    requires p > 0
    ensures n / (10 * p) == n / 10 / p
  {
    var m := n / 10;
    var q, r := m / p, m % p;
    assert m == q * p + r;
    assert n == q * (10 * p) + (10 * r + n % 10);
    QuotientIs(n, 10 * p, q, 10 * r + n % 10);
  }

  /** The digit of weight 10^k stands k places before the last one. */
  lemma {:induction false} DecDigits(n: nat, k: nat)
    requires k < |Dec(n)|
    ensures Dec(n)[|Dec(n)| - 1 - k] as int == 48 + n / Pow10(k) % 10
  {
    if k > 0 {
      DecDigits(n / 10, k - 1);
      var d := Dec(n / 10);
      assert Dec(n)[|Dec(n)| - 1 - k] == d[|d| - 1 - (k - 1)];
      hide Dec;
      DivDiv(n, Pow10(k - 1));
    }
  }

  /** There are as many digits as needed, the first of which is zero only for zero itself. */
  lemma {:induction false} DecShortest(n: nat)
    ensures n < Pow10(|Dec(n)|) && (n > 0 ==> Dec(n)[0] != '0')
  {
    if n >= 10 {
      DecShortest(n / 10);
    } else {
      assert Pow10(1) == 10;
    }
  }

  /** Reading digits weighs them the same way. */
  lemma {:induction false} ValueDigits(s: string, k: nat)
    requires AllDigits(s) && k < |s|
    ensures Value(s) / Pow10(k) % 10 == s[|s| - 1 - k] as int - 48
  {
    var init := s[..|s| - 1];
    var v := Value(s);
    assert v == Value(init) * 10 + (s[|s| - 1] as int - 48) && v / 10 == Value(init);
    if k > 0 {
      ValueDigits(init, k - 1);
      hide Value;
      DivDiv(v, Pow10(k - 1));
      assert init[|init| - 1 - (k - 1)] == s[|s| - 1 - k];
    }
  }

  lemma {:induction false} ValueBelow(s: string)
    requires AllDigits(s)
    ensures Value(s) < Pow10(|s|)
  {
    if s != [] {
      ValueBelow(s[..|s| - 1]);
    }
  }

  lemma {:induction false} ClassesAre(c: char)
    ensures IsSpace(c) <==> c as int == 32 || 9 <= c as int <= 13
    ensures IsDigit(c) <==> 48 <= c as int <= 57
    ensures IsHex(c) <==> c in "0123456789abcdefABCDEF"
    ensures ToLower(c) as int == if 65 <= c as int <= 90 then c as int + 32 else c as int
  {
    if IsHex(c) {
      HexListed(c);
    }
  }

  lemma {:induction false} HexListed(c: char)
    requires IsHex(c)
    ensures c in "0123456789abcdefABCDEF"
  {
    var all := "0123456789abcdefABCDEF";
    var k := if IsDigit(c) then c as int - 48 else if c as int >= 97 then c as int - 87 else c as int - 49;
    assert all[k] == c;
  }

  /** An address splits into host and port exactly if it is their join, neither is empty, both fit, and the port has no colon. */
  lemma {:induction false} SplitsExactly(addr: string, hostCap: nat, portCap: nat, host: string, port: string)
    ensures SplitAddr(addr, hostCap, portCap) == Some((host, port)) <==>
      && addr == host + ":" + port && ':' !in port
      && 0 < |host| < hostCap && 0 < |port| < portCap
  {
    var colon := Last(addr, ':');
    if addr == host + ":" + port && ':' !in port {
      LastSplit(host, ':', port);
      assert addr == host + [':'] + port;
      assert addr[..|host|] == host && addr[|host| + 1..] == port;
    }
    if colon >= 0 {
      assert addr == addr[..colon] + ":" + addr[colon + 1..];
    }
  }
}
