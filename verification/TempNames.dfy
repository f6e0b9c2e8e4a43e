// The names of temporary files.

module TempNames {
  import opened Sequences

  function Digit(n: nat): (c: char)
    requires n < 10
    ensures '0' <= c <= '9'
  {
    '0' + n as char
  }

  function Decimal(n: nat): (s: string)
    ensures s != "" && forall i | 0 <= i < |s| :: '0' <= s[i] <= '9'
  {
    if n < 10 then [Digit(n)] else Decimal(n / 10) + [Digit(n % 10)]
  }

  /** `.<file>.<pid>-<seq>.tmp` */
  function TempName(file: string, pid: nat, seqNo: nat): string
  {
    "." + file + "." + Decimal(pid) + "-" + Decimal(seqNo) + ".tmp"
  }

  lemma {:induction false} DecimalIsInjective(m: nat, n: nat)
    requires Decimal(m) == Decimal(n)
    ensures m == n
    decreases m + n
  {
    assert |Decimal(m)| == 1 <==> m < 10;
    assert |Decimal(n)| == 1 <==> n < 10;
    if m >= 10 {
      SplitEqual(Decimal(m / 10), [Digit(m % 10)], Decimal(n / 10), [Digit(n % 10)]);
      DecimalIsInjective(m / 10, n / 10);
      assert m % 10 == n % 10;
    }
  }

  /** Text splits in one way at the last `c`. */
  lemma LastSeparator(a: string, c: char, b: string, x: string, y: string)
    requires c !in b && c !in y && a + [c] + b == x + [c] + y
    ensures a == x && b == y
  {
    var text := a + [c] + b;
    assert text[|a|] == c && (x + [c] + y)[|x|] == c;
    assert |a| == |x|;
    SplitEqual(a + [c], b, x + [c], y);
    SplitEqual(a, [c], x, [c]);
  }

  /** Calls with different targets, processes or sequence numbers have different temporary files. */
  lemma TempNameIsInjective(f: string, p: nat, s: nat, g: string, q: nat, t: nat)
    requires TempName(f, p, s) == TempName(g, q, t)
    ensures f == g && p == q && s == t
  {
    var head, other := "." + f + "." + Decimal(p), "." + g + "." + Decimal(q);
    SplitEnds(head + "-" + Decimal(s), other + "-" + Decimal(t), ".tmp");
    LastSeparator(head, '-', Decimal(s), other, Decimal(t));
    LastSeparator("." + f, '.', Decimal(p), "." + g, Decimal(q));
    SplitEqual(".", f, ".", g);
    DecimalIsInjective(p, q);
    DecimalIsInjective(s, t);
  }

  lemma SplitEnds(a: string, b: string, end: string)
    requires a + end == b + end
    ensures a == b
  {
    assert |a| == |b|;
    SplitEqual(a, end, b, end);
  }
}
