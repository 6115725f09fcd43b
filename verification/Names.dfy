/** Text order and numerals: `sorted()` over names, and "gpu<i>" device names. */
module Names {
  import opened Basics

  /** Strict lexicographic order. */
  predicate Before(a: string, b: string) {
    b != [] && (a == [] || a[0] < b[0] || (a[0] == b[0] && Before(a[1..], b[1..])))
  }

  lemma {:induction false} BeforeTotal(a: string, b: string)
    ensures a == b || Before(a, b) || Before(b, a)
    ensures !(Before(a, b) && Before(b, a)) && !Before(a, a)
  {
    if a != [] && b != [] && a[0] == b[0] {
      BeforeTotal(a[1..], b[1..]);
      assert a == [a[0]] + a[1..] && b == [b[0]] + b[1..];
    }
    if a != [] { BeforeTotal(a[1..], a[1..]); }
  }

  lemma {:induction false} BeforeTransitive(a: string, b: string, c: string)
    requires Before(a, b) && Before(b, c)
    ensures Before(a, c)
  {
    if a != [] && a[0] == b[0] && b[0] == c[0] {
      BeforeTransitive(a[1..], b[1..], c[1..]);
    }
  }

  predicate Least(m: string, s: set<string>) {
    m in s && forall x | x in s :: x == m || Before(m, x)
  }

  lemma {:induction false} LeastExists(s: set<string>)
    requires s != {}
    ensures exists m :: Least(m, s)
  {
    var x :| x in s;
    if s - {x} == {} {
      assert s == {x};
      assert Least(x, s);
    } else {
      LeastExists(s - {x});
      var m :| Least(m, s - {x});
      BeforeTotal(m, x);
      if Before(m, x) {
        assert Least(m, s);
      } else {
        forall y | y in s ensures y == x || Before(x, y) {
          if y != x && y != m { BeforeTransitive(x, m, y); }
        }
        assert Least(x, s);
      }
    }
  }

  lemma LeastUnique(s: set<string>)
    ensures forall m, n | Least(m, s) && Least(n, s) :: m == n
  {
    forall m, n | Least(m, s) && Least(n, s) ensures m == n { BeforeTotal(m, n); }
  }

  /** `sorted()` of a set of names. */
  function Sorted(s: set<string>): (r: seq<string>)
    ensures forall x :: x in r <==> x in s
    ensures NoDuplicates(r)
  {
    if s == {} then []
    else
      LeastExists(s);
      LeastUnique(s);
      var m :| Least(m, s);
      [m] + Sorted(s - {m})
  }

  /** It is in strictly ascending text order. */
  lemma {:induction false} SortedInOrder(s: set<string>)
    ensures forall i, j | 0 <= i < j < |Sorted(s)| :: Before(Sorted(s)[i], Sorted(s)[j])
    decreases s
  {
    if s != {} {
      LeastExists(s);
      LeastUnique(s);
      var m :| Least(m, s);
      SortedInOrder(s - {m});
      assert Sorted(s) == [m] + Sorted(s - {m});
      forall x | x in Sorted(s - {m}) ensures Before(m, x) { assert x in s && x != m; }
    }
  }

  function Digit(d: nat): char
    requires d < 10
  {
    "0123456789"[d]
  }

  function Decimal(n: nat): (s: string)
    ensures s != []
  {
    if n < 10 then [Digit(n)] else Decimal(n / 10) + [Digit(n % 10)]
  }

  /** The number a text of digits stands for. */
  function Reading(s: string): int {
    if s == [] then 0 else 10 * Reading(s[..|s| - 1]) + (s[|s| - 1] as int - '0' as int)
  }

  /** A numeral reads as its number and has no leading zero. */
  lemma {:induction false} DecimalReads(n: nat)
    ensures Reading(Decimal(n)) == n
    ensures Decimal(n)[0] == '0' ==> n == 0
    ensures forall c | c in Decimal(n) :: '0' <= c <= '9'
  {
    var s := Decimal(n);
    if n >= 10 {
      DecimalReads(n / 10);
      assert s[..|s| - 1] == Decimal(n / 10);
    } else {
      assert s[..0] == [];
    }
  }

  lemma {:induction false} DecimalInjective(m: nat, n: nat)
    requires Decimal(m) == Decimal(n)
    ensures m == n
  {
    var a, b := Decimal(m), Decimal(n);
    assert a[|a| - 1] == Digit(m % 10) && b[|b| - 1] == Digit(n % 10);
    DigitInjective(m % 10, n % 10);
    if m >= 10 && n >= 10 {
      assert a[..|a| - 1] == Decimal(m / 10) && b[..|b| - 1] == Decimal(n / 10);
      DecimalInjective(m / 10, n / 10);
    }
  }

  lemma DigitInjective(c: nat, d: nat)
    requires c < 10 && d < 10 && Digit(c) == Digit(d)
    ensures c == d
  {
  }

  function GpuName(i: nat): string { "gpu" + Decimal(i) }

  /** Device names are "gpu" and the plain numeral of their number. */
  lemma GpuNameReads(i: nat)
    ensures GpuName(i)[..3] == "gpu" && Reading(GpuName(i)[3..]) == i
    ensures GpuName(0) == "gpu0" && GpuName(12) == "gpu12"
  {
    DecimalReads(i);
    assert GpuName(i)[3..] == Decimal(i);
  }

  lemma GpuNameInjective(i: nat, j: nat)
    requires GpuName(i) == GpuName(j)
    ensures i == j
  {
    assert GpuName(i)[3..] == Decimal(i) && GpuName(j)[3..] == Decimal(j);
    DecimalInjective(i, j);
  }

  /** The first "gpu<i>" name from `i` on that is not in use. */
  function FreeSlot(used: set<string>, i: nat): (r: nat)
    ensures i <= r && GpuName(r) !in used
    ensures forall j | i <= j < r :: GpuName(j) in used
    decreases used
  {
    if GpuName(i) !in used then i
    else
      var r := FreeSlot(used - {GpuName(i)}, i + 1);
      assert GpuName(r) != GpuName(i) by {
        if GpuName(r) == GpuName(i) { GpuNameInjective(r, i); }
      }
      r
  }
}
