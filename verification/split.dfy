/** The integer arithmetic of the reconciliation engine
    (internal/service/connection.go): a package's remaining traffic and the
    proportional split of a charge into download and upload parts. */
module Split {
  import opened Model

  function Abs(x: int): (r: nat)
    ensures r == x || r == -x
  {
    if x < 0 then -x else x
  }

  /** The quotient of two magnitudes. */
  function Quot(n: nat, d: nat): (q: nat)
    requires d > 0
    ensures q == n / d
    ensures n == 0 ==> q == 0
  {
    n / d
  }

  /** Go's integer conversion of a quotient: the magnitude is the quotient
      of the magnitudes rounded down, and the sign is the product of the
      signs; that is, division truncating toward zero, unlike Dafny's
      Euclidean `/`. */
  function TruncDiv(a: int, b: int): (r: int)
    requires b != 0
    ensures Abs(r) == Abs(a) / Abs(b)
    ensures r != 0 ==> ((r > 0) <==> ((a > 0) == (b > 0)))
  {
    var q: int := Quot(Abs(a), Abs(b));
    if (a >= 0) == (b > 0) then q else -q
  }

  /** Dividing by one is the identity. */
  lemma TruncDivOne(a: int)
    ensures TruncDiv(a, 1) == a
  {
    assert Abs(a) / 1 == Abs(a);
  }

  /** Euclidean division is determined by its defining inequalities. */
  lemma DivUnique(n: int, d: int, q: int)
    requires d > 0 && q * d <= n < (q + 1) * d
    ensures n / d == q
  {
    var q' := n / d;
    assert q' * d <= n < (q' + 1) * d;
    assert q' < q ==> (q' + 1) * d <= q * d;
    assert q' > q ==> (q + 1) * d <= q' * d;
  }

  /** Negating both operands leaves a truncated quotient unchanged. */
  lemma TruncDivNegate(a: int, b: int)
    requires b != 0
    ensures TruncDiv(-a, -b) == TruncDiv(a, b)
  {
  }

  /** Scaling both operands by the same positive factor leaves a quotient of
      magnitudes unchanged. */
  lemma DivScale(a: nat, b: nat, k: nat)
    requires b > 0 && k > 0
    ensures (k * a) / (k * b) == a / b
  {
    var q := a / b;
    assert q * b <= a < (q + 1) * b;
    assert k * (q * b) <= k * a < k * ((q + 1) * b);
    assert q * (k * b) <= k * a < (q + 1) * (k * b);
    DivUnique(k * a, k * b, q);
  }

  /** A positive factor scales the magnitude and keeps the sign. */
  lemma AbsMul(a: int, k: int)
    requires k > 0
    ensures Abs(k * a) == k * Abs(a)
    ensures (k * a >= 0) == (a >= 0) && (k * a > 0) == (a > 0)
  {
    if a < 0 {
      assert k * a == -(k * (-a));
      assert k * (-a) > 0;
    } else {
      assert k * a >= 0;
    }
  }

  lemma TruncDivScalePos(a: int, b: int, k: int)
    requires b != 0 && k > 0
    ensures TruncDiv(k * a, k * b) == TruncDiv(a, b)
  {
    AbsMul(a, k);
    AbsMul(b, k);
    DivScale(Abs(a), Abs(b), k);
  }

  /** Scaling both operands by the same non-zero factor leaves a truncated
      quotient unchanged. */
  lemma TruncDivScale(a: int, b: int, k: int)
    requires b != 0 && k != 0
    ensures TruncDiv(k * a, k * b) == TruncDiv(a, b)
  {
    if k < 0 {
      TruncDivNegate(k * a, k * b);
      assert -(k * a) == (-k) * a && -(k * b) == (-k) * b;
      TruncDivScalePos(a, b, -k);
    } else {
      TruncDivScalePos(a, b, k);
    }
  }

  /** getRemainingTraffic: the package's limit minus what it has already
      used and the new usage. */
  function Remaining(p: Package, usage: int): (r: int)
    ensures r + usage == p.trafficLimit - (p.download + p.upload)
  {
    p.trafficLimit - (p.download + p.upload + usage)
  }

  /** The zero package has nothing left: the whole usage is an overage. */
  lemma RemainingOfZero(usage: int)
    ensures Remaining(ZeroPackage, usage) == -usage
    ensures Remaining(ZeroPackage, usage) < 0 <==> usage > 0
  {
  }

  /** calculateDownloadAndUploadByTotalUsage: `usage` divided in proportion
      to the download and upload totals, each part truncated toward zero.
      The floating-point shares are taken as exact rationals. When the
      totals add up to zero the shares are 0/0 or ±x/0, and the float to
      int conversion yields the platform's value for a non-finite operand,
      `nonFinite`, for both parts. */
  function SplitUsage(download: int, upload: int, usage: int, nonFinite: int): (r: (int, int))
    ensures download + upload == 0 ==> r == (nonFinite, nonFinite)
    ensures download + upload != 0 && usage == 0 ==> r == (0, 0)
    ensures download + upload != 0 && download == 0 ==> r.0 == 0 && r.1 == usage
    ensures download + upload != 0 && upload == 0 ==> r.0 == usage && r.1 == 0
    ensures download + upload != 0 && usage != 0 ==>
      (r.0 == 0 || ((r.0 > 0) <==> ((download * usage > 0) == (download + upload > 0))))
  {
    if download + upload == 0 then (nonFinite, nonFinite)
    else
      var total := download + upload;
      assert download == 0 ==> upload * usage == total * usage;
      assert upload == 0 ==> download * usage == total * usage;
      TruncDivScale(usage, 1, total);
      TruncDivOne(usage);
      assert TruncDiv(0, total) == 0;
      (TruncDiv(download * usage, total), TruncDiv(upload * usage, total))
  }

  /** Equal totals split every charge into two equal halves, each the
      charge divided by two and truncated. */
  lemma SplitHalves(total: int, usage: int, nonFinite: int)
    requires total != 0
    ensures SplitUsage(total, total, usage, nonFinite) == (TruncDiv(usage, 2), TruncDiv(usage, 2))
  {
    assert total + total == total * 2;
    TruncDivScale(usage, 2, total);
    assert total * usage == usage * total;
  }

  /** Halving a non-negative charge loses at most one unit to truncation;
      halving a negative one gives a part that is not positive. */
  lemma HalfBounds(usage: int)
    ensures usage >= 0 ==> usage - 1 <= 2 * TruncDiv(usage, 2) <= usage
    ensures usage < 0 ==> TruncDiv(usage, 2) <= 0
  {
  }
}
