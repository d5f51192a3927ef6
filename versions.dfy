/** Version strings as the launcher compares them: split on '.', each component turned
    into a number by JavaScript's unary `+`, and compared component by component over
    the LOCAL version's length only. */
module Versions {

  /** A version component after unary `+`: a non-negative number, or NaN (an
      unparsable component, or one past the end of the candidate's array). */
  datatype Component = Num(value: nat) | NaN

  /** How the candidate version stands against the local one. */
  datatype Order = Newer | Older | Same

  function Flip(o: Order): Order
  {
    match o
    case Newer => Older
    case Older => Newer
    case Same => Same
  }

  predicate DotFree(s: string)
  {
    forall i :: 0 <= i < |s| ==> s[i] != '.'
  }

  /** The number of dots in s. */
  function Dots(s: string): nat
    decreases |s|
  {
    if s == [] then 0 else (if s[0] == '.' then 1 else 0) + Dots(s[1..])
  }

  /** `s.split('.')`: never empty, and no part holds a dot. */
  function Split(s: string): (parts: seq<string>)
    ensures |parts| >= 1
    ensures forall i :: 0 <= i < |parts| ==> DotFree(parts[i])
    decreases |s|
  {
    if s == [] then [""]
    else
      var rest := Split(s[1..]);
      if s[0] == '.' then [""] + rest
      else [[s[0]] + rest[0]] + rest[1..]
  }

  /** Splitting yields one part more than there are dots. */
  lemma {:induction false} SplitLength(s: string)
    ensures |Split(s)| == Dots(s) + 1
    decreases |s|
  {
    if s != [] {
      SplitLength(s[1..]);
    }
  }

  /** `parts.join('.')`, the inverse of Split. */
  function Join(parts: seq<string>): string
    requires |parts| >= 1
    decreases |parts|
  {
    if |parts| == 1 then parts[0] else parts[0] + "." + Join(parts[1..])
  }

  lemma {:induction false} JoinSplit(s: string)
    ensures Join(Split(s)) == s
    decreases |s|
  {
    if s != [] {
      var rest := Split(s[1..]);
      JoinSplit(s[1..]);
      assert Join(rest) == s[1..];
      assert s == [s[0]] + s[1..];
      if s[0] == '.' {
        JoinCons("", rest);
      } else if |rest| == 1 {
        assert Split(s) == [[s[0]] + rest[0]];
      } else {
        assert Split(s) == [[s[0]] + rest[0]] + rest[1..];
        JoinCons([s[0]] + rest[0], rest[1..]);
        JoinCons(rest[0], rest[1..]);
        assert rest == [rest[0]] + rest[1..];
      }
    }
  }

  lemma JoinCons(head: string, tail: seq<string>)
    requires |tail| >= 1
    ensures Join([head] + tail) == head + "." + Join(tail)
  {
    assert ([head] + tail)[1..] == tail;
  }

  /** Splitting text that starts with a dot-free prefix glues the prefix onto the first part. */
  lemma {:induction false} SplitDotFreePrefix(a: string, rest: string)
    requires DotFree(a)
    ensures Split(a + rest) == [a + Split(rest)[0]] + Split(rest)[1..]
    decreases |a|
  {
    if a != [] {
      assert (a + rest)[1..] == a[1..] + rest;
      assert (a + rest)[0] == a[0];
      SplitDotFreePrefix(a[1..], rest);
      assert [a[0]] + (a[1..] + Split(rest)[0]) == a + Split(rest)[0];
    } else {
      var parts := Split(rest);
      assert a + rest == rest;
      assert a + parts[0] == parts[0];
      assert parts == [parts[0]] + parts[1..];
    }
  }

  lemma {:induction false} SplitJoin(parts: seq<string>)
    requires |parts| >= 1
    requires forall i :: 0 <= i < |parts| ==> DotFree(parts[i])
    ensures Split(Join(parts)) == parts
    decreases |parts|
  {
    if |parts| == 1 {
      SplitDotFreePrefix(parts[0], "");
      assert parts[0] + "" == parts[0];
    } else {
      var tail := Join(parts[1..]);
      SplitJoin(parts[1..]);
      assert Join(parts) == parts[0] + ("." + tail);
      SplitDotFreePrefix(parts[0], "." + tail);
      assert ("." + tail)[1..] == tail;
      assert Split("." + tail) == [""] + parts[1..];
      assert parts[0] + "" == parts[0];
    }
  }

  /** Joining two version strings with a dot concatenates their parts. */
  lemma {:induction false} SplitAppend(a: string, b: string)
    ensures Split(a + "." + b) == Split(a) + Split(b)
    decreases |a|
  {
    if a == [] {
      assert a + "." + b == "." + b;
      assert ("." + b)[1..] == b;
    } else {
      var s := a + "." + b;
      assert s[0] == a[0];
      assert s[1..] == a[1..] + "." + b;
      SplitAppend(a[1..], b);
      var r := Split(a[1..]);
      var t := Split(b);
      assert Split(s[1..]) == r + t;
      if a[0] == '.' {
        assert Split(s) == [""] + (r + t);
        assert Split(a) == [""] + r;
      } else {
        assert (r + t)[0] == r[0];
        assert (r + t)[1..] == r[1..] + t;
        assert Split(s) == [[a[0]] + r[0]] + (r[1..] + t);
        assert Split(a) == [[a[0]] + r[0]] + r[1..];
      }
    }
  }

  predicate IsDigit(c: char)
  {
    '0' <= c <= '9'
  }

  predicate AllDigits(s: string)
  {
    forall i :: 0 <= i < |s| ==> IsDigit(s[i])
  }

  /** The value of a string of decimal digits; the empty string is 0, as for `+""`. */
  function DigitsValue(s: string): nat
    requires AllDigits(s)
    decreases |s|
  {
    if s == [] then 0
    else DigitsValue(s[..|s| - 1]) * 10 + (s[|s| - 1] as int - '0' as int)
  }

  /** Unary `+` on one component: a number exactly for strings of decimal digits, and
      0 for the empty string. */
  function ToNumber(s: string): (c: Component)
    ensures c.Num? <==> AllDigits(s)
    ensures s == [] ==> c == Num(0)
  {
    if AllDigits(s) then Num(DigitsValue(s)) else NaN
  }

  function DigitChar(d: nat): char
    requires d < 10
  {
    ('0' as int + d) as char
  }

  /** The decimal numeral of n, without leading zeros. */
  function Decimal(n: nat): (s: string)
    ensures |s| >= 1 && AllDigits(s)
    decreases n
  {
    if n < 10 then [DigitChar(n)] else Decimal(n / 10) + [DigitChar(n % 10)]
  }

  lemma {:induction false} DecimalRoundTrip(n: nat)
    ensures ToNumber(Decimal(n)) == Num(n)
    decreases n
  {
    var s := Decimal(n);
    if n >= 10 {
      DecimalRoundTrip(n / 10);
      assert s[..|s| - 1] == Decimal(n / 10);
    } else {
      assert s == [DigitChar(n)] && s[..|s| - 1] == [];
      assert DigitChar(n) as int - '0' as int == n;
      assert DigitsValue(s) == n;
    }
  }

  /** Leading zeros do not change a component: `+"01"` is 1, so "1.01" and "1.1" tie. */
  lemma {:induction false} LeadingZeroIgnored(s: string)
    ensures ToNumber("0" + s) == ToNumber(s)
    decreases |s|
  {
    var z := "0" + s;
    if s != [] && AllDigits(s) {
      assert z[..|z| - 1] == "0" + s[..|s| - 1];
      assert z[|z| - 1] == s[|s| - 1];
      LeadingZeroIgnored(s[..|s| - 1]);
    } else if s == [] {
      assert z[..|z| - 1] == [];
    } else {
      var i :| 0 <= i < |s| && !IsDigit(s[i]);
      assert z[i + 1] == s[i];
    }
  }

  /** `v.split('.')` followed by `+` on each component: one component per dot-separated
      part, a number exactly where that part is all digits. */
  function ParseVersion(v: string): (r: seq<Component>)
    ensures |r| == |Split(v)| == Dots(v) + 1
    ensures forall i :: 0 <= i < |r| ==> (r[i].Num? <==> AllDigits(Split(v)[i]))
  {
    SplitLength(v);
    var parts := Split(v);
    seq(|parts|, i requires 0 <= i < |parts| => ToNumber(parts[i]))
  }

  lemma ParseAppend(a: string, b: string)
    ensures ParseVersion(a + "." + b) == ParseVersion(a) + ParseVersion(b)
  {
    SplitAppend(a, b);
  }

  /** The dotted decimal string of a list of numbers, as a release would write it. */
  function FormatVersion(ns: seq<nat>): string
    requires |ns| >= 1
  {
    Join(seq(|ns|, i requires 0 <= i < |ns| => Decimal(ns[i])))
  }

  lemma VersionRoundTrip(ns: seq<nat>)
    requires |ns| >= 1
    ensures ParseVersion(FormatVersion(ns)) == seq(|ns|, i requires 0 <= i < |ns| => Num(ns[i]))
  {
    var numerals := seq(|ns|, i requires 0 <= i < |ns| => Decimal(ns[i]));
    forall i | 0 <= i < |numerals| ensures DotFree(numerals[i]) {
      DigitsAreDotFree(numerals[i]);
    }
    SplitJoin(numerals);
    forall i | 0 <= i < |ns| ensures ToNumber(numerals[i]) == Num(ns[i]) {
      DecimalRoundTrip(ns[i]);
    }
  }

  /** `v[i]` in JavaScript: reading past the end gives undefined, and `+undefined` is NaN. */
  function At(v: seq<Component>, i: nat): Component
  {
    if i < |v| then v[i] else NaN
  }

  /** The IEEE 754 double a non-negative integer becomes: a finite value, or Infinity. */
  datatype Double = Finite(value: nat) | Infinity

  const Two53: nat := 0x20_0000_0000_0000

  function Pow2(e: nat): (p: nat)
    ensures p >= 1
  {
    if e == 0 then 1 else 2 * Pow2(e - 1)
  }

  /** The number of binary digits of n. */
  function BitLength(n: nat): nat
    decreases n
  {
    if n == 0 then 0 else 1 + BitLength(n / 2)
  }

  /** Rounding an integer to a double: exact below 2^53; above, to 53 significant bits
      with ties to even; Infinity once the rounded value reaches 2^1024, that is, once
      its binary exponent passes 1023. */
  function ToDouble(n: nat): Double
  {
    if n < Two53 then Finite(n)
    else
      var e := if BitLength(n) > 53 then BitLength(n) - 53 else 0;
      var p := Pow2(e);
      var rounded := RoundQuotient(n, p);
      if e + BitLength(rounded) > 1024 then Infinity else Finite(rounded * p)
  }

  /** n / p rounded to the nearest integer, ties to the even one. */
  function RoundQuotient(n: nat, p: nat): nat
    requires p >= 1
  {
    var q := n / p;
    var r := n % p;
    if 2 * r > p || (2 * r == p && q % 2 == 1) then q + 1 else q
  }

  /** `>` on doubles that are not NaN. */
  predicate DoubleGreater(a: Double, b: Double)
  {
    match a
    case Infinity => b.Finite?
    case Finite(x) => b.Finite? && x > b.value
  }

  /** `a > b` on the numbers unary `+` produced: false whenever either side is NaN,
      and decided on the rounded doubles, not on the decimal values (below 2^53 the two
      agree, which the first branch spells out). */
  predicate Greater(a: Component, b: Component)
  {
    a.Num? && b.Num? &&
    if a.value < Two53 && b.value < Two53 then a.value > b.value
    else DoubleGreater(ToDouble(a.value), ToDouble(b.value))
  }

  /** Neither side is greater: equal numbers, or NaN on either side. */
  predicate Tied(a: Component, b: Component)
  {
    !Greater(a, b) && !Greater(b, a)
  }

  /** The launcher's loop from index i on: the first index where the candidate
      component is greater decides Newer, the first where it is smaller decides Older. */
  function CompareFrom(local: seq<Component>, candidate: seq<Component>, i: nat): Order
    decreases |local| - i
  {
    if i >= |local| then Same
    else if Greater(At(candidate, i), local[i]) then Newer
    else if Greater(local[i], At(candidate, i)) then Older
    else CompareFrom(local, candidate, i + 1)
  }

  /** The whole loop: the candidate is newer exactly when, at the first index present in
      both versions where the components are not tied, the candidate's is the greater, and
      older exactly when the local one's is. */
  function Compare(local: seq<Component>, candidate: seq<Component>): (o: Order)
    ensures o == Newer <==>
      exists i :: 0 <= i < |local| && i < |candidate| && Greater(candidate[i], local[i]) &&
        forall j :: 0 <= j < i ==> Tied(candidate[j], local[j])
    ensures o == Older <==>
      exists i :: 0 <= i < |local| && i < |candidate| && Greater(local[i], candidate[i]) &&
        forall j :: 0 <= j < i ==> Tied(local[j], candidate[j])
  {
    NewerFromIff(local, candidate, 0);
    NewerFromIff(candidate, local, 0);
    CompareAntisymmetricFrom(local, candidate, 0);
    CompareFrom(local, candidate, 0)
  }

  /** Past the end of the candidate every component is NaN, so nothing decides. */
  lemma {:induction false} CompareBeyondCandidate(local: seq<Component>, candidate: seq<Component>, i: nat)
    requires i >= |candidate|
    ensures CompareFrom(local, candidate, i) == Same
    decreases |local| - i
  {
    if i < |local| {
      CompareBeyondCandidate(local, candidate, i + 1);
    }
  }

  lemma {:induction false} CompareSelfFrom(v: seq<Component>, i: nat)
    ensures CompareFrom(v, v, i) == Same
    decreases |v| - i
  {
    if i < |v| {
      CompareSelfFrom(v, i + 1);
    }
  }

  /** Equal versions are never newer. */
  lemma CompareSelf(v: seq<Component>)
    ensures Compare(v, v) == Same
  {
    CompareSelfFrom(v, 0);
  }

  lemma {:induction false} CompareAntisymmetricFrom(a: seq<Component>, b: seq<Component>, i: nat)
    ensures CompareFrom(b, a, i) == Flip(CompareFrom(a, b, i))
    decreases |a| - i
  {
    if i >= |a| {
      CompareBeyondCandidate(b, a, i);
    } else if i >= |b| {
      CompareBeyondCandidate(a, b, i);
    } else {
      CompareAntisymmetricFrom(a, b, i + 1);
    }
  }

  /** Swapping the two versions flips the answer: the truncation to the local length
      makes both directions look at the same common prefix. */
  lemma CompareAntisymmetric(a: seq<Component>, b: seq<Component>)
    ensures Compare(b, a) == Flip(Compare(a, b))
  {
    CompareAntisymmetricFrom(a, b, 0);
  }

  /** The candidate is newer at index k exactly when some common index k <= i has a greater
      candidate component and every index in between is tied. */
  lemma {:induction false} NewerFromIff(local: seq<Component>, candidate: seq<Component>, k: nat)
    ensures CompareFrom(local, candidate, k) == Newer <==>
      exists i :: k <= i < |local| && i < |candidate| && Greater(candidate[i], local[i]) &&
        forall j :: k <= j < i ==> Tied(candidate[j], local[j])
    decreases |local| - k
  {
    if k < |local| {
      NewerFromIff(local, candidate, k + 1);
      if k >= |candidate| {
        CompareBeyondCandidate(local, candidate, k);
      } else if Greater(candidate[k], local[k]) {
      } else if Greater(local[k], candidate[k]) {
        assert !Tied(candidate[k], local[k]);
      } else {
        if CompareFrom(local, candidate, k + 1) == Newer {
          var i :| k + 1 <= i < |local| && i < |candidate| && Greater(candidate[i], local[i]) &&
            forall j :: k + 1 <= j < i ==> Tied(candidate[j], local[j]);
          assert forall j :: k <= j < i ==> Tied(candidate[j], local[j]);
        }
        if exists i :: k <= i < |local| && i < |candidate| && Greater(candidate[i], local[i]) &&
            forall j :: k <= j < i ==> Tied(candidate[j], local[j]) {
          var i :| k <= i < |local| && i < |candidate| && Greater(candidate[i], local[i]) &&
            forall j :: k <= j < i ==> Tied(candidate[j], local[j]);
          assert i != k;
          assert forall j :: k + 1 <= j < i ==> Tied(candidate[j], local[j]);
        }
      }
    }
  }

  lemma {:induction false} TrailingIgnoredFrom(local: seq<Component>, candidate: seq<Component>, extra: seq<Component>, i: nat)
    requires |local| <= |candidate|
    ensures CompareFrom(local, candidate + extra, i) == CompareFrom(local, candidate, i)
    decreases |local| - i
  {
    if i < |local| {
      assert At(candidate + extra, i) == At(candidate, i);
      TrailingIgnoredFrom(local, candidate, extra, i + 1);
    }
  }

  /** Candidate components beyond the local version's length are never examined. */
  lemma TrailingIgnored(local: seq<Component>, candidate: seq<Component>, extra: seq<Component>)
    requires |local| <= |candidate|
    ensures Compare(local, candidate + extra) == Compare(local, candidate)
  {
    TrailingIgnoredFrom(local, candidate, extra, 0);
  }

  /** "1.2.5" is not newer than "1.2": extra trailing candidate components never count. */
  lemma LongerCandidateNotNewer(local: seq<Component>, extra: seq<Component>)
    ensures Compare(local, local + extra) == Same
  {
    TrailingIgnored(local, local, extra);
    CompareSelf(local);
  }

  /** "1.0" is not newer than "1.0.0": missing candidate components read as NaN. */
  lemma ShorterCandidateNotNewer(candidate: seq<Component>, extra: seq<Component>)
    ensures Compare(candidate + extra, candidate) == Same
  {
    LongerCandidateNotNewer(candidate, extra);
    CompareAntisymmetric(candidate, candidate + extra);
  }

  lemma DigitsAreDotFree(s: string)
    requires AllDigits(s)
    ensures DotFree(s)
  {
    forall j | 0 <= j < |s| ensures s[j] != '.' {
      assert IsDigit(s[j]);
    }
  }

  /** Three dot-free components joined by dots parse to their three numbers. */
  lemma ParseThree(a: string, b: string, c: string)
    requires DotFree(a) && DotFree(b) && DotFree(c)
    ensures ParseVersion(a + "." + b + "." + c) == [ToNumber(a), ToNumber(b), ToNumber(c)]
  {
    assert a + "." + b + "." + c == a + "." + (b + "." + c);
    ParseAppend(a, b + "." + c);
    ParseAppend(b, c);
    ParseSingle(a);
    ParseSingle(b);
    ParseSingle(c);
  }

  /** A single dot-free component parses to itself alone. */
  lemma ParseSingle(s: string)
    requires DotFree(s)
    ensures ParseVersion(s) == [ToNumber(s)]
  {
    SplitJoin([s]);
  }

  lemma {:induction false} Pow2Add(a: nat, b: nat)
    ensures Pow2(a + b) == Pow2(a) * Pow2(b)
    decreases a
  {
    if a > 0 {
      Pow2Add(a - 1, b);
      assert Pow2(a + b) == 2 * Pow2(a - 1 + b);
    }
  }

  lemma Pow2Of53()
    ensures Pow2(53) == Two53
  {
    assert Pow2(5) == 32;
    Pow2Add(5, 3);
    assert Pow2(8) == 256;
    Pow2Add(8, 8);
    assert Pow2(16) == 0x1_0000;
    Pow2Add(16, 16);
    assert Pow2(32) == 0x1_0000_0000;
    Pow2Add(32, 16);
    assert Pow2(48) == 0x1_0000_0000_0000;
    Pow2Add(48, 5);
  }

  /** The bit length is the k with 2^(k-1) <= n < 2^k. */
  lemma BitLengthIs(n: nat, k: nat)
    requires k >= 1 && Pow2(k - 1) <= n < Pow2(k)
    ensures BitLength(n) == k
  {
    BitLengthBounds(n);
    var b := BitLength(n);
    if b < k {
      Pow2Monotone(b, k - 1);
      assert false;
    } else if b > k {
      Pow2Monotone(k, b - 1);
      assert false;
    }
  }

  lemma {:induction false} BitLengthBounds(n: nat)
    requires n >= 1
    ensures BitLength(n) >= 1 && Pow2(BitLength(n) - 1) <= n < Pow2(BitLength(n))
    decreases n
  {
    if n >= 2 {
      BitLengthBounds(n / 2);
    }
  }

  lemma {:induction false} Pow2Monotone(a: nat, b: nat)
    requires a <= b
    ensures Pow2(a) <= Pow2(b)
    decreases b
  {
    if a < b {
      Pow2Monotone(a, b - 1);
    }
  }

  /** Two components one apart just above 2^53 round to the same double, so neither
      is greater: "9007199254740993" is not newer than "9007199254740992". */
  lemma PrecisionLossTies()
    ensures ToDouble(Two53) == ToDouble(Two53 + 1) == Finite(Two53)
    ensures Tied(Num(Two53), Num(Two53 + 1))
  {
    Pow2Of53();
    var half := Two53 / 2;
    assert Pow2(54) == 2 * Two53 && Pow2(53) == 2 * half;
    BitLengthIs(Two53, 54);
    BitLengthIs(Two53 + 1, 54);
    BitLengthIs(half, 53);
    assert Pow2(1) == 2;
    assert RoundQuotient(Two53, 2) == half;
    assert RoundQuotient(Two53 + 1, 2) == half;
  }

  /** From 2^1024 on (more than 1024 binary digits) every component is Infinity, and
      Infinity is not greater than Infinity: huge components never decide. */
  lemma HugeComponentsTie(n: nat, m: nat)
    requires BitLength(n) > 1024 && BitLength(m) > 1024
    ensures ToDouble(n) == Infinity && ToDouble(m) == Infinity
    ensures Tied(Num(n), Num(m))
  {
    HugeIsInfinity(n);
    HugeIsInfinity(m);
  }

  lemma DivLowerBound(n: nat, c: nat, p: nat)
    requires p >= 1 && n >= c * p
    ensures n / p >= c
  {
    var q := n / p;
    if q < c {
      MulMonotone(q + 1, c, p);
    }
  }

  lemma MulMonotone(a: nat, b: nat, p: nat)
    requires a <= b
    ensures a * p <= b * p
  {
  }

  lemma HugeIsInfinity(n: nat)
    requires BitLength(n) > 1024
    ensures ToDouble(n) == Infinity
  {
    Pow2Of53();
    BitLengthBounds(n);
    Pow2Monotone(53, BitLength(n) - 1);
    QuotientBits(n);
    var k := BitLength(n);
    var p := Pow2(k - 53);
    var r := RoundQuotient(n, p);
    RoundedRange(n / p, r, p, k);
    assert k - 53 + BitLength(r) > 1024;
  }

  /** Rounding never reverses an order: a larger integer never becomes a smaller double. */
  lemma ToDoubleMonotone(a: nat, b: nat)
    requires a <= b
    ensures !DoubleGreater(ToDouble(a), ToDouble(b))
  {
    if b < Two53 {
    } else if a < Two53 {
      DoubleBounds(b);
      Pow2Of53();
      Pow2Monotone(53, BitLength(b) - 1);
    } else {
      DoubleBounds(a);
      DoubleBounds(b);
      var ka, kb := BitLength(a), BitLength(b);
      BitLengthMonotone(a, b);
      if ka == kb {
        var p := Pow2(ka - 53);
        RoundMonotone(a, b, p);
        var ra, rb := RoundQuotient(a, p), RoundQuotient(b, p);
        BitLengthMonotone(ra, rb);
        MulMonotone(ra, rb, p);
      } else {
        Pow2Monotone(ka, kb - 1);
        if ToDouble(a).Infinity? {
          HugeIsInfinity(b);
        }
      }
    }
  }

  /** `a > b` on the components of two numerals implies the numbers themselves are
      ordered that way: the double comparison agrees with the exact one wherever it
      decides at all. */
  lemma GreaterImpliesLarger(a: nat, b: nat)
    requires Greater(Num(a), Num(b))
    ensures a > b
  {
    if a <= b {
      ToDoubleMonotone(a, b);
    }
  }

  /** Above 2^53 a k-bit value is rounded at step 2^(k-53), and its double lies between
      2^(k-1) and 2^k; it is Infinity only for values of at least 1024 bits. */
  lemma DoubleBounds(n: nat)
    requires n >= Two53
    ensures BitLength(n) >= 54
    ensures ToDouble(n).Finite? ==>
      Pow2(BitLength(n) - 1) <= ToDouble(n).value <= Pow2(BitLength(n))
    ensures ToDouble(n).Infinity? ==> BitLength(n) >= 1024
  {
    QuotientBits(n);
    var k := BitLength(n);
    var p := Pow2(k - 53);
    var r := RoundQuotient(n, p);
    RoundedRange(n / p, r, p, k);
    assert ToDouble(n) == if k - 53 + BitLength(r) > 1024 then Infinity else Finite(r * p);
  }

  /** A 53-bit quotient rounded to nearest stays within [2^52, 2^53], and scaled back by
      the step it lies within [2^(k-1), 2^k]. */
  lemma RoundedRange(q: nat, r: nat, p: nat, k: nat)
    requires k >= 54 && Pow2(52) <= q < Pow2(53) && q <= r <= q + 1
    requires Pow2(52) * p == Pow2(k - 1) && Pow2(53) * p == Pow2(k)
    ensures Pow2(k - 1) <= r * p <= Pow2(k)
    ensures 53 <= BitLength(r) <= 54
  {
    MulMonotone(Pow2(52), r, p);
    MulMonotone(r, Pow2(53), p);
    BitLengthMonotone(r, Pow2(53));
    BitLengthMonotone(Pow2(52), r);
    Pow2Of53();
    BitLengthIs(Pow2(53), 54);
    BitLengthIs(Pow2(52), 53);
  }

  lemma QuotientBits(n: nat)
    requires n >= Two53
    ensures BitLength(n) >= 54
    ensures Pow2(52) * Pow2(BitLength(n) - 53) == Pow2(BitLength(n) - 1)
    ensures Pow2(53) * Pow2(BitLength(n) - 53) == Pow2(BitLength(n))
    ensures Pow2(52) <= n / Pow2(BitLength(n) - 53) < Pow2(53)
  {
    Pow2Of53();
    BitLengthBounds(n);
    var k := BitLength(n);
    if k < 54 {
      Pow2Monotone(k, 53);
    }
    var p := Pow2(k - 53);
    Pow2Add(52, k - 53);
    Pow2Add(53, k - 53);
    DivLowerBound(n, Pow2(52), p);
    DivUpperBound(n, Pow2(53), p);
  }

  lemma DivUpperBound(n: nat, c: nat, p: nat)
    requires p >= 1 && n < c * p
    ensures n / p < c
  {
    var q := n / p;
    if q >= c {
      MulMonotone(c, q, p);
    }
  }

  lemma DivMonotone(a: nat, b: nat, p: nat)
    requires p >= 1 && a <= b
    ensures a / p <= b / p
  {
    if a / p > b / p {
      MulMonotone(b / p + 1, a / p, p);
    }
  }

  lemma RoundMonotone(a: nat, b: nat, p: nat)
    requires p >= 1 && a <= b
    ensures RoundQuotient(a, p) <= RoundQuotient(b, p)
  {
    DivMonotone(a, b, p);
    var qa, qb := a / p, b / p;
    if qa == qb {
      assert a % p == a - qa * p;
      assert b % p == b - qb * p;
    }
  }

  lemma {:induction false} BitLengthMonotone(x: nat, y: nat)
    requires x <= y
    ensures BitLength(x) <= BitLength(y)
    decreases y
  {
    if x > 0 {
      BitLengthMonotone(x / 2, y / 2);
    }
  }
}
