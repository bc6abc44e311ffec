/** Small helpers shared by the services: an optional value, the maximum of a
    non-empty list (JavaScript's Math.max over a spread array), an
    order-preserving filter (Array.prototype.filter) and decimal numerals
    (parseInt and the text form of a non-negative integer). */
module Common {

  datatype Option<+T> = None | Some(value: T)

  /** Math.max(...xs) for a non-empty xs: the value is attained and bounds every element. */
  function Max(xs: seq<int>): (m: int)
    requires |xs| > 0
    ensures exists i | 0 <= i < |xs| :: xs[i] == m
    ensures forall i | 0 <= i < |xs| :: xs[i] <= m
  {
    if |xs| == 1 then xs[0]
    else
      var rest := Max(xs[..|xs| - 1]);
      if xs[|xs| - 1] > rest then xs[|xs| - 1] else rest
  }

  /** xs.filter(keep): the kept elements, in their original order. */
  function Filter<T>(xs: seq<T>, keep: T -> bool): (ys: seq<T>)
    ensures |ys| <= |xs|
    ensures forall k | 0 <= k < |ys| :: keep(ys[k])
    ensures forall i | 0 <= i < |xs| :: keep(xs[i]) ==> xs[i] in ys
    ensures forall y | y in ys :: y in xs
  {
    if xs == [] then []
    else
      var front := Filter(xs[..|xs| - 1], keep);
      if keep(xs[|xs| - 1]) then front + [xs[|xs| - 1]] else front
  }

  /** Position k is kept and no other position is. */
  predicate OnlyKept<T>(xs: seq<T>, keep: T -> bool, k: nat)
  {
    k < |xs| && keep(xs[k]) && forall j | 0 <= j < |xs| && j != k :: !keep(xs[j])
  }

  /** When exactly one position is kept, the filter yields exactly that element. */
  lemma {:induction false} FilterOnlyKept<T>(xs: seq<T>, keep: T -> bool, k: nat)
    requires OnlyKept(xs, keep, k)
    ensures Filter(xs, keep) == [xs[k]]
  {
    var n := |xs| - 1;
    var front := xs[..n];
    if k == n {
      forall j | 0 <= j < |front| ensures !keep(front[j]) { assert front[j] == xs[j]; }
      FilterEmpty(front, keep);
    } else {
      forall j | 0 <= j < |front| && j != k ensures !keep(front[j]) { assert front[j] == xs[j]; }
      assert front[k] == xs[k];
      FilterOnlyKept(front, keep, k);
    }
  }

  /** When the filter yields exactly one element, exactly one position is kept. */
  lemma {:induction false} FilterSingleOnlyKept<T>(xs: seq<T>, keep: T -> bool) returns (k: nat)
    requires |Filter(xs, keep)| == 1
    ensures OnlyKept(xs, keep, k)
  {
    var n := |xs| - 1;
    var front := xs[..n];
    if keep(xs[n]) {
      FilterEmpty(front, keep);
      k := n;
      forall j | 0 <= j < |xs| && j != k ensures !keep(xs[j]) { assert xs[j] == front[j]; }
    } else {
      k := FilterSingleOnlyKept(front, keep);
      forall j | 0 <= j < |xs| && j != k ensures !keep(xs[j]) {
        if j < n { assert xs[j] == front[j]; }
      }
    }
  }

  /** The filter is empty exactly when nothing is kept. */
  lemma FilterEmpty<T>(xs: seq<T>, keep: T -> bool)
    ensures Filter(xs, keep) == [] <==> forall i | 0 <= i < |xs| :: !keep(xs[i])
  {
  }

  /** The first element the filter keeps is the element at the least kept position. */
  lemma {:induction false} FilterFirst<T>(xs: seq<T>, keep: T -> bool, k: nat)
    requires k < |xs| && keep(xs[k])
    requires forall j | 0 <= j < k :: !keep(xs[j])
    ensures |Filter(xs, keep)| > 0 && Filter(xs, keep)[0] == xs[k]
  {
    var n := |xs| - 1;
    var front := xs[..n];
    if k == n {
      FilterEmpty(front, keep);
    } else {
      FilterFirst(front, keep, k);
    }
  }

  /** When some position is kept, a least kept position exists. */
  lemma {:induction false} FirstKept<T>(xs: seq<T>, keep: T -> bool, i: nat) returns (k: nat)
    requires i < |xs| && keep(xs[i])
    ensures k <= i && keep(xs[k]) && forall j | 0 <= j < k :: !keep(xs[j])
  {
    if exists j | 0 <= j < i :: keep(xs[j]) {
      var j :| 0 <= j < i && keep(xs[j]);
      k := FirstKept(xs, keep, j);
    } else {
      k := i;
    }
  }

  predicate IsDigit(c: char) { '0' <= c <= '9' }

  predicate AllDigits(s: string) { forall k | 0 <= k < |s| :: IsDigit(s[k]) }

  /** The value parseInt gives a string of decimal digits. */
  function DecimalValue(s: string): (v: nat)
    requires AllDigits(s)
  {
    if s == [] then 0
    else DecimalValue(s[..|s| - 1]) * 10 + (s[|s| - 1] as int - '0' as int)
  }

  /** The decimal numeral of n, without leading zeros (String(n) for a non-negative integer). */
  function Decimal(n: nat): (s: string)
    ensures |s| > 0 && AllDigits(s)
  {
    if n < 10 then [('0' as int + n) as char]
    else Decimal(n / 10) + [('0' as int + n % 10) as char]
  }

  /** parseInt reads back the numeral of n as n. */
  lemma {:induction false} DecimalValueOfDecimal(n: nat)
    ensures DecimalValue(Decimal(n)) == n
  {
    if n >= 10 {
      DecimalValueOfDecimal(n / 10);
      var s := Decimal(n);
      assert s[..|s| - 1] == Decimal(n / 10);
    }
  }
}
