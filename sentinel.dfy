/** The sentinel keys `SentinelElement::MAX` and `SentinelElement::MIN`.

    In the source they are two singleton objects whose `<=>` is overridden and
    which mix `Comparable` in, so that `<` and `==` follow from `<=>`. A numeric
    key compared against a sentinel asks the sentinel to `coerce` it, and the
    pair it gets back decides the comparison. Here the keys the skip list can
    meet form one sum type, and the comparison is spelled out case by case. */
module Sentinel {

  /** A key as the skip list compares it: an ordinary key (an integer here)
      or one of the two sentinels. */
  datatype Element = Num(n: int) | MAX | MIN

  predicate IsSentinel(e: Element) {
    e.MAX? || e.MIN?
  }

  /** The order the sentinels are designed to give: MIN below everything else,
      MAX above everything else, numbers by value. Independent of `Cmp`. */
  predicate Below(a: Element, b: Element) {
    if a.MIN? then !b.MIN?
    else if b.MAX? then !a.MAX?
    else a.Num? && b.Num? && a.n < b.n
  }

  /** `coerce` on a sentinel receiver: `MAX.coerce(x)` is `[MIN, MAX]` and
      `MIN.coerce(x)` is `[MAX, MIN]`, whatever `x` is. */
  function Coerce(s: Element, other: Element): (pair: (Element, Element))
    requires IsSentinel(s)
    ensures pair.1 == s && IsSentinel(pair.0) && pair.0 != s
    ensures other != s ==> (Below(pair.0, pair.1) <==> Below(other, s))
  {
    if s == MAX then (MIN, MAX) else (MAX, MIN)
  }

  /** `<=>` on a sentinel receiver: 0 against the very same sentinel,
      otherwise 1 for MAX and -1 for MIN. */
  function SentinelCmp(s: Element, other: Element): (r: int)
    requires IsSentinel(s)
    ensures r == 0 <==> other == s
    ensures r < 0 <==> Below(s, other)
    ensures r > 0 <==> Below(other, s)
  {
    if other == s then 0 else if s == MAX then 1 else -1
  }

  /** `a <=> b` as the source evaluates it: `Integer#<=>` between two numbers,
      the sentinel's own `<=>` when the receiver is a sentinel, and for a number
      facing a sentinel, the sentinel's `coerce` followed by `<=>` on the pair. */
  function Cmp(a: Element, b: Element): (r: int)
    ensures -1 <= r <= 1
    ensures r == 0 <==> a == b
    ensures r < 0 <==> Below(a, b)
    ensures r > 0 <==> Below(b, a)
  {
    match a
    case Num(x) =>
      (match b
       case Num(y) => if x < y then -1 else if x == y then 0 else 1
       case _ => var (l, rhs) := Coerce(b, a); SentinelCmp(l, rhs))
    case _ => SentinelCmp(a, b)
  }

  /** `a < b` through `Comparable` (or `Integer#<` with coercion). */
  predicate Less(a: Element, b: Element): (r: bool)
    ensures r <==> Below(a, b)
  {
    Cmp(a, b) < 0
  }

  /** `a == b` through `Comparable` (or `Integer#==`). */
  predicate Same(a: Element, b: Element): (r: bool)
    ensures r <==> a == b
  {
    Cmp(a, b) == 0
  }

  /** `<=>` is antisymmetric, so `Less` is a strict total order. */
  lemma CmpAntisymmetric(a: Element, b: Element)
    ensures Cmp(a, b) == -Cmp(b, a)
    ensures Less(a, b) || Same(a, b) || Less(b, a)
  {
  }

  lemma LessTransitive(a: Element, b: Element, c: Element)
    requires Less(a, b) && Less(b, c)
    ensures Less(a, c)
  {
  }

  /** The designed order is transitive. */
  lemma BelowTransitive(a: Element, b: Element, c: Element)
    requires Below(a, b) && Below(b, c)
    ensures Below(a, c)
  {
  }

  /** `MAX <=> x` is 0 only for MAX itself, and 1 otherwise; hence `MAX < k`
      and `MAX == k` are false for every other key, which is what stops a
      search at the tail. */
  lemma MaxAboveAll(k: Element)
    requires k != MAX
    ensures Cmp(MAX, k) == 1 && !Less(MAX, k) && !Same(MAX, k) && Less(k, MAX)
  {
  }

  /** `MIN <=> x` is 0 only for MIN itself, and -1 otherwise. */
  lemma MinBelowAll(k: Element)
    requires k != MIN
    ensures Cmp(MIN, k) == -1 && Less(MIN, k) && !Same(MIN, k) && !Less(k, MIN)
  {
  }

  /** Through `coerce`, a numeric left operand orders below MAX and above MIN. */
  lemma CoerceOrdersNumbers(x: int)
    ensures Coerce(MAX, Num(x)) == (MIN, MAX) && Cmp(Num(x), MAX) == -1
    ensures Coerce(MIN, Num(x)) == (MAX, MIN) && Cmp(Num(x), MIN) == 1
  {
  }
}
