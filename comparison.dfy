/** The nine comparison operators a rule criterion may use (the `ComparisonOperator` enum).
    Booleans get special treatment; every other pair of values is compared through its
    `String.valueOf` text, and ordering tries a numeric reading of both texts before falling back
    to `String.compareTo`. */
module Comparison {
  import opened Wrappers
  import opened Values
  import Text

  datatype Operator =
    | Equals
    | NotEquals
    | GreaterThan
    | LessThan
    | GreaterThanOrEquals
    | LessThanOrEquals
    | Contains
    | StartsWith
    | EndsWith

  /** The two primitives every ordering operator is built from: equality when `equalsComparison`
      holds, "greater than" otherwise. */
  function CompareValues(v1: Value, v2: Value, equalsComparison: bool): bool
  {
    if v1.Bool? && v2.Bool? then
      if equalsComparison then v1.b == v2.b else v1.b
    else
      var s1 := ValueOf(v1);
      var s2 := ValueOf(v2);
      if equalsComparison then s1 == s2
      else
        match (ParseNumber(s1), ParseNumber(s2))
        case (Some(d1), Some(d2)) => d1 > d2
        case _ => Text.CompareTo(s1, s2) > 0
  }

  /** The lambda each enum constant carries. */
  function Operation(op: Operator, a: Value, b: Value): bool
  {
    match op
    case Equals => CompareValues(a, b, true)
    case NotEquals => !CompareValues(a, b, true)
    case GreaterThan => CompareValues(a, b, false)
    case LessThan => !CompareValues(a, b, false) && !CompareValues(a, b, true)
    case GreaterThanOrEquals => CompareValues(a, b, false) || CompareValues(a, b, true)
    case LessThanOrEquals => !CompareValues(a, b, false)
    case Contains => Text.Contains(ValueOf(a), ValueOf(b))
    case StartsWith => Text.StartsWith(ValueOf(a), ValueOf(b))
    case EndsWith => Text.EndsWith(ValueOf(a), ValueOf(b))
  }

  /** `op.compare(value1, value2)`: no operator holds when either operand is null. */
  function Compare(op: Operator, v1: Value, v2: Value): (r: bool)
    ensures (v1.Null? || v2.Null?) ==> !r
  {
    if v1.Null? || v2.Null? then false else Operation(op, v1, v2)
  }

  /** Two Booleans are equal when `Boolean.equals` says so; any other pair when their texts are
      equal. */
  lemma EqualsMeaning(a: Value, b: Value)
    requires !a.Null? && !b.Null?
    ensures a.Bool? && b.Bool? ==> (Compare(Equals, a, b) <==> a.b == b.b)
    ensures !(a.Bool? && b.Bool?) ==> (Compare(Equals, a, b) <==> ValueOf(a) == ValueOf(b))
  {
  }

  /** NOT_EQUALS is the negation of EQUALS on non-null operands. */
  lemma NotEqualsIsNegation(a: Value, b: Value)
    requires !a.Null? && !b.Null?
    ensures Compare(NotEquals, a, b) == !Compare(Equals, a, b)
  {
  }

  /** For two Booleans, GREATER_THAN is the left operand itself, whatever the right one is. */
  lemma BooleanGreaterThan(x: bool, y: bool)
    ensures Compare(GreaterThan, Bool(x), Bool(y)) == x
  {
  }

  /** For any other non-null pair, GREATER_THAN compares numerically when both texts parse and
      with `compareTo` otherwise, also when only one of them parses. */
  lemma GreaterThanMeaning(a: Value, b: Value)
    requires !a.Null? && !b.Null? && !(a.Bool? && b.Bool?)
    ensures ParseNumber(ValueOf(a)).Some? && ParseNumber(ValueOf(b)).Some? ==>
              (Compare(GreaterThan, a, b) <==> ParseNumber(ValueOf(a)).value > ParseNumber(ValueOf(b)).value)
    ensures ParseNumber(ValueOf(a)).None? || ParseNumber(ValueOf(b)).None? ==>
              (Compare(GreaterThan, a, b) <==> Text.CompareTo(ValueOf(a), ValueOf(b)) > 0)
  {
  }

  /** LESS_THAN is the complement of GREATER_THAN_OR_EQUALS, and LESS_THAN_OR_EQUALS the complement
      of GREATER_THAN, on every non-null pair. */
  lemma OrderComplements(a: Value, b: Value)
    requires !a.Null? && !b.Null?
    ensures Compare(LessThan, a, b) == !Compare(GreaterThanOrEquals, a, b)
    ensures Compare(LessThanOrEquals, a, b) == !Compare(GreaterThan, a, b)
  {
  }

  /** CONTAINS is the substring test on the texts: an occurrence at some index. */
  lemma ContainsOperator(a: Value, b: Value)
    requires !a.Null? && !b.Null?
    ensures Compare(Contains, a, b) <==> exists i :: Text.OccursAt(ValueOf(a), ValueOf(b), i)
  {
    var x, y := ValueOf(a), ValueOf(b);
    assert Compare(Contains, a, b) == Text.Contains(x, y);
    Text.ContainsIffOccurs(x, y);
  }

  /** STARTS_WITH and ENDS_WITH are occurrences at the start and at the end of the text. */
  lemma PrefixSuffixOperators(a: Value, b: Value)
    requires !a.Null? && !b.Null?
    ensures Compare(StartsWith, a, b) <==> Text.OccursAt(ValueOf(a), ValueOf(b), 0)
    ensures Compare(EndsWith, a, b) <==> Text.OccursAt(ValueOf(a), ValueOf(b), |ValueOf(a)| - |ValueOf(b)|)
  {
    var x, y := ValueOf(a), ValueOf(b);
    assert Compare(StartsWith, a, b) == Text.StartsWith(x, y);
    assert Compare(EndsWith, a, b) == Text.EndsWith(x, y);
    Text.StartsWithIffOccurs(x, y);
    Text.EndsWithIffOccurs(x, y);
  }

  /** On two integral numbers the six ordering operators are the integer order. */
  lemma NumericOrder(x: int, y: int)
    ensures Compare(Equals, Num(x), Num(y)) <==> x == y
    ensures Compare(NotEquals, Num(x), Num(y)) <==> x != y
    ensures Compare(GreaterThan, Num(x), Num(y)) <==> x > y
    ensures Compare(LessThan, Num(x), Num(y)) <==> x < y
    ensures Compare(GreaterThanOrEquals, Num(x), Num(y)) <==> x >= y
    ensures Compare(LessThanOrEquals, Num(x), Num(y)) <==> x <= y
  {
    ParseIntToString(x);
    ParseIntToString(y);
    IntToStringInjective(x, y);
  }

  /** On two strings that neither read as a number, the ordering operators are the
      `compareTo` order: LESS_THAN is "strictly before", not merely "not after". */
  lemma TextOrder(s: string, t: string)
    requires ParseNumber(s).None? && ParseNumber(t).None?
    ensures Compare(GreaterThan, Str(s), Str(t)) <==> Text.CompareTo(s, t) > 0
    ensures Compare(LessThan, Str(s), Str(t)) <==> Text.CompareTo(s, t) < 0
    ensures Compare(GreaterThanOrEquals, Str(s), Str(t)) <==> Text.CompareTo(s, t) >= 0
    ensures Compare(LessThanOrEquals, Str(s), Str(t)) <==> Text.CompareTo(s, t) <= 0
  {
    Text.CompareToZeroIffEqual(s, t);
  }

  /** Among strings that do not read as numbers GREATER_THAN is a strict order: irreflexive and
      transitive. */
  lemma TextGreaterThanIsStrictOrder(s: string, t: string, u: string)
    requires ParseNumber(s).None? && ParseNumber(t).None? && ParseNumber(u).None?
    ensures !Compare(GreaterThan, Str(s), Str(s))
    ensures Compare(GreaterThan, Str(s), Str(t)) && Compare(GreaterThan, Str(t), Str(u)) ==>
              Compare(GreaterThan, Str(s), Str(u))
  {
    Text.CompareToZeroIffEqual(s, s);
    if Compare(GreaterThan, Str(s), Str(t)) && Compare(GreaterThan, Str(t), Str(u)) {
      Text.CompareToTransitive(s, t, u);
    }
  }

  /** Mixing the numeric and the textual reading makes GREATER_THAN intransitive:
      "10" > "9" numerically, "9" > "10a" by `compareTo`, yet "10" < "10a". */
  lemma GreaterThanMixedIntransitive()
    ensures Compare(GreaterThan, Str("10"), Str("9"))
    ensures Compare(GreaterThan, Str("9"), Str("10a"))
    ensures !Compare(GreaterThan, Str("10"), Str("10a"))
  {
    assert ParseNumber("10") == Some(10) by {
      assert "10"[..1] == "1";
    }
    assert ParseNumber("9") == Some(9);
    assert !AllDigits("10a") by {
      assert !IsDigit("10a"[2]);
    }
  }

  /** "10" is greater than "9" through the numeric reading, although `compareTo` puts it first;
      "b" is greater than "a" through the textual fallback. */
  lemma NumericBeforeTextual()
    ensures Compare(GreaterThan, Str("10"), Str("9"))
    ensures Text.CompareTo("10", "9") < 0
    ensures Compare(GreaterThan, Str("b"), Str("a"))
  {
    assert ParseNumber("10") == Some(10) by {
      assert "10"[..1] == "1";
    }
    assert ParseNumber("9") == Some(9);
    assert !IsDigit("b"[0]) && !IsDigit("a"[0]);
  }

  /** LESS_THAN is not asymmetric: two different texts with the same numeric reading are neither
      greater (numerically) nor equal (as text), so each is "less than" the other. */
  lemma LessThanBothWays(x: string, y: string)
    requires x != y && ParseNumber(x).Some? && ParseNumber(x) == ParseNumber(y)
    ensures Compare(LessThan, Str(x), Str(y)) && Compare(LessThan, Str(y), Str(x))
  {
  }

  /** "01" and "1" both read as 1, so each is LESS_THAN the other. */
  lemma LeadingZeroLessThanBothWays()
    ensures Compare(LessThan, Str("01"), Str("1")) && Compare(LessThan, Str("1"), Str("01"))
  {
    assert "01"[..1] == "0";
    assert ParseNumber("01") == Some(1);
    assert ParseNumber("1") == Some(1);
    LessThanBothWays("01", "1");
  }

  /** Booleans are ordered by the left operand alone, so LESS_THAN_OR_EQUALS fails on two equal
      `true` operands; and a Boolean equals the string with the same text. */
  lemma BooleanQuirks()
    ensures !Compare(LessThanOrEquals, Bool(true), Bool(true))
    ensures Compare(LessThan, Bool(false), Bool(true))
    ensures Compare(Equals, Bool(true), Str("true"))
  {
  }
}
