/** The pieces of `ConfigurationManager` that do not depend on reflection or on loading files:
    turning a property key segment into a Java field name, converting the property text to the
    field's type, and splitting a dotted property path into the fields it walks. */
module Configuration {
  import opened Wrappers
  import opened Exceptions
  import Values
  import Text

  predicate IsSeparator(c: char)
  {
    c == '-' || c == '_'
  }

  /** What `toCamelCase` appends for the rest of `input` when the flag is `nextUpper`: separators
      are dropped and set the flag, any other character is appended, uppercased when the flag is
      set, and clears it. */
  function CamelCase(input: string, nextUpper: bool): string
    decreases |input|
  {
    if input == [] then []
    else if IsSeparator(input[0]) then CamelCase(input[1..], true)
    else [if nextUpper then Text.ToUpperCase(input[0]) else input[0]] + CamelCase(input[1..], false)
  }

  /** The flag after a stretch of input: set exactly when its last character is a separator. */
  function FlagAfter(input: string, nextUpper: bool): bool
  {
    if input == [] then nextUpper else IsSeparator(input[|input| - 1])
  }

  function SeparatorCount(s: string): nat
    decreases |s|
  {
    if s == [] then 0 else (if IsSeparator(s[0]) then 1 else 0) + SeparatorCount(s[1..])
  }

  /** `toCamelCase`: the character loop with its `nextUpper` flag. */
  method ToCamelCase(input: string) returns (output: string)
    ensures output == CamelCase(input, false)
  {
    output := [];
    var nextUpper := false;
    var i := 0;
    while i < |input|
      invariant 0 <= i <= |input|
      invariant output + CamelCase(input[i..], nextUpper) == CamelCase(input, false)
    {
      var c := input[i];
      assert input[i..][1..] == input[i + 1..];
      if IsSeparator(c) {
        nextUpper := true;
      } else {
        output := output + [if nextUpper then Text.ToUpperCase(c) else c];
        nextUpper := false;
      }
      i := i + 1;
    }
  }

  /** The output holds no separator, and its length is the input's minus its separators. */
  lemma {:induction false} CamelCaseShape(input: string, nextUpper: bool)
    ensures forall k :: 0 <= k < |CamelCase(input, nextUpper)| ==> !IsSeparator(CamelCase(input, nextUpper)[k])
    ensures |CamelCase(input, nextUpper)| == |input| - SeparatorCount(input)
    decreases |input|
  {
    if input != [] {
      CamelCaseShape(input[1..], false);
      CamelCaseShape(input[1..], true);
      if !IsSeparator(input[0]) {
        var c := input[0];
        assert !IsSeparator(Text.ToUpperCase(c));
      }
    }
  }

  /** The loop runs over a concatenation piece by piece: the second piece starts with the flag
      the first one left. */
  lemma {:induction false} CamelCaseAppend(a: string, b: string, nextUpper: bool)
    ensures CamelCase(a + b, nextUpper) == CamelCase(a, nextUpper) + CamelCase(b, FlagAfter(a, nextUpper))
    decreases |a|
  {
    if a != [] {
      var flag := IsSeparator(a[0]);
      assert (a + b)[0] == a[0] && (a + b)[1..] == a[1..] + b;
      CamelCaseAppend(a[1..], b, flag);
      var head: string := if flag then [] else [if nextUpper then Text.ToUpperCase(a[0]) else a[0]];
      assert CamelCase(a + b, nextUpper) == head + CamelCase(a[1..] + b, flag);
      assert CamelCase(a, nextUpper) == head + CamelCase(a[1..], flag);
      if |a| > 1 {
        assert a[1..][|a[1..]| - 1] == a[|a| - 1];
      }
      assert FlagAfter(a[1..], flag) == FlagAfter(a, nextUpper);
      assert head + (CamelCase(a[1..], flag) + CamelCase(b, FlagAfter(a, nextUpper)))
          == (head + CamelCase(a[1..], flag)) + CamelCase(b, FlagAfter(a, nextUpper));
    } else {
      assert a + b == b;
    }
  }

  /** The character right after a run of separators is uppercased... */
  lemma CamelCaseUppercasesAfterRun(prefix: string, run: string, c: char, rest: string)
    requires |run| > 0 && forall k :: 0 <= k < |run| ==> IsSeparator(run[k])
    requires !IsSeparator(c)
    ensures CamelCase(prefix + run + [c] + rest, false)
            == CamelCase(prefix, false) + [Text.ToUpperCase(c)] + CamelCase(rest, false)
  {
    var x := [c] + rest;
    assert x[0] == c && x[1..] == rest;
    assert CamelCase(x, true) == [Text.ToUpperCase(c)] + CamelCase(rest, false);
    var f := FlagAfter(prefix, false);
    CamelCaseAppend(run, x, f);
    SeparatorsEmitNothing(run, f);
    assert CamelCase(run + x, f) == CamelCase(x, true);
    CamelCaseAppend(prefix, run + x, false);
    assert prefix + run + [c] + rest == prefix + (run + x);
  }

  /** ...and every other character is copied unchanged. */
  lemma CamelCaseCopiesOthers(prefix: string, c: char, rest: string)
    requires prefix == [] || !IsSeparator(prefix[|prefix| - 1])
    requires !IsSeparator(c)
    ensures CamelCase(prefix + [c] + rest, false) == CamelCase(prefix, false) + [c] + CamelCase(rest, false)
  {
    assert prefix + [c] + rest == prefix + ([c] + rest);
    CamelCaseAppend(prefix, [c] + rest, false);
    assert ([c] + rest)[1..] == rest;
  }

  /** A run of separators appends nothing and leaves the flag set. */
  lemma {:induction false} SeparatorsEmitNothing(run: string, nextUpper: bool)
    requires |run| > 0 && forall k :: 0 <= k < |run| ==> IsSeparator(run[k])
    ensures CamelCase(run, nextUpper) == [] && FlagAfter(run, nextUpper)
    decreases |run|
  {
    if |run| > 1 {
      SeparatorsEmitNothing(run[1..], true);
    }
  }

  /** A segment without separators is already a field name; hence converting twice is converting
      once. */
  lemma {:induction false} CamelCaseSeparatorFree(input: string)
    requires forall k :: 0 <= k < |input| ==> !IsSeparator(input[k])
    ensures CamelCase(input, false) == input
    decreases |input|
  {
    if input != [] {
      CamelCaseSeparatorFree(input[1..]);
    }
  }

  lemma CamelCaseIdempotent(input: string)
    ensures CamelCase(CamelCase(input, false), false) == CamelCase(input, false)
  {
    CamelCaseShape(input, false);
    CamelCaseSeparatorFree(CamelCase(input, false));
  }

  /** The field types `convertValue` knows, by `Class`, and any other class by its name. */
  datatype FieldType =
    | StringClass
    | IntPrimitive | IntegerClass
    | LongPrimitive | LongClass
    | BooleanPrimitive | BooleanClass
    | DoublePrimitive | DoubleClass
    | FloatPrimitive | FloatClass
    | OtherClass(name: string)

  /** The Java class name `getName()` reports. */
  function TypeName(t: FieldType): string
  {
    match t
    case StringClass => "java.lang.String"
    case IntPrimitive => "int"
    case IntegerClass => "java.lang.Integer"
    case LongPrimitive => "long"
    case LongClass => "java.lang.Long"
    case BooleanPrimitive => "boolean"
    case BooleanClass => "java.lang.Boolean"
    case DoublePrimitive => "double"
    case DoubleClass => "java.lang.Double"
    case FloatPrimitive => "float"
    case FloatClass => "java.lang.Float"
    case OtherClass(name) => name
  }

  /** A converted property: the text itself, a 32- or 64-bit integer, a boolean, or a floating
      point number, kept as the text it was read from. */
  datatype Converted = Text(s: string) | Int32(i: int) | Int64(l: int) | Boolean(b: bool) | Decimal(repr: string)

  const IntMin: int := -0x8000_0000
  const IntMax: int := 0x7fff_ffff
  const LongMin: int := -0x8000_0000_0000_0000
  const LongMax: int := 0x7fff_ffff_ffff_ffff

  /** The `NumberFormatException` the parsers throw. */
  function NumberFormatError(s: string): Exception
  {
    Raise(NumberFormat, "For input string: \"" + s + "\"")
  }

  /** `Integer.parseInt` / `Long.parseLong`: an optional sign and decimal digits whose value fits
      between the bounds. */
  function ParseBounded(s: string, lo: int, hi: int): (r: Result<int, Exception>)
    ensures r.Success? <==> Values.ParseNumber(s).Some? && lo <= Values.ParseNumber(s).value <= hi
    ensures r.Success? ==> r.value == Values.ParseNumber(s).value
    ensures r.Failure? ==> r.error == NumberFormatError(s)
  {
    match Values.ParseNumber(s)
    case Some(n) => if lo <= n <= hi then Success(n) else Failure(NumberFormatError(s))
    case None => Failure(NumberFormatError(s))
  }

  /** `Boolean.parseBoolean`: `"true"` in any letter case. */
  predicate ParseBoolean(s: string)
  {
    |s| == 4 && forall k :: 0 <= k < 4 ==> Text.ToUpperCase(s[k]) == "TRUE"[k]
  }

  /** `convertValue`. */
  function ConvertValue(value: string, targetType: FieldType): (r: Result<Converted, Exception>)
    ensures targetType == StringClass ==> r == Success(Text(value))
    ensures targetType in {IntPrimitive, IntegerClass} ==>
              r == (match ParseBounded(value, IntMin, IntMax)
                    case Success(n) => Success(Int32(n))
                    case Failure(e) => Failure(e))
    ensures targetType in {LongPrimitive, LongClass} ==>
              r == (match ParseBounded(value, LongMin, LongMax)
                    case Success(n) => Success(Int64(n))
                    case Failure(e) => Failure(e))
    ensures targetType in {BooleanPrimitive, BooleanClass} ==> r == Success(Boolean(ParseBoolean(value)))
    ensures targetType.OtherClass? ==> r == Failure(Raise(Configuration, "Unsupported type: " + targetType.name))
  {
    match targetType
    case StringClass => Success(Text(value))
    case IntPrimitive | IntegerClass =>
      (match ParseBounded(value, IntMin, IntMax)
       case Success(n) => Success(Int32(n))
       case Failure(e) => Failure(e))
    case LongPrimitive | LongClass =>
      (match ParseBounded(value, LongMin, LongMax)
       case Success(n) => Success(Int64(n))
       case Failure(e) => Failure(e))
    case BooleanPrimitive | BooleanClass => Success(Boolean(ParseBoolean(value)))
    case DoublePrimitive | DoubleClass | FloatPrimitive | FloatClass => Success(Decimal(value))
    case OtherClass(name) => Failure(Raise(Configuration, "Unsupported type: " + TypeName(targetType)))
  }

  /** Integer fields read back the decimal text of any value in their range, and refuse one just
      outside it. */
  lemma IntegerRoundTrip(n: int)
    ensures IntMin <= n <= IntMax ==> ConvertValue(Values.IntToString(n), IntegerClass) == Success(Int32(n))
    ensures LongMin <= n <= LongMax ==> ConvertValue(Values.IntToString(n), LongPrimitive) == Success(Int64(n))
    ensures ConvertValue(Values.IntToString(IntMax + 1), IntPrimitive).Failure?
  {
    Values.ParseIntToString(n);
    Values.ParseIntToString(IntMax + 1);
  }

  /** Boolean fields never fail: `"TRUE"` and `"True"` give true, anything else false. */
  lemma BooleanConversion(value: string)
    ensures ConvertValue("TRUE", BooleanClass) == Success(Boolean(true))
    ensures ConvertValue("True", BooleanPrimitive) == Success(Boolean(true))
    ensures ConvertValue("yes", BooleanPrimitive) == Success(Boolean(false))
    ensures ConvertValue(value, BooleanPrimitive).Success?
  {
    assert ParseBoolean("True") by {
      assert forall k :: 0 <= k < 4 ==> Text.ToUpperCase("True"[k]) == "TRUE"[k];
    }
  }

  /** What `setNestedProperty` reads from a dotted property key: the field names it walks through
      as nested objects (each segment camel-cased) and the field it finally sets, or the index
      error of a key made only of dots, whose split is empty. */
  datatype PropertyPlan = PropertyPlan(nested: seq<string>, last: string)

  function PlanProperty(propertyPath: string): (r: Result<PropertyPlan, Exception>)
    ensures var parts := Text.Split(propertyPath, '.');
            && (r.Failure? <==> parts == [])
            && (r.Success? ==>
                  |r.value.nested| == |parts| - 1
                  && (forall k :: 0 <= k < |parts| - 1 ==> r.value.nested[k] == CamelCase(parts[k], false))
                  && r.value.last == CamelCase(parts[|parts| - 1], false))
  {
    var parts := Text.Split(propertyPath, '.');
    if parts == [] then Failure(Exception(IndexOutOfBounds, None, None))
    else
      Success(PropertyPlan(
        seq(|parts| - 1, k requires 0 <= k < |parts| - 1 => CamelCase(parts[k], false)),
        CamelCase(parts[|parts| - 1], false)))
  }

  /** For a key with no empty segment and no separators, the plan's names joined by dots give
      the key back: every segment is walked, in order, and none is lost. */
  lemma PlanRebuildsPath(propertyPath: string)
    requires |propertyPath| > 0 && propertyPath[|propertyPath| - 1] != '.'
    requires forall k :: 0 <= k < |propertyPath| ==> !IsSeparator(propertyPath[k])
    ensures PlanProperty(propertyPath).Success?
    ensures Text.Join(PlanProperty(propertyPath).value.nested + [PlanProperty(propertyPath).value.last], ".")
            == propertyPath
  {
    var parts := Text.Split(propertyPath, '.');
    Text.SplitJoin(propertyPath, '.');
    var plan := PlanProperty(propertyPath).value;
    forall k | 0 <= k < |parts|
      ensures CamelCase(parts[k], false) == parts[k]
    {
      PartsAreSeparatorFree(propertyPath, k);
      CamelCaseSeparatorFree(parts[k]);
    }
    assert plan.nested + [plan.last] == parts;
  }

  /** Every piece of the split is made of characters of the key. */
  lemma PartsAreSeparatorFree(propertyPath: string, k: int)
    requires forall i :: 0 <= i < |propertyPath| ==> !IsSeparator(propertyPath[i])
    requires 0 <= k < |Text.Split(propertyPath, '.')|
    ensures forall i :: 0 <= i < |Text.Split(propertyPath, '.')[k]| ==> !IsSeparator(Text.Split(propertyPath, '.')[k][i])
  {
    SplitAllKeepsCharacters(propertyPath);
    if '.' in propertyPath {
      var all := Text.SplitAll(propertyPath, '.');
      assert Text.DropTrailingEmpty(all) <= all;
      assert Text.Split(propertyPath, '.')[k] == all[k];
    }
  }

  lemma {:induction false} SplitAllKeepsCharacters(s: string)
    ensures forall k, i :: 0 <= k < |Text.SplitAll(s, '.')| && 0 <= i < |Text.SplitAll(s, '.')[k]| ==>
              Text.SplitAll(s, '.')[k][i] in s
    decreases |s|
  {
    if |s| > 0 {
      SplitAllKeepsCharacters(s[1..]);
      var rest := Text.SplitAll(s[1..], '.');
      forall k, i | 0 <= k < |Text.SplitAll(s, '.')| && 0 <= i < |Text.SplitAll(s, '.')[k]|
        ensures Text.SplitAll(s, '.')[k][i] in s
      {
        var parts := Text.SplitAll(s, '.');
        if s[0] == '.' {
          assert parts == [""] + rest;
          assert parts[k] == rest[k - 1];
          assert rest[k - 1][i] in s[1..];
        } else if k == 0 {
          assert parts[0] == [s[0]] + rest[0];
          if i > 0 {
            assert rest[0][i - 1] in s[1..];
          }
        } else {
          assert parts[k] == rest[k];
          assert rest[k][i] in s[1..];
        }
      }
    }
  }
}
