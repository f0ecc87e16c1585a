/** The two template filters of the dashboard. */
module CustomFilters {

  /** The template values the filters meet: Python's None, bool, int, float and str. */
  datatype TemplateValue = NoneValue | Bool(b: bool) | Int(i: int) | Float(f: real) | Str(s: string)

  /** `get_item`: `dictionary.get(key, '')`. The dictionary is not changed. */
  function GetItem<K(==)>(dictionary: map<K, TemplateValue>, key: K): (r: TemplateValue)
    ensures key in dictionary ==> r == dictionary[key]
    ensures key !in dictionary ==> r == Str("")
  {
    if key in dictionary then dictionary[key] else Str("")
  }

  /** After `d[k] := v`, looking up `k` gives `v` and looking up any other key is unaffected. */
  lemma GetItemUpdate<K>(dictionary: map<K, TemplateValue>, k: K, v: TemplateValue, key: K)
    ensures GetItem(dictionary[k := v], key) == if key == k then v else GetItem(dictionary, key)
  {
  }

  /** Values Python subtracts as numbers (bool counts as int). */
  predicate IsNumber(v: TemplateValue) {
    v.Bool? || v.Int? || v.Float?
  }

  /** Values whose difference is an int: ints and bools. */
  predicate IsIntegral(v: TemplateValue) {
    v.Bool? || v.Int?
  }

  /** The numeric value, with True as 1 and False as 0. */
  function NumberOf(v: TemplateValue): real
    requires IsNumber(v)
  {
    match v
    case Bool(b) => if b then 1.0 else 0.0
    case Int(i) => i as real
    case Float(f) => f
  }

  function IntOf(v: TemplateValue): int
    requires IsIntegral(v)
  {
    match v
    case Bool(b) => if b then 1 else 0
    case Int(i) => i
  }

  /**
   * `subtract_from`: `arg - value`. Two integral operands give an int, any
   * float operand a float; any other operand raises `TypeError`, and the
   * filter then returns the int 0.
   */
  function SubtractFrom(value: TemplateValue, arg: TemplateValue): (r: TemplateValue)
    ensures IsNumber(value) && IsNumber(arg) ==> IsNumber(r) && NumberOf(r) == NumberOf(arg) - NumberOf(value)
    ensures IsNumber(value) && IsNumber(arg) ==> (r.Int? <==> IsIntegral(value) && IsIntegral(arg))
    ensures !(IsNumber(value) && IsNumber(arg)) ==> r == Int(0)
  {
    if IsIntegral(value) && IsIntegral(arg) then Int(IntOf(arg) - IntOf(value))
    else if IsNumber(value) && IsNumber(arg) then Float(NumberOf(arg) - NumberOf(value))
    else Int(0)
  }

  /** The documented use `value|subtract_from:100` is `100 - value`, an int for an int. */
  lemma SubtractFromHundred(n: int)
    ensures SubtractFrom(Int(n), Int(100)) == Int(100 - n)
  {
  }

  /**
   * With integral operands, subtracting from the same argument twice gives the
   * value back as an int (a bool comes back as 0 or 1).
   */
  lemma SubtractFromTwice(value: TemplateValue, arg: TemplateValue)
    requires IsIntegral(value) && IsIntegral(arg)
    ensures SubtractFrom(SubtractFrom(value, arg), arg) == Int(IntOf(value))
  {
  }

  /** Text, None, or a number paired with either, yields 0. */
  lemma SubtractFromNonNumber(value: TemplateValue, arg: TemplateValue)
    requires value.Str? || value.NoneValue? || arg.Str? || arg.NoneValue?
    ensures SubtractFrom(value, arg) == Int(0)
  {
  }
}
