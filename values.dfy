/** Python values as they reach the publication pipeline (decoded CSL-JSON from the
    reference manager), and the few Python built-ins the pipeline applies to them. */
module Values {

  /** A decoded JSON value. JSON booleans and floats do not occur in the fields the
      pipeline reads and are not modelled. */
  datatype Json =
    | JNull
    | JStr(s: string)
    | JInt(i: int)
    | JList(items: seq<Json>)
    | JMap(fields: map<string, Json>)

  /** One key of a record as `dict.get` sees it: missing, present with `null`, or present
      with a value. `d.get(k, default)` gives the default only in the first case. */
  datatype Field<T> = Absent | Null | Present(value: T)

  datatype Option<T> = None | Some(value: T)

  /** The exceptions the item loop can raise and does not catch; either one ends the run. */
  datatype PyError = TypeError | AttributeError

  datatype Result<T> = Ok(value: T) | Err(error: PyError)

  /** `d.get(k, default)` on a key whose values are strings; `None` for a present null. */
  function Get(f: Field<string>, default: Option<string>): Option<string>
  {
    match f
    case Absent => default
    case Null => None
    case Present(s) => Some(s)
  }

  /** Python truthiness: `None`, `""`, `0`, `[]` and `{}` are false. */
  predicate Truthy(v: Json)
  {
    match v
    case JNull => false
    case JStr(s) => s != ""
    case JInt(i) => i != 0
    case JList(xs) => xs != []
    case JMap(m) => m != map[]
  }

  /** `v[0]` on a JSON value, or None when Python raises: an empty list or string
      raises IndexError, a dict raises KeyError (its keys are strings, never 0), and an
      int or None raises TypeError. Indexing a string gives a one-character string. */
  function Index0(v: Json): (r: Option<Json>)
    ensures r.Some? <==> (v.JList? || v.JStr?) && Truthy(v)
    ensures r.Some? && v.JList? ==> r.value == v.items[0]
    ensures r.Some? && v.JStr? ==> r.value == JStr([v.s[0]])
  {
    match v
    case JList(xs) => if xs == [] then None else Some(xs[0])
    case JStr(s) => if s == "" then None else Some(JStr([s[0]]))
    case _ => None
  }

  predicate IsDigit(c: char) { '0' <= c <= '9' }

  function DigitChar(d: nat): (c: char)
    requires d < 10
    ensures IsDigit(c) && c as int - '0' as int == d
  {
    (d + '0' as int) as char
  }

  /** `str(n)` for a natural number: its decimal digits, most significant first. */
  function NatToDecimal(n: nat): (s: string)
    ensures |s| > 0
    ensures forall k :: 0 <= k < |s| ==> IsDigit(s[k])
    ensures n > 0 ==> s[0] != '0'
    ensures |s| > 1 ==> s[0] != '0'
  {
    if n < 10 then [DigitChar(n)] else NatToDecimal(n / 10) + [DigitChar(n % 10)]
  }

  /** The number a string of decimal digits denotes, read most significant digit first. */
  function DecimalValue(s: string): nat
    requires forall k :: 0 <= k < |s| ==> IsDigit(s[k])
  {
    if s == [] then 0
    else
      assert IsDigit(s[|s| - 1]);
      10 * DecimalValue(s[..|s| - 1]) + (s[|s| - 1] as int - '0' as int)
  }

  /** Reading back what `str` wrote gives the number again. */
  lemma {:induction false} DecimalRoundTrip(n: nat)
    ensures DecimalValue(NatToDecimal(n)) == n
  {
    if n >= 10 {
      var s := NatToDecimal(n);
      assert s[..|s| - 1] == NatToDecimal(n / 10);
      DecimalRoundTrip(n / 10);
    }
  }

  /** `str(v)` for the values the date extractor converts. Lists and dicts are rendered
      as placeholders: Python would print their repr, which is not modelled. A string is
      itself, and an integer is its decimal form, read back as the same number. */
  function PyStr(v: Json): (r: string)
    ensures v.JStr? ==> r == v.s
    ensures v.JNull? ==> r == "None"
    ensures v.JInt? ==> r != "" && (r[0] == '-' <==> v.i < 0)
  {
    match v
    case JNull => "None"
    case JStr(s) => s
    case JInt(i) => if i < 0 then "-" + NatToDecimal(-i) else NatToDecimal(i)
    case JList(_) => "[...]"
    case JMap(_) => "{...}"
  }

  /** An integer rendered by `str` reads back as the same integer: its digits, after a
      minus sign exactly when it is negative, in canonical form (no leading zero, so
      zero alone is "0"). */
  lemma PyStrIntRoundTrip(i: int)
    ensures var r := PyStr(JInt(i));
            var digits := if i < 0 then r[1..] else r;
            (forall k :: 0 <= k < |digits| ==> IsDigit(digits[k]))
            && DecimalValue(digits) == (if i < 0 then -i else i)
            && digits == NatToDecimal(if i < 0 then -i else i)
            && digits != [] && (digits[0] == '0' ==> digits == "0")
  {
    if i < 0 {
      DecimalRoundTrip(-i);
      assert PyStr(JInt(i))[1..] == NatToDecimal(-i);
    } else {
      DecimalRoundTrip(i);
    }
  }

  function LowerChar(c: char): char
  {
    if 'A' <= c <= 'Z' then (c as int - 'A' as int + 'a' as int) as char else c
  }

  predicate IsUpper(c: char) { 'A' <= c <= 'Z' }

  /** `s.lower()` restricted to ASCII letters: each capital becomes its small letter
      (32 code points on), every other character stays. */
  function Lower(s: string): (r: string)
    ensures |r| == |s|
    ensures forall k :: 0 <= k < |s| && IsUpper(s[k]) ==> r[k] as int == s[k] as int + 32
    ensures forall k :: 0 <= k < |s| && !IsUpper(s[k]) ==> r[k] == s[k]
  {
    seq(|s|, k requires 0 <= k < |s| => LowerChar(s[k]))
  }

  /** No ASCII capital letter in s. */
  predicate NoCapitals(s: string)
  {
    forall k :: 0 <= k < |s| ==> !IsUpper(s[k])
  }

  /** The result has no capitals, and a string without capitals is left unchanged; so
      lowering twice is lowering once. */
  lemma LowerNormalises(s: string)
    ensures NoCapitals(Lower(s))
    ensures NoCapitals(s) ==> Lower(s) == s
    ensures Lower(Lower(s)) == Lower(s)
  {
    var r := Lower(s);
    forall k | 0 <= k < |s| ensures !IsUpper(r[k]) {
      if IsUpper(s[k]) {
        assert r[k] as int == s[k] as int + 32;
      }
    }
    assert Lower(r) == r by {
      forall k | 0 <= k < |r| ensures Lower(r)[k] == r[k] {
        assert !IsUpper(r[k]);
      }
    }
  }

  /** a and b differ at most in the ASCII case of their letters. */
  predicate CaseVariant(a: string, b: string)
  {
    |a| == |b| && forall k :: 0 <= k < |a| ==> LowerChar(a[k]) == LowerChar(b[k])
  }

  /** Strings that differ only in ASCII case lower to the same string; in particular any
      case variant of a string without capitals lowers to that string. */
  lemma LowerCaseVariant(a: string, b: string)
    requires CaseVariant(a, b)
    ensures Lower(a) == Lower(b)
    ensures NoCapitals(b) ==> Lower(a) == b
  {
    assert forall k :: 0 <= k < |a| ==> Lower(a)[k] == LowerChar(a[k]);
    if NoCapitals(b) {
      LowerNormalises(b);
    }
  }
}
