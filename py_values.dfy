/**
 * The loosely-typed values the TeamSnap records carry once decoded from JSON,
 * together with the handful of Python built-ins the feed code applies to them:
 * truthiness, `str()` formatting, `str.strip()`, dict `get` and `==` between
 * numbers and booleans.
 */
module PyValues {

  datatype Option<+T> = None | Some(value: T)

  /** The exceptions the modelled code can raise on the data it is given. */
  datatype Error =
    | KeyError(key: string)
    | AttributeError(reason: string)
    | TypeError(reason: string)
    | ValueError(reason: string)
    | OSError(reason: string)

  datatype Result<+T> = Ok(value: T) | Err(error: Error)

  /** A JSON scalar as Python sees it after `json.loads`. */
  datatype Value = VNone | VBool(b: bool) | VInt(i: int) | VStr(s: string)

  /** A flat record: one TeamSnap object after Collection+JSON flattening. */
  type Record = map<string, Value>

  /** Python truthiness: None, False, 0 and "" are false, everything else true. */
  predicate Truthy(v: Value) {
    match v
    case VNone => false
    case VBool(b) => b
    case VInt(i) => i != 0
    case VStr(s) => s != ""
  }

  /** `d.get(k)`: the value, or None when the key is missing. */
  function Get(r: Record, k: string): (v: Value)
    ensures k !in r ==> v == VNone
    ensures k in r ==> v == r[k]
  {
    if k in r then r[k] else VNone
  }

  /** `d.get(k, default)`. */
  function GetOr(r: Record, k: string, default: Value): (v: Value)
    ensures k !in r ==> v == default
    ensures k in r ==> v == r[k]
  {
    if k in r then r[k] else default
  }

  /**
   * The identity a value has as a dict key: Python hashes and compares `True`
   * as `1` and `False` as `0`, so both spellings find the same entry.
   */
  function Key(v: Value): (k: Value)
    ensures !k.VBool?
    ensures Truthy(k) == Truthy(v)
  {
    match v
    case VBool(b) => VInt(if b then 1 else 0)
    case _ => v
  }

  /** Python `==` between two scalars (with `True == 1` and `False == 0`). */
  predicate PyEq(a: Value, b: Value) {
    Key(a) == Key(b)
  }

  // ---------------------------------------------------------------------------
  // str() of a scalar, as an f-string interpolates it
  // ---------------------------------------------------------------------------

  function DigitChar(d: nat): char
    requires d < 10
  {
    (48 + d) as char
  }

  function NatToString(n: nat): (s: string)
    ensures |s| > 0
    ensures IsDecimal(s)
  {
    if n < 10 then [DigitChar(n)] else NatToString(n / 10) + [DigitChar(n % 10)]
  }

  predicate IsDecimal(s: string) {
    forall k :: 0 <= k < |s| ==> '0' <= s[k] <= '9'
  }

  function IntToString(i: int): string {
    if i < 0 then "-" + NatToString(-i) else NatToString(i)
  }

  /** `str(v)` for a scalar: "None", "True"/"False", decimal digits, or the string itself. */
  function Str(v: Value): string {
    match v
    case VNone => "None"
    case VBool(b) => if b then "True" else "False"
    case VInt(i) => IntToString(i)
    case VStr(s) => s
  }

  /** Reads a string of decimal digits back: the inverse of NatToString. */
  function DecimalValue(s: string): nat
    requires IsDecimal(s)
  {
    if s == [] then 0
    else DecimalValue(s[..|s| - 1]) * 10 + ((s[|s| - 1] as int) - 48)
  }

  lemma {:induction false} DecimalRoundTrip(n: nat)
    ensures DecimalValue(NatToString(n)) == n
  {
    var s := NatToString(n);
    if n >= 10 {
      DecimalRoundTrip(n / 10);
      assert s[..|s| - 1] == NatToString(n / 10);
    }
  }

  lemma IntToStringSign(i: int)
    ensures |IntToString(i)| > 0
    ensures IntToString(i)[0] == '-' <==> i < 0
  {
  }

  /** The text of an integer is a sign and digits, so it never holds a line break. */
  lemma {:induction false} IntToStringDigits(i: int)
    ensures forall c :: c in IntToString(i) ==> c == '-' || '0' <= c <= '9'
  {
    var d := NatToString(if i < 0 then -i else i);
    assert forall c :: c in d ==> '0' <= c <= '9' by {
      forall c | c in d ensures '0' <= c <= '9' {
        var k :| 0 <= k < |d| && d[k] == c;
      }
    }
  }

  /** Distinct integers print differently, so an integer id's text identifies it. */
  lemma IntToStringInjective(a: int, b: int)
    requires IntToString(a) == IntToString(b)
    ensures a == b
  {
    if a < 0 && b < 0 {
      assert NatToString(-a) == IntToString(a)[1..];
      assert NatToString(-b) == IntToString(b)[1..];
      DecimalRoundTrip(-a);
      DecimalRoundTrip(-b);
    } else if a >= 0 && b >= 0 {
      DecimalRoundTrip(a);
      DecimalRoundTrip(b);
    } else {
      IntToStringSign(a);
      IntToStringSign(b);
    }
  }

  // ---------------------------------------------------------------------------
  // str.strip()
  // ---------------------------------------------------------------------------

  /** The characters Python's `str.isspace()` accepts (Unicode whitespace). */
  predicate IsSpace(c: char) {
    || ('\t' <= c <= '\r')
    || ('\U{1c}' <= c <= ' ')
    || c == '\U{85}' || c == '\U{a0}' || c == '\U{1680}'
    || ('\U{2000}' <= c <= '\U{200a}')
    || c == '\U{2028}' || c == '\U{2029}' || c == '\U{202f}' || c == '\U{205f}'
    || c == '\U{3000}'
  }

  predicate AllSpace(s: string) {
    forall k :: 0 <= k < |s| ==> IsSpace(s[k])
  }

  function StripLeft(s: string): string {
    if s != [] && IsSpace(s[0]) then StripLeft(s[1..]) else s
  }

  function StripRight(s: string): string {
    if s != [] && IsSpace(s[|s| - 1]) then StripRight(s[..|s| - 1]) else s
  }

  /** `s.lstrip()` is a suffix of `s` after whitespace only, and starts with no whitespace. */
  lemma {:induction false} StripLeftFacts(s: string)
    ensures var r := StripLeft(s);
      && |r| <= |s| && r == s[|s| - |r|..]
      && AllSpace(s[..|s| - |r|])
      && (r == [] || !IsSpace(r[0]))
  {
    if s != [] && IsSpace(s[0]) {
      StripLeftFacts(s[1..]);
      var r := StripLeft(s[1..]);
      assert s[..|s| - |r|] == [s[0]] + s[1..][..|s| - 1 - |r|];
      assert s[1..][|s| - 1 - |r|..] == s[|s| - |r|..];
    }
  }

  /** `s.rstrip()` is a prefix of `s` before whitespace only, and ends with no whitespace. */
  lemma {:induction false} StripRightFacts(s: string)
    ensures var r := StripRight(s);
      && |r| <= |s| && r == s[..|r|]
      && AllSpace(s[|r|..])
      && (r == [] || !IsSpace(r[|r| - 1]))
  {
    if s != [] && IsSpace(s[|s| - 1]) {
      StripRightFacts(s[..|s| - 1]);
      var r := StripRight(s[..|s| - 1]);
      assert s[|r|..] == s[..|s| - 1][|r|..] + [s[|s| - 1]];
      assert s[..|s| - 1][..|r|] == s[..|r|];
    }
  }

  /** The whitespace `s.strip()` removes from the front of `s`. */
  function StripPrefix(s: string): string {
    StripLeftFacts(s);
    s[..|s| - |StripLeft(s)|]
  }

  /** The whitespace `s.strip()` removes from the back of `s`. */
  function StripSuffix(s: string): string {
    var l := StripLeft(s);
    StripRightFacts(l);
    l[|StripRight(l)|..]
  }

  /** `s.strip()`: remove leading and trailing whitespace. */
  function Strip(s: string): string {
    StripRight(StripLeft(s))
  }

  /**
   * `s.strip()` is `s` with a whitespace prefix and a whitespace suffix cut off.
   */
  lemma StripSplits(s: string)
    ensures s == StripPrefix(s) + Strip(s) + StripSuffix(s)
  {
    var l := StripLeft(s);
    StripLeftFacts(s);
    StripRightFacts(l);
    var p, r, t := StripPrefix(s), StripRight(l), StripSuffix(s);
    assert s == p + l by {
      assert l == s[|p|..];
    }
    assert l == r + t by {
      assert r == l[..|r|];
    }
    assert s == p + r + t;
  }

  /** What `s.strip()` cuts off is whitespace only. */
  lemma StripRemovesSpace(s: string)
    ensures AllSpace(StripPrefix(s)) && AllSpace(StripSuffix(s))
  {
    StripLeftFacts(s);
    StripRightFacts(StripLeft(s));
  }

  /** Neither end of `s.strip()` is whitespace. */
  lemma StripEnds(s: string)
    ensures Strip(s) == [] || (!IsSpace(Strip(s)[0]) && !IsSpace(Strip(s)[|Strip(s)| - 1]))
  {
    var l := StripLeft(s);
    var r := StripRight(l);
    StripLeftFacts(s);
    StripRightFacts(l);
    if r != [] {
      assert r[0] == l[0];
    }
  }

  /** Stripping twice changes nothing more than stripping once. */
  lemma StripIdempotent(s: string)
    ensures Strip(Strip(s)) == Strip(s)
  {
    StripEnds(s);
  }
}
