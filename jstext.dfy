/**
 * The JavaScript built-ins the dice game applies to its input lines:
 * `String.prototype.trim`, `parseInt(s, 10)` and the `%` operator.
 */
module JsText {

  /** ECMAScript WhiteSpace (including every Zs character) or LineTerminator. */
  predicate IsSpace(c: char) {
    var n := c as int;
    n == 0x09 || n == 0x0A || n == 0x0B || n == 0x0C || n == 0x0D || n == 0x20 ||
    n == 0xA0 || n == 0x1680 || (0x2000 <= n <= 0x200A) || n == 0x2028 || n == 0x2029 ||
    n == 0x202F || n == 0x205F || n == 0x3000 || n == 0xFEFF
  }

  /** `s` with its leading whitespace removed (`trimStart`). */
  function TrimStart(s: string): string {
    if s == [] || !IsSpace(s[0]) then s else TrimStart(s[1..])
  }

  /** `s` with its trailing whitespace removed (`trimEnd`). */
  function TrimEnd(s: string): string {
    if s == [] || !IsSpace(s[|s| - 1]) then s else TrimEnd(s[..|s| - 1])
  }

  /** `s.trim()`. */
  function Trim(s: string): string {
    TrimEnd(TrimStart(s))
  }

  /** `t` is `s` without a prefix of whitespace, and does not itself start with whitespace. */
  ghost predicate DropsLeadingSpace(s: string, t: string) {
    |t| <= |s| && t == s[|s| - |t|..] &&
    (forall k :: 0 <= k < |s| - |t| ==> IsSpace(s[k])) &&
    (t != [] ==> !IsSpace(t[0]))
  }

  /** `r` is `t` without a suffix of whitespace, and does not itself end with whitespace. */
  ghost predicate DropsTrailingSpace(t: string, r: string) {
    |r| <= |t| && r == t[..|r|] &&
    (forall k :: |r| <= k < |t| ==> IsSpace(t[k])) &&
    (r != [] ==> !IsSpace(r[|r| - 1]))
  }

  /** `trimStart` removes a prefix of whitespace and stops at the first other character. */
  lemma {:induction false} TrimStartSpec(s: string)
    ensures DropsLeadingSpace(s, TrimStart(s))
  {
    if s != [] && IsSpace(s[0]) {
      var rest := s[1..];
      TrimStartSpec(rest);
      assert TrimStart(s) == TrimStart(rest);
      forall k | 1 <= k < |s| - |TrimStart(s)| ensures IsSpace(s[k]) {
        assert s[k] == rest[k - 1];
      }
    }
  }

  /** `trimEnd` removes a suffix of whitespace and stops at the last other character. */
  lemma {:induction false} TrimEndSpec(s: string)
    ensures DropsTrailingSpace(s, TrimEnd(s))
  {
    if s != [] && IsSpace(s[|s| - 1]) {
      var rest := s[..|s| - 1];
      TrimEndSpec(rest);
      assert TrimEnd(s) == TrimEnd(rest);
      forall k | |TrimEnd(s)| <= k < |s| - 1 ensures IsSpace(s[k]) {
        assert s[k] == rest[k];
      }
    }
  }

  /** `r` is what is left of `s` once `lead` whitespace characters are taken from its start and the rest from its end. */
  ghost predicate Surrounds(s: string, r: string, lead: int) {
    0 <= lead && lead + |r| <= |s| && s[lead..lead + |r|] == r &&
    (forall k :: 0 <= k < lead ==> IsSpace(s[k])) &&
    (forall k :: lead + |r| <= k < |s| ==> IsSpace(s[k]))
  }

  /**
   * Trimming removes whitespace from both ends and nothing else, and leaves
   * neither end of the result whitespace.
   */
  lemma TrimSpec(s: string)
    ensures Surrounds(s, Trim(s), |s| - |TrimStart(s)|)
    ensures Trim(s) != [] ==> !IsSpace(Trim(s)[0]) && !IsSpace(Trim(s)[|Trim(s)| - 1])
  {
    var t := TrimStart(s);
    TrimStartSpec(s);
    TrimEndSpec(t);
    TrimSurrounds(s, t, Trim(s));
  }

  /** Whitespace taken from the start of `s` (leaving `t`), then from the end of `t` (leaving `r`). */
  lemma TrimSurrounds(s: string, t: string, r: string)
    requires DropsLeadingSpace(s, t) && DropsTrailingSpace(t, r)
    ensures Surrounds(s, r, |s| - |t|)
    ensures r != [] ==> !IsSpace(r[0]) && !IsSpace(r[|r| - 1])
  {
    var lead := |s| - |t|;
    assert s[lead..lead + |r|] == s[lead..][..|r|];
    forall k | lead + |r| <= k < |s| ensures IsSpace(s[k]) {
      assert s[k] == t[k - lead];
    }
    if r != [] {
      assert r[0] == t[0];
    }
  }

  /** A string with no whitespace at either end is its own trim. */
  lemma TrimUnpadded(s: string)
    requires s != [] ==> !IsSpace(s[0]) && !IsSpace(s[|s| - 1])
    ensures Trim(s) == s
  {
  }

  /** Trimming twice is trimming once. */
  lemma TrimIdempotent(s: string)
    ensures Trim(Trim(s)) == Trim(s)
  {
    TrimSpec(s);
    TrimUnpadded(Trim(s));
  }

  /** A JavaScript number as `parseInt` can produce it. */
  datatype JsNumber = Num(value: int) | NaN

  predicate IsDigit(c: char) {
    '0' <= c <= '9'
  }

  /**
   * The longest run of decimal digits at the start of `t`, read onto `acc`:
   * NaN when there is none (and none was `seen` before).
   */
  function Digits(t: string, acc: nat, seen: bool): JsNumber {
    if t == [] || !IsDigit(t[0]) then (if seen then Num(acc) else NaN)
    else Digits(t[1..], 10 * acc + (t[0] as int - '0' as int), true)
  }

  /**
   * `parseInt(s, 10)`: skip leading whitespace, take an optional sign, then
   * the longest run of decimal digits; with no digit the result is NaN.
   */
  function ParseInt(s: string): (r: JsNumber)
    ensures |s| == 1 && IsDigit(s[0]) ==> r == Num(s[0] as int - '0' as int)
    ensures s != [] && !IsSpace(s[0]) && !IsDigit(s[0]) && s[0] != '+' && s[0] != '-' ==> r == NaN
  {
    var t := TrimStart(s);
    assert s != [] && !IsSpace(s[0]) ==> t == s;
    assert |s| == 1 && IsDigit(s[0]) ==> t[1..] == [] && Digits(t, 0, false) == Num(s[0] as int - '0' as int);
    if t != [] && (t[0] == '-' || t[0] == '+') then
      match Digits(t[1..], 0, false)
      case Num(v) => Num(if t[0] == '-' then -v else v)
      case NaN => NaN
    else Digits(t, 0, false)
  }

  /** The quotient of `a / b` truncated toward zero (`Math.trunc(a / b)`). */
  function TruncatedQuotient(a: int, b: int): int
    requires b > 0
  {
    if a >= 0 then a / b else -((-a) / b)
  }

  /**
   * JavaScript's `a % b` on integers: what is left after taking away the
   * truncated quotient, so it takes the sign of `a` (Dafny's `%` never goes
   * negative).
   */
  function Rem(a: int, b: int): (r: int)
    requires b > 0
    ensures a == b * TruncatedQuotient(a, b) + r
    ensures a >= 0 ==> 0 <= r < b
    ensures a < 0 ==> -b < r <= 0
  {
    if a >= 0 then a % b
    else
      var q := (-a) / b;
      var m := (-a) % b;
      assert -a == b * q + m;
      assert b * -q == -(b * q);
      -m
  }
}
