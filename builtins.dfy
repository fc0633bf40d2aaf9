/** The pieces of Python the relay core leans on: `str.find`, `str.replace(old, new, 1)`,
    `int(str)`, slicing past the end, and the exceptions the core can raise. Strings are
    `seq<char>` (Dafny's `string`). */
module Builtins {

  datatype Option<+T> = None | Some(value: T)

  /** The exceptions the modelled code can raise. */
  datatype PyError =
    | AttributeError     // an attribute that was never assigned, or is misspelt
    | NameError          // a global that is never defined
    | ValueError         // `int()` of a string that is not a decimal integer
    | IndexError         // a list assignment past the end
    | ServerSocketError  // the `Exception('server_socket error')` the relay raises

  datatype Result<+T> = Ok(value: T) | Err(error: PyError)

  /** `sub` occurs in `s` starting at index `i`. */
  predicate OccursAt(s: string, sub: string, i: int)
  {
    0 <= i && i + |sub| <= |s| && s[i..i + |sub|] == sub
  }

  /** `s.find(sub, start)`: the first index at or after `start` where `sub` occurs, else -1. */
  function Find(s: string, sub: string, start: nat): (r: int)
    ensures r == -1 || (start <= r && OccursAt(s, sub, r))
    ensures forall j :: start <= j && (r == -1 || j < r) ==> !OccursAt(s, sub, j)
    decreases |s| - start
  {
    if start + |sub| > |s| then -1
    else if s[start..start + |sub|] == sub then start
    else Find(s, sub, start + 1)
  }

  /** `sub in s`, written in the source as `s.find(sub) != -1`. */
  predicate Contains(s: string, sub: string)
  {
    Find(s, sub, 0) != -1
  }

  /** `s.replace(old, new, 1)`: only the first occurrence is replaced. */
  function ReplaceFirst(s: string, target: string, replacement: string): string
  {
    var i := Find(s, target, 0);
    if i == -1 then s else s[..i] + replacement + s[i + |target|..]
  }

  /** `s[k:]`: Python slicing past the end gives the empty string. */
  function From(s: string, k: nat): (r: string)
    ensures k <= |s| ==> r == s[k..]
    ensures k >= |s| ==> r == ""
  {
    if k <= |s| then s[k..] else ""
  }

  /** Searching from `k` is searching the suffix `s[k..]` and shifting the answer by `k`. */
  lemma FindShift(s: string, sub: string, k: nat)
    requires k <= |s|
    ensures Find(s, sub, k) == (if Find(s[k..], sub, 0) == -1 then -1 else Find(s[k..], sub, 0) + k)
  {
    var t := s[k..];
    forall j | 0 <= j
      ensures OccursAt(t, sub, j) <==> OccursAt(s, sub, j + k)
    {
      if j + |sub| <= |t| {
        assert t[j..j + |sub|] == s[j + k..j + k + |sub|];
      }
    }
    var a, b := Find(s, sub, k), Find(t, sub, 0);
    assert a != -1 ==> OccursAt(t, sub, a - k);
    assert b != -1 ==> OccursAt(s, sub, b + k);
  }

  /** An occurrence found in `s` is still the first one once more text is appended. */
  lemma FindExtend(s: string, tail: string, sub: string, k: nat)
    requires Find(s, sub, k) != -1
    ensures Find(s + tail, sub, k) == Find(s, sub, k)
  {
    var i := Find(s, sub, k);
    var st := s + tail;
    assert st[i..i + |sub|] == s[i..i + |sub|];
    assert OccursAt(st, sub, i);
    forall j | k <= j < i
      ensures !OccursAt(st, sub, j)
    {
      assert st[j..j + |sub|] == s[j..j + |sub|];
      assert !OccursAt(s, sub, j);
    }
  }

  /** Appending text after the first occurrence does not change what the replacement does
      before it. */
  lemma ReplaceFirstExtend(s: string, tail: string, target: string, replacement: string)
    requires Contains(s, target)
    ensures ReplaceFirst(s + tail, target, replacement) == ReplaceFirst(s, target, replacement) + tail
  {
    FindExtend(s, tail, target, 0);
    var k := Find(s, target, 0);
    var st := s + tail;
    var a, b := s[..k], s[k + |target|..];
    assert st[..k] == a;
    assert st[k + |target|..] == b + tail;
    assert ReplaceFirst(st, target, replacement) == a + replacement + (b + tail);
    assert ReplaceFirst(s, target, replacement) == a + replacement + b;
    assert a + replacement + (b + tail) == a + replacement + b + tail;
  }

  /** A string that contains `sub` keeps containing it when text is appended. */
  lemma ContainsExtend(s: string, tail: string, sub: string)
    requires Contains(s, sub)
    ensures Contains(s + tail, sub)
  {
    FindExtend(s, tail, sub, 0);
  }

  // ---------------------------------------------------------------------------
  // int(str)

  predicate IsDigit(c: char) { '0' <= c <= '9' }

  /** The characters `int()` strips around its argument: space and `\t \n \v \f \r`. */
  predicate IsSpace(c: char) { c == ' ' || 9 <= c as int <= 13 }

  function TrimLeft(s: string): (r: string)
    ensures |r| <= |s| && r == s[|s| - |r|..]
    ensures r != [] ==> !IsSpace(r[0])
  {
    if s != [] && IsSpace(s[0]) then TrimLeft(s[1..]) else s
  }

  function TrimRight(s: string): (r: string)
    ensures |r| <= |s| && r == s[..|r|]
    ensures r != [] ==> !IsSpace(r[|r| - 1])
  {
    if s != [] && IsSpace(s[|s| - 1]) then TrimRight(s[..|s| - 1]) else s
  }

  /** Decimal digits in groups separated by single underscores, as `int()` accepts them. */
  predicate DigitGroups(d: string)
  {
    && |d| > 0
    && IsDigit(d[0])
    && IsDigit(d[|d| - 1])
    && forall i :: 0 <= i < |d| ==> IsDigit(d[i]) || (d[i] == '_' && i + 1 < |d| && IsDigit(d[i + 1]))
  }

  /** The value of the digits of `d`, underscores skipped. */
  function DigitsValue(d: string): nat
  {
    if d == [] then 0
    else if d[|d| - 1] == '_' then DigitsValue(d[..|d| - 1])
    else 10 * DigitsValue(d[..|d| - 1]) + if IsDigit(d[|d| - 1]) then (d[|d| - 1] as int - '0' as int) else 0
  }

  /** `int(s)` for a `str` in base 10: surrounding white space, an optional sign, then digit
      groups; anything else raises ValueError, shown here as None. */
  function PyInt(s: string): Option<int>
  {
    var t := TrimRight(TrimLeft(s));
    if t != [] && (t[0] == '+' || t[0] == '-') then
      var v: int := DigitsValue(t[1..]);
      if DigitGroups(t[1..]) then Some(if t[0] == '-' then -v else v) else None
    else if DigitGroups(t) then Some(DigitsValue(t))
    else None
  }

  /** The decimal spelling of `n` (`str(n)`), used to state what `int()` accepts. */
  function Decimal(n: nat): (r: string)
    ensures |r| > 0 && forall i :: 0 <= i < |r| ==> IsDigit(r[i])
  {
    var last := (('0' as int) + n % 10) as char;
    if n < 10 then [last] else Decimal(n / 10) + [last]
  }

  lemma {:induction false} DecimalValue(n: nat)
    ensures DigitsValue(Decimal(n)) == n
  {
    var d := Decimal(n);
    if n >= 10 {
      DecimalValue(n / 10);
      assert d[..|d| - 1] == Decimal(n / 10);
    }
  }

  /** `int(str(n)) == n`: a port written in decimal digits reads back as itself. */
  lemma {:induction false} PyIntDecimal(n: nat)
    ensures PyInt(Decimal(n)) == Some(n)
  {
    var d := Decimal(n);
    assert TrimLeft(d) == d;
    assert TrimRight(d) == d;
    DecimalValue(n);
  }
}
