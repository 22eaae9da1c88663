/**
 * The C library string routines the proxy and the shell lean on, over a
 * string without its terminating NUL: `strchr`, `strstr`, `strspn`,
 * `strcspn` and `atoi`, plus the decimal rendering `atoi` inverts.
 * Positions are offsets into the string; `|s|` is where the NUL sits.
 */
module CStr {
  import opened Outcomes

  /** `strchr(s + i, c)`: the first position at or after `i` holding `c`, or NULL. */
  function StrChr(s: string, i: nat, c: char): (r: Option<nat>)
    requires i <= |s|
    ensures r.Some? ==> i <= r.value < |s| && s[r.value] == c && forall j :: i <= j < r.value ==> s[j] != c
    ensures r.None? <==> forall j :: i <= j < |s| ==> s[j] != c
    decreases |s| - i
  {
    if i == |s| then None
    else if s[i] == c then Some(i)
    else StrChr(s, i + 1, c)
  }

  /** `t` occurs in `s` at position `i`. */
  predicate OccursAt(s: string, t: string, i: nat)
  {
    i + |t| <= |s| && s[i..i + |t|] == t
  }

  /** `strstr(s + i, t)`: the first position at or after `i` where `t` occurs, or NULL. */
  function StrStr(s: string, t: string, i: nat): (r: Option<nat>)
    requires i <= |s|
    ensures r.Some? ==> i <= r.value <= |s| && OccursAt(s, t, r.value) && forall j :: i <= j < r.value ==> !OccursAt(s, t, j)
    ensures r.None? <==> forall j :: i <= j <= |s| ==> !OccursAt(s, t, j)
    decreases |s| - i
  {
    if OccursAt(s, t, i) then Some(i)
    else if i == |s| then None
    else StrStr(s, t, i + 1)
  }

  /** `strstr(s, t) != NULL`: `t` occurs somewhere in `s`. */
  function Contains(s: string, t: string): (b: bool)
    ensures b <==> exists i: nat | i <= |s| :: OccursAt(s, t, i)
  {
    StrStr(s, t, 0).Some?
  }

  /** `strspn(s + i, accept)`: the first position at or after `i` not in `accept`, or `|s|`. */
  function Span(s: string, i: nat, accept: set<char>): (r: nat)
    requires i <= |s|
    ensures i <= r <= |s| && (r < |s| ==> s[r] !in accept)
    ensures forall j :: i <= j < r ==> s[j] in accept
    decreases |s| - i
  {
    if i == |s| || s[i] !in accept then i else Span(s, i + 1, accept)
  }

  /** `strcspn(s + i, reject)`: the first position at or after `i` in `reject`, or `|s|`. */
  function CSpan(s: string, i: nat, reject: set<char>): (r: nat)
    requires i <= |s|
    ensures i <= r <= |s| && (r < |s| ==> s[r] in reject)
    ensures forall j :: i <= j < r ==> s[j] !in reject
    decreases |s| - i
  {
    if i == |s| || s[i] in reject then i else CSpan(s, i + 1, reject)
  }

  /** The characters `isspace` accepts in the C locale. */
  const SPACES: set<char> := {' ', '\t', '\n', '\r', '\U{B}', '\U{C}'}

  predicate IsDigit(c: char)
  {
    '0' <= c <= '9'
  }

  function DigitValue(c: char): nat
    requires IsDigit(c)
  {
    c as int - '0' as int
  }

  /** The first position at or after `i` that is not a digit, or `|s|`. */
  function DigitEnd(s: string, i: nat): (r: nat)
    requires i <= |s|
    ensures i <= r <= |s| && (r < |s| ==> !IsDigit(s[r]))
    ensures forall j :: i <= j < r ==> IsDigit(s[j])
    decreases |s| - i
  {
    if i == |s| || !IsDigit(s[i]) then i else DigitEnd(s, i + 1)
  }

  /** The value of a run of decimal digits, most significant first. */
  function Value(ds: string): nat
    requires forall j :: 0 <= j < |ds| ==> IsDigit(ds[j])
  {
    if ds == [] then 0 else Value(ds[..|ds| - 1]) * 10 + DigitValue(ds[|ds| - 1])
  }

  /**
   * `atoi`: leading white space, an optional sign, then the longest run
   * of digits; no digits give 0.
   */
  function Atoi(s: string): (n: int)
    ensures var i := Span(s, 0, SPACES);
      && (i == |s| || (s[i] != '-' && s[i] != '+' && !IsDigit(s[i])) ==> n == 0)
      && (n < 0 ==> i < |s| && s[i] == '-')
  {
    var i := Span(s, 0, SPACES);
    var neg := i < |s| && s[i] == '-';
    var j := if i < |s| && (s[i] == '-' || s[i] == '+') then i + 1 else i;
    var v: int := Value(s[j..DigitEnd(s, j)]);
    if neg then -v else v
  }

  function Digit(d: nat): (c: char)
    requires d < 10
    ensures IsDigit(c) && DigitValue(c) == d
  {
    ('0' as int + d) as char
  }

  /** The decimal rendering of `n`, without sign or leading zeros. */
  function Decimal(n: nat): (ds: string)
    ensures ds != [] && forall j :: 0 <= j < |ds| ==> IsDigit(ds[j])
  {
    if n < 10 then [Digit(n)] else Decimal(n / 10) + [Digit(n % 10)]
  }

  /** Reading back a decimal rendering gives the number. */
  lemma {:induction false} ValueDecimal(n: nat)
    ensures Value(Decimal(n)) == n
  {
    var ds := Decimal(n);
    if n >= 10 {
      assert ds[..|ds| - 1] == Decimal(n / 10);
      ValueDecimal(n / 10);
    } else {
      assert ds[..|ds| - 1] == [];
    }
  }

  /** `atoi` inverts `Decimal`, whatever follows the digits. */
  lemma AtoiDecimal(n: nat, rest: string)
    requires rest == [] || !IsDigit(rest[0])
    ensures Atoi(Decimal(n) + rest) == n
  {
    var ds := Decimal(n);
    var s := ds + rest;
    assert Span(s, 0, SPACES) == 0 by {
      assert s[0] == ds[0];
    }
    DigitEndAt(s, 0, |ds|);
    assert s[0..|ds|] == ds;
    ValueDecimal(n);
  }

  lemma {:induction false} DigitEndAt(s: string, i: nat, k: nat)
    requires i <= k <= |s| && (k < |s| ==> !IsDigit(s[k]))
    requires forall j :: i <= j < k ==> IsDigit(s[j])
    ensures DigitEnd(s, i) == k
    decreases k - i
  {
    if i < k {
      DigitEndAt(s, i + 1, k);
    }
  }
}
