/** Small value types and string helpers shared by the whole model: an
    Option and a Result for the source's `undefined` and thrown errors, and
    the few pieces of JavaScript's string library the app relies on
    (`toLowerCase`, `trim`, `split(/\s+/)`'s notion of white space,
    `join(' ')`, `includes`, and number-to-decimal formatting). */
module Common {

  datatype Option<+T> = None | Some(value: T)

  /** A computation that either yields a value or throws an `Error` with a message. */
  datatype Result<+T> = Ok(value: T) | Err(message: string)

  // ---------------------------------------------------------------------
  // Case folding (ASCII letters only; see README "Left out")

  function LowerChar(c: char): (r: char)
    ensures !('A' <= r <= 'Z')
    ensures c != r ==> 'A' <= c <= 'Z' && r as int == c as int + 32
  {
    if 'A' <= c <= 'Z' then (c as int + 32) as char else c
  }

  function Lower(s: string): (r: string)
    ensures |r| == |s|
    ensures forall i :: 0 <= i < |s| ==> r[i] == LowerChar(s[i])
  {
    seq(|s|, i requires 0 <= i < |s| => LowerChar(s[i]))
  }

  /** Lower-casing twice is lower-casing once. */
  lemma LowerIdempotent(s: string)
    ensures Lower(Lower(s)) == Lower(s)
  {
  }

  // ---------------------------------------------------------------------
  // White space as JavaScript's `\s` and `String.prototype.trim` see it

  predicate IsSpace(c: char)
  {
    c == ' ' || c == '\t' || c == '\n' || c == '\r' || c == '\U{000B}' || c == '\U{000C}'
    || c == '\U{00A0}' || c == '\U{1680}' || ('\U{2000}' <= c <= '\U{200A}')
    || c == '\U{2028}' || c == '\U{2029}' || c == '\U{202F}' || c == '\U{205F}'
    || c == '\U{3000}' || c == '\U{FEFF}'
  }

  /** Every character of `s[lo..hi]` is white space. */
  predicate SpaceBetween(s: string, lo: int, hi: int)
    requires 0 <= lo && hi <= |s|
  {
    forall k :: lo <= k < hi ==> IsSpace(s[k])
  }

  /** The index of the first character of `s` at or after `i` that is not
      white space, or `|s|`. */
  function SkipSpace(s: string, i: nat): (r: nat)
    requires i <= |s|
    ensures i <= r <= |s| && SpaceBetween(s, i, r)
    ensures r < |s| ==> !IsSpace(s[r])
    decreases |s| - i
  {
    if i == |s| || !IsSpace(s[i]) then i else SkipSpace(s, i + 1)
  }

  /** The index just after the last character of `s[..j]` that is not white
      space, or 0. */
  function SkipSpaceBack(s: string, j: nat): (r: nat)
    requires j <= |s|
    ensures r <= j && SpaceBetween(s, r, j)
    ensures r > 0 ==> !IsSpace(s[r - 1])
  {
    if j == 0 || !IsSpace(s[j - 1]) then j else SkipSpaceBack(s, j - 1)
  }

  /** `s.trim()`: white space removed from both ends. */
  function Trim(s: string): (r: string)
    ensures var a := SkipSpace(s, 0); a + |r| <= |s| && r == s[a..a + |r|]
    ensures r == [] || (!IsSpace(r[0]) && !IsSpace(r[|r| - 1]))
  {
    var a := SkipSpace(s, 0);
    var b := SkipSpaceBack(s, |s|);
    if b <= a then [] else s[a..b]
  }

  /** `trim` once the two ends of the text are known. */
  lemma TrimSpan(s: string, a: nat, b: nat)
    requires a <= |s| && b <= |s| && SkipSpace(s, 0) == a && SkipSpaceBack(s, |s|) == b
    ensures Trim(s) == if a < b then s[a..b] else []
  {
  }

  /** What `trim` cuts off before and after the text it keeps is white space. */
  lemma TrimCutsOnlySpace(s: string)
    ensures var a := SkipSpace(s, 0);
            a + |Trim(s)| <= |s| && SpaceBetween(s, 0, a) && SpaceBetween(s, a + |Trim(s)|, |s|)
  {
  }

  /** A slice with only white space around it, and none at its own two ends,
      is what `trim` returns. */
  lemma TrimFindsSlice(s: string, a: nat, n: nat)
    requires a + n <= |s| && SpaceBetween(s, 0, a) && SpaceBetween(s, a + n, |s|)
    requires n == 0 || (!IsSpace(s[a]) && !IsSpace(s[a + n - 1]))
    ensures Trim(s) == s[a..a + n]
  {
  }

  /** `trim` cuts white space, and only white space, off the two ends: the
      slice `s[a..a + n]` is the trimmed text exactly when everything before
      and after it is white space and it neither starts nor ends with any. */
  lemma TrimCharacterised(s: string, a: nat, n: nat)
    requires a + n <= |s|
    ensures Trim(s) == s[a..a + n] <==>
              SpaceBetween(s, 0, a) && SpaceBetween(s, a + n, |s|)
              && (n == 0 || (!IsSpace(s[a]) && !IsSpace(s[a + n - 1])))
  {
  }

  // ---------------------------------------------------------------------
  // Joining and searching

  /** `tokens.join(' ')`. */
  function Join(tokens: seq<string>): string
  {
    if tokens == [] then ""
    else if |tokens| == 1 then tokens[0]
    else tokens[0] + " " + Join(tokens[1..])
  }

  /** `hay.includes(needle)`: `needle` occurs somewhere in `hay`. */
  predicate Contains(hay: string, needle: string)
  {
    needle <= hay || (hay != [] && Contains(hay[1..], needle))
  }

  // ---------------------------------------------------------------------
  // Decimal formatting of a natural number, as a template literal prints it

  function DigitChar(d: nat): (c: char)
    requires d < 10
    ensures '0' <= c <= '9'
  {
    ('0' as int + d) as char
  }

  /** A number in a template literal: its decimal digits, most significant
      first, with no leading zero. */
  function NatToString(n: nat): (r: string)
    ensures |r| >= 1
    ensures forall i :: 0 <= i < |r| ==> '0' <= r[i] <= '9'
    ensures r[0] == '0' ==> n == 0
  {
    if n < 10 then [DigitChar(n)] else NatToString(n / 10) + [DigitChar(n % 10)]
  }

  /** The number a string of decimal digits denotes. */
  function DecimalValue(s: string): nat
    requires forall i :: 0 <= i < |s| ==> '0' <= s[i] <= '9'
  {
    if s == [] then 0
    else DecimalValue(s[..|s| - 1]) * 10 + (s[|s| - 1] as int - '0' as int)
  }

  /** Reading the digits back gives the number: the rendering loses nothing. */
  lemma {:induction false} NatToStringValue(n: nat)
    ensures DecimalValue(NatToString(n)) == n
  {
    if n >= 10 {
      var r := NatToString(n);
      NatToStringValue(n / 10);
      assert r[..|r| - 1] == NatToString(n / 10);
    }
  }

  /** Different numbers render differently, so the segment ids are distinct. */
  lemma NatToStringInjective(m: nat, n: nat)
    ensures NatToString(m) == NatToString(n) ==> m == n
  {
    NatToStringValue(m);
    NatToStringValue(n);
  }

  // ---------------------------------------------------------------------
  // Subsequences, the shape every `filter` result has

  /** `a` is obtained from `b` by dropping some elements and keeping the
      order of the rest. */
  predicate Subseq<T(==)>(a: seq<T>, b: seq<T>)
    decreases |b|
  {
    a == [] || (b != [] && ((a[0] == b[0] && Subseq(a[1..], b[1..])) || Subseq(a, b[1..])))
  }
}
