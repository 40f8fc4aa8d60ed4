/** The pieces of the C library that the weather station's core relies on, stated
    over character sequences.  A C string ends at its first NUL character. */
module CLib {

  datatype Option<T> = None | Some(value: T)

  const NUL: char := '\0'

  /** The C string stored at the start of `s`: the characters before the first NUL. */
  function CString(s: seq<char>): (r: seq<char>)
    ensures |r| <= |s| && r == s[..|r|]
    ensures NUL !in r
    ensures |r| < |s| ==> s[|r|] == NUL
  {
    if s == [] || s[0] == NUL then [] else [s[0]] + CString(s[1..])
  }

  /** `n` NUL characters, what memset(bp, 0, n) leaves behind. */
  function Zeros(n: nat): (r: seq<char>)
    ensures |r| == n && forall k :: 0 <= k < n ==> r[k] == NUL
  {
    seq(n, _ => NUL)
  }

  /** A buffer holding `s` followed by NUL padding reads back as the C string of `s`. */
  lemma {:induction false} CStringPadded(s: seq<char>, n: nat)
    ensures CString(s + Zeros(n)) == CString(s)
  {
    if s == [] {
      assert s + Zeros(n) == Zeros(n);
    } else if s[0] != NUL {
      assert (s + Zeros(n))[1..] == s[1..] + Zeros(n);
      CStringPadded(s[1..], n);
    }
  }

  /** strchr: the index of the first `c` in `s`, if there is one. */
  function IndexOf(s: seq<char>, c: char): (r: Option<nat>)
    ensures r.Some? ==> r.value < |s| && s[r.value] == c && c !in s[..r.value]
    ensures r.None? ==> c !in s
  {
    if s == [] then None
    else if s[0] == c then Some(0)
    else match IndexOf(s[1..], c)
      case None => None
      case Some(k) =>
        assert s[..k + 1] == [s[0]] + s[1..][..k];
        Some(k + 1)
  }

  predicate OccursAt(s: seq<char>, pat: seq<char>, k: int)
  {
    0 <= k && k + |pat| <= |s| && s[k..k + |pat|] == pat
  }

  /** strstr: the index of the first occurrence of `pat` in `s`, if there is one. */
  function Find(s: seq<char>, pat: seq<char>): (r: Option<nat>)
    ensures r.Some? ==> OccursAt(s, pat, r.value) && forall k :: 0 <= k < r.value ==> !OccursAt(s, pat, k)
    ensures r.None? ==> forall k :: 0 <= k ==> !OccursAt(s, pat, k)
    decreases |s|
  {
    if |s| < |pat| then None
    else if s[..|pat|] == pat then Some(0)
    else match Find(s[1..], pat)
      case None =>
        assert forall k :: 1 <= k ==> OccursAt(s, pat, k) == OccursAt(s[1..], pat, k - 1);
        None
      case Some(j) =>
        assert forall k :: 1 <= k ==> OccursAt(s, pat, k) == OccursAt(s[1..], pat, k - 1);
        Some(j + 1)
  }

  /** strncpy(out, src, n): the `n` characters written to `out`, the C string of
      `src` cut to `n` characters and padded with NULs (no terminator when it is cut). */
  function Strncpy(src: seq<char>, n: nat): (r: seq<char>)
    ensures |r| == n
    ensures forall k :: 0 <= k < n ==> r[k] == (if k < |CString(src)| then CString(src)[k] else NUL)
  {
    var s := CString(src);
    if |s| >= n then s[..n] else s + Zeros(n - |s|)
  }

  /** memset(bp, 0, n). */
  method Memset(bp: array<char>, n: int)
    requires 0 <= n <= bp.Length
    modifies bp
    ensures bp[..n] == Zeros(n) && bp[n..] == old(bp[n..])
  {
    forall k | 0 <= k < n {
      bp[k] := NUL;
    }
  }

  /** strncpy(out, src, n) itself. */
  method CopyString(out: array<char>, src: seq<char>, n: int)
    requires 0 <= n <= out.Length
    modifies out
    ensures out[..n] == Strncpy(src, n) && out[n..] == old(out[n..])
  {
    var w := Strncpy(src, n);
    forall k | 0 <= k < n {
      out[k] := w[k];
    }
  }

  predicate IsDigit(c: char) { '0' <= c <= '9' }

  /** The longest run of decimal digits at the start of `s`. */
  function DigitPrefix(s: seq<char>): (r: seq<char>)
    ensures |r| <= |s| && r == s[..|r|]
    ensures forall k :: 0 <= k < |r| ==> IsDigit(r[k])
    ensures |r| < |s| ==> !IsDigit(s[|r|])
  {
    if s == [] || !IsDigit(s[0]) then [] else [s[0]] + DigitPrefix(s[1..])
  }

  /** The number a run of decimal digits denotes. */
  function DigitsValue(d: seq<char>): nat
    requires forall k :: 0 <= k < |d| ==> IsDigit(d[k])
  {
    if d == [] then 0
    else
      assert IsDigit(d[|d| - 1]);
      DigitsValue(d[..|d| - 1]) * 10 + (d[|d| - 1] as int - '0' as int)
  }

  /** atof, limited to an optional sign followed by decimal digits: the value of the
      leading digits, negated after a '-', and 0 when there are none. */
  function Atof(s: seq<char>): int
  {
    if s != [] && s[0] == '-' then -(DigitsValue(DigitPrefix(s[1..])) as int)
    else if s != [] && s[0] == '+' then DigitsValue(DigitPrefix(s[1..]))
    else DigitsValue(DigitPrefix(s))
  }

  /** The decimal digits of `n`, most significant first: what printf("%d") writes. */
  function Decimal(n: nat): (r: seq<char>)
    ensures r != [] && forall k :: 0 <= k < |r| ==> IsDigit(r[k])
  {
    if n < 10 then [('0' as int + n) as char]
    else Decimal(n / 10) + [('0' as int + n % 10) as char]
  }

  lemma {:induction false} DigitPrefixOfDigits(d: seq<char>)
    requires forall k :: 0 <= k < |d| ==> IsDigit(d[k])
    ensures DigitPrefix(d) == d
  {
    if d != [] {
      DigitPrefixOfDigits(d[1..]);
    }
  }

  lemma {:induction false} DigitsValueOfDecimal(n: nat)
    ensures DigitsValue(Decimal(n)) == n
  {
    if n >= 10 {
      var d := Decimal(n);
      assert d[..|d| - 1] == Decimal(n / 10);
      DigitsValueOfDecimal(n / 10);
    }
  }

  /** atof reads back the number that the decimal digits of `n` spell, with either sign. */
  lemma AtofOfDecimal(n: nat)
    ensures Atof(Decimal(n)) == n
    ensures Atof(['-'] + Decimal(n)) == -(n as int)
  {
    var d := Decimal(n);
    DigitPrefixOfDigits(d);
    DigitsValueOfDecimal(n);
    assert (['-'] + d)[1..] == d;
  }
}
