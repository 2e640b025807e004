/** String helpers shared by the model: join, prefix tests, decimal rendering and ordering. */
module Text {
  import Sorting

  /** `parts.join(sep)`: the parts separated by `sep`, with no leading or trailing separator. */
  function Join(parts: seq<string>, sep: string): string {
    if parts == [] then ""
    else if |parts| == 1 then parts[0]
    else parts[0] + sep + Join(parts[1..], sep)
  }

  /** Joining two non-empty lists is joining their joins with one separator in between. */
  lemma {:induction false} JoinConcat(a: seq<string>, b: seq<string>, sep: string)
    requires a != [] && b != []
    ensures Join(a + b, sep) == Join(a, sep) + sep + Join(b, sep)
  {
    if |a| == 1 {
      assert (a + b)[1..] == b;
    } else {
      assert (a + b)[1..] == a[1..] + b;
      JoinConcat(a[1..], b, sep);
    }
  }

  /** A join of `n` parts holds at least `n - 1` separators: its length is bounded below. */
  lemma {:induction false} JoinLength(parts: seq<string>, sep: string)
    requires parts != []
    ensures |Join(parts, sep)| >= (|parts| - 1) * |sep|
  {
    if |parts| > 1 {
      JoinLength(parts[1..], sep);
    }
  }

  predicate StartsWith(s: string, prefix: string) {
    |prefix| <= |s| && s[..|prefix|] == prefix
  }

  predicate EndsWith(s: string, suffix: string) {
    |suffix| <= |s| && s[|s| - |suffix|..] == suffix
  }

  /** A text starts with what was put in front of it... */
  lemma StartsWithConcat(a: string, b: string)
    ensures StartsWith(a + b, a)
  {
    assert (a + b)[..|a|] == a;
  }

  /** Appending text keeps a prefix. */
  lemma StartsWithExtend(s: string, a: string, b: string)
    requires StartsWith(s, a)
    ensures StartsWith(s + b, a)
  {
    assert (s + b)[..|a|] == s[..|a|];
  }

  /** The last two pieces of a text are its suffix. */
  lemma EndsWithLastTwo(s: string, a: string, b: string)
    ensures EndsWith(s + a + b, a + b)
  {
    assert s + a + b == s + (a + b);
    EndsWithConcat(s, a + b);
  }

  /** A text that starts with `a` does not start with a `b` whose first character differs. */
  lemma OtherFirstChar(s: string, a: string, b: string)
    requires StartsWith(s, a) && a != [] && b != [] && a[0] != b[0]
    ensures !StartsWith(s, b)
  {
    assert s[0] == s[..|a|][0];
    if |b| <= |s| {
      assert s[0] == s[..|b|][0];
    }
  }

  /** ...and ends with what was put after it. */
  lemma EndsWithConcat(a: string, b: string)
    ensures EndsWith(a + b, b)
  {
    assert (a + b)[|a + b| - |b|..] == b;
  }

  /** Plain lexicographic order on strings, by character code. */
  predicate StrLe(a: string, b: string) {
    if a == [] then true
    else if b == [] then false
    else if a[0] < b[0] then true
    else if a[0] > b[0] then false
    else StrLe(a[1..], b[1..])
  }

  lemma {:induction false} StrLeTotal(a: string, b: string)
    ensures StrLe(a, b) || StrLe(b, a)
  {
    if a != [] && b != [] && a[0] == b[0] {
      StrLeTotal(a[1..], b[1..]);
    }
  }

  lemma {:induction false} StrLeTransitive(a: string, b: string, c: string)
    requires StrLe(a, b) && StrLe(b, c)
    ensures StrLe(a, c)
  {
    if a != [] && b != [] && c != [] && a[0] == b[0] == c[0] {
      StrLeTransitive(a[1..], b[1..], c[1..]);
    }
  }

  lemma {:induction false} StrLeAntisymmetric(a: string, b: string)
    requires StrLe(a, b) && StrLe(b, a)
    ensures a == b
  {
    if a != [] && b != [] {
      StrLeAntisymmetric(a[1..], b[1..]);
      assert a == [a[0]] + a[1..] && b == [b[0]] + b[1..];
    }
  }

  /** String order is a total order, so sorting by a string key is well defined. */
  lemma StrLeIsTotalPreorder()
    ensures Sorting.TotalPreorder(StrLe)
  {
    forall a, b ensures StrLe(a, b) || StrLe(b, a) {
      StrLeTotal(a, b);
    }
    forall a, b, c | StrLe(a, b) && StrLe(b, c) ensures StrLe(a, c) {
      StrLeTransitive(a, b, c);
    }
  }

  function DigitChar(d: nat): char
    requires d < 10
  {
    "0123456789"[d]
  }

  /** The decimal rendering of `n`, without leading zeros. */
  function NatToString(n: nat): (s: string)
    ensures |s| >= 1
    ensures forall i :: 0 <= i < |s| ==> '0' <= s[i] <= '9'
  {
    if n < 10 then [DigitChar(n)] else NatToString(n / 10) + [DigitChar(n % 10)]
  }

  function Zeros(k: nat): (zs: string)
    ensures |zs| == k
    ensures forall i :: 0 <= i < k ==> zs[i] == '0'
  {
    seq(k, _ => '0')
  }

  /** `String(n).padStart(width, "0")`. */
  function PadNat(n: nat, width: nat): (s: string)
    ensures |s| >= width
    ensures forall i :: 0 <= i < |s| ==> '0' <= s[i] <= '9'
  {
    var digits := NatToString(n);
    if |digits| >= width then digits else Zeros(width - |digits|) + digits
  }

  /** A number below `10^k` has at most `k` digits, so padding it to `k` gives exactly `k` characters. */
  lemma {:induction false} NatToStringLength(n: nat, k: nat)
    requires 1 <= k
    requires n < Pow10(k)
    ensures |NatToString(n)| <= k
    ensures |PadNat(n, k)| == k
  {
    if n >= 10 {
      assert Pow10(1) == 10;
      assert n / 10 < Pow10(k - 1);
      NatToStringLength(n / 10, k - 1);
    }
  }

  function Pow10(k: nat): (p: nat)
    ensures p >= 1
  {
    if k == 0 then 1 else 10 * Pow10(k - 1)
  }

  predicate IsDigit(c: char) {
    '0' <= c <= '9'
  }

  /** The value of a string of decimal digits, most significant first; the empty string is 0. */
  function DigitsValue(ds: string): nat
    requires forall i :: 0 <= i < |ds| ==> IsDigit(ds[i])
  {
    if ds == [] then 0
    else
      assert IsDigit(ds[|ds| - 1]);
      10 * DigitsValue(ds[..|ds| - 1]) + (ds[|ds| - 1] as int - '0' as int)
  }

  /** Reading back a decimal rendering gives the number. */
  lemma {:induction false} NatToStringValue(n: nat)
    ensures DigitsValue(NatToString(n)) == n
  {
    if n >= 10 {
      var s := NatToString(n);
      assert s[..|s| - 1] == NatToString(n / 10);
      NatToStringValue(n / 10);
    }
  }

  /** Leading zeros do not change the value. */
  lemma {:induction false} LeadingZerosValue(k: nat, ds: string)
    requires forall i :: 0 <= i < |ds| ==> IsDigit(ds[i])
    ensures forall i :: 0 <= i < k + |ds| ==> IsDigit((Zeros(k) + ds)[i])
    ensures DigitsValue(Zeros(k) + ds) == DigitsValue(ds)
  {
    var zs := Zeros(k);
    if ds == [] {
      assert zs + ds == zs;
      ZerosValue(k);
    } else {
      assert (zs + ds)[..|zs + ds| - 1] == zs + ds[..|ds| - 1];
      LeadingZerosValue(k, ds[..|ds| - 1]);
    }
  }

  lemma {:induction false} ZerosValue(k: nat)
    ensures DigitsValue(Zeros(k)) == 0
  {
    if k > 0 {
      assert Zeros(k)[..k - 1] == Zeros(k - 1);
      ZerosValue(k - 1);
    }
  }

  /** A zero-padded rendering reads back as the number. */
  lemma PadNatValue(n: nat, width: nat)
    ensures DigitsValue(PadNat(n, width)) == n
  {
    var digits := NatToString(n);
    NatToStringValue(n);
    if |digits| < width {
      LeadingZerosValue(width - |digits|, digits);
      assert PadNat(n, width) == Zeros(width - |digits|) + digits;
    } else {
      assert PadNat(n, width) == digits;
    }
  }
}
