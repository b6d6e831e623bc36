/** The parts of Go's `strings` and `strconv` packages, and of Go's
    64-bit integer arithmetic, that the cluster tools rely on. Text is a
    sequence of Unicode scalar values. */
module GoStrings {
  import opened Faults

  const MaxInt64: int := 0x7FFF_FFFF_FFFF_FFFF
  const MinInt64: int := -0x8000_0000_0000_0000
  const MaxUint64: int := 0xFFFF_FFFF_FFFF_FFFF

  type uint64 = x: int | 0 <= x <= 0xFFFF_FFFF_FFFF_FFFF
  type int64 = x: int | -0x8000_0000_0000_0000 <= x <= 0x7FFF_FFFF_FFFF_FFFF

  // ---------------------------------------------------------------- trimming

  /** unicode.IsSpace, the class strings.TrimSpace removes. */
  predicate IsSpace(c: char) {
    || c == ' ' || c == '\t' || c == '\n' || c == '\r' || c == '\U{0B}' || c == '\U{0C}'
    || c == '\U{85}' || c == '\U{A0}' || c == '\U{1680}'
    || ('\U{2000}' <= c <= '\U{200A}')
    || c == '\U{2028}' || c == '\U{2029}' || c == '\U{202F}' || c == '\U{205F}' || c == '\U{3000}'
  }

  function TrimLeftSpace(s: string): (r: string)
    ensures |r| <= |s| && r == s[|s| - |r|..]
    ensures r == [] || !IsSpace(r[0])
    ensures forall i :: 0 <= i < |s| - |r| ==> IsSpace(s[i])
  {
    if s != [] && IsSpace(s[0]) then TrimLeftSpace(s[1..]) else s
  }

  function TrimRightSpace(s: string): (r: string)
    ensures |r| <= |s| && r == s[..|r|]
    ensures r == [] || !IsSpace(r[|r| - 1])
    ensures forall i :: |r| <= i < |s| ==> IsSpace(s[i])
  {
    if s != [] && IsSpace(s[|s| - 1]) then TrimRightSpace(s[..|s| - 1]) else s
  }

  /** strings.TrimSpace */
  function TrimSpace(s: string): string {
    TrimRightSpace(TrimLeftSpace(s))
  }

  /** strings.TrimLeft(s, [c]): drop every leading `c`. */
  function TrimLeftChar(s: string, c: char): (r: string)
    ensures |r| <= |s| && r == s[|s| - |r|..]
    ensures r == [] || r[0] != c
    ensures forall i :: 0 <= i < |s| - |r| ==> s[i] == c
  {
    if s != [] && s[0] == c then TrimLeftChar(s[1..], c) else s
  }

  /** strings.TrimRight(s, [c]): drop every trailing `c`. */
  function TrimRightChar(s: string, c: char): (r: string)
    ensures |r| <= |s| && r == s[..|r|]
    ensures r == [] || r[|r| - 1] != c
    ensures forall i :: |r| <= i < |s| ==> s[i] == c
  {
    if s != [] && s[|s| - 1] == c then TrimRightChar(s[..|s| - 1], c) else s
  }

  /** TrimLeft removes a single leading `c` when the next character differs. */
  lemma TrimLeftOne(s: string, c: char)
    requires |s| >= 2 && s[0] == c && s[1] != c
    ensures TrimLeftChar(s, c) == s[1..]
  {
    assert s[1..][0] == s[1];
  }

  /** TrimRight removes a single trailing `c` when the one before differs. */
  lemma TrimRightOne(s: string, c: char)
    requires |s| >= 2 && s[|s| - 1] == c && s[|s| - 2] != c
    ensures TrimRightChar(s, c) == s[..|s| - 1]
  {
    assert s[..|s| - 1][|s| - 2] == s[|s| - 2];
  }

  /** strings.HasPrefix */
  predicate HasPrefix(s: string, prefix: string) {
    |prefix| <= |s| && s[..|prefix|] == prefix
  }

  /** A text whose first character differs from the prefix's lacks it. */
  lemma NoPrefixByFirstChar(s: string, prefix: string)
    requires |s| > 0 && |prefix| > 0 && s[0] != prefix[0]
    ensures !HasPrefix(s, prefix)
  {
    if |prefix| <= |s| {
      assert s[..|prefix|][0] == s[0];
    }
  }

  // --------------------------------------------------------------- searching

  predicate OccursAt(s: string, sep: string, i: int) {
    0 <= i && i + |sep| <= |s| && s[i..i + |sep|] == sep
  }

  /** strings.Index restricted to positions `k` and later: the first
      occurrence of `sep` at or after `k`, or -1. */
  function IndexFrom(s: string, sep: string, k: nat): (r: int)
    requires |sep| > 0
    ensures r == -1 || (k <= r && OccursAt(s, sep, r))
    ensures r == -1 ==> forall j :: k <= j ==> !OccursAt(s, sep, j)
    ensures r != -1 ==> forall j :: k <= j < r ==> !OccursAt(s, sep, j)
    decreases |s| - k
  {
    if k + |sep| > |s| then -1
    else if s[k..k + |sep|] == sep then k
    else IndexFrom(s, sep, k + 1)
  }

  /** strings.Index */
  function Index(s: string, sep: string): int
    requires |sep| > 0
  {
    IndexFrom(s, sep, 0)
  }

  // --------------------------------------------------------------- splitting

  /** strings.Split for a non-empty separator: the text between successive
      leftmost non-overlapping occurrences of `sep`. */
  function Split(s: string, sep: string): (parts: seq<string>)
    requires |sep| > 0
    ensures |parts| >= 1
    decreases |s|
  {
    var i := Index(s, sep);
    if i < 0 then [s] else [s[..i]] + Split(s[i + |sep|..], sep)
  }

  /** strings.SplitN for n > 0: at most n parts, the last one unsplit. */
  function SplitN(s: string, sep: string, n: nat): (parts: seq<string>)
    requires |sep| > 0 && n > 0
    ensures 1 <= |parts| <= n
    decreases n
  {
    var i := Index(s, sep);
    if n == 1 || i < 0 then [s] else [s[..i]] + SplitN(s[i + |sep|..], sep, n - 1)
  }

  /** strings.Join, the inverse of Split. */
  function Join(parts: seq<string>, sep: string): string {
    if |parts| == 0 then ""
    else if |parts| == 1 then parts[0]
    else parts[0] + sep + Join(parts[1..], sep)
  }

  /** Appending one part to a join. */
  lemma {:induction false} JoinSnoc(parts: seq<string>, p: string, sep: string)
    ensures Join(parts + [p], sep) == if parts == [] then p else Join(parts, sep) + sep + p
    decreases |parts|
  {
    if |parts| >= 2 {
      assert (parts + [p])[1..] == parts[1..] + [p];
      JoinSnoc(parts[1..], p, sep);
    } else if |parts| == 1 {
      assert (parts + [p])[1..] == [p];
    }
  }

  /** A text is the part before an occurrence of `sep`, `sep` itself and
      the part after it. */
  lemma Reassemble(s: string, sep: string, i: int)
    requires OccursAt(s, sep, i)
    ensures s[..i] + sep + s[i + |sep|..] == s
  {
    var t := s[..i] + sep + s[i + |sep|..];
    assert |t| == |s|;
    forall k | 0 <= k < |s| ensures t[k] == s[k] {
      if k < i {
      } else if k < i + |sep| {
        assert sep[k - i] == s[i..i + |sep|][k - i];
      }
    }
  }

  /** Split loses nothing: joining the parts with the separator gives the
      text back. */
  lemma {:induction false} SplitJoin(s: string, sep: string)
    requires |sep| > 0
    ensures Join(Split(s, sep), sep) == s
    decreases |s|
  {
    var i := Index(s, sep);
    if i >= 0 {
      var rest := s[i + |sep|..];
      var tail := Split(rest, sep);
      SplitJoin(rest, sep);
      var parts := Split(s, sep);
      assert parts == [s[..i]] + tail;
      assert parts[1..] == tail;
      assert Join(parts, sep) == s[..i] + sep + Join(tail, sep);
      Reassemble(s, sep, i);
    }
  }

  /** A window inside a prefix of a text is the same window of the text. */
  lemma WindowOfPrefix(s: string, i: nat, j: nat, n: nat)
    requires j + n <= i <= |s|
    ensures s[..i][j..j + n] == s[j..j + n]
  {
  }

  /** No part of a split contains the separator. */
  lemma {:induction false} SplitPartsLackSep(s: string, sep: string, k: nat)
    requires |sep| > 0 && k < |Split(s, sep)|
    ensures Index(Split(s, sep)[k], sep) == -1
    decreases |s|
  {
    var i := Index(s, sep);
    if i >= 0 {
      if k == 0 {
        var p := s[..i];
        forall j | 0 <= j ensures !OccursAt(p, sep, j) {
          if OccursAt(p, sep, j) {
            WindowOfPrefix(s, i, j, |sep|);
            assert OccursAt(s, sep, j);
          }
        }
      } else {
        SplitPartsLackSep(s[i + |sep|..], sep, k - 1);
      }
    }
  }

  /** A single-character separator cuts the text into one more part than
      it has occurrences of that character. */
  lemma {:induction false} SplitCount(s: string, c: char)
    ensures |Split(s, [c])| == multiset(s)[c] + 1
    decreases |s|
  {
    var i := Index(s, [c]);
    if i < 0 {
      forall j | 0 <= j < |s| ensures s[j] != c {
        assert !OccursAt(s, [c], j);
      }
      assert multiset(s)[c] == 0;
    } else {
      var rest := s[i + 1..];
      SplitCount(rest, c);
      forall j | 0 <= j < i ensures s[j] != c {
        assert !OccursAt(s, [c], j);
      }
      assert multiset(s[..i])[c] == 0;
      assert s == s[..i] + [c] + rest;
      assert multiset(s) == multiset(s[..i]) + multiset([c]) + multiset(rest);
    }
  }

  /** A text without the separator is one part. */
  lemma SplitWithoutSep(s: string, sep: string)
    requires |sep| > 0 && Index(s, sep) == -1
    ensures Split(s, sep) == [s]
  {
  }

  /** The first occurrence of `sep` is the one after a prefix that does not
      contain the separator's first character. */
  lemma IndexAfterClearPrefix(a: string, sep: string, b: string)
    requires |sep| > 0
    requires forall j :: 0 <= j < |a| ==> a[j] != sep[0]
    ensures Index(a + sep + b, sep) == |a|
  {
    var s := a + sep + b;
    assert s[|a|..|a| + |sep|] == sep;
    assert OccursAt(s, sep, |a|);
    forall j | 0 <= j < |a| ensures !OccursAt(s, sep, j) {
      assert s[j] == a[j];
    }
  }

  /** Splitting `a + sep + b` when `a` cannot hold the separator. */
  lemma SplitAfterClearPrefix(a: string, sep: string, b: string)
    requires |sep| > 0
    requires forall j :: 0 <= j < |a| ==> a[j] != sep[0]
    ensures Split(a + sep + b, sep) == [a] + Split(b, sep)
  {
    var s := a + sep + b;
    IndexAfterClearPrefix(a, sep, b);
    assert s[..|a|] == a;
    assert s[|a| + |sep|..] == b;
  }

  /** A text with no `c` holds no occurrence of a separator that contains `c`. */
  lemma NoIndexWithoutChar(s: string, sep: string, c: char)
    requires |sep| > 0 && c in sep
    requires forall j :: 0 <= j < |s| ==> s[j] != c
    ensures Index(s, sep) == -1
  {
  }

  // ----------------------------------------------------------------- numbers

  predicate IsDigit(c: char) {
    '0' <= c <= '9'
  }

  predicate AllDigits(s: string) {
    forall i :: 0 <= i < |s| ==> IsDigit(s[i])
  }

  /** The value of a decimal numeral, most significant digit first. */
  function DecimalValue(s: string): nat
    requires AllDigits(s)
  {
    if s == [] then 0 else DecimalValue(s[..|s| - 1]) * 10 + (s[|s| - 1] as int - '0' as int)
  }

  /** strconv.ParseUint(s, 10, 64): a non-empty run of decimal digits (no
      sign, no underscores) whose value fits in 64 bits. */
  function ParseUint(s: string): Option<uint64> {
    if |s| > 0 && AllDigits(s) && DecimalValue(s) <= MaxUint64 then Some(DecimalValue(s)) else None
  }

  /** strconv.Atoi on a 64-bit platform: an optional '+' or '-' followed by
      a non-empty run of decimal digits whose value fits in int64. */
  function Atoi(s: string): Option<int64> {
    var negative := |s| > 0 && s[0] == '-';
    var digits := if |s| > 0 && (s[0] == '+' || s[0] == '-') then s[1..] else s;
    if |digits| > 0 && AllDigits(digits) then
      var v: int := if negative then -(DecimalValue(digits) as int) else DecimalValue(digits);
      if MinInt64 <= v <= MaxInt64 then Some(v) else None
    else None
  }

  /** Reduce an integer to Go's int64 by two's-complement wrap-around. */
  function Wrap64(x: int): int64 {
    (x - MinInt64) % 0x1_0000_0000_0000_0000 + MinInt64
  }

  /** int(u) for a uint64 u: values above MaxInt64 become negative. */
  function ToInt(u: uint64): int64 {
    if u <= MaxInt64 then u else u - 0x1_0000_0000_0000_0000
  }

  function Abs(x: int): nat {
    if x < 0 then -x else x
  }

  /** Integer division truncated toward zero, as Go's `/` computes it. */
  function TruncQuo(n: int, d: int): int
    requires d != 0
  {
    if (n < 0) == (d < 0) then Abs(n) / Abs(d) else -(Abs(n) / Abs(d))
  }

  lemma MulMonotonic(x: nat, y: int, z: int)
    requires y <= z
    ensures x * y <= x * z
  {
    if x > 0 {
      MulMonotonic(x - 1, y, z);
      assert x * y == (x - 1) * y + y;
      assert x * z == (x - 1) * z + z;
    }
  }

  /** The remainder left by a truncated quotient is smaller than the divisor
      and has the sign of the dividend. */
  lemma TruncQuoRemainder(n: int, d: int)
    requires d != 0
    ensures var rem := n - TruncQuo(n, d) * d;
      Abs(rem) < Abs(d) && (rem == 0 || (rem < 0 <==> n < 0))
  {
    var a: int, b: int := Abs(n), Abs(d);
    var q := a / b;
    assert a == q * b + a % b;
    var t := TruncQuo(n, d);
    if n >= 0 && d > 0 {
      assert t * d == q * b;
    } else if n >= 0 {
      assert t * d == (-q) * (-b) == q * b;
    } else if d > 0 {
      assert t * d == (-q) * b == -(q * b);
    } else {
      assert t * d == q * (-b) == -(q * b);
    }
  }

  /** A natural quotient is no larger than its dividend, and equally large
      only when dividing by 1. */
  lemma DivSize(a: nat, b: nat)
    requires b >= 1
    ensures a / b <= a
    ensures a / b == a && a != 0 ==> b == 1
  {
    var q := a / b;
    assert q * b <= a by {
      assert a == q * b + a % b;
    }
    MulMonotonic(q, 1, b);
    if b != 1 {
      MulMonotonic(q, 2, b);
    }
  }

  /** A truncated quotient is no larger than its dividend, and equally large
      only when dividing by 1 or -1. */
  lemma TruncQuoSize(n: int, d: int)
    requires d != 0
    ensures Abs(TruncQuo(n, d)) <= Abs(n)
    ensures Abs(TruncQuo(n, d)) == Abs(n) && n != 0 ==> Abs(d) == 1
  {
    var a, b := Abs(n), Abs(d);
    var q: int := a / b;
    DivSize(a, b);
    assert TruncQuo(n, d) == q || TruncQuo(n, d) == -q;
  }

  /** Go's `n / d` on int64: the quotient truncated toward zero, wrapped
      (only MinInt64 / -1 overflows, and yields MinInt64). */
  function GoQuo(n: int64, d: int64): (q: int64)
    requires d != 0
    ensures n != MinInt64 || d != -1 ==>
      var rem := n - q * d;
      Abs(rem) < Abs(d) && (rem == 0 || (rem < 0 <==> n < 0))
  {
    TruncQuoRemainder(n, d);
    TruncQuoSize(n, d);
    var t := TruncQuo(n, d);
    if MinInt64 <= t <= MaxInt64 then WrapInRange(t); Wrap64(t) else Wrap64(t)
  }

  /** Adding after a wrap is the same as wrapping after the addition. */
  lemma WrapAdd(a: int, b: int)
    ensures Wrap64(Wrap64(a) + b) == Wrap64(a + b)
  {
    var m := 0x1_0000_0000_0000_0000;
    var x := a - MinInt64;
    assert x == (x / m) * m + x % m;
    assert Wrap64(a) + b - MinInt64 == (x + b) - (x / m) * m;
    ModMultiple(x + b, x / m);
  }

  lemma ModMultiple(y: int, k: int)
    ensures (y - k * 0x1_0000_0000_0000_0000) % 0x1_0000_0000_0000_0000 == y % 0x1_0000_0000_0000_0000
  {
  }

  /** An int64 is its own wrap. */
  lemma WrapInRange(x: int)
    requires MinInt64 <= x <= MaxInt64
    ensures Wrap64(x) == x
  {
  }
}
