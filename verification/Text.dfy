/** The string operations the path printers and parsers are built from. */
module Text {
  import opened Prelude

  const USIZE_MAX := 0xFFFF_FFFF_FFFF_FFFF

  predicate Contains(s: string, c: char) {
    exists i :: 0 <= i < |s| && s[i] == c
  }

  /** Index of the first `c`, or the length if there is none. */
  function IndexOf(s: string, c: char): (i: nat)
    ensures i <= |s|
    ensures forall k :: 0 <= k < i ==> s[k] != c
    ensures i < |s| ==> s[i] == c
  {
    if s == "" || s[0] == c then 0 else 1 + IndexOf(s[1..], c)
  }

  function Join(parts: seq<string>, sep: string): string {
    if parts == [] then ""
    else if |parts| == 1 then parts[0]
    else parts[0] + sep + Join(parts[1..], sep)
  }

  /** `s.split(sep)`: the pieces between occurrences of `sep`, found from the left. */
  function Split(s: string, sep: string): (parts: seq<string>)
    requires sep != ""
    ensures parts != []
  {
    if |s| < |sep| then [s]
    else if s[..|sep|] == sep then [""] + Split(s[|sep|..], sep)
    else var rest := Split(s[1..], sep); [[s[0]] + rest[0]] + rest[1..]
  }

  lemma {:induction false} SplitAtSeparator(p: string, sep: string, rest: string)
    requires sep != "" && !Contains(p, sep[0])
    ensures Split(p + sep + rest, sep) == [p] + Split(rest, sep)
  {
    var s := p + sep + rest;
    if p == "" {
      assert s[..|sep|] == sep && s[|sep|..] == rest;
    } else {
      assert p[0] != sep[0];
      assert s[..|sep|][0] == p[0];
      assert s[1..] == p[1..] + sep + rest;
      assert forall i :: 0 <= i < |p[1..]| ==> p[1..][i] == p[i + 1];
      SplitAtSeparator(p[1..], sep, rest);
      assert [p[0]] + p[1..] == p;
    }
  }

  lemma {:induction false} SplitNone(p: string, sep: string)
    requires sep != "" && !Contains(p, sep[0])
    ensures Split(p, sep) == [p]
  {
    if |p| >= |sep| {
      assert p[..|sep|][0] == p[0] != sep[0];
      assert forall i :: 0 <= i < |p[1..]| ==> p[1..][i] == p[i + 1];
      SplitNone(p[1..], sep);
      assert [p[0]] + p[1..] == p;
    }
  }

  /** Splitting undoes joining when no piece contains the start of the separator. */
  lemma {:induction false} SplitJoin(parts: seq<string>, sep: string)
    requires parts != [] && sep != ""
    requires forall p :: p in parts ==> !Contains(p, sep[0])
    ensures Split(Join(parts, sep), sep) == parts
  {
    if |parts| == 1 {
      SplitNone(parts[0], sep);
    } else {
      SplitAtSeparator(parts[0], sep, Join(parts[1..], sep));
      SplitJoin(parts[1..], sep);
    }
  }

  lemma {:induction false} JoinContains(parts: seq<string>, sep: string, c: char)
    ensures Contains(Join(parts, sep), c) ==>
              (|parts| > 1 && Contains(sep, c)) || exists i :: 0 <= i < |parts| && Contains(parts[i], c)
    ensures (exists i :: 0 <= i < |parts| && Contains(parts[i], c)) ==> Contains(Join(parts, sep), c)
  {
    if |parts| == 1 {
      assert Contains(parts[0], c) ==> Contains(Join(parts, sep), c);
    } else if |parts| > 1 {
      JoinContains(parts[1..], sep, c);
      ConcatContains(parts[0] + sep, Join(parts[1..], sep), c);
      ConcatContains(parts[0], sep, c);
      if i :| 0 <= i < |parts[1..]| && Contains(parts[1..][i], c) { assert Contains(parts[i + 1], c); }
      if i :| 0 <= i < |parts| && Contains(parts[i], c) {
        if i > 0 { assert Contains(parts[1..][i - 1], c); }
      }
    }
  }

  lemma JoinHasNo(parts: seq<string>, sep: string, c: char)
    requires !Contains(sep, c) && forall p :: p in parts ==> !Contains(p, c)
    ensures !Contains(Join(parts, sep), c)
  {
    JoinContains(parts, sep, c);
  }

  lemma ConcatContains(a: string, b: string, c: char)
    ensures Contains(a + b, c) <==> Contains(a, c) || Contains(b, c)
  {
    if i :| 0 <= i < |a| && a[i] == c { assert (a + b)[i] == c; }
    if i :| 0 <= i < |b| && b[i] == c { assert (a + b)[|a| + i] == c; }
  }

  /** `s.rsplit(sep).next()`: what follows the last occurrence of `sep`, or all of `s`. */
  function AfterLast(s: string, sep: string): string
    requires sep != ""
  {
    if |s| < |sep| then s
    else if OccursIn(s[1..], sep) then AfterLast(s[1..], sep)
    else if s[..|sep|] == sep then s[|sep|..]
    else s
  }

  predicate At(s: string, sep: string, i: int) {
    0 <= i && i + |sep| <= |s| && s[i..i + |sep|] == sep
  }

  predicate OccursIn(s: string, sep: string) {
    exists i :: 0 <= i <= |s| && At(s, sep, i)
  }

  /** The tail of a separator followed by text without its characters does not contain it. */
  lemma NoOccurrence(q: string, sep: string, k: nat)
    requires sep != "" && 0 < k <= |sep| && forall c :: c in sep ==> c !in q
    ensures !OccursIn(sep[k..] + q, sep)
  {
    var s := sep[k..] + q;
    if i :| 0 <= i <= |s| && At(s, sep, i) {
      assert s[i..i + |sep|][|sep| - 1] == sep[|sep| - 1];
      assert sep[|sep| - 1] in q;
    }
  }

  lemma {:induction false} AfterLastSeparator(p: string, sep: string, q: string)
    requires sep != "" && forall c :: c in sep ==> c !in q
    ensures AfterLast(p + sep + q, sep) == q
  {
    var s := p + sep + q;
    if p == "" {
      NoOccurrence(q, sep, 1);
      assert s[1..] == sep[1..] + q;
      assert s[..|sep|] == sep && s[|sep|..] == q;
    } else {
      assert s[1..] == p[1..] + sep + q;
      assert At(s[1..], sep, |p| - 1);
      AfterLastSeparator(p[1..], sep, q);
    }
  }

  lemma AfterLastNone(q: string, sep: string)
    requires sep != "" && forall c :: c in sep ==> c !in q
    ensures AfterLast(q, sep) == q
  {
    assert sep[0] !in q;
    if |q| >= |sep| {
      assert q[..|sep|][0] == q[0] && q[0] in q;
      forall i | 0 <= i <= |q[1..]| ensures !At(q[1..], sep, i) {
        if i + |sep| <= |q[1..]| {
          assert q[1..][i..i + |sep|][0] == q[i + 1] && q[i + 1] in q;
        }
      }
    }
  }

  predicate EndsWith(s: string, suffix: string) {
    |suffix| <= |s| && s[|s| - |suffix|..] == suffix
  }

  /** Unicode White_Space. */
  predicate IsSpace(c: char) {
    var n := c as int;
    9 <= n <= 13 || n == 32 || n == 0x85 || n == 0xA0 || n == 0x1680 || 0x2000 <= n <= 0x200A
    || n == 0x2028 || n == 0x2029 || n == 0x202F || n == 0x205F || n == 0x3000
  }

  // ----- order ---------------------------------------------------------------------

  predicate LexLeq(a: string, b: string) {
    a == "" || (b != "" && (a[0] < b[0] || (a[0] == b[0] && LexLeq(a[1..], b[1..]))))
  }

  lemma {:induction false} LexTotal(a: string, b: string)
    ensures LexLeq(a, b) || LexLeq(b, a)
  {
    if a != "" && b != "" && a[0] == b[0] { LexTotal(a[1..], b[1..]); }
  }

  lemma {:induction false} LexAntisymmetric(a: string, b: string)
    requires LexLeq(a, b) && LexLeq(b, a)
    ensures a == b
  {
    if a != "" {
      LexAntisymmetric(a[1..], b[1..]);
      assert a == [a[0]] + a[1..] && b == [b[0]] + b[1..];
    }
  }

  lemma {:induction false} LexTransitive(a: string, b: string, c: string)
    requires LexLeq(a, b) && LexLeq(b, c)
    ensures LexLeq(a, c)
  {
    if a != "" && a[0] == b[0] == c[0] { LexTransitive(a[1..], b[1..], c[1..]); }
  }

  // ----- decimal numbers ------------------------------------------------------------

  /** A name that could lead out of its directory. */
  predicate IsPathLike(name: string) {
    || (exists i :: 0 <= i < |name| && (name[i] == '/' || name[i] == '\\'))
    || name == "." || name == ".."
  }

  predicate IsDigit(c: char) { '0' <= c <= '9' }

  function Digit(d: nat): char
    requires d < 10
  {
    '0' + d as char
  }

  /** How `{}` prints an unsigned integer. */
  function Decimal(n: nat): (s: string)
    ensures s != "" && forall i :: 0 <= i < |s| ==> IsDigit(s[i])
  {
    if n < 10 then [Digit(n)] else Decimal(n / 10) + [Digit(n % 10)]
  }

  function Value(s: string): nat
    requires forall i :: 0 <= i < |s| ==> IsDigit(s[i])
  {
    if s == "" then 0 else assert IsDigit(s[|s| - 1]); Value(s[..|s| - 1]) * 10 + (s[|s| - 1] as int - '0' as int)
  }

  function WithoutPlus(s: string): string {
    if s != "" && s[0] == '+' then s[1..] else s
  }

  predicate AllDigits(s: string) {
    forall i :: 0 <= i < |s| ==> IsDigit(s[i])
  }

  /** `s.parse::<usize>()`: an optional plus, then digits, no overflow. */
  function ParseUsize(s: string): Option<nat> {
    var digits := WithoutPlus(s);
    if digits != "" && AllDigits(digits) && Value(digits) <= USIZE_MAX then Some(Value(digits)) else None
  }

  /** Exactly the numerals parse: digits, at least one, perhaps after a plus, of a value that fits 64 bits. */
  lemma ParsesIff(s: string, n: nat)
    ensures ParseUsize(s) == Some(n) <==>
            exists d :: (s == d || s == "+" + d) && d != "" && AllDigits(d) && Value(d) == n <= 0xFFFF_FFFF_FFFF_FFFF
  {
    if ParseUsize(s) == Some(n) {
      var d := WithoutPlus(s);
      assert s == d || s == "+" + d;
    }
    if d :| (s == d || s == "+" + d) && d != "" && AllDigits(d) && Value(d) == n <= 0xFFFF_FFFF_FFFF_FFFF {
      assert IsDigit(d[0]) && d[0] != '+';
      assert WithoutPlus(s) == d;
    }
  }

  /** What parses has only digits after an optional plus. */
  lemma ParsedIsNumeral(s: string, i: nat)
    requires ParseUsize(s).Some? && i < |s|
    ensures IsDigit(s[i]) || s[i] == '+'
  {
    var digits := WithoutPlus(s);
    if digits == s {
      assert IsDigit(digits[i]);
    } else if i > 0 {
      assert IsDigit(digits[i - 1]) && digits[i - 1] == s[i];
    }
  }

  lemma DecimalIsInjective(m: nat, n: nat)
    requires Decimal(m) == Decimal(n)
    ensures m == n
  {
    ValueOfDecimal(m);
    ValueOfDecimal(n);
  }

  lemma {:induction false} ValueOfDecimal(n: nat)
    ensures Value(Decimal(n)) == n
  {
    var s := Decimal(n);
    if n >= 10 {
      ValueOfDecimal(n / 10);
      assert s[..|s| - 1] == Decimal(n / 10);
    } else {
      assert s[..|s| - 1] == "";
    }
  }

  lemma ParsePrinted(n: nat)
    requires n <= USIZE_MAX
    ensures ParseUsize(Decimal(n)) == Some(n)
  {
    ValueOfDecimal(n);
    assert IsDigit(Decimal(n)[0]);
  }
}
