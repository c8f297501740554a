/** The string and number formatting behaviour of Go's standard library that
    the task tracker relies on: decimal rendering (`%d`, `%06d`, zero-padded
    time fields), decimal scanning (`fmt.Sscanf` with `%d`, JSON integer
    claims), `strings.Split` on a one-character separator and
    `strings.TrimSpace`. */
module Text {
  import opened Wrappers

  // ---------------------------------------------------------------------
  // Digits
  // ---------------------------------------------------------------------

  predicate IsDigit(c: char) { '0' <= c <= '9' }

  predicate AllDigits(s: string) { forall i :: 0 <= i < |s| ==> IsDigit(s[i]) }

  function DigitValue(c: char): nat
    requires IsDigit(c)
  {
    c as int - '0' as int
  }

  function DigitChar(d: nat): (c: char)
    requires d < 10
    ensures IsDigit(c) && DigitValue(c) == d
  {
    ('0' as int + d) as char
  }

  function Pow10(k: nat): (p: nat)
    ensures p >= 1
  {
    if k == 0 then 1 else 10 * Pow10(k - 1)
  }

  function Max(a: nat, b: nat): nat { if a < b then b else a }

  /** The value of a string of decimal digits, most significant digit first
      (what `strconv.Atoi` computes for an unsigned digit string). */
  function DigitsValue(s: string): nat
    requires AllDigits(s)
  {
    if s == [] then 0 else DigitsValue(s[..|s| - 1]) * 10 + DigitValue(s[|s| - 1])
  }

  /** The last `w` decimal digits of `n`, leading zeros included. */
  function Fixed(n: nat, w: nat): (r: string)
    ensures |r| == w && AllDigits(r)
  {
    if w == 0 then [] else Fixed(n / 10, w - 1) + [DigitChar(n % 10)]
  }

  lemma {:induction false} Pow10Monotone(a: nat, b: nat)
    requires a <= b
    ensures Pow10(a) <= Pow10(b)
  {
    if a < b { Pow10Monotone(a, b - 1); }
  }

  /** Rendering `n` on `w` digits and reading the digits back gives `n`
      whenever `n` fits in `w` digits. */
  lemma {:induction false} FixedValue(n: nat, w: nat)
    requires n < Pow10(w)
    ensures DigitsValue(Fixed(n, w)) == n
  {
    if w > 0 {
      var s := Fixed(n, w);
      assert s[..w - 1] == Fixed(n / 10, w - 1);
      FixedValue(n / 10, w - 1);
    }
  }

  /** Reading a digit string and rendering the value on as many digits gives
      back the same string (leading zeros included). */
  lemma {:induction false} FixedOfValue(s: string)
    requires AllDigits(s)
    ensures Fixed(DigitsValue(s), |s|) == s
  {
    if s != [] {
      var init := s[..|s| - 1];
      var v := DigitsValue(s);
      assert v / 10 == DigitsValue(init) && v % 10 == DigitValue(s[|s| - 1]);
      FixedOfValue(init);
      assert s == init + [s[|s| - 1]];
    }
  }

  lemma {:induction false} DigitsValueBound(s: string)
    requires AllDigits(s)
    ensures DigitsValue(s) < Pow10(|s|)
  {
    if s != [] { DigitsValueBound(s[..|s| - 1]); }
  }

  /** The number of decimal digits `n` is written with. */
  function DigitCount(n: nat): (k: nat)
    ensures k >= 1
    ensures n < Pow10(k)
    ensures k > 1 ==> n >= Pow10(k - 1)
  {
    if n < 10 then 1 else 1 + DigitCount(n / 10)
  }

  /** A value below 10^k needs at most k digits. */
  lemma {:induction false} DigitCountAtMost(n: nat, k: nat)
    requires k >= 1 && n < Pow10(k)
    ensures DigitCount(n) <= k
  {
    if n >= 10 {
      DigitCountAtMost(n / 10, k - 1);
    }
  }

  /** Go's zero-padded decimal rendering (`%0wd`, and the padded fields of a
      time layout): at least `w` digits, more when `n` needs them. */
  function ZeroPad(n: nat, w: nat): (r: string)
    ensures AllDigits(r) && |r| == Max(w, DigitCount(n))
    ensures DigitsValue(r) == n
  {
    Pow10Monotone(DigitCount(n), Max(w, DigitCount(n)));
    FixedValue(n, Max(w, DigitCount(n)));
    Fixed(n, Max(w, DigitCount(n)))
  }

  /** `strconv.Itoa` of a non-negative value: no leading zeros. */
  function Decimal(n: nat): (r: string)
    ensures AllDigits(r) && |r| >= 1 && DigitsValue(r) == n
    ensures |r| > 1 ==> r[0] != '0'
  {
    var k := DigitCount(n);
    if k > 1 then
      assert Fixed(n, k) == Fixed(n / 10, k - 1) + [DigitChar(n % 10)];
      DecimalLeadingDigit(n, k);
      ZeroPad(n, 1)
    else ZeroPad(n, 1)
  }

  lemma {:induction false} DecimalLeadingDigit(n: nat, k: nat)
    requires k > 1 && Pow10(k - 1) <= n < Pow10(k)
    ensures Fixed(n, k)[0] != '0'
  {
    if k == 2 {
      assert n / 10 >= 1 && n / 10 < 10;
      assert Fixed(n / 10, 1) == [DigitChar(n / 10)];
    } else {
      assert Pow10(k - 2) <= n / 10 < Pow10(k - 1);
      DecimalLeadingDigit(n / 10, k - 1);
    }
  }

  /** `%d` of a signed integer. */
  function IntToDecimal(i: int): (r: string)
    ensures |r| >= 1
    ensures i < 0 <==> r[0] == '-'
  {
    if i < 0 then "-" + Decimal(-i) else Decimal(i)
  }

  /** A strict signed decimal: an optional '-' followed by one or more digits
      and nothing else. */
  function ParseInt(s: string): (r: Option<int>)
    ensures r.Some? ==> |s| >= 1
  {
    if |s| > 1 && s[0] == '-' && AllDigits(s[1..]) then Some(-(DigitsValue(s[1..]) as int))
    else if |s| >= 1 && AllDigits(s) then Some(DigitsValue(s))
    else None
  }

  lemma ParseIntRoundTrip(i: int)
    ensures ParseInt(IntToDecimal(i)) == Some(i)
  {
    if i < 0 {
      assert IntToDecimal(i)[1..] == Decimal(-i);
    }
  }

  /** The length of the run of digits `s` starts with. */
  function LeadingDigits(s: string): (k: nat)
    ensures k <= |s| && AllDigits(s[..k])
    ensures k < |s| ==> !IsDigit(s[k])
  {
    if s != [] && IsDigit(s[0]) then
      var k := 1 + LeadingDigits(s[1..]);
      assert s[..k] == [s[0]] + s[1..][..k - 1];
      k
    else 0
  }

  /** `fmt.Sscanf(s, "%d", &v)` into a variable that starts at 0, with the
      scan's error ignored: an optional sign, then the longest run of
      digits; without a digit the variable keeps 0. */
  function ScanInt(s: string): int {
    var signed := |s| > 0 && (s[0] == '-' || s[0] == '+');
    var body := if signed then s[1..] else s;
    var k := LeadingDigits(body);
    if k == 0 then 0
    else if signed && s[0] == '-' then -(DigitsValue(body[..k]) as int)
    else DigitsValue(body[..k])
  }

  lemma ScanIntRoundTrip(i: int)
    ensures ScanInt(IntToDecimal(i)) == i
  {
    var s := IntToDecimal(i);
    var body := if i < 0 then s[1..] else s;
    assert body == Decimal(if i < 0 then -i else i);
    AllDigitsLeading(body);
    assert body[..|body|] == body;
  }

  lemma AllDigitsLeading(s: string)
    requires AllDigits(s)
    ensures LeadingDigits(s) == |s|
  {
    if s != [] { AllDigitsLeading(s[1..]); }
  }

  /** A run of digits followed by a non-digit is read up to that non-digit. */
  lemma {:induction false} LeadingDigitsThen(s: string, rest: string)
    requires AllDigits(s) && (rest == [] || !IsDigit(rest[0]))
    ensures LeadingDigits(s + rest) == |s|
  {
    if s != [] {
      assert (s + rest)[1..] == s[1..] + rest;
      LeadingDigitsThen(s[1..], rest);
    }
  }

  /** `Sscanf` with `%d` reads a rendered integer back even when other text
      that does not start with a digit follows it. */
  lemma ScanIntThen(i: int, rest: string)
    requires rest == [] || !IsDigit(rest[0])
    ensures ScanInt(IntToDecimal(i) + rest) == i
  {
    var d := Decimal(if i < 0 then -i else i);
    var s := IntToDecimal(i) + rest;
    var body := if i < 0 then s[1..] else s;
    assert body == d + rest;
    LeadingDigitsThen(d, rest);
    assert body[..|d|] == d;
  }

  // ---------------------------------------------------------------------
  // Cutting and splitting
  // ---------------------------------------------------------------------

  /** `s` cut around the first occurrence of `c`. */
  function Cut(s: string, c: char): (r: Option<(string, string)>)
    ensures r.None? <==> c !in s
    ensures r.Some? ==> s == r.value.0 + [c] + r.value.1 && c !in r.value.0
  {
    if s == [] then None
    else if s[0] == c then Some(([], s[1..]))
    else match Cut(s[1..], c)
      case None => None
      case Some(p) => Some(([s[0]] + p.0, p.1))
  }

  /** A string with no `c` in its head is cut right after that head. */
  lemma {:induction false} CutAt(a: string, c: char, b: string)
    requires c !in a
    ensures Cut(a + [c] + b, c) == Some((a, b))
  {
    if a != [] {
      assert (a + [c] + b)[1..] == a[1..] + [c] + b;
      CutAt(a[1..], c, b);
      assert [a[0]] + a[1..] == a;
    }
  }

  /** Join with a one-character separator (`strings.Join`). */
  function Join(parts: seq<string>, sep: char): string
    requires |parts| >= 1
  {
    if |parts| == 1 then parts[0] else parts[0] + [sep] + Join(parts[1..], sep)
  }

  /** `strings.Split(s, sep)` for a one-character separator: the pieces
      between consecutive separators, one more piece than separators. */
  function Split(s: string, sep: char): (parts: seq<string>)
    ensures |parts| == multiset(s)[sep] + 1
    ensures forall p :: p in parts ==> sep !in p
    ensures Join(parts, sep) == s
    decreases |s|
  {
    match Cut(s, sep)
    case None =>
      assert multiset(s)[sep] == 0;
      [s]
    case Some(p) =>
      assert multiset(s) == multiset(p.0) + multiset([sep]) + multiset(p.1);
      var rest := Split(p.1, sep);
      assert ([p.0] + rest)[1..] == rest;
      [p.0] + rest
  }

  /** Splitting undoes joining pieces that hold no separator. */
  lemma {:induction false} SplitJoin(parts: seq<string>, sep: char)
    requires |parts| >= 1
    requires forall p :: p in parts ==> sep !in p
    ensures Split(Join(parts, sep), sep) == parts
  {
    if |parts| == 1 {
      assert sep !in parts[0];
    } else {
      assert parts[0] in parts;
      assert forall p :: p in parts[1..] ==> p in parts;
      CutAt(parts[0], sep, Join(parts[1..], sep));
      SplitJoin(parts[1..], sep);
    }
  }

  // ---------------------------------------------------------------------
  // White space
  // ---------------------------------------------------------------------

  /** `unicode.IsSpace`: the Latin-1 spaces and the other White_Space code
      points. */
  predicate IsSpace(c: char) {
    c == '\t' || c == '\n' || c == '\U{000B}' || c == '\U{000C}' || c == '\r' || c == ' '
    || c == '\U{0085}' || c == '\U{00A0}' || c == '\U{1680}' || ('\U{2000}' <= c <= '\U{200A}')
    || c == '\U{2028}' || c == '\U{2029}' || c == '\U{202F}' || c == '\U{205F}' || c == '\U{3000}'
  }

  predicate AllSpace(s: string) { forall i :: 0 <= i < |s| ==> IsSpace(s[i]) }

  /** Neither starts nor ends with white space. */
  predicate Trimmed(s: string) { s == [] || (!IsSpace(s[0]) && !IsSpace(s[|s| - 1])) }

  /** How many white-space characters `s` starts with. */
  function LeadingSpace(s: string): (n: nat)
    ensures n <= |s| && AllSpace(s[..n])
    ensures n < |s| ==> !IsSpace(s[n])
  {
    if s != [] && IsSpace(s[0]) then
      var m := LeadingSpace(s[1..]);
      assert s[..m + 1] == [s[0]] + s[1..][..m];
      m + 1
    else 0
  }

  /** How many white-space characters `s` ends with. */
  function TrailingSpace(s: string): (n: nat)
    ensures n <= |s| && AllSpace(s[|s| - n..])
    ensures n < |s| ==> !IsSpace(s[|s| - n - 1])
  {
    if s != [] && IsSpace(s[|s| - 1]) then
      var init := s[..|s| - 1];
      var m := TrailingSpace(init);
      assert s[|s| - (m + 1)..] == init[|init| - m..] + [s[|s| - 1]];
      m + 1
    else 0
  }

  /** `strings.TrimSpace`: the part of `s` between its leading and its
      trailing white space. */
  function TrimSpace(s: string): (r: string)
    ensures Trimmed(r)
    ensures var i := LeadingSpace(s);
      && i + |r| <= |s| && r == s[i..i + |r|]
      && AllSpace(s[..i]) && AllSpace(s[i + |r|..])
    ensures forall c :: c in r ==> c in s
  {
    var i := LeadingSpace(s);
    var l := s[i..];
    var r := l[..|l| - TrailingSpace(l)];
    assert r != [] ==> r[0] == s[i];
    assert s[i + |r|..] == l[|r|..];
    r
  }

  /** The leading white space ends where a string that does not start with
      white space is appended. */
  lemma {:induction false} LeadingSpaceOf(pre: string, t: string)
    requires AllSpace(pre) && (t == [] || !IsSpace(t[0]))
    ensures LeadingSpace(pre + t) == |pre|
  {
    if pre != [] {
      assert (pre + t)[1..] == pre[1..] + t;
      LeadingSpaceOf(pre[1..], t);
    }
  }

  /** The trailing white space starts where it is appended to a string that
      does not end with white space. */
  lemma {:induction false} TrailingSpaceOf(t: string, post: string)
    requires AllSpace(post) && (t == [] || !IsSpace(t[|t| - 1]))
    ensures TrailingSpace(t + post) == |post|
  {
    if post != [] {
      var x := t + post;
      assert x[..|x| - 1] == t + post[..|post| - 1];
      TrailingSpaceOf(t, post[..|post| - 1]);
    }
  }

  /** Surrounding white space is all `strings.TrimSpace` removes. */
  lemma TrimSpaceOf(pre: string, s: string, post: string)
    requires AllSpace(pre) && AllSpace(post) && Trimmed(s)
    ensures TrimSpace(pre + s + post) == s
  {
    var x := pre + s + post;
    if s == [] {
      assert x == (pre + post) + [];
      LeadingSpaceOf(pre + post, []);
      assert x[|x|..] == [];
    } else {
      assert x == pre + (s + post);
      LeadingSpaceOf(pre, s + post);
      assert x[|pre|..] == s + post;
      TrailingSpaceOf(s, post);
    }
  }

  /** `strings.TrimPrefix`: `s` without `prefix` when it starts with it,
      otherwise `s` itself. */
  function TrimPrefix(s: string, prefix: string): (r: string)
    ensures prefix <= s ==> prefix + r == s
    ensures !(prefix <= s) ==> r == s
  {
    if prefix <= s then s[|prefix|..] else s
  }

  /** The pieces written one after the other (what a `strings.Builder`
      holds after writing each of them). */
  function Concat(pieces: seq<string>): string {
    if pieces == [] then "" else Concat(pieces[..|pieces| - 1]) + pieces[|pieces| - 1]
  }

  /** Writing the pieces of a front and then those of a back is writing all
      of them. */
  lemma {:induction false} ConcatSplit(pieces: seq<string>, i: int)
    requires 0 <= i <= |pieces|
    ensures Concat(pieces) == Concat(pieces[..i]) + Concat(pieces[i..])
    decreases |pieces|
  {
    if i == |pieces| {
      assert pieces[..i] == pieces && pieces[i..] == [];
    } else {
      var init := pieces[..|pieces| - 1];
      ConcatSplit(init, i);
      assert init[..i] == pieces[..i];
      assert pieces[i..][..|pieces[i..]| - 1] == init[i..];
    }
  }

  /** The first piece comes first. */
  lemma ConcatCons(pieces: seq<string>)
    requires pieces != []
    ensures Concat(pieces) == pieces[0] + Concat(pieces[1..])
  {
    ConcatSplit(pieces, 1);
    assert pieces[..1] == [pieces[0]];
    assert Concat([pieces[0]]) == Concat([]) + pieces[0];
  }

  /** A piece sits between the pieces before it and those after it. */
  lemma ConcatAt(pieces: seq<string>, i: int)
    requires 0 <= i < |pieces|
    ensures Concat(pieces) == Concat(pieces[..i]) + pieces[i] + Concat(pieces[i + 1..])
  {
    ConcatSplit(pieces, i);
    ConcatCons(pieces[i..]);
    assert pieces[i..][1..] == pieces[i + 1..];
  }

  /** Appending to a string that starts with a long literal: regrouping the
      pieces explicitly keeps the solver from unfolding the literal. */
  lemma AppendAssoc(a: string, b: string, c: string)
    ensures (a + b) + c == a + (b + c)
  {
  }

  /** The middle piece of a concatenation, found by its position. */
  lemma MiddleSlice(a: string, b: string, c: string)
    ensures (a + b + c)[|a|..|a| + |b|] == b
  {
  }

  /** Writing one more piece appends it. */
  lemma ConcatSnoc(pieces: seq<string>, i: int)
    requires 0 <= i < |pieces|
    ensures Concat(pieces[..i + 1]) == Concat(pieces[..i]) + pieces[i]
  {
    assert pieces[..i + 1][..i] == pieces[..i];
  }

  function Repeat(c: char, n: nat): (r: string)
    ensures |r| == n && forall i :: 0 <= i < n ==> r[i] == c
  {
    if n == 0 then [] else [c] + Repeat(c, n - 1)
  }
}
