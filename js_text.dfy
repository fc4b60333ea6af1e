/**
 * The JavaScript string and number built-ins the site's helpers rely on,
 * written out over `string` and unbounded integers. A Dafny `char` is a
 * Unicode scalar value, whereas a JavaScript string is a sequence of UTF-16
 * code units. The two agree on every text inside the Basic Multilingual
 * Plane; a character outside it counts once here and twice in JavaScript:
 * `split`, `indexOf`, `includes`, `startsWith`, `replace` with a string
 * pattern, `padStart(width, "0")`, `toUpperCase`, `parseInt(s, 10)`,
 * number-to-string and the `%` operator.
 */
module JsText {

  datatype Option<T> = None | Some(value: T)

  // ---------------------------------------------------------------------------
  // Character classes

  predicate IsDigit(c: char) { '0' <= c <= '9' }

  predicate AllDigits(s: string) { forall i :: 0 <= i < |s| ==> IsDigit(s[i]) }

  /** White space and line terminators in ECMAScript: the `\s` class of a
      regular expression, and what `parseInt` skips before the number. */
  predicate IsJsWhitespace(c: char) {
    || c == '\t' || c == '\n' || c == '\U{000B}' || c == '\U{000C}' || c == '\r'
    || c == ' ' || c == '\U{00A0}' || c == '\U{1680}'
    || ('\U{2000}' <= c <= '\U{200A}')
    || c == '\U{2028}' || c == '\U{2029}' || c == '\U{202F}' || c == '\U{205F}'
    || c == '\U{3000}' || c == '\U{FEFF}'
  }

  predicate AllWhitespace(s: string) { forall i :: 0 <= i < |s| ==> IsJsWhitespace(s[i]) }

  // ---------------------------------------------------------------------------
  // Searching

  /** `p` occurs in `s` starting at index `i`. */
  predicate OccursAt(s: string, p: string, i: nat) {
    i + |p| <= |s| && s[i..i + |p|] == p
  }

  /** The first occurrence of `p` in `s` at or after `from`. */
  function IndexFrom(s: string, p: string, from: nat): (r: Option<nat>)
    ensures r.Some? ==> from <= r.value && OccursAt(s, p, r.value)
    ensures r.Some? ==> forall k: nat :: from <= k < r.value ==> !OccursAt(s, p, k)
    ensures r.None? ==> forall k: nat :: from <= k ==> !OccursAt(s, p, k)
    decreases |s| - from
  {
    if from + |p| > |s| then None
    else if OccursAt(s, p, from) then Some(from)
    else IndexFrom(s, p, from + 1)
  }

  /** `s.indexOf(p)`, with `None` for -1. */
  function IndexOf(s: string, p: string): (r: Option<nat>)
    ensures r.Some? ==> OccursAt(s, p, r.value)
    ensures r.Some? ==> forall k: nat :: k < r.value ==> !OccursAt(s, p, k)
    ensures r.None? ==> forall k: nat :: !OccursAt(s, p, k)
  {
    IndexFrom(s, p, 0)
  }

  /** `s.includes(p)`. */
  predicate Contains(s: string, p: string) { IndexOf(s, p).Some? }

  /** `s.startsWith(p)`. */
  predicate StartsWith(s: string, p: string) { |p| <= |s| && s[..|p|] == p }

  /** The first occurrence is determined by the two facts that define it. */
  lemma {:induction false} FirstOccurrence(s: string, p: string, i: nat)
    requires OccursAt(s, p, i)
    requires forall k: nat :: k < i ==> !OccursAt(s, p, k)
    ensures IndexOf(s, p) == Some(i)
  {
  }

  lemma {:induction false} OccursInPrefix(a: string, b: string, p: string, i: nat)
    requires OccursAt(a, p, i)
    ensures OccursAt(a + b, p, i)
  {
    assert (a + b)[i..i + |p|] == a[i..i + |p|];
  }

  /** An occurrence found in a prefix stays the first one after appending. */
  lemma {:induction false} IndexOfAppend(a: string, b: string, p: string)
    requires IndexOf(a, p).Some?
    ensures IndexOf(a + b, p) == IndexOf(a, p)
  {
    var i := IndexOf(a, p).value;
    OccursInPrefix(a, b, p, i);
    forall k: nat | k < i ensures !OccursAt(a + b, p, k) {
      if OccursAt(a + b, p, k) {
        assert (a + b)[k..k + |p|] == a[k..k + |p|];
        assert OccursAt(a, p, k);
      }
    }
    FirstOccurrence(a + b, p, i);
  }

  /** `p` occurs at the end of `a + p`, so `a + p` contains `p`. */
  lemma {:induction false} ContainsSuffix(a: string, p: string)
    ensures Contains(a + p, p)
  {
    assert (a + p)[|a|..|a| + |p|] == p;
    assert OccursAt(a + p, p, |a|);
  }

  // ---------------------------------------------------------------------------
  // split and join

  /** The parts joined back with the separator in between (`parts.join(sep)`). */
  function Join(parts: seq<string>, sep: string): string
    requires |parts| >= 1
    decreases |parts|
  {
    if |parts| == 1 then parts[0] else parts[0] + sep + Join(parts[1..], sep)
  }

  /** `s.split(sep)` for a non-empty string separator: the text between
      successive non-overlapping occurrences, scanning from the left. */
  function Split(s: string, sep: string): (parts: seq<string>)
    requires sep != []
    ensures |parts| >= 1 && Join(parts, sep) == s
    decreases |s|
  {
    match IndexOf(s, sep)
    case None => [s]
    case Some(i) =>
      var rest := Split(s[i + |sep|..], sep);
      assert s == s[..i] + sep + s[i + |sep|..];
      [s[..i]] + rest
  }

  lemma {:induction false} NoCharOccurrence(s: string, c: char)
    requires c !in s
    ensures IndexOf(s, [c]).None?
  {
    forall k: nat | k < |s| ensures !OccursAt(s, [c], k) {
      assert s[k..k + 1] == [s[k]];
    }
  }

  /** Splitting on a one-character separator undoes joining parts that do
      not contain it. */
  lemma {:induction false} SplitJoinChar(parts: seq<string>, c: char)
    requires |parts| >= 1
    requires forall k :: 0 <= k < |parts| ==> c !in parts[k]
    ensures Split(Join(parts, [c]), [c]) == parts
  {
    if |parts| == 1 {
      NoCharOccurrence(parts[0], c);
    } else {
      var s := Join(parts, [c]);
      var rest := Join(parts[1..], [c]);
      var n := |parts[0]|;
      assert s == parts[0] + [c] + rest;
      assert s[n..n + 1] == [c];
      forall k: nat | k < n ensures !OccursAt(s, [c], k) {
        assert s[k] == parts[0][k];
      }
      FirstOccurrence(s, [c], n);
      assert s[n + 1..] == rest;
      SplitJoinChar(parts[1..], c);
    }
  }

  lemma {:induction false} ConcatAssoc(a: string, b: string, c: string)
    ensures a + (b + c) == a + b + c
  {
  }

  lemma {:induction false} JoinCons(a: string, rest: seq<string>, sep: string)
    requires |rest| >= 1
    ensures Join([a] + rest, sep) == a + sep + Join(rest, sep)
  {
    assert ([a] + rest)[1..] == rest;
  }

  /** The first `c` of `a + [c] + b` is the one after `a` when `a` has none. */
  lemma {:induction false} FirstSeparator(a: string, c: char, b: string)
    requires c !in a
    ensures IndexOf(a + [c] + b, [c]) == Some(|a|)
  {
    var s := a + [c] + b;
    assert s[|a|..|a| + 1] == [c];
    forall k: nat | k < |a| ensures !OccursAt(s, [c], k) {
      assert s[k..k + 1] == [a[k]];
    }
    FirstOccurrence(s, [c], |a|);
  }

  /** The three-part case used by the date helpers. */
  lemma {:induction false} SplitThree(a: string, b: string, d: string, c: char)
    requires c !in a && c !in b && c !in d
    ensures Split(a + [c] + b + [c] + d, [c]) == [a, b, d]
  {
    assert [a, b, d][1..] == [b, d];
    assert [b, d][1..] == [d];
    assert Join([b, d], [c]) == b + [c] + d;
    assert Join([a, b, d], [c]) == a + [c] + (b + [c] + d);
    assert a + [c] + b + [c] + d == a + [c] + (b + [c] + d);
    SplitJoinChar([a, b, d], c);
  }

  lemma {:induction false} SplitTwo(a: string, b: string, c: char)
    requires c !in a && c !in b
    ensures Split(a + [c] + b, [c]) == [a, b]
  {
    assert Join([a, b], [c]) == a + [c] + b by {
      assert [a, b][1..] == [b];
    }
    SplitJoinChar([a, b], c);
  }

  /** The second part of a split: what follows the first separator, up to the
      next one or the end. */
  predicate SegmentAfterFirst(s: string, sep: string, seg: string) {
    match IndexOf(s, sep)
    case None => false
    case Some(i) =>
      var rest := s[i + |sep|..];
      && |seg| <= |rest| && rest[..|seg|] == seg
      && (|seg| == |rest| || OccursAt(rest, sep, |seg|))
      && forall k: nat :: k < |seg| ==> !OccursAt(rest, sep, k)
  }

  /** `s.split(sep)` has a second part exactly when `s` contains `sep`, and that
      part is the segment after the first separator. */
  lemma {:induction false} SplitSecond(s: string, sep: string)
    requires sep != []
    ensures |Split(s, sep)| >= 2 <==> Contains(s, sep)
    ensures |Split(s, sep)| >= 2 ==> SegmentAfterFirst(s, sep, Split(s, sep)[1])
  {
    if Contains(s, sep) {
      var i := IndexOf(s, sep).value;
      var rest := s[i + |sep|..];
      var seg := Split(s, sep)[1];
      assert seg == Split(rest, sep)[0];
      match IndexOf(rest, sep)
      case None =>
        assert seg == rest;
      case Some(j) =>
        assert seg == rest[..j];
    }
  }

  /** `s.replace(pat, rep)` with a string pattern: only the first occurrence is
      replaced, and `s` is returned unchanged when there is none. */
  function ReplaceFirst(s: string, pat: string, rep: string): (r: string)
    ensures IndexOf(s, pat).None? ==> r == s
    ensures IndexOf(s, pat).Some? ==>
              var i := IndexOf(s, pat).value;
              r == s[..i] + rep + s[i + |pat|..]
  {
    match IndexOf(s, pat)
    case None => s
    case Some(i) => s[..i] + rep + s[i + |pat|..]
  }

  // ---------------------------------------------------------------------------
  // padStart and toUpperCase

  /** `s.padStart(width, "0")`: zeros in front up to `width`; never truncates. */
  function ZeroPad(s: string, width: nat): (r: string)
    ensures |r| == if |s| >= width then |s| else width
    ensures r[|r| - |s|..] == s
    ensures forall i :: 0 <= i < |r| - |s| ==> r[i] == '0'
  {
    if |s| >= width then s else seq(width - |s|, _ => '0') + s
  }

  function UpperChar(c: char): char {
    if 'a' <= c <= 'z' then (c as int - 32) as char else c
  }

  /** `s.toUpperCase()` on the ASCII letters. */
  function ToUpper(s: string): (r: string)
    ensures |r| == |s|
    ensures forall i :: 0 <= i < |s| ==> r[i] == UpperChar(s[i])
  {
    seq(|s|, i requires 0 <= i < |s| => UpperChar(s[i]))
  }

  lemma {:induction false} ToUpperAppend(a: string, b: string)
    ensures ToUpper(a + b) == ToUpper(a) + ToUpper(b)
  {
  }

  // ---------------------------------------------------------------------------
  // Numbers and their decimal text

  function DigitChar(d: nat): char
    requires d < 10
  {
    ('0' as int + d) as char
  }

  /** The value of a string of decimal digits (0 for the empty string). */
  function DigitsValue(s: string): nat
    requires AllDigits(s)
    decreases |s|
  {
    if s == [] then 0 else DigitsValue(s[..|s| - 1]) * 10 + (s[|s| - 1] as int - '0' as int)
  }

  lemma {:induction false} DigitsValueAppend(s: string, c: char)
    requires AllDigits(s) && IsDigit(c)
    ensures AllDigits(s + [c])
    ensures DigitsValue(s + [c]) == DigitsValue(s) * 10 + (c as int - '0' as int)
  {
    assert (s + [c])[..|s|] == s;
  }

  /** Number-to-string for a non-negative integer: the shortest decimal text,
      which reads back as the same number. */
  function NatToString(n: nat): (r: string)
    ensures |r| >= 1 && AllDigits(r) && DigitsValue(r) == n
    ensures |r| == 1 <==> n < 10
    ensures n < 100 ==> |r| <= 2
    ensures r[0] == '0' ==> n == 0
    decreases n
  {
    if n < 10 then [DigitChar(n)]
    else
      var front := NatToString(n / 10);
      DigitsValueAppend(front, DigitChar(n % 10));
      front + [DigitChar(n % 10)]
  }

  /** `String(n)` for an integer-valued JavaScript number. */
  function IntToString(n: int): string {
    if n < 0 then "-" + NatToString(-n) else NatToString(n)
  }

  /** The remainder of JavaScript's `%`: it takes the sign of the dividend,
      unlike Dafny's `%`, which is never negative. */
  function JsRem(a: int, m: nat): (r: int)
    requires m > 0
    ensures a >= 0 ==> 0 <= r < m
    ensures a < 0 ==> -(m as int) < r <= 0
    ensures (a - r) % m == 0
  {
    if a >= 0 then
      MultipleRem(a / m, m);
      a % m
    else
      assert a + (-a) % m == (-((-a) / m)) * m;
      MultipleRem(-((-a) / m), m);
      -((-a) % m)
  }

  /** A multiple of `m` leaves no remainder. */
  lemma {:induction false} MultipleRem(k: int, m: nat)
    requires m > 0
    ensures (k * m) % m == 0
  {
    var y := k * m;
    var d := k - y / m;
    assert y % m == d * m;
    MultipleBounds(d, m);
  }

  /** A non-zero multiple of `m` is at least `m` away from zero. */
  lemma {:induction false} MultipleBounds(d: int, m: nat)
    ensures d >= 1 ==> d * m >= m
    ensures d <= -1 ==> d * m <= -(m as int)
  {
  }

  /** Leading white space removed. */
  function TrimStart(s: string): (r: string)
    ensures |r| <= |s| && r == s[|s| - |r|..]
    ensures AllWhitespace(s[..|s| - |r|])
    ensures r == [] || !IsJsWhitespace(r[0])
    decreases |s|
  {
    if s != [] && IsJsWhitespace(s[0]) then
      var r := TrimStart(s[1..]);
      assert s[..|s| - |r|] == [s[0]] + s[1..][..|s| - 1 - |r|];
      r
    else s
  }

  /** The length of the longest prefix of decimal digits. */
  function LeadingDigits(s: string): (n: nat)
    ensures n <= |s| && AllDigits(s[..n])
    ensures n == |s| || !IsDigit(s[n])
    decreases |s|
  {
    if s != [] && IsDigit(s[0]) then
      var n := LeadingDigits(s[1..]);
      assert s[..n + 1] == [s[0]] + s[1..][..n];
      n + 1
    else 0
  }

  /** `parseInt(s, 10)`: skip white space, an optional sign, then as many
      decimal digits as there are; `None` stands for NaN (no digit at all). */
  function ParseInt(s: string): Option<int> {
    var t := TrimStart(s);
    var negative := t != [] && t[0] == '-';
    var body := if t != [] && (t[0] == '-' || t[0] == '+') then t[1..] else t;
    var n := LeadingDigits(body);
    if n == 0 then None
    else Some(if negative then -(DigitsValue(body[..n]) as int) else DigitsValue(body[..n]))
  }

  /** A non-empty string of digits parses to its value. */
  lemma {:induction false} ParseIntDigits(s: string)
    requires s != [] && AllDigits(s)
    ensures ParseInt(s) == Some(DigitsValue(s))
  {
    assert !IsJsWhitespace(s[0]);
    assert TrimStart(s) == s;
    var n := LeadingDigits(s);
    assert s[..n] == s;
  }

  /** Leading zeros do not change the value of a digit string. */
  lemma {:induction false} DigitsValueZeroPad(s: string, width: nat)
    requires AllDigits(s)
    ensures AllDigits(ZeroPad(s, width))
    ensures DigitsValue(ZeroPad(s, width)) == DigitsValue(s)
    decreases width
  {
    if |s| < width {
      var z := ZeroPad(s, width);
      assert AllDigits(z);
      var shorter := ZeroPad(s, width - 1);
      DigitsValueZeroPad(s, width - 1);
      assert z == ['0'] + shorter;
      DigitsValueLeadingZero(shorter);
    }
  }

  lemma {:induction false} DigitsValueLeadingZero(s: string)
    requires AllDigits(s)
    ensures AllDigits(['0'] + s)
    ensures DigitsValue(['0'] + s) == DigitsValue(s)
    decreases |s|
  {
    if s != [] {
      var init := s[..|s| - 1];
      DigitsValueLeadingZero(init);
      assert (['0'] + s)[..|s|] == ['0'] + init;
    }
  }
}
