/**
 * The string primitives the target store is written with, stated as Python
 * gives them: whitespace removal by `"".join(s.split())`, `str.split(sep)`
 * with a one-character separator, `sep.join(parts)`, `int(s)`, `str(n)` and
 * `str.rstrip(c)`.
 */
module Text {
  import opened Wrappers

  // ---------------------------------------------------------------------------
  // Whitespace
  // ---------------------------------------------------------------------------

  /**
   * The ASCII characters that Python's argument-less `str.split()` treats as
   * whitespace: tab, line feed, vertical tab, form feed, carriage return, the
   * four information separators 0x1C-0x1F and space.
   */
  predicate IsWhitespace(c: char) {
    c == ' ' || (9 <= c as int <= 13) || (28 <= c as int <= 31)
  }

  predicate HasNoWhitespace(s: string) {
    forall i :: 0 <= i < |s| ==> !IsWhitespace(s[i])
  }

  /** `"".join(s.split())`: every whitespace character removed, wherever it is. */
  function RemoveWhitespace(s: string): (r: string)
    ensures HasNoWhitespace(r)
    ensures |r| <= |s|
  {
    if s == [] then []
    else if IsWhitespace(s[0]) then RemoveWhitespace(s[1..])
    else [s[0]] + RemoveWhitespace(s[1..])
  }

  // ---------------------------------------------------------------------------
  // Counting, splitting and joining on one separator character
  // ---------------------------------------------------------------------------

  /** The number of occurrences of `c` in `s`. */
  function Count(s: string, c: char): nat {
    if s == [] then 0 else (if s[0] == c then 1 else 0) + Count(s[1..], c)
  }

  /**
   * Python's `s.split(sep)` for a one-character `sep`: one more part than there
   * are separators, no part holding a separator, and the first part being the
   * text up to the first separator (the whole of `s` when there is none).
   */
  function Split(s: string, sep: char): (parts: seq<string>)
    ensures |parts| == Count(s, sep) + 1
    ensures forall i :: 0 <= i < |parts| ==> sep !in parts[i]
    ensures parts[0] <= s && (|parts[0]| == |s| || s[|parts[0]|] == sep)
  {
    if s == [] then [[]]
    else
      var rest := Split(s[1..], sep);
      if s[0] == sep then [[]] + rest else [[s[0]] + rest[0]] + rest[1..]
  }

  /** Python's `sep.join(parts)`. */
  function Join(parts: seq<string>, sep: char): string {
    if |parts| == 0 then []
    else if |parts| == 1 then parts[0]
    else parts[0] + [sep] + Join(parts[1..], sep)
  }

  // ---------------------------------------------------------------------------
  // Decimal integers
  // ---------------------------------------------------------------------------

  predicate IsDigit(c: char) {
    '0' <= c <= '9'
  }

  predicate AllDigits(s: string) {
    forall i :: 0 <= i < |s| ==> IsDigit(s[i])
  }

  predicate IsSign(c: char) {
    c == '+' || c == '-'
  }

  /** An optional sign followed by one or more ASCII decimal digits. */
  predicate IsIntLiteral(s: string) {
    (forall i :: 0 <= i < |s| ==> IsDigit(s[i]) || (i == 0 && IsSign(s[i])))
    && (exists i :: 0 <= i < |s| && IsDigit(s[i]))
  }

  function DigitValue(c: char): (d: nat)
    requires IsDigit(c)
    ensures d < 10
  {
    c as int - '0' as int
  }

  function DigitChar(d: nat): (c: char)
    requires d < 10
    ensures IsDigit(c) && DigitValue(c) == d
  {
    ('0' as int + d) as char
  }

  /** The value of a string of decimal digits, most significant first. */
  function DigitsValue(s: string): nat
    requires AllDigits(s)
  {
    if s == [] then 0 else 10 * DigitsValue(s[..|s| - 1]) + DigitValue(s[|s| - 1])
  }

  /**
   * Python's `int(s)` on a string without whitespace: defined exactly on the
   * integer literals, with a leading `-` negating and a leading `+` or none
   * keeping the value non-negative. Leading zeros are accepted.
   */
  function ParseInt(s: string): (r: Option<int>)
    ensures r.Some? <==> IsIntLiteral(s)
    ensures r.Some? && s[0] != '-' ==> r.value >= 0
    ensures r.Some? && s[0] == '-' ==> r.value <= 0
  {
    if |s| > 0 && IsSign(s[0]) then
      var digits := s[1..];
      if |digits| > 0 && AllDigits(digits) then
        assert IsDigit(s[1]);
        var magnitude: int := DigitsValue(digits);
        Some(if s[0] == '-' then -magnitude else magnitude)
      else
        assert !IsIntLiteral(s) by {
          if |digits| > 0 {
            var j :| 0 <= j < |digits| && !IsDigit(digits[j]);
            assert !IsDigit(s[j + 1]) && j + 1 != 0;
          }
        }
        None
    else if |s| > 0 && AllDigits(s) then
      assert IsDigit(s[0]);
      Some(DigitsValue(s))
    else
      None
  }

  /** Python's `str(n)` for a natural number: canonical decimal, no leading zero. */
  function NatToString(n: nat): (s: string)
    ensures |s| > 0 && AllDigits(s)
    ensures DigitsValue(s) == n
    ensures s[0] == '0' ==> n == 0
    decreases n
  {
    if n < 10 then [DigitChar(n)]
    else
      var prefix := NatToString(n / 10);
      var s := prefix + [DigitChar(n % 10)];
      assert s[..|s| - 1] == prefix;
      s
  }

  /** Python's `str(n)`: a `-` in front of the magnitude when `n` is negative. */
  function IntToString(n: int): (s: string)
    ensures |s| > 0
    ensures forall i :: 0 <= i < |s| ==> IsDigit(s[i]) || (i == 0 && s[i] == '-')
  {
    if n < 0 then "-" + NatToString(-n) else NatToString(n)
  }

  // ---------------------------------------------------------------------------
  // Trailing characters
  // ---------------------------------------------------------------------------

  /**
   * Python's `s.rstrip(c)`: the longest prefix of `s` that does not end in `c`,
   * everything after it being `c`.
   */
  function RStrip(s: string, c: char): (r: string)
    ensures r <= s
    ensures |r| == 0 || r[|r| - 1] != c
    ensures forall i :: |r| <= i < |s| ==> s[i] == c
  {
    if |s| > 0 && s[|s| - 1] == c then RStrip(s[..|s| - 1], c) else s
  }

  // ---------------------------------------------------------------------------
  // Properties
  // ---------------------------------------------------------------------------

  predicate AllWhitespace(s: string) {
    forall i :: 0 <= i < |s| ==> IsWhitespace(s[i])
  }

  /** The first character of `s` that is not whitespace exists and is `c`. */
  predicate FirstNonWhitespaceIs(s: string, c: char) {
    exists k :: 0 <= k < |s| && s[k] == c && AllWhitespace(s[..k])
  }

  /** Whitespace removal distributes over concatenation. */
  lemma {:induction false} RemoveWhitespaceAppend(a: string, b: string)
    ensures RemoveWhitespace(a + b) == RemoveWhitespace(a) + RemoveWhitespace(b)
  {
    if a == [] {
      assert a + b == b;
    } else {
      assert (a + b)[0] == a[0] && (a + b)[1..] == a[1..] + b;
      RemoveWhitespaceAppend(a[1..], b);
      if !IsWhitespace(a[0]) {
        calc {
          RemoveWhitespace(a + b);
          [a[0]] + RemoveWhitespace(a[1..] + b);
          [a[0]] + (RemoveWhitespace(a[1..]) + RemoveWhitespace(b));
          ([a[0]] + RemoveWhitespace(a[1..])) + RemoveWhitespace(b);
        }
      }
    }
  }

  /** A string without whitespace is left as it is. */
  lemma {:induction false} RemoveWhitespaceIdentity(s: string)
    requires HasNoWhitespace(s)
    ensures RemoveWhitespace(s) == s
  {
    if s != [] {
      RemoveWhitespaceIdentity(s[1..]);
    }
  }

  /** A run of whitespace between two strings disappears along with their own whitespace. */
  lemma RemoveWhitespaceGap(a: string, gap: string, b: string)
    requires AllWhitespace(gap)
    ensures RemoveWhitespace(a + gap + b) == RemoveWhitespace(a) + RemoveWhitespace(b)
  {
    RemoveWhitespaceAppend(a + gap, b);
    RemoveWhitespaceAppend(a, gap);
    RemoveWhitespaceEmpty(gap);
  }

  lemma RemoveWhitespaceIdempotent(s: string)
    ensures RemoveWhitespace(RemoveWhitespace(s)) == RemoveWhitespace(s)
  {
    RemoveWhitespaceIdentity(RemoveWhitespace(s));
  }

  /** Only strings made of whitespace become empty. */
  lemma {:induction false} RemoveWhitespaceEmpty(s: string)
    ensures RemoveWhitespace(s) == [] <==> AllWhitespace(s)
  {
    if s != [] {
      RemoveWhitespaceEmpty(s[1..]);
      if IsWhitespace(s[0]) {
        assert AllWhitespace(s) <==> AllWhitespace(s[1..]) by {
          if AllWhitespace(s[1..]) {
            forall i | 0 <= i < |s| ensures IsWhitespace(s[i]) {
              if i > 0 { assert s[i] == s[1..][i - 1]; }
            }
          }
        }
      }
    }
  }

  /** The first character left after whitespace removal is the first non-whitespace one. */
  lemma {:induction false} RemoveWhitespaceHead(s: string, c: char)
    requires !IsWhitespace(c)
    ensures (RemoveWhitespace(s) != [] && RemoveWhitespace(s)[0] == c) <==> FirstNonWhitespaceIs(s, c)
  {
    if s == [] {
    } else if IsWhitespace(s[0]) {
      RemoveWhitespaceHead(s[1..], c);
      FirstNonWhitespaceShift(s, c);
    } else if s[0] == c {
      assert AllWhitespace(s[..0]);
    } else {
      forall k | 0 <= k < |s| && s[k] == c ensures !AllWhitespace(s[..k]) {
        assert k != 0;
        assert s[..k][0] == s[0];
      }
    }
  }

  /** A leading whitespace character does not change the first non-whitespace one. */
  lemma FirstNonWhitespaceShift(s: string, c: char)
    requires s != [] && IsWhitespace(s[0]) && !IsWhitespace(c)
    ensures FirstNonWhitespaceIs(s, c) <==> FirstNonWhitespaceIs(s[1..], c)
  {
    if FirstNonWhitespaceIs(s, c) {
      var k :| 0 <= k < |s| && s[k] == c && AllWhitespace(s[..k]);
      assert k > 0;
      assert s[1..][k - 1] == c;
      assert s[1..][..k - 1] == s[..k][1..];
    }
    if FirstNonWhitespaceIs(s[1..], c) {
      var k :| 0 <= k < |s[1..]| && s[1..][k] == c && AllWhitespace(s[1..][..k]);
      assert s[k + 1] == c;
      assert s[..k + 1] == [s[0]] + s[1..][..k];
    }
  }

  /** Removing whitespace does not change how often a non-whitespace character occurs. */
  lemma {:induction false} CountRemoveWhitespace(s: string, c: char)
    requires !IsWhitespace(c)
    ensures Count(RemoveWhitespace(s), c) == Count(s, c)
  {
    if s != [] {
      CountRemoveWhitespace(s[1..], c);
      if !IsWhitespace(s[0]) {
        assert ([s[0]] + RemoveWhitespace(s[1..]))[1..] == RemoveWhitespace(s[1..]);
      }
    }
  }

  /** Joining the parts of a split with the same separator gives back the string. */
  lemma {:induction false} JoinSplit(s: string, sep: char)
    ensures Join(Split(s, sep), sep) == s
  {
    if s != [] {
      var rest := Split(s[1..], sep);
      JoinSplit(s[1..], sep);
      if s[0] == sep {
        assert ([[]] + rest)[1..] == rest;
      } else if |rest| == 1 {
      } else {
        var parts := [[s[0]] + rest[0]] + rest[1..];
        assert parts[1..] == rest[1..];
        assert rest[1..] == rest[1..][..];
        assert Join(rest, sep) == rest[0] + [sep] + Join(rest[1..], sep);
      }
    }
  }

  /** A string without the separator splits into itself alone. */
  lemma {:induction false} SplitWithoutSeparator(s: string, sep: char)
    requires sep !in s
    ensures Split(s, sep) == [s]
  {
    if s != [] {
      assert s[0] != sep;
      SplitWithoutSeparator(s[1..], sep);
      assert [s[0]] + s[1..] == s;
    }
  }

  /** Splitting stops the first part at the first separator. */
  lemma {:induction false} SplitAfterPart(a: string, sep: char, b: string)
    requires sep !in a
    ensures Split(a + [sep] + b, sep) == [a] + Split(b, sep)
  {
    if a == [] {
      assert a + [sep] + b == [sep] + b;
      assert ([sep] + b)[1..] == b;
    } else {
      assert (a + [sep] + b)[1..] == a[1..] + [sep] + b;
      assert a[0] != sep;
      SplitAfterPart(a[1..], sep, b);
      assert [a[0]] + a[1..] == a;
    }
  }

  /** Splitting a join of separator-free parts gives back the parts. */
  lemma {:induction false} SplitJoin(parts: seq<string>, sep: char)
    requires |parts| > 0
    requires forall i :: 0 <= i < |parts| ==> sep !in parts[i]
    ensures Split(Join(parts, sep), sep) == parts
  {
    if |parts| == 1 {
      SplitWithoutSeparator(parts[0], sep);
    } else {
      SplitJoin(parts[1..], sep);
      SplitAfterPart(parts[0], sep, Join(parts[1..], sep));
      assert [parts[0]] + parts[1..] == parts;
    }
  }

  /** `int(str(n)) == n` for every integer. */
  lemma ParseIntToString(n: int)
    ensures ParseInt(IntToString(n)) == Some(n)
  {
    var s := IntToString(n);
    if n < 0 {
      assert s[1..] == NatToString(-n);
    } else {
      assert IsDigit(s[0]);
      assert AllDigits(s);
    }
  }

  /** `k` zero digits, as `int()` accepts them in front of a number. */
  function Zeros(k: nat): (z: string)
    ensures |z| == k && forall i :: 0 <= i < k ==> z[i] == '0'
  {
    if k == 0 then [] else Zeros(k - 1) + "0"
  }

  /** Digits no longer than one that do not start with `0`: the form `str()` writes. */
  predicate Canonical(t: string) {
    t != [] && AllDigits(t) && (t[0] != '0' || |t| == 1)
  }

  /** Leading zeros do not change the value of a string of digits. */
  lemma {:induction false} DigitsValueZeros(k: nat, d: string)
    requires AllDigits(d)
    ensures AllDigits(Zeros(k) + d) && DigitsValue(Zeros(k) + d) == DigitsValue(d)
    decreases |d|
  {
    var s := Zeros(k) + d;
    if d == [] {
      assert s == Zeros(k);
      ZerosValue(k);
    } else {
      var init := d[..|d| - 1];
      assert s[..|s| - 1] == Zeros(k) + init;
      DigitsValueZeros(k, init);
    }
  }

  lemma {:induction false} ZerosValue(k: nat)
    ensures DigitsValue(Zeros(k)) == 0
  {
    if k > 0 {
      assert Zeros(k)[..k - 1] == Zeros(k - 1);
      ZerosValue(k - 1);
    }
  }

  /**
   * `int()` of an optional sign, any number of zeros and the decimal text of
   * `m` is `m`, negated under a `-`.
   */
  lemma ParseIntLiteral(sign: string, k: nat, m: nat)
    requires sign == "" || sign == "+" || sign == "-"
    ensures ParseInt(sign + Zeros(k) + NatToString(m)) == Some(if sign == "-" then -(m as int) else m as int)
  {
    var zeros, digits := Zeros(k), NatToString(m);
    DigitsValueZeros(k, digits);
    var d := zeros + digits;
    assert sign + zeros + digits == sign + d;
    if sign == "" {
      assert sign + d == d;
      ParseIntDigits(d);
    } else if sign == "+" {
      assert sign == ['+'];
      ParseIntSigned('+', d);
    } else {
      assert sign == ['-'];
      ParseIntSigned('-', d);
    }
  }

  lemma ParseIntDigits(d: string)
    requires d != [] && AllDigits(d)
    ensures ParseInt(d) == Some(DigitsValue(d) as int)
  {
    assert !IsSign(d[0]);
  }

  lemma ParseIntSigned(c: char, d: string)
    requires IsSign(c) && d != [] && AllDigits(d)
    ensures ParseInt([c] + d) == Some(if c == '-' then -(DigitsValue(d) as int) else DigitsValue(d) as int)
  {
    assert ([c] + d)[1..] == d;
  }

  /**
   * Every integer literal is an optional sign, some zeros and the decimal
   * text of a natural number, so `ParseIntLiteral` gives the value of each.
   */
  lemma LiteralForm(s: string) returns (sign: string, k: nat, m: nat)
    requires IsIntLiteral(s)
    ensures sign == "" || sign == "+" || sign == "-"
    ensures s == sign + Zeros(k) + NatToString(m)
  {
    var d;
    sign, d := LiteralSplit(s);
    k, m := DigitsForm(d);
    assert sign + d == sign + (Zeros(k) + NatToString(m));
  }

  /** Digits are some zeros and then the decimal text of a natural number. */
  lemma DigitsForm(d: string) returns (k: nat, m: nat)
    requires d != [] && AllDigits(d)
    ensures d == Zeros(k) + NatToString(m)
  {
    k := LeadingZeros(d);
    DigitsSplit(d);
    m := DigitsValue(d[k..]);
    CanonicalDigits(d[k..]);
  }

  /** An integer literal is an optional sign and then digits. */
  lemma LiteralSplit(s: string) returns (sign: string, d: string)
    requires IsIntLiteral(s)
    ensures sign == "" || sign == "+" || sign == "-"
    ensures s == sign + d && d != [] && AllDigits(d)
  {
    var j :| 0 <= j < |s| && IsDigit(s[j]);
    sign := if IsSign(s[0]) then [s[0]] else [];
    d := s[|sign|..];
    assert d != [] by {
      if sign != [] { assert j != 0; }
    }
    forall i | 0 <= i < |d| ensures IsDigit(d[i]) {
      assert s[i + |sign|] == d[i];
    }
  }

  /** The number of zeros in front of the last digit or the first non-zero one. */
  function LeadingZeros(d: string): nat {
    if |d| <= 1 || d[0] != '0' then 0 else 1 + LeadingZeros(d[1..])
  }

  lemma {:induction false} DigitsSplit(d: string)
    requires AllDigits(d) && d != []
    ensures LeadingZeros(d) < |d|
    ensures d == Zeros(LeadingZeros(d)) + d[LeadingZeros(d)..]
    ensures Canonical(d[LeadingZeros(d)..])
  {
    if |d| > 1 && d[0] == '0' {
      var k := LeadingZeros(d[1..]);
      DigitsSplit(d[1..]);
      assert d[1..][k..] == d[k + 1..];
      assert Zeros(k + 1) == [d[0]] + Zeros(k);
      assert d == [d[0]] + d[1..];
    }
  }

  /** The value of canonical digits is written back as those digits. */
  lemma {:induction false} CanonicalDigits(t: string)
    requires Canonical(t)
    ensures NatToString(DigitsValue(t)) == t
    decreases |t|
  {
    var n := DigitsValue(t);
    var last := t[|t| - 1];
    var init := t[..|t| - 1];
    if |t| == 1 {
      assert init == [];
      assert [DigitChar(DigitValue(last))] == t;
    } else {
      assert init[0] == t[0];
      PositiveValue(init);
      CanonicalDigits(init);
      assert n / 10 == DigitsValue(init) && n % 10 == DigitValue(last);
      assert DigitChar(DigitValue(last)) == last;
      assert init + [last] == t;
    }
  }

  /** Digits that start with a non-zero one have a positive value. */
  lemma {:induction false} PositiveValue(t: string)
    requires t != [] && AllDigits(t) && t[0] != '0'
    ensures DigitsValue(t) >= 1
    decreases |t|
  {
    if |t| > 1 {
      var init := t[..|t| - 1];
      assert init[0] == t[0];
      PositiveValue(init);
    }
  }

  /** `s` ends with `suffix`. */
  predicate EndsWith(s: string, suffix: string) {
    |suffix| <= |s| && s[|s| - |suffix|..] == suffix
  }

  /** Two separator-free runs joined by a separator split back into those runs. */
  lemma SplitPair(a: string, b: string, sep: char)
    requires sep !in a && sep !in b
    ensures Split(a + [sep] + b, sep) == [a, b]
  {
    SplitAfterPart(a, sep, b);
    SplitWithoutSeparator(b, sep);
  }

  /** A string with exactly one separator is its two parts around that separator. */
  lemma SplitOnce(s: string, sep: char)
    requires Count(s, sep) == 1
    ensures var parts := Split(s, sep);
            |parts| == 2 && s == parts[0] + [sep] + parts[1]
  {
    var parts := Split(s, sep);
    JoinSplit(s, sep);
    assert parts[1..] == [parts[1]];
  }

  /**
   * After a separator, a part free of the separator ends the string with
   * `sep` and `word` exactly when it is `word`.
   */
  lemma EndsWithPart(a: string, sep: char, b: string, word: string)
    requires sep !in b && sep !in word
    ensures EndsWith(a + [sep] + b, [sep] + word) <==> b == word
  {
    var s := a + [sep] + b;
    if b == word {
      assert s[|s| - |[sep] + word|..] == [sep] + b;
    }
    if EndsWith(s, [sep] + word) {
      var k := |s| - |word| - 1;
      assert s[k] == sep;
      assert s[k + 1..] == word;
      assert s[|a|] == sep;
      assert forall j | |a| < j < |s| :: s[j] == b[j - |a| - 1];
      assert k == |a|;
      assert s[|a| + 1..] == b;
    }
  }

  /** The strings one after the other. */
  function Concat(parts: seq<string>): string {
    if parts == [] then [] else parts[0] + Concat(parts[1..])
  }

  /** Joining one more part adds the separator and that part at the end. */
  lemma {:induction false} JoinSnoc(parts: seq<string>, last: string, sep: char)
    requires |parts| > 0
    ensures Join(parts + [last], sep) == Join(parts, sep) + [sep] + last
  {
    if |parts| > 1 {
      assert (parts + [last])[1..] == parts[1..] + [last];
      JoinSnoc(parts[1..], last, sep);
    }
  }

  /** A character found neither in the parts nor as the separator is not in their join. */
  lemma {:induction false} JoinWithout(parts: seq<string>, sep: char, c: char)
    requires c != sep
    requires forall i :: 0 <= i < |parts| ==> c !in parts[i]
    ensures c !in Join(parts, sep)
  {
    if |parts| > 1 {
      JoinWithout(parts[1..], sep, c);
    }
  }

  /** Whitespace-free parts joined by a non-whitespace separator stay whitespace-free. */
  lemma {:induction false} JoinNoWhitespace(parts: seq<string>, sep: char)
    requires !IsWhitespace(sep)
    requires forall i :: 0 <= i < |parts| ==> HasNoWhitespace(parts[i])
    ensures HasNoWhitespace(Join(parts, sep))
  {
    if |parts| > 1 {
      JoinNoWhitespace(parts[1..], sep);
    }
  }

  /** A join ends with the end of its last part. */
  lemma JoinEndsWithLastPart(parts: seq<string>, sep: char)
    requires |parts| > 0
    ensures EndsWith(Join(parts, sep), parts[|parts| - 1])
  {
    var last := parts[|parts| - 1];
    if |parts| > 1 {
      var init := parts[..|parts| - 1];
      JoinSnoc(init, last, sep);
      assert init + [last] == parts;
    }
  }

  /** Stripping the trailing `c` added after a string that does not end in `c` gives the string. */
  lemma RStripOne(s: string, c: char)
    requires s == [] || s[|s| - 1] != c
    ensures RStrip(s + [c], c) == s
  {
    assert (s + [c])[..|s|] == s;
  }
}
