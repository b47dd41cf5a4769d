/** The handful of PHP built-ins the plugin relies on, written out with the
    semantics of PHP 7/8 on a 64-bit build: integer-to-string conversion,
    `intval` on strings, `empty` on strings, `strpos(...) !== FALSE`,
    `str_replace` and `str_repeat`. */
module Php {

  /** PHP_INT_MIN and PHP_INT_MAX on a 64-bit build. */
  const IntMin: int := -0x8000_0000_0000_0000
  const IntMax: int := 0x7FFF_FFFF_FFFF_FFFF

  predicate IsDigit(c: char) {
    '0' <= c <= '9'
  }

  predicate AllDigits(s: string) {
    forall i :: 0 <= i < |s| ==> IsDigit(s[i])
  }

  /** The whitespace PHP skips in front of a numeric string. */
  predicate IsSpace(c: char) {
    c == ' ' || c == '\t' || c == '\n' || c == '\r' || c == '\U{0B}' || c == '\U{0C}'
  }

  function DigitChar(d: nat): (c: char)
    requires d < 10
    ensures IsDigit(c)
  {
    ['0', '1', '2', '3', '4', '5', '6', '7', '8', '9'][d]
  }

  function DigitValue(c: char): (d: nat)
    requires IsDigit(c)
    ensures d < 10 && DigitChar(d) == c
  {
    (c as int - '0' as int) as nat
  }

  /** Decimal form of a natural number, without leading zeros: what PHP's
      string conversion (concatenation with `.`) gives for a non-negative int. */
  function NatToString(n: nat): string
  {
    if n < 10 then [DigitChar(n)] else NatToString(n / 10) + [DigitChar(n % 10)]
  }

  /** PHP's string conversion of an int. */
  function IntToString(i: int): string
  {
    if i < 0 then "-" + NatToString(-i) else NatToString(i)
  }

  /** The value of a string of decimal digits (leading zeros allowed). */
  function DigitsValue(s: string): nat
    requires AllDigits(s)
  {
    if s == [] then 0 else 10 * DigitsValue(s[..|s| - 1]) + DigitValue(s[|s| - 1])
  }

  /** The longest prefix of `s` made of digits. */
  function LeadingDigits(s: string): (d: string)
    ensures AllDigits(d) && d <= s
    ensures |d| < |s| ==> !IsDigit(s[|d|])
  {
    if s != [] && IsDigit(s[0]) then [s[0]] + LeadingDigits(s[1..]) else []
  }

  /** `s` without its leading whitespace. */
  function TrimLeadingSpace(s: string): (t: string)
    ensures |t| <= |s| && t == s[|s| - |t|..]
    ensures t != [] ==> !IsSpace(t[0])
  {
    if s != [] && IsSpace(s[0]) then TrimLeadingSpace(s[1..]) else s
  }

  function Clamp(v: int): (r: int)
    ensures IntMin <= r <= IntMax
    ensures IntMin <= v <= IntMax ==> r == v
  {
    if v < IntMin then IntMin else if v > IntMax then IntMax else v
  }

  /** The least integer that a correctly rounded decimal-to-double
      conversion turns into infinity: 2^1024 - 2^970, the largest finite
      double plus half a unit in its last place, where rounding half to even
      goes up (IEEE 754, section 4.3.1). */
  const DoubleOverflow: int := 0xFFFF_FFFF_FFFF_FC_0000_0000_0000_0000_0000_0000_0000_0000_0000_0000_0000_0000_0000_0000_0000_0000_0000_0000_0000_0000_0000_0000_0000_0000_0000_0000_0000_0000_0000_0000_0000_0000_0000_0000_0000_0000_0000_0000_0000_0000_0000_0000_0000_0000_0000_0000_0000_0000_0000_0000_0000_0000_0000_0000_0000_0000_0000_0000_0000_0000_00

  /** The integer a signed digit run of value `v` becomes. A run in the
      64-bit range is read exactly. A longer one is read as a double, which
      saturates at PHP_INT_MIN / PHP_INT_MAX when it is finite and gives 0
      once it has overflowed to infinity. */
  function ToLong(v: int): (r: int)
    ensures IntMin <= r <= IntMax
    ensures IntMin <= v <= IntMax ==> r == v
    ensures IntMax < v < DoubleOverflow ==> r == IntMax
    ensures -DoubleOverflow < v < IntMin ==> r == IntMin
    ensures v >= DoubleOverflow || v <= -DoubleOverflow ==> r == 0
  {
    if v >= DoubleOverflow || v <= -DoubleOverflow then 0 else Clamp(v)
  }

  /** `intval($s)` for a string: leading whitespace is skipped, one optional
      sign is read, then the longest run of digits; anything after it is
      ignored, a string without leading digits is 0, and the run's value is
      converted by ToLong. */
  function Intval(s: string): (r: int)
    ensures IntMin <= r <= IntMax
  {
    var t := TrimLeadingSpace(s);
    if t != [] && t[0] == '-' then ToLong(-(DigitsValue(LeadingDigits(t[1..])) as int))
    else if t != [] && t[0] == '+' then ToLong(DigitsValue(LeadingDigits(t[1..])))
    else ToLong(DigitsValue(LeadingDigits(t)))
  }

  /** `empty($s)` for a string. */
  predicate EmptyString(s: string) {
    s == "" || s == "0"
  }

  /** `pat` occurs in `s` at position `i`. */
  predicate OccursAt(s: string, pat: string, i: int) {
    0 <= i && i + |pat| <= |s| && s[i..i + |pat|] == pat
  }

  /** `strpos($s, $pat) !== FALSE`. */
  predicate Contains(s: string, pat: string) {
    exists i :: 0 <= i <= |s| - |pat| && OccursAt(s, pat, i)
  }

  /** `str_replace($pat, $rep, $s)` for one search string: occurrences are
      found left to right and do not overlap; an empty search string leaves
      the subject unchanged. */
  function ReplaceAll(s: string, pat: string, rep: string): string
    decreases |s|
  {
    if pat == [] || |s| < |pat| then s
    else if s[..|pat|] == pat then rep + ReplaceAll(s[|pat|..], pat, rep)
    else [s[0]] + ReplaceAll(s[1..], pat, rep)
  }

  /** `str_repeat($s, $n)`. */
  function Repeat(s: string, n: nat): string {
    if n == 0 then "" else Repeat(s, n - 1) + s
  }

  // ---------------------------------------------------------------------
  // Decimal conversion round trip

  /** The decimal form of a natural number is a non-empty run of digits
      with no leading zero. */
  lemma {:induction false} NatToStringDigits(n: nat)
    ensures |NatToString(n)| > 0 && AllDigits(NatToString(n))
    ensures n > 0 ==> NatToString(n)[0] != '0'
  {
    if n >= 10 {
      NatToStringDigits(n / 10);
    }
  }

  /** The decimal form of an int starts with '-' exactly when it is negative,
      and is all digits otherwise. */
  lemma {:induction false} IntToStringShape(i: int)
    ensures |IntToString(i)| > 0
    ensures i < 0 <==> IntToString(i)[0] == '-'
    ensures i >= 0 ==> AllDigits(IntToString(i))
  {
    if i < 0 {
      NatToStringDigits(-i);
    } else {
      NatToStringDigits(i);
    }
  }

  lemma {:induction false} DigitsValueOfNatToString(n: nat)
    requires AllDigits(NatToString(n))
    ensures DigitsValue(NatToString(n)) == n
  {
    if n >= 10 {
      NatToStringDigits(n / 10);
      var s := NatToString(n);
      assert s[..|s| - 1] == NatToString(n / 10);
      DigitsValueOfNatToString(n / 10);
    }
  }

  lemma {:induction false} LeadingDigitsOfDigits(s: string)
    requires AllDigits(s)
    ensures LeadingDigits(s) == s
  {
    if s != [] {
      LeadingDigitsOfDigits(s[1..]);
    }
  }

  /** Reading back the decimal form of an int with `intval` gives the int,
      for every value in the 64-bit range. */
  lemma {:induction false} IntvalOfIntToString(i: int)
    requires IntMin <= i <= IntMax
    ensures Intval(IntToString(i)) == i
  {
    if i < 0 {
      IntvalOfNegative(i);
    } else {
      IntvalOfNonNegative(i);
    }
  }

  lemma {:induction false} IntvalOfNegative(i: int)
    requires IntMin <= i < 0
    ensures Intval(IntToString(i)) == i
  {
    var n: nat := -i;
    var digits := NatToString(n);
    assert IntToString(i) == "-" + digits;
    NatToStringDigits(n);
    IntvalOfSignedDigits(digits);
    DigitsValueOfNatToString(n);
  }

  lemma {:induction false} IntvalOfNonNegative(i: int)
    requires 0 <= i <= IntMax
    ensures Intval(IntToString(i)) == i
  {
    NatToStringDigits(i);
    IntvalOfDigits(NatToString(i));
    DigitsValueOfNatToString(i);
  }

  /** `intval` of a run of digits is its value, converted by ToLong. */
  lemma {:induction false} IntvalOfDigits(s: string)
    requires s != [] && AllDigits(s)
    ensures Intval(s) == ToLong(DigitsValue(s))
  {
    assert IsDigit(s[0]);
    assert !IsSpace(s[0]) && s[0] != '-' && s[0] != '+';
    assert TrimLeadingSpace(s) == s;
    LeadingDigitsOfDigits(s);
  }

  /** `intval` of '-' and a run of digits is minus its value, converted by
      ToLong. */
  lemma {:induction false} IntvalOfSignedDigits(digits: string)
    requires AllDigits(digits)
    ensures Intval("-" + digits) == ToLong(-(DigitsValue(digits) as int))
  {
    var s := "-" + digits;
    assert s[0] == '-' && !IsSpace(s[0]);
    assert TrimLeadingSpace(s) == s;
    assert s[1..] == digits;
    LeadingDigitsOfDigits(digits);
  }

  /** The decimal form of a positive int is never PHP-empty. */
  lemma {:induction false} PositiveIntStringNotEmpty(i: int)
    requires i > 0
    ensures !EmptyString(IntToString(i))
  {
    NatToStringDigits(i);
  }

  // ---------------------------------------------------------------------
  // str_replace

  /** Where no occurrence exists, `str_replace` returns its subject. */
  lemma {:induction false} ReplaceAllWithoutOccurrence(s: string, pat: string, rep: string)
    requires !Contains(s, pat)
    ensures ReplaceAll(s, pat, rep) == s
    decreases |s|
  {
    if pat != [] && |s| >= |pat| {
      assert !OccursAt(s, pat, 0);
      forall i | OccursAt(s[1..], pat, i) ensures false {
        assert s[1..][i..i + |pat|] == s[i + 1..i + 1 + |pat|];
        assert OccursAt(s, pat, i + 1);
      }
      ReplaceAllWithoutOccurrence(s[1..], pat, rep);
    }
  }

  /** Where an occurrence exists, the replacement occurs in the result. */
  lemma {:induction false} ReplaceAllInserts(s: string, pat: string, rep: string, i: int)
    requires pat != [] && OccursAt(s, pat, i)
    ensures Contains(ReplaceAll(s, pat, rep), rep)
    decreases |s|
  {
    if s[..|pat|] == pat {
      assert OccursAt(ReplaceAll(s, pat, rep), rep, 0);
    } else {
      assert i != 0;
      assert s == [s[0]] + s[1..];
      OccurrenceInSuffix([s[0]], s[1..], pat, i);
      ReplaceAllInserts(s[1..], pat, rep, i - 1);
      var r' := ReplaceAll(s[1..], pat, rep);
      assert ReplaceAll(s, pat, rep) == [s[0]] + r';
      var j :| 0 <= j <= |r'| - |rep| && OccursAt(r', rep, j);
      OccurrenceAfterPrefix([s[0]], r', rep, j);
    }
  }

  /** The first character of `pat` occurs nowhere else in it (true of
      `value="N"`), so two occurrences of `pat` can never overlap. */
  predicate HeadUnique(pat: string) {
    pat != [] && forall k :: 0 < k < |pat| ==> pat[k] != pat[0]
  }

  /** If the first `k` characters of the result contain no `c`, and every
      replacement starts with `c`, then those characters were copied
      unchanged from the subject. */
  lemma {:induction false} PrefixBeforeReplacement(s: string, pat: string, rep: string, k: nat)
    requires pat != [] && rep != []
    requires k <= |ReplaceAll(s, pat, rep)|
    requires forall j :: 0 <= j < k ==> ReplaceAll(s, pat, rep)[j] != rep[0]
    ensures k <= |s| && s[..k] == ReplaceAll(s, pat, rep)[..k]
    decreases |s|
  {
    var r := ReplaceAll(s, pat, rep);
    if |s| < |pat| {
    } else if s[..|pat|] == pat {
      assert |r| > 0 && r[0] == rep[0];
    } else if k > 0 {
      var r' := ReplaceAll(s[1..], pat, rep);
      assert r == [s[0]] + r';
      forall j | 0 <= j < k - 1 ensures r'[j] != rep[0] {
        assert r'[j] == r[j + 1];
      }
      PrefixBeforeReplacement(s[1..], pat, rep, k - 1);
      TakeOfTail(s, k);
      TakeOfTail(r, k);
      assert r[1..] == r';
    }
  }

  /** Marking never creates an occurrence of `pat` at the head of a subject
      that does not start with `pat`. */
  lemma {:induction false} NoOccurrenceAtHead(s: string, pat: string, mark: string)
    requires HeadUnique(pat)
    requires |s| >= |pat| && s[..|pat|] != pat
    ensures !OccursAt(ReplaceAll(s, pat, pat + mark), pat, 0)
  {
    var pm := pat + mark;
    var r := ReplaceAll(s, pat, pm);
    var r' := ReplaceAll(s[1..], pat, pm);
    assert r == [s[0]] + r';
    TakeOfTail(s, |pat|);
    if OccursAt(r, pat, 0) {
      TakeOfTail(r, |pat|);
      assert r[1..] == r';
      forall j | 0 <= j < |pat| - 1 ensures r'[j] != pm[0] {
        assert r'[j] == r[j + 1] == r[..|pat|][j + 1];
      }
      PrefixBeforeReplacement(s[1..], pat, pm, |pat| - 1);
      assert false;
    }
  }

  /** Inserting `mark` after every occurrence of `pat` and then removing it
      again gives back the subject: `str_replace($pat, $pat . $mark, ...)`
      changes nothing but the inserted text. */
  lemma {:induction false} MarkRoundTrip(s: string, pat: string, mark: string)
    requires HeadUnique(pat)
    ensures ReplaceAll(ReplaceAll(s, pat, pat + mark), pat + mark, pat) == s
    decreases |s|
  {
    var pm := pat + mark;
    var r := ReplaceAll(s, pat, pm);
    if |s| < |pat| {
      assert r == s;
    } else if s[..|pat|] == pat {
      var r' := ReplaceAll(s[|pat|..], pat, pm);
      ReplaceAllAtHead(s, pat, pm);
      HeadOfAppend(pm, r');
      ReplaceAllAtHead(pm + r', pm, pat);
      MarkRoundTrip(s[|pat|..], pat, mark);
      assert s == pat + s[|pat|..];
    } else {
      var r' := ReplaceAll(s[1..], pat, pm);
      ReplaceAllCopiesHead(s, pat, pm);
      NoOccurrenceAtHead(s, pat, mark);
      OccurrenceOfExtension(r, pat, mark);
      ReplaceAllCopiesHead(r, pm, pat);
      assert r[1..] == r';
      MarkRoundTrip(s[1..], pat, mark);
      assert s == [s[0]] + s[1..];
    }
  }

  /** Where the second part starts with a `pat` whose first character occurs
      nowhere else in it, no occurrence straddles the boundary, and the two
      parts are replaced independently. */
  lemma {:induction false} ReplaceAllSplit(x: string, y: string, pat: string, rep: string)
    requires HeadUnique(pat) && OccursAt(y, pat, 0)
    ensures ReplaceAll(x + y, pat, rep) == ReplaceAll(x, pat, rep) + ReplaceAll(y, pat, rep)
    decreases |x|, 1
  {
    NoStraddle(x, y, pat);
    if x == [] {
      assert x + y == y;
    } else if OccursAt(x + y, pat, 0) {
      SplitAfterLeadingOccurrence(x, y, pat, rep);
    } else {
      SplitAfterCopiedChar(x, y, pat, rep);
    }
  }

  /** The case of ReplaceAllSplit where the first part starts with `pat`. */
  lemma {:induction false} SplitAfterLeadingOccurrence(x: string, y: string, pat: string, rep: string)
    requires HeadUnique(pat) && OccursAt(y, pat, 0)
    requires |x| >= |pat| && OccursAt(x + y, pat, 0)
    ensures ReplaceAll(x + y, pat, rep) == ReplaceAll(x, pat, rep) + ReplaceAll(y, pat, rep)
    decreases |x|, 0
  {
    var x' := x[|pat|..];
    assert (x + y)[..|pat|] == x[..|pat|];
    ReplaceAllAtHead(x + y, pat, rep);
    ReplaceAllAtHead(x, pat, rep);
    assert (x + y)[|pat|..] == x' + y;
    ReplaceAllSplit(x', y, pat, rep);
    ConcatAssoc(rep, ReplaceAll(x', pat, rep), ReplaceAll(y, pat, rep));
  }

  /** The case of ReplaceAllSplit where the first character is copied. */
  lemma {:induction false} SplitAfterCopiedChar(x: string, y: string, pat: string, rep: string)
    requires HeadUnique(pat) && OccursAt(y, pat, 0)
    requires x != [] && !OccursAt(x + y, pat, 0)
    ensures ReplaceAll(x + y, pat, rep) == ReplaceAll(x, pat, rep) + ReplaceAll(y, pat, rep)
    decreases |x|, 0
  {
    var x' := x[1..];
    ReplaceAllCopiesHead(x + y, pat, rep);
    if |x| >= |pat| {
      assert (x + y)[..|pat|] == x[..|pat|];
      ReplaceAllCopiesHead(x, pat, rep);
    } else {
      assert x == [x[0]] + x';
    }
    assert (x + y)[0] == x[0];
    assert (x + y)[1..] == x' + y;
    ReplaceAllSplit(x', y, pat, rep);
    ConcatAssoc([x[0]], ReplaceAll(x', pat, rep), ReplaceAll(y, pat, rep));
  }

  /** A `pat` that starts the second part cannot be overlapped by one that
      starts inside a shorter first part. */
  lemma {:induction false} NoStraddle(x: string, y: string, pat: string)
    requires HeadUnique(pat) && OccursAt(y, pat, 0)
    ensures 0 < |x| < |pat| ==> !OccursAt(x + y, pat, 0)
  {
    if 0 < |x| < |pat| {
      var s := x + y;
      assert s[|x|] == y[0] == pat[0];
      assert s[..|pat|][|x|] == pat[0] != pat[|x|];
    }
  }

  lemma ConcatAssoc<T>(a: seq<T>, b: seq<T>, c: seq<T>)
    ensures a + (b + c) == a + b + c
  {
  }

  /** Where the subject starts with `pat`, the replacement is emitted and the
      rest is processed. */
  lemma {:induction false} ReplaceAllAtHead(s: string, pat: string, rep: string)
    requires pat != [] && OccursAt(s, pat, 0)
    ensures ReplaceAll(s, pat, rep) == rep + ReplaceAll(s[|pat|..], pat, rep)
  {
  }

  /** `x + y` starts with `x`, and `y` follows it. */
  lemma {:induction false} HeadOfAppend(x: string, y: string)
    ensures OccursAt(x + y, x, 0) && (x + y)[|x|..] == y
  {
    assert (x + y)[..|x|] == x;
  }

  /** A subject that starts with an extension of `pat` starts with `pat`. */
  lemma {:induction false} OccurrenceOfExtension(s: string, pat: string, mark: string)
    ensures OccursAt(s, pat + mark, 0) ==> OccursAt(s, pat, 0)
  {
    if OccursAt(s, pat + mark, 0) {
      assert s[..|pat|] == s[..|pat + mark|][..|pat|] == (pat + mark)[..|pat|] == pat;
    }
  }

  /** Where the subject does not start with `pat`, its first character is
      copied and the rest is processed. */
  lemma {:induction false} ReplaceAllCopiesHead(s: string, pat: string, rep: string)
    requires s != [] && pat != [] && !OccursAt(s, pat, 0)
    ensures ReplaceAll(s, pat, rep) == [s[0]] + ReplaceAll(s[1..], pat, rep)
  {
    if |s| < |pat| {
      assert s == [s[0]] + s[1..];
    }
  }

  /** Inside an inserted `pat + mark`, only its first position starts an
      occurrence of `pat`. */
  lemma {:induction false} OccurrenceInsideInsertion(pat: string, mark: string, t: string, i: int)
    requires HeadUnique(pat)
    requires forall k :: 0 <= k < |mark| ==> mark[k] != pat[0]
    requires 0 < i < |pat + mark|
    ensures !OccursAt(pat + mark + t, pat, i)
  {
    var r := pat + mark + t;
    if i < |pat| {
      assert r[i] == pat[i];
    } else {
      assert r[i] == mark[i - |pat|];
    }
    assert i + |pat| <= |r| ==> r[i..i + |pat|][0] == r[i];
  }

  /** After `str_replace($pat, $pat . $mark, $s)`, every occurrence of `pat`
      in the result is followed by `mark`, provided `mark` does not contain
      the first character of `pat`. */
  lemma {:induction false} EveryOccurrenceMarked(s: string, pat: string, mark: string, i: int)
    requires HeadUnique(pat)
    requires forall k :: 0 <= k < |mark| ==> mark[k] != pat[0]
    requires OccursAt(ReplaceAll(s, pat, pat + mark), pat, i)
    ensures OccursAt(ReplaceAll(s, pat, pat + mark), mark, i + |pat|)
    decreases |s|, 1
  {
    assert |s| < |pat| ==> ReplaceAll(s, pat, pat + mark) == s;
    if |s| < |pat| {
      assert false;
    } else if s[..|pat|] == pat {
      MarkedAfterLeadingOccurrence(s, pat, mark, i);
    } else {
      MarkedAfterCopiedChar(s, pat, mark, i);
    }
  }

  /** The case of EveryOccurrenceMarked where `s` starts with `pat`. */
  lemma {:induction false} MarkedAfterLeadingOccurrence(s: string, pat: string, mark: string, i: int)
    requires HeadUnique(pat)
    requires forall k :: 0 <= k < |mark| ==> mark[k] != pat[0]
    requires |s| >= |pat| && s[..|pat|] == pat
    requires OccursAt(ReplaceAll(s, pat, pat + mark), pat, i)
    ensures OccursAt(ReplaceAll(s, pat, pat + mark), mark, i + |pat|)
    decreases |s|, 0
  {
    var pm := pat + mark;
    var r := ReplaceAll(s, pat, pm);
    var r' := ReplaceAll(s[|pat|..], pat, pm);
    assert r == pm + r';
    if i < |pm| {
      MarkedInsideInsertion(pat, mark, r', i);
    } else {
      OccurrenceInSuffix(pm, r', pat, i);
      EveryOccurrenceMarked(s[|pat|..], pat, mark, i - |pm|);
      OccurrenceAfterPrefix(pm, r', mark, i - |pm| + |pat|);
    }
  }

  /** An occurrence of `pat` that starts inside an inserted `pat + mark`
      starts at its head, and `mark` follows it. */
  lemma {:induction false} MarkedInsideInsertion(pat: string, mark: string, t: string, i: int)
    requires HeadUnique(pat)
    requires forall k :: 0 <= k < |mark| ==> mark[k] != pat[0]
    requires 0 <= i < |pat + mark| && OccursAt(pat + mark + t, pat, i)
    ensures OccursAt(pat + mark + t, mark, i + |pat|)
  {
    if i == 0 {
      assert (pat + mark + t)[|pat|..|pat| + |mark|] == mark;
    } else {
      OccurrenceInsideInsertion(pat, mark, t, i);
      assert false;
    }
  }

  /** The case of EveryOccurrenceMarked where `s` does not start with `pat`,
      so its first character is copied. */
  lemma {:induction false} MarkedAfterCopiedChar(s: string, pat: string, mark: string, i: int)
    requires HeadUnique(pat)
    requires forall k :: 0 <= k < |mark| ==> mark[k] != pat[0]
    requires |s| >= |pat| && s[..|pat|] != pat
    requires OccursAt(ReplaceAll(s, pat, pat + mark), pat, i)
    ensures OccursAt(ReplaceAll(s, pat, pat + mark), mark, i + |pat|)
    decreases |s|, 0
  {
    var pm := pat + mark;
    var r := ReplaceAll(s, pat, pm);
    var r' := ReplaceAll(s[1..], pat, pm);
    assert r == [s[0]] + r';
    if i == 0 {
      NoOccurrenceAtHead(s, pat, mark);
      assert false;
    } else {
      OccurrenceInSuffix([s[0]], r', pat, i);
      EveryOccurrenceMarked(s[1..], pat, mark, i - 1);
      OccurrenceAfterPrefix([s[0]], r', mark, i - 1 + |pat|);
    }
  }

  /** An occurrence past the end of `x` in `x + y` is one in `y`. */
  lemma {:induction false} OccurrenceInSuffix(x: string, y: string, pat: string, i: int)
    requires |x| <= i && OccursAt(x + y, pat, i)
    ensures OccursAt(y, pat, i - |x|)
  {
    assert (x + y)[i..i + |pat|] == y[i - |x|..i - |x| + |pat|];
  }

  /** The three parts of `s == a + b + c` sit where they should. */
  lemma {:induction false} ConcatParts(s: string, a: string, b: string, c: string)
    requires s == a + b + c
    ensures s[..|a|] == a && s[|a|..|a| + |b|] == b
    ensures c != [] ==> s[|a| + |b|] == c[0]
  {
  }

  /** The first `k` elements are the head and then `k - 1` of the tail. */
  lemma {:induction false} TakeOfTail<T>(s: seq<T>, k: int)
    requires 0 < k <= |s|
    ensures s[..k] == [s[0]] + s[1..][..k - 1]
  {
  }

  /** A slice lying in the first part of a concatenation. */
  lemma {:induction false} SliceOfPrefix(x: string, y: string, lo: int, hi: int)
    requires 0 <= lo <= hi <= |x|
    ensures (x + y)[lo..hi] == x[lo..hi]
  {
  }

  /** An occurrence in `x` is one in `x + y`. */
  lemma {:induction false} OccurrenceBeforeSuffix(x: string, y: string, pat: string, i: int)
    requires OccursAt(x, pat, i)
    ensures OccursAt(x + y, pat, i)
  {
    assert (x + y)[i..i + |pat|] == x[i..i + |pat|];
  }

  /** An occurrence in `y` is one in `s == x + y + z`, shifted by `|x|`. */
  lemma {:induction false} OccurrenceInMiddle(s: string, x: string, y: string, z: string, pat: string, i: int)
    requires s == x + y + z && OccursAt(y, pat, i)
    ensures OccursAt(s, pat, |x| + i)
  {
    OccurrenceBeforeSuffix(y, z, pat, i);
    OccurrenceAfterPrefix(x, y + z, pat, i);
    assert x + (y + z) == x + y + z;
  }

  /** An occurrence in `y` is one in `x + y`, shifted by `|x|`. */
  lemma {:induction false} OccurrenceAfterPrefix(x: string, y: string, pat: string, j: int)
    requires OccursAt(y, pat, j)
    ensures OccursAt(x + y, pat, j + |x|)
  {
    assert (x + y)[j + |x|..j + |x| + |pat|] == y[j..j + |pat|];
  }

  // ---------------------------------------------------------------------
  // str_repeat

  lemma {:induction false} RepeatLength(u: string, n: nat)
    ensures |Repeat(u, n)| == n * |u|
  {
    if n > 0 {
      RepeatLength(u, n - 1);
    }
  }

  /** `str_repeat($u, $n)` is `n` back-to-back copies of `u`: the copy with
      index `k` starts at offset `k * |u|`. */
  lemma {:induction false} RepeatCopies(u: string, n: nat, k: nat)
    requires k < n
    ensures |Repeat(u, n)| == n * |u|
    ensures Repeat(u, n)[k * |u|..k * |u| + |u|] == u
  {
    RepeatLength(u, n);
    RepeatLength(u, n - 1);
    var prev := Repeat(u, n - 1);
    assert Repeat(u, n) == prev + u;
    if k < n - 1 {
      RepeatCopies(u, n - 1, k);
      MulMonotone(k + 1, n - 1, |u|);
      assert k * |u| + |u| == (k + 1) * |u|;
      assert Repeat(u, n)[k * |u|..k * |u| + |u|] == prev[k * |u|..k * |u| + |u|];
    } else {
      assert k * |u| == |prev|;
    }
  }

  lemma {:induction false} MulMonotone(a: nat, b: nat, c: nat)
    requires a <= b
    ensures a * c <= b * c
  {
  }
}
