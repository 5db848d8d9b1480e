/**
 * The few Python string operations the scraper relies on, over `seq<char>`:
 * `lower()` (ASCII letters only), `replace`, `split(c)[0]`, slicing, `', '.join`,
 * the character filters of `re.sub`, and `str` of a non-negative integer.
 */
module Text {

  predicate IsUpper(c: char) {
    'A' <= c <= 'Z'
  }

  predicate IsAsciiLetter(c: char) {
    'a' <= c <= 'z' || 'A' <= c <= 'Z'
  }

  /** `c.lower()` for an ASCII character; every other character is left alone. */
  function LowerChar(c: char): (r: char)
    ensures !IsUpper(r)
    ensures IsAsciiLetter(r) <==> IsAsciiLetter(c)
  {
    if IsUpper(c) then (c as int + 32) as char else c
  }

  /** `s.lower()`, restricted to ASCII. */
  function Lower(s: string): (r: string)
    ensures |r| == |s|
    ensures forall k :: 0 <= k < |s| ==> r[k] == LowerChar(s[k])
  {
    seq(|s|, k requires 0 <= k < |s| => LowerChar(s[k]))
  }

  /** `s.replace(a, b)` for single characters `a` and `b`. */
  function ReplaceChar(s: string, a: char, b: char): (r: string)
    ensures |r| == |s|
    ensures forall k :: 0 <= k < |s| ==> r[k] == if s[k] == a then b else s[k]
  {
    seq(|s|, k requires 0 <= k < |s| => if s[k] == a then b else s[k])
  }

  /** `replace` changes nothing when the character does not occur. */
  lemma ReplaceCharAbsent(s: string, a: char, b: char)
    requires a !in s
    ensures ReplaceChar(s, a, b) == s
  {
    assert forall k :: 0 <= k < |s| ==> s[k] != a;
  }

  /** `replace` on a text with a single occurrence swaps that one character. */
  lemma ReplaceCharOnce(s: string, a: char, b: char, i: nat)
    requires i < |s| && s[i] == a
    requires forall k :: 0 <= k < |s| && k != i ==> s[k] != a
    ensures ReplaceChar(s, a, b) == s[..i] + [b] + s[i + 1..]
  {
    var r := ReplaceChar(s, a, b);
    var t := s[..i] + [b] + s[i + 1..];
    assert forall k :: 0 <= k < |s| ==> r[k] == t[k];
  }

  /** `re.sub('[^a-zA-Z]', '', s)`: the ASCII letters of `s`, in order. */
  function KeepLetters(s: string): (r: string)
    ensures |r| <= |s|
    ensures forall k :: 0 <= k < |r| ==> IsAsciiLetter(r[k])
  {
    if s == [] then [] else (if IsAsciiLetter(s[0]) then [s[0]] else []) + KeepLetters(s[1..])
  }

  /** `re.sub('[...]', '', s)`: `s` without the characters of `drop`, in order. */
  function RemoveChars(s: string, drop: set<char>): (r: string)
    ensures |r| <= |s|
    ensures forall k :: 0 <= k < |r| ==> r[k] !in drop
  {
    if s == [] then [] else (if s[0] in drop then [] else [s[0]]) + RemoveChars(s[1..], drop)
  }

  /** `s.split(c)[0]`: the part of `s` before the first `c`, or all of `s`. */
  function Before(s: string, c: char): (r: string)
    ensures r <= s
    ensures c !in r
    ensures |r| < |s| ==> s[|r|] == c
  {
    if s == [] then [] else if s[0] == c then [] else [s[0]] + Before(s[1..], c)
  }

  /** `s.split(c)[0]` is the part of `s` before the first `c`. */
  lemma BeforeAt(s: string, c: char, i: nat)
    requires i < |s| && s[i] == c
    requires forall k :: 0 <= k < i ==> s[k] != c
    ensures Before(s, c) == s[..i]
  {
    var r := Before(s, c);
    assert !(|r| < i);
  }

  /** `s[:n]`. */
  function Take(s: string, n: nat): (r: string)
    ensures r <= s
    ensures |r| == if |s| <= n then |s| else n
  {
    if |s| <= n then s else s[..n]
  }

  /** `sep.join(xs)`. */
  function Join(xs: seq<string>, sep: string): (r: string)
    ensures xs == [] ==> r == ""
    ensures xs != [] ==> xs[0] <= r && |r| >= |xs[0]| + (|xs| - 1) * |sep|
  {
    if xs == [] then "" else if |xs| == 1 then xs[0] else xs[0] + sep + Join(xs[1..], sep)
  }

  /** Joining one more text appends the separator and that text, as an append loop would. */
  lemma {:induction false} JoinSnoc(xs: seq<string>, x: string, sep: string)
    ensures Join(xs + [x], sep) == if xs == [] then x else Join(xs, sep) + sep + x
    decreases |xs|
  {
    if |xs| > 1 {
      assert (xs + [x])[1..] == xs[1..] + [x];
      JoinSnoc(xs[1..], x, sep);
    } else if |xs| == 1 {
      assert (xs + [x])[1..] == [x];
    }
  }

  /** `s.replace(pat, rep)`: every non-overlapping occurrence of `pat`, scanning left to right. */
  function ReplaceAll(s: string, pat: string, rep: string): (r: string)
    requires pat != []
    ensures |s| < |pat| ==> r == s
    ensures rep == pat ==> r == s
    ensures |rep| <= |pat| ==> |r| <= |s|
    decreases |s|
  {
    if |s| < |pat| then s
    else if s[..|pat|] == pat then rep + ReplaceAll(s[|pat|..], pat, rep)
    else [s[0]] + ReplaceAll(s[1..], pat, rep)
  }

  /** The pattern occurs in `s` at position `k`. */
  predicate OccursAt(s: string, pat: string, k: nat) {
    k + |pat| <= |s| && s[k..k + |pat|] == pat
  }

  /** Text with no occurrence of the pattern is left as it is. */
  lemma {:induction false} ReplaceAllNoMatch(s: string, pat: string, rep: string)
    requires pat != []
    requires forall k: nat :: !OccursAt(s, pat, k)
    ensures ReplaceAll(s, pat, rep) == s
    decreases |s|
  {
    if |s| >= |pat| {
      assert !OccursAt(s, pat, 0);
      var t := s[1..];
      forall k: nat
        ensures !OccursAt(t, pat, k)
      {
        assert !OccursAt(s, pat, k + 1);
        if k + |pat| <= |t| {
          assert t[k..k + |pat|] == s[k + 1..k + 1 + |pat|];
        }
      }
      ReplaceAllNoMatch(t, pat, rep);
    }
  }

  /** An occurrence of the pattern at the front becomes the replacement, and the scan resumes after it. */
  lemma ReplaceAllAtMatch(pat: string, t: string, rep: string)
    requires pat != []
    ensures ReplaceAll(pat + t, pat, rep) == rep + ReplaceAll(t, pat, rep)
  {
    assert (pat + t)[..|pat|] == pat;
    assert (pat + t)[|pat|..] == t;
  }

  /** Where the pattern does not start the text, the first character is kept and the scan moves on by one. */
  lemma ReplaceAllSkip(s: string, pat: string, rep: string)
    requires pat != [] && s != [] && !OccursAt(s, pat, 0)
    ensures ReplaceAll(s, pat, rep) == [s[0]] + ReplaceAll(s[1..], pat, rep)
  {
    if |s| < |pat| {
      assert s == [s[0]] + s[1..];
    } else {
      assert s[0..0 + |pat|] == s[..|pat|];
    }
  }

  function DigitChar(d: nat): (c: char)
    requires d < 10
    ensures '0' <= c <= '9'
  {
    (48 + d) as char
  }

  /** The value of a digit text, read left to right: each digit multiplies what came before by ten. */
  function DigitsValue(s: string): nat
    requires forall k :: 0 <= k < |s| ==> '0' <= s[k] <= '9'
  {
    if s == [] then 0 else 10 * DigitsValue(s[..|s| - 1]) + (s[|s| - 1] as int - '0' as int)
  }

  /** `str(n)` for a non-negative integer: its decimal digits, without leading zeros. */
  function Decimal(n: nat): (r: string)
    ensures |r| >= 1
    ensures n < 10 <==> |r| == 1
    ensures forall k :: 0 <= k < |r| ==> '0' <= r[k] <= '9'
    ensures n > 0 ==> r[0] != '0'
  {
    if n < 10 then [DigitChar(n)] else Decimal(n / 10) + [DigitChar(n % 10)]
  }

  /** Reading the decimal text of `n` back gives `n`: the digits are the value's, most significant first. */
  lemma {:induction false} DecimalRoundTrip(n: nat)
    ensures DigitsValue(Decimal(n)) == n
  {
    var d := Decimal(n);
    if n >= 10 {
      assert d[..|d| - 1] == Decimal(n / 10);
      DecimalRoundTrip(n / 10);
    }
  }

  /** Distinct numbers have distinct decimal texts, so comparing ranks as strings is comparing numbers. */
  lemma {:induction false} DecimalInjective(a: nat, b: nat)
    requires Decimal(a) == Decimal(b)
    ensures a == b
    decreases a
  {
    var da, db := Decimal(a), Decimal(b);
    if a < 10 {
      assert |db| == 1 && b < 10;
      assert DigitChar(a) == da[0] == db[0] == DigitChar(b);
    } else {
      assert b >= 10;
      assert da[|da| - 1] == DigitChar(a % 10);
      assert db[|db| - 1] == DigitChar(b % 10);
      assert Decimal(a / 10) == da[..|da| - 1] == db[..|db| - 1] == Decimal(b / 10);
      DecimalInjective(a / 10, b / 10);
    }
  }

  lemma {:induction false} LowerIdempotent(s: string)
    ensures Lower(Lower(s)) == Lower(s)
  {
    forall k | 0 <= k < |s| ensures Lower(Lower(s))[k] == Lower(s)[k] {
      assert !IsUpper(Lower(s)[k]);
    }
  }

  lemma {:induction false} KeepLettersIdempotent(s: string)
    ensures KeepLetters(KeepLetters(s)) == KeepLetters(s)
  {
    if s != [] {
      KeepLettersIdempotent(s[1..]);
      KeepLettersAppend(if IsAsciiLetter(s[0]) then [s[0]] else [], KeepLetters(s[1..]));
      if IsAsciiLetter(s[0]) {
        assert KeepLetters([s[0]]) == [s[0]] by {
          assert [s[0]][1..] == [];
        }
      }
    }
  }

  lemma {:induction false} KeepLettersAppend(a: string, b: string)
    ensures KeepLetters(a + b) == KeepLetters(a) + KeepLetters(b)
  {
    if a == [] {
      assert a + b == b;
    } else {
      assert (a + b)[0] == a[0];
      assert (a + b)[1..] == a[1..] + b;
      KeepLettersAppend(a[1..], b);
    }
  }

  /** Lower-casing and dropping non-letters commute, since lower-casing maps letters to letters. */
  lemma {:induction false} KeepLettersLower(s: string)
    ensures KeepLetters(Lower(s)) == Lower(KeepLetters(s))
  {
    if s != [] {
      KeepLettersLower(s[1..]);
      assert Lower(s)[1..] == Lower(s[1..]);
      assert Lower(s)[0] == LowerChar(s[0]);
      var head := if IsAsciiLetter(s[0]) then [s[0]] else [];
      assert Lower(head + KeepLetters(s[1..])) == Lower(head) + Lower(KeepLetters(s[1..]));
    }
  }

  /** Removing characters never brings in one that was not there. */
  lemma {:induction false} RemoveCharsKeepsOut(s: string, drop: set<char>, c: char)
    requires c !in s
    ensures c !in RemoveChars(s, drop)
  {
    if s != [] {
      RemoveCharsKeepsOut(s[1..], drop, c);
    }
  }

  /** A single character is kept exactly when it is a letter; with `KeepLettersAppend` this fixes the filter. */
  lemma KeepLettersByCharacter(c: char)
    ensures KeepLetters([c]) == if IsAsciiLetter(c) then [c] else []
  {
    assert [c][1..] == [];
  }

  /** A single character is kept exactly when it is not dropped; with `RemoveCharsAppend` this fixes the filter. */
  lemma RemoveCharsByCharacter(c: char, drop: set<char>)
    ensures RemoveChars([c], drop) == if c in drop then [] else [c]
  {
    assert [c][1..] == [];
  }

  lemma {:induction false} RemoveCharsAppend(a: string, b: string, drop: set<char>)
    ensures RemoveChars(a + b, drop) == RemoveChars(a, drop) + RemoveChars(b, drop)
  {
    if a == [] {
      assert a + b == b;
    } else {
      assert (a + b)[0] == a[0];
      assert (a + b)[1..] == a[1..] + b;
      RemoveCharsAppend(a[1..], b, drop);
    }
  }
}
