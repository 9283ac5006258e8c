/**
 * The PHP string and array built-ins that the dataset editor relies on,
 * written out so that the page logic can be reasoned about: rtrim,
 * PHP string falsiness, explode/implode, intval on digits, strtolower,
 * the byte order that PHP's `<` uses on non-numeric strings, clean_param
 * with PARAM_ALPHANUMEXT and PARAM_SEQUENCE, the decimal rendering of an
 * integer inside a string, and the key order of array_flip /
 * array_diff_key.
 */
module PhpText {

  const TAB: char := '\t'
  const COMMA: char := ','

  /** The characters rtrim() strips when called without a character list. */
  predicate IsRtrimChar(c: char) {
    c == ' ' || c == '\t' || c == '\n' || c == '\r' || c as int == 0 || c as int == 11
  }

  /** rtrim($s): the longest prefix of s that does not end in trimmable space. */
  function Rtrim(s: string): (r: string)
    ensures |r| <= |s| && r == s[..|r|]
    ensures r == [] || !IsRtrimChar(r[|r| - 1])
    ensures forall k :: |r| <= k < |s| ==> IsRtrimChar(s[k])
    decreases |s|
  {
    if |s| > 0 && IsRtrimChar(s[|s| - 1]) then Rtrim(s[..|s| - 1]) else s
  }

  /** `!$s` for a PHP string: the empty string and "0" are false. */
  predicate IsFalsy(s: string) {
    s == "" || s == "0"
  }

  /** explode($sep, $s) for a one-character separator. */
  function Explode(sep: char, s: string): (r: seq<string>)
    ensures |r| >= 1
    ensures forall k :: 0 <= k < |r| ==> sep !in r[k]
    decreases |s|
  {
    if |s| == 0 then [""]
    else
      var rest := Explode(sep, s[1..]);
      if s[0] == sep then [""] + rest
      else [[s[0]] + rest[0]] + rest[1..]
  }

  /** implode($sep, $pieces), the inverse of Explode. */
  function Implode(sep: char, pieces: seq<string>): string
    decreases |pieces|
  {
    if |pieces| == 0 then ""
    else if |pieces| == 1 then pieces[0]
    else pieces[0] + [sep] + Implode(sep, pieces[1..])
  }

  /** Explode only cuts at the separator: joining its pieces again gives back the text. */
  lemma {:induction false} ImplodeExplode(sep: char, s: string)
    ensures Implode(sep, Explode(sep, s)) == s
    decreases |s|
  {
    if |s| > 0 {
      var rest := Explode(sep, s[1..]);
      ImplodeExplode(sep, s[1..]);
      if s[0] == sep {
        assert Explode(sep, s) == [""] + rest;
        assert ([""] + rest)[1..] == rest;
        assert s == [sep] + s[1..];
      } else {
        var r := [[s[0]] + rest[0]] + rest[1..];
        assert Explode(sep, s) == r;
        if |rest| == 1 {
          assert s[1..] == rest[0];
        } else {
          assert r[1..] == rest[1..];
          assert s[1..] == rest[0] + [sep] + Implode(sep, rest[1..]);
        }
        assert s == [s[0]] + s[1..];
      }
    }
  }

  /** Every piece of Explode is made of characters of the text. */
  lemma {:induction false} ExplodePieces(sep: char, s: string)
    ensures forall k, j :: 0 <= k < |Explode(sep, s)| && 0 <= j < |Explode(sep, s)[k]| ==>
      Explode(sep, s)[k][j] in s
    decreases |s|
  {
    if |s| > 0 {
      ExplodePieces(sep, s[1..]);
      var rest := Explode(sep, s[1..]);
      forall k, j | 0 <= k < |Explode(sep, s)| && 0 <= j < |Explode(sep, s)[k]|
        ensures Explode(sep, s)[k][j] in s
      {
        if s[0] != sep && k == 0 && j > 0 {
          assert Explode(sep, s)[0][j] == rest[0][j - 1];
        } else if s[0] != sep && k > 0 {
          assert Explode(sep, s)[k] == rest[k];
        } else if s[0] == sep {
          assert Explode(sep, s)[k] == ([""] + rest)[k];
        }
      }
    }
  }

  /** A text without the separator is a single piece. */
  lemma {:induction false} ExplodeNoSeparator(sep: char, p: string)
    requires sep !in p
    ensures Explode(sep, p) == [p]
    decreases |p|
  {
    if |p| > 0 {
      ExplodeNoSeparator(sep, p[1..]);
      assert p == [p[0]] + p[1..];
    }
  }

  /** A separator-free prefix followed by the separator is the first piece. */
  lemma {:induction false} ExplodeCut(sep: char, p: string, t: string)
    requires sep !in p
    ensures Explode(sep, p + [sep] + t) == [p] + Explode(sep, t)
    decreases |p|
  {
    var s := p + [sep] + t;
    if |p| == 0 {
      assert s == [sep] + t;
      assert s[1..] == t;
    } else {
      assert s[1..] == p[1..] + [sep] + t;
      ExplodeCut(sep, p[1..], t);
      assert p == [p[0]] + p[1..];
    }
  }

  /** Cutting the joined pieces again gives back the pieces, when no piece holds the separator. */
  lemma {:induction false} ExplodeImplode(sep: char, pieces: seq<string>)
    requires |pieces| >= 1
    requires forall k :: 0 <= k < |pieces| ==> sep !in pieces[k]
    ensures Explode(sep, Implode(sep, pieces)) == pieces
    decreases |pieces|
  {
    if |pieces| == 1 {
      ExplodeNoSeparator(sep, pieces[0]);
    } else {
      ExplodeImplode(sep, pieces[1..]);
      ExplodeCut(sep, pieces[0], Implode(sep, pieces[1..]));
      assert pieces == [pieces[0]] + pieces[1..];
    }
  }

  /** Every character of the joined text is the separator or a character of a piece. */
  lemma {:induction false} ImplodeChars(sep: char, pieces: seq<string>)
    ensures forall c :: c in Implode(sep, pieces) ==>
      c == sep || exists k :: 0 <= k < |pieces| && c in pieces[k]
    decreases |pieces|
  {
    if |pieces| > 1 {
      ImplodeChars(sep, pieces[1..]);
      forall c | c in Implode(sep, pieces)
        ensures c == sep || exists k :: 0 <= k < |pieces| && c in pieces[k]
      {
        if c in pieces[0] {
        } else if c != sep {
          assert c in Implode(sep, pieces[1..]);
          var k :| 0 <= k < |pieces[1..]| && c in pieces[1..][k];
          assert c in pieces[k + 1];
        }
      }
    }
  }

  /** Explode yields one more piece than there are separators in the text. */
  lemma {:induction false} ExplodeFieldCount(sep: char, s: string)
    ensures |Explode(sep, s)| == CharCount(sep, s) + 1
    decreases |s|
  {
    if |s| > 0 {
      ExplodeFieldCount(sep, s[1..]);
    }
  }

  /** substr_count($s, $c) for one character. */
  function CharCount(c: char, s: string): nat
    decreases |s|
  {
    if |s| == 0 then 0 else (if s[0] == c then 1 else 0) + CharCount(c, s[1..])
  }

  /** strtolower() on one character (ASCII letters only). */
  function LowerChar(c: char): char {
    if 'A' <= c <= 'Z' then (c as int + 32) as char else c
  }

  /** strtolower(): ASCII capitals become small letters; every other character stays. */
  function ToLower(s: string): (r: string)
    ensures |r| == |s|
    ensures forall k :: 0 <= k < |r| ==> !('A' <= r[k] <= 'Z')
    ensures forall k :: 0 <= k < |s| && 'A' <= s[k] <= 'Z' ==> r[k] == (s[k] as int + 32) as char
    ensures forall k :: 0 <= k < |s| && !('A' <= s[k] <= 'Z') ==> r[k] == s[k]
  {
    seq(|s|, k requires 0 <= k < |s| => LowerChar(s[k]))
  }

  /** Two characters that are the same letter in either case, or simply equal. */
  predicate SameIgnoringCase(c: char, d: char) {
    || c == d
    || ('A' <= c <= 'Z' && d as int == c as int + 32)
    || ('A' <= d <= 'Z' && c as int == d as int + 32)
  }

  /**
   * strtolower() identifies exactly the strings that differ only in the case
   * of ASCII letters.
   */
  lemma ToLowerEqual(a: string, b: string)
    ensures ToLower(a) == ToLower(b) <==>
      |a| == |b| && forall k :: 0 <= k < |a| ==> SameIgnoringCase(a[k], b[k])
  {
    if |a| == |b| && forall k :: 0 <= k < |a| ==> SameIgnoringCase(a[k], b[k]) {
      forall k | 0 <= k < |a| ensures ToLower(a)[k] == ToLower(b)[k] {
        assert SameIgnoringCase(a[k], b[k]);
      }
    }
    if ToLower(a) == ToLower(b) {
      forall k | 0 <= k < |a| ensures SameIgnoringCase(a[k], b[k]) {
        assert ToLower(a)[k] == ToLower(b)[k];
      }
    }
  }

  /** The characters clean_param(..., PARAM_ALPHANUMEXT) keeps. */
  predicate IsAlphanumExt(c: char) {
    ('a' <= c <= 'z') || ('A' <= c <= 'Z') || ('0' <= c <= '9') || c == '_' || c == '-'
  }

  /** clean_param($s, PARAM_ALPHANUMEXT): drop every character outside [A-Za-z0-9_-]. */
  function CleanAlphanumExt(s: string): (r: string)
    ensures |r| <= |s|
    ensures forall k :: 0 <= k < |r| ==> IsAlphanumExt(r[k])
    ensures (forall k :: 0 <= k < |s| ==> IsAlphanumExt(s[k])) ==> r == s
    ensures |s| == 1 ==> r == (if IsAlphanumExt(s[0]) then s else "")
    decreases |s|
  {
    if |s| == 0 then ""
    else
      var rest := CleanAlphanumExt(s[..|s| - 1]);
      if IsAlphanumExt(s[|s| - 1]) then rest + [s[|s| - 1]] else rest
  }

  /**
   * The cleaning works character by character: cleaning a concatenation
   * cleans each part, so every allowed character is kept, in order.
   */
  lemma {:induction false} CleanAlphanumExtAppend(a: string, b: string)
    ensures CleanAlphanumExt(a + b) == CleanAlphanumExt(a) + CleanAlphanumExt(b)
    decreases |b|
  {
    if |b| == 0 {
      assert a + b == a;
    } else {
      CleanAlphanumExtAppend(a, b[..|b| - 1]);
      assert (a + b)[..|a + b| - 1] == a + b[..|b| - 1];
    }
  }

  /** The characters clean_param(..., PARAM_SEQUENCE) keeps. */
  predicate IsSequenceChar(c: char) {
    ('0' <= c <= '9') || c == ','
  }

  /** clean_param($s, PARAM_SEQUENCE): drop every character but digits and commas. */
  function CleanSequence(s: string): (r: string)
    ensures forall k :: 0 <= k < |r| ==> IsSequenceChar(r[k])
    ensures (forall k :: 0 <= k < |s| ==> IsSequenceChar(s[k])) ==> r == s
    ensures |s| == 1 ==> r == (if IsSequenceChar(s[0]) then s else "")
    decreases |s|
  {
    if |s| == 0 then ""
    else
      var rest := CleanSequence(s[..|s| - 1]);
      if IsSequenceChar(s[|s| - 1]) then rest + [s[|s| - 1]] else rest
  }

  /**
   * PARAM_SEQUENCE cleaning works character by character: cleaning a
   * concatenation cleans each part, so every digit and comma is kept, in order.
   */
  lemma {:induction false} CleanSequenceAppend(a: string, b: string)
    ensures CleanSequence(a + b) == CleanSequence(a) + CleanSequence(b)
    decreases |b|
  {
    if |b| == 0 {
      assert a + b == a;
    } else {
      CleanSequenceAppend(a, b[..|b| - 1]);
      assert (a + b)[..|a + b| - 1] == a + b[..|b| - 1];
    }
  }

  /** The value of a text of decimal digits, without bound; the empty text is 0. */
  function DigitsValue(s: string): nat
    decreases |s|
  {
    if |s| == 0 then 0
    else
      var c := s[|s| - 1];
      var d := if '0' <= c <= '9' then c as int - '0' as int else 0;
      DigitsValue(s[..|s| - 1]) * 10 + d
  }

  /** Reading back the decimal text of a number gives the number. */
  lemma {:induction false} DigitsValueOfNatToString(n: nat)
    ensures DigitsValue(NatToString(n)) == n
    decreases n
  {
    if n >= 10 {
      DigitsValueOfNatToString(n / 10);
      var s := NatToString(n);
      assert s[..|s| - 1] == NatToString(n / 10);
    }
  }

  /** PHP_INT_MAX on a 64-bit build. */
  const PHP_INT_MAX: int := 0x7FFF_FFFF_FFFF_FFFF

  /** intval() of a text of decimal digits: its value, saturated at PHP_INT_MAX. */
  function Intval(s: string): (r: int)
    ensures 0 <= r <= PHP_INT_MAX
    ensures DigitsValue(s) <= PHP_INT_MAX ==> r == DigitsValue(s)
    ensures DigitsValue(s) >= PHP_INT_MAX ==> r == PHP_INT_MAX
  {
    if DigitsValue(s) > PHP_INT_MAX then PHP_INT_MAX else DigitsValue(s)
  }

  /** intval() of a number's decimal text is the number, up to PHP_INT_MAX, and PHP_INT_MAX above it. */
  lemma IntvalOfNatToString(n: nat)
    ensures n <= PHP_INT_MAX ==> Intval(NatToString(n)) == n
    ensures n >= PHP_INT_MAX ==> Intval(NatToString(n)) == PHP_INT_MAX
  {
    DigitsValueOfNatToString(n);
  }

  /** PHP's `<` on two non-numeric strings: byte-wise (strcmp) order. */
  predicate StrLess(a: string, b: string)
    decreases |a|
  {
    if |a| == 0 then |b| > 0
    else if |b| == 0 then false
    else if a[0] != b[0] then a[0] < b[0]
    else StrLess(a[1..], b[1..])
  }

  /** `a` is a proper prefix of `b`. */
  predicate IsProperPrefix(a: string, b: string) {
    |a| < |b| && a == b[..|a|]
  }

  /** `a` and `b` agree before position `k` and `a` has the smaller character there. */
  predicate DiffersFirstAt(a: string, b: string, k: int) {
    0 <= k < |a| && k < |b| && a[..k] == b[..k] && a[k] < b[k]
  }

  /**
   * strcmp order: a proper prefix sorts first; otherwise the first position
   * where the two strings differ decides.
   */
  lemma {:induction false} StrLessCharacterized(a: string, b: string)
    ensures StrLess(a, b) <==> IsProperPrefix(a, b) || exists k :: DiffersFirstAt(a, b, k)
    decreases |a|
  {
    if |a| > 0 && |b| > 0 {
      if a[0] != b[0] {
        forall k ensures DiffersFirstAt(a, b, k) <==> k == 0 && a[0] < b[0] {
          DiffersAtHead(a, b, k);
        }
        if a[0] < b[0] {
          assert DiffersFirstAt(a, b, 0);
        }
      } else {
        StrLessCharacterized(a[1..], b[1..]);
        PrefixOfTails(a, b);
        forall k ensures DiffersFirstAt(a, b, k) <==> k > 0 && DiffersFirstAt(a[1..], b[1..], k - 1) {
          DiffersInTails(a, b, k);
        }
        if exists k :: DiffersFirstAt(a[1..], b[1..], k) {
          var k :| DiffersFirstAt(a[1..], b[1..], k);
          assert DiffersFirstAt(a, b, k + 1);
        }
      }
    }
  }

  lemma DiffersAtHead(a: string, b: string, k: int)
    requires |a| > 0 && |b| > 0 && a[0] != b[0]
    ensures DiffersFirstAt(a, b, k) <==> k == 0 && a[0] < b[0]
  {
    if 0 < k < |a| && k < |b| {
      assert a[..k][0] == a[0] && b[..k][0] == b[0];
    }
  }

  lemma PrefixOfTails(a: string, b: string)
    requires |a| > 0 && |b| > 0 && a[0] == b[0]
    ensures IsProperPrefix(a, b) <==> IsProperPrefix(a[1..], b[1..])
  {
    if |a| < |b| {
      assert b[..|a|] == [b[0]] + b[1..][..|a| - 1];
      assert a == [a[0]] + a[1..];
    }
  }

  lemma DiffersInTails(a: string, b: string, k: int)
    requires |a| > 0 && |b| > 0 && a[0] == b[0]
    ensures DiffersFirstAt(a, b, k) <==> k > 0 && DiffersFirstAt(a[1..], b[1..], k - 1)
  {
    if 0 < k < |a| && k < |b| {
      assert a[..k] == [a[0]] + a[1..][..k - 1];
      assert b[..k] == [b[0]] + b[1..][..k - 1];
    }
  }


  lemma {:induction false} StrLessIrreflexive(a: string)
    ensures !StrLess(a, a)
    decreases |a|
  {
    if |a| > 0 {
      StrLessIrreflexive(a[1..]);
    }
  }

  /** Two different strings are ordered one way or the other, never both. */
  lemma {:induction false} StrLessTrichotomy(a: string, b: string)
    ensures a != b ==> (StrLess(a, b) <==> !StrLess(b, a))
    decreases |a|
  {
    if |a| > 0 && |b| > 0 && a[0] == b[0] {
      StrLessTrichotomy(a[1..], b[1..]);
      if a != b {
        assert a == [a[0]] + a[1..] && b == [b[0]] + b[1..];
      }
    }
  }

  lemma {:induction false} StrLessTransitive(a: string, b: string, c: string)
    requires StrLess(a, b) && StrLess(b, c)
    ensures StrLess(a, c)
    decreases |a|
  {
    if |a| > 0 && a[0] == b[0] && b[0] == c[0] {
      StrLessTransitive(a[1..], b[1..], c[1..]);
    }
  }

  function DigitChar(d: nat): char
    requires d < 10
  {
    ('0' as int + d) as char
  }

  /** The decimal text of a natural number, as PHP interpolates it into a string. */
  function NatToString(n: nat): (r: string)
    ensures |r| >= 1
    ensures |r| == 1 <==> n < 10
    ensures r[|r| - 1] == DigitChar(n % 10)
    decreases n
  {
    if n < 10 then [DigitChar(n)] else NatToString(n / 10) + [DigitChar(n % 10)]
  }

  /** The decimal text of a number is made of digits only. */
  lemma {:induction false} NatToStringDigits(n: nat)
    ensures forall c :: c in NatToString(n) ==> '0' <= c <= '9'
    decreases n
  {
    if n >= 10 {
      NatToStringDigits(n / 10);
    }
  }

  /** Different numbers have different decimal texts. */
  lemma {:induction false} NatToStringInjective(n: nat, m: nat)
    requires NatToString(n) == NatToString(m)
    ensures n == m
    decreases n
  {
    var s := NatToString(n);
    assert DigitChar(n % 10) == DigitChar(m % 10);
    if n >= 10 {
      assert m >= 10;
      assert NatToString(n / 10) == s[..|s| - 1] == NatToString(m / 10);
      NatToStringInjective(n / 10, m / 10);
    }
  }

  predicate Distinct<T(==)>(s: seq<T>) {
    forall i, j :: 0 <= i < j < |s| ==> s[i] != s[j]
  }

  /**
   * The key order of an array built by assigning s[0], s[1], ... as keys
   * (array_flip, or `$a[$x] = ...` in a loop): each value once, in the
   * order of its first occurrence.
   */
  function Dedup<T(==,!new)>(s: seq<T>): (r: seq<T>)
    ensures Distinct(r)
    ensures forall x :: x in r <==> x in s
    ensures |r| <= |s|
    ensures |s| == 1 ==> r == s
    decreases |s|
  {
    if |s| == 0 then []
    else
      var d := Dedup(s[..|s| - 1]);
      if s[|s| - 1] in d then d else d + [s[|s| - 1]]
  }

  /** array_diff_key on key lists: the keys of `a`, in order, that are not keys of `b`. */
  function DiffKeys<T(==,!new)>(a: seq<T>, b: seq<T>): (r: seq<T>)
    ensures forall x :: x in r <==> x in a && x !in b
    ensures Distinct(a) ==> Distinct(r)
    ensures |a| == 1 ==> r == (if a[0] in b then [] else a)
    decreases |a|
  {
    if |a| == 0 then []
    else
      var d := DiffKeys(a[..|a| - 1], b);
      if a[|a| - 1] in b then d else d + [a[|a| - 1]]
  }

  /** One more value in the first array is kept exactly when the second array lacks it. */
  lemma DiffKeysSnoc<T(!new)>(a: seq<T>, x: T, b: seq<T>)
    ensures DiffKeys(a + [x], b) == DiffKeys(a, b) + (if x in b then [] else [x])
  {
    assert (a + [x])[..|a|] == a;
  }

  /** array_diff_key keeps the order of its first array: it filters each part of a concatenation. */
  lemma {:induction false} DiffKeysAppend<T(!new)>(a1: seq<T>, a2: seq<T>, b: seq<T>)
    ensures DiffKeys(a1 + a2, b) == DiffKeys(a1, b) + DiffKeys(a2, b)
    decreases |a2|
  {
    if |a2| == 0 {
      assert a1 + a2 == a1;
    } else {
      var init, x := a2[..|a2| - 1], a2[|a2| - 1];
      var e := if x in b then [] else [x];
      assert a2 == init + [x];
      assert a1 + a2 == (a1 + init) + [x];
      calc {
        DiffKeys(a1 + a2, b);
        { DiffKeysSnoc(a1 + init, x, b); }
        DiffKeys(a1 + init, b) + e;
        { DiffKeysAppend(a1, init, b); }
        DiffKeys(a1, b) + DiffKeys(init, b) + e;
        DiffKeys(a1, b) + (DiffKeys(init, b) + e);
        { DiffKeysSnoc(init, x, b); }
        DiffKeys(a1, b) + DiffKeys(a2, b);
      }
    }
  }

  /**
   * First occurrences, in order: the distinct values of every prefix of the
   * list are a prefix of its distinct values, so a value seen earlier is never
   * placed after one first seen later.
   */
  lemma {:induction false} DedupPrefix<T(!new)>(s: seq<T>, n: nat)
    requires n <= |s|
    ensures Dedup(s[..n]) <= Dedup(s)
    decreases |s|
  {
    if n == |s| {
      assert s[..n] == s;
    } else {
      var init := s[..|s| - 1];
      DedupPrefix(init, n);
      assert init[..n] == s[..n];
    }
  }
}
