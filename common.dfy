/**
 * Value types and string helpers shared by every module of the model:
 * an optional value, a success-or-error result, bytes, and the few
 * JavaScript string operations the converter relies on (decimal
 * rendering of indices, splitting on one character, joining, ASCII
 * lower-casing).
 */
module Common {

  datatype Option<+T> = None | Some(value: T) {
    /** The value, or `default` when there is none (JavaScript's `??` on a known shape). */
    function GetOr(default: T): T {
      if Some? then value else default
    }
  }

  datatype Result<+T, +E> = Success(value: T) | Failure(error: E)

  /** One byte of a Node `Buffer` or a browser `ArrayBuffer`. */
  newtype byte = b: int | 0 <= b < 256

  // ---------------------------------------------------------------------------
  // Decimal rendering of natural numbers (template literals such as `buffer-${i}`)
  // ---------------------------------------------------------------------------

  predicate IsDigit(c: char) {
    '0' <= c <= '9'
  }

  function DigitChar(d: nat): (c: char)
    requires d < 10
    ensures IsDigit(c) && c as int - '0' as int == d
  {
    ('0' as int + d) as char
  }

  /** `String(n)` for a natural number: its decimal digits, no leading zero. */
  function NatToString(n: nat): (s: string)
    ensures |s| >= 1
    ensures forall i :: 0 <= i < |s| ==> IsDigit(s[i])
    ensures n >= 10 ==> s[0] != '0'
  {
    if n < 10 then [DigitChar(n)] else NatToString(n / 10) + [DigitChar(n % 10)]
  }

  /** The number a non-empty run of decimal digits denotes. */
  function DigitsValue(s: string): nat
    requires forall i :: 0 <= i < |s| ==> IsDigit(s[i])
  {
    if s == [] then 0
    else
      assert IsDigit(s[|s| - 1]);
      DigitsValue(s[..|s| - 1]) * 10 + (s[|s| - 1] as int - '0' as int)
  }

  /** Reading back the decimal rendering gives the number again. */
  lemma {:induction false} NatToStringRoundTrip(n: nat)
    ensures DigitsValue(NatToString(n)) == n
  {
    if n >= 10 {
      var s := NatToString(n);
      assert s[..|s| - 1] == NatToString(n / 10);
      NatToStringRoundTrip(n / 10);
    }
  }

  /** Distinct numbers have distinct renderings. */
  lemma NatToStringInjective(m: nat, n: nat)
    ensures NatToString(m) == NatToString(n) ==> m == n
  {
    NatToStringRoundTrip(m);
    NatToStringRoundTrip(n);
  }

  // ---------------------------------------------------------------------------
  // ASCII lower-casing (`toLowerCase` restricted to the letters A-Z)
  // ---------------------------------------------------------------------------

  function LowerChar(c: char): char {
    if 'A' <= c <= 'Z' then (c as int + 32) as char else c
  }

  function ToLower(s: string): (r: string)
    ensures |r| == |s|
    ensures forall i :: 0 <= i < |s| ==> r[i] == LowerChar(s[i])
  {
    if s == [] then [] else [LowerChar(s[0])] + ToLower(s[1..])
  }

  /** Lower-casing twice is the same as lower-casing once. */
  lemma ToLowerIdempotent(s: string)
    ensures ToLower(ToLower(s)) == ToLower(s)
  {
    assert forall i :: 0 <= i < |s| ==> ToLower(ToLower(s))[i] == ToLower(s)[i];
  }

  // ---------------------------------------------------------------------------
  // `String.prototype.split` on a one-character separator, and `Array.prototype.join`
  // ---------------------------------------------------------------------------

  /** The pieces of `s` between occurrences of `sep`, in order; never empty. */
  function Split(s: string, sep: char): (parts: seq<string>)
    ensures |parts| >= 1
    ensures forall i :: 0 <= i < |parts| ==> sep !in parts[i]
  {
    if s == [] then [""]
    else
      var rest := Split(s[1..], sep);
      if s[0] == sep then [""] + rest
      else [[s[0]] + rest[0]] + rest[1..]
  }

  function Join(parts: seq<string>, sep: string): string {
    if |parts| == 0 then ""
    else if |parts| == 1 then parts[0]
    else parts[0] + sep + Join(parts[1..], sep)
  }

  /** Joining the pieces of a split with the separator rebuilds the string. */
  lemma {:induction false} SplitJoin(s: string, sep: char)
    ensures Join(Split(s, sep), [sep]) == s
  {
    if s != [] {
      var rest := Split(s[1..], sep);
      SplitJoin(s[1..], sep);
      if s[0] == sep {
        assert Split(s, sep) == [""] + rest;
        assert ([""] + rest)[1..] == rest;
      } else if |rest| == 1 {
        assert Split(s, sep) == [[s[0]] + rest[0]];
      } else {
        var parts := Split(s, sep);
        assert parts == [[s[0]] + rest[0]] + rest[1..];
        assert parts[1..] == rest[1..];
        assert Join(rest, [sep]) == rest[0] + [sep] + Join(rest[1..], [sep]);
      }
    }
  }

  /** The last piece of a split: the text after the final `sep`, or all of `s`. */
  function AfterLast(s: string, sep: char): (r: string)
    ensures sep !in r
  {
    var parts := Split(s, sep);
    parts[|parts| - 1]
  }

  /** A string without the separator is its own single piece. */
  lemma {:induction false} SplitWithoutSeparator(s: string, sep: char)
    requires sep !in s
    ensures Split(s, sep) == [s]
  {
    if s != [] {
      SplitWithoutSeparator(s[1..], sep);
      assert s[0] != sep;
      assert [s[0]] + s[1..] == s;
    }
  }

  /** The text after the last separator is a suffix of the string. */
  lemma {:induction false} AfterLastIsSuffix(s: string, sep: char)
    ensures |AfterLast(s, sep)| <= |s|
    ensures AfterLast(s, sep) == s[|s| - |AfterLast(s, sep)|..]
  {
    if s != [] {
      AfterLastIsSuffix(s[1..], sep);
      var rest := Split(s[1..], sep);
      if s[0] != sep && |rest| == 1 {
        SplitJoin(s[1..], sep);
        assert rest[0] == s[1..];
        assert AfterLast(s, sep) == [s[0]] + s[1..] == s;
      } else {
        var tail := AfterLast(s[1..], sep);
        assert AfterLast(s, sep) == tail;
        assert s[1..][|s| - 1 - |tail|..] == s[|s| - |tail|..];
      }
    }
  }

  /** Every piece lower-cased. */
  function LowerAll(parts: seq<string>): (r: seq<string>)
    ensures |r| == |parts|
  {
    if parts == [] then [] else [ToLower(parts[0])] + LowerAll(parts[1..])
  }

  /** Lower-casing commutes with splitting on a separator that is not a letter. */
  lemma {:induction false} SplitToLower(s: string, sep: char)
    requires !('A' <= sep <= 'Z') && !('a' <= sep <= 'z')
    ensures Split(ToLower(s), sep) == LowerAll(Split(s, sep))
  {
    if s != [] {
      SplitToLower(s[1..], sep);
      var t := ToLower(s);
      assert t[0] == LowerChar(s[0]) && t[1..] == ToLower(s[1..]);
      assert (LowerChar(s[0]) == sep) == (s[0] == sep);
      var rest := Split(s[1..], sep);
      if s[0] == sep {
        assert Split(s, sep) == [""] + rest;
        assert ([""] + rest)[1..] == rest;
      } else {
        var parts := [[s[0]] + rest[0]] + rest[1..];
        assert Split(s, sep) == parts;
        assert parts[1..] == rest[1..];
        assert ([s[0]] + rest[0])[1..] == rest[0];
        assert ToLower([s[0]] + rest[0]) == [LowerChar(s[0])] + ToLower(rest[0]);
        assert LowerAll(rest) == [ToLower(rest[0])] + LowerAll(rest[1..]);
      }
    }
  }

  /** The last element of the lower-cased pieces is the lower-cased last piece. */
  lemma {:induction false} LowerAllLast(parts: seq<string>)
    requires |parts| >= 1
    ensures LowerAll(parts)[|parts| - 1] == ToLower(parts[|parts| - 1])
  {
    if |parts| > 1 {
      LowerAllLast(parts[1..]);
    }
  }

  /** Taking the text after the last separator commutes with lower-casing. */
  lemma AfterLastToLower(s: string, sep: char)
    requires !('A' <= sep <= 'Z') && !('a' <= sep <= 'z')
    ensures AfterLast(ToLower(s), sep) == ToLower(AfterLast(s, sep))
  {
    SplitToLower(s, sep);
    LowerAllLast(Split(s, sep));
  }

  /** When the separator occurs, the last piece is preceded by it. */
  lemma {:induction false} AfterLastFollowsSeparator(s: string, sep: char)
    requires sep in s
    ensures |AfterLast(s, sep)| < |s| && s[|s| - |AfterLast(s, sep)| - 1] == sep
  {
    var t := s[1..];
    if s[0] == sep {
      if sep in t {
        AfterLastFollowsSeparator(t, sep);
        assert AfterLast(s, sep) == AfterLast(t, sep);
      } else {
        SplitWithoutSeparator(t, sep);
        assert AfterLast(s, sep) == t;
      }
    } else {
      assert sep in t;
      var k :| 0 <= k < |t| && t[k] == sep;
      assert t == t[..k] + [sep] + t[k + 1..];
      SplitHasPieceAfterSeparator(t[..k], sep, t[k + 1..]);
      assert AfterLast(s, sep) == AfterLast(t, sep);
      AfterLastFollowsSeparator(t, sep);
    }
  }

  /** The text after the last separator of `stem + [sep] + tail`, for a `tail` without it, is `tail`. */
  lemma {:induction false} AfterLastAfterSeparator(stem: string, sep: char, tail: string)
    requires sep !in tail
    ensures AfterLast(stem + [sep] + tail, sep) == tail
  {
    if stem == [] {
      SplitWithoutSeparator(tail, sep);
      assert (stem + [sep] + tail)[1..] == tail;
    } else {
      AfterLastAfterSeparator(stem[1..], sep, tail);
      assert (stem + [sep] + tail)[1..] == stem[1..] + [sep] + tail;
      SplitHasPieceAfterSeparator(stem[1..], sep, tail);
    }
  }

  /** A separator in the string produces at least two pieces. */
  lemma {:induction false} SplitHasPieceAfterSeparator(stem: string, sep: char, tail: string)
    ensures |Split(stem + [sep] + tail, sep)| >= 2
  {
    if stem == [] {
      assert ([sep] + tail)[1..] == tail;
    } else {
      SplitHasPieceAfterSeparator(stem[1..], sep, tail);
      assert (stem + [sep] + tail)[1..] == stem[1..] + [sep] + tail;
    }
  }

  /** Splitting at a first separator: the text before it is the first piece, the rest splits on its own. */
  lemma {:induction false} SplitAtFirst(head: string, sep: char, rest: string)
    requires sep !in head
    ensures Split(head + [sep] + rest, sep) == [head] + Split(rest, sep)
  {
    if head == [] {
      assert ([sep] + rest)[1..] == rest;
    } else {
      SplitAtFirst(head[1..], sep, rest);
      assert (head + [sep] + rest)[1..] == head[1..] + [sep] + rest;
      assert [head[0]] + head[1..] == head;
    }
  }

  /** Lower-casing distributes over concatenation. */
  lemma ToLowerConcat(a: string, b: string)
    ensures ToLower(a + b) == ToLower(a) + ToLower(b)
  {
    assert forall i :: 0 <= i < |a + b| ==> ToLower(a + b)[i] == (ToLower(a) + ToLower(b))[i];
  }
}
