/**
 * The parts of java.lang and java.util that the address book relies on,
 * stated as Dafny functions: `String.trim`, `String.split` with a
 * one-character separator, `String.equalsIgnoreCase` against an ASCII word,
 * `Integer.parseInt`, `java.util.Optional` and 32-bit `int` arithmetic.
 */
module JavaText {

  /** A Java `int`. */
  newtype int32 = x: int | -0x8000_0000 <= x < 0x8000_0000

  const MaxInt32: int32 := 0x7fff_ffff
  const MinInt32: int32 := -0x8000_0000

  /** `java.util.Optional`: `Empty` is what makes `get()` throw. */
  datatype Optional<T> = Empty | Of(value: T)

  /** `x++` on a Java `int`: wraps from MAX_VALUE to MIN_VALUE. */
  function Increment(x: int32): int32 {
    if x == MaxInt32 then MinInt32 else x + 1
  }

  /** The value of a counter after `n` increments. */
  function Advance(x: int32, n: nat): int32
    decreases n
  {
    if n == 0 then x else Advance(Increment(x), n - 1)
  }

  /** Below MAX_VALUE, `n` increments add `n`. */
  lemma {:induction false} AdvanceAdds(x: int32, n: nat)
    requires x as int + n <= MaxInt32 as int
    ensures Advance(x, n) as int == x as int + n
    decreases n
  {
    if n > 0 {
      AdvanceAdds(Increment(x), n - 1);
    }
  }

  /**
   * Below MAX_VALUE an increment adds one; one more increment past
   * MAX_VALUE lands on MIN_VALUE, the only place the counter goes down.
   */
  lemma IncrementWraps(x: int32)
    ensures x < MaxInt32 ==> Increment(x) as int == x as int + 1
    ensures x == MaxInt32 ==> Increment(x) == MinInt32
    ensures Increment(x) < x <==> x == MaxInt32
  {
  }

  // -------------------------------------------------------------- length

  /** A character that UTF-16 holds in one code unit. */
  predicate IsBmp(c: char) {
    c as int <= 0xFFFF
  }

  /**
   * `String.length()`: the number of UTF-16 code units, where a character
   * above U+FFFF takes a surrogate pair.
   */
  function Utf16Length(s: string): nat
    decreases |s|
  {
    if s == [] then 0 else (if IsBmp(s[0]) then 1 else 2) + Utf16Length(s[1..])
  }

  /**
   * Every character takes one or two code units, and the length is the
   * number of characters exactly when none lies above U+FFFF.
   */
  lemma {:induction false} Utf16LengthBounds(s: string)
    ensures |s| <= Utf16Length(s) <= 2 * |s|
    ensures Utf16Length(s) == |s| <==> forall i :: 0 <= i < |s| ==> IsBmp(s[i])
    decreases |s|
  {
    if s != [] {
      Utf16LengthBounds(s[1..]);
      assert forall i :: 1 <= i < |s| ==> s[i] == s[1..][i - 1];
    }
  }

  // ---------------------------------------------------------------- trim

  /** The characters `String.trim` removes: every code point up to U+0020. */
  predicate IsSpace(c: char) {
    c <= ' '
  }

  predicate AllSpace(s: string) {
    forall i :: 0 <= i < |s| ==> IsSpace(s[i])
  }

  /** A string that `trim` leaves alone: empty, or non-space at both ends. */
  predicate IsTrimmed(s: string) {
    s == [] || (!IsSpace(s[0]) && !IsSpace(s[|s| - 1]))
  }

  /** Drops leading spaces. */
  function TrimStart(s: string): string
    decreases |s|
  {
    if s != [] && IsSpace(s[0]) then TrimStart(s[1..]) else s
  }

  /** What `TrimStart` keeps is a suffix that starts with a non-space, after spaces only. */
  lemma {:induction false} TrimStartShape(s: string)
    ensures |TrimStart(s)| <= |s| && TrimStart(s) == s[|s| - |TrimStart(s)|..]
    ensures AllSpace(s[..|s| - |TrimStart(s)|])
    ensures TrimStart(s) != [] ==> !IsSpace(TrimStart(s)[0])
    decreases |s|
  {
    if s != [] && IsSpace(s[0]) {
      TrimStartShape(s[1..]);
    }
  }

  /** Drops trailing spaces. */
  function TrimEnd(s: string): string
    decreases |s|
  {
    if s != [] && IsSpace(s[|s| - 1]) then TrimEnd(s[..|s| - 1]) else s
  }

  /** What `TrimEnd` keeps is a prefix that ends with a non-space, before spaces only. */
  lemma {:induction false} TrimEndShape(s: string)
    ensures |TrimEnd(s)| <= |s| && TrimEnd(s) == s[..|TrimEnd(s)|]
    ensures AllSpace(s[|TrimEnd(s)|..])
    ensures TrimEnd(s) != [] ==> !IsSpace(TrimEnd(s)[|TrimEnd(s)| - 1])
    decreases |s|
  {
    if s != [] && IsSpace(s[|s| - 1]) {
      TrimEndShape(s[..|s| - 1]);
    }
  }

  /** `String.trim`: the input with its leading and trailing spaces removed. */
  function Trim(s: string): string {
    TrimEnd(TrimStart(s))
  }

  /**
   * What `trim` returns is trimmed, and the input is that core with only
   * spaces before and after it.
   */
  lemma TrimShape(s: string)
    ensures IsTrimmed(Trim(s))
    ensures exists pre, post :: s == pre + Trim(s) + post && AllSpace(pre) && AllSpace(post)
  {
    var t := TrimStart(s);
    var r := TrimEnd(t);
    TrimStartShape(s);
    TrimEndShape(t);
    var pre, post := s[..|s| - |t|], t[|r|..];
    assert t == r + post;
    assert s == pre + t;
    assert AllSpace(pre) && AllSpace(post);
  }

  lemma {:induction false} TrimStartOf(pre: string, rest: string)
    requires AllSpace(pre)
    requires rest == [] || !IsSpace(rest[0])
    ensures TrimStart(pre + rest) == rest
    decreases |pre|
  {
    if pre != [] {
      assert (pre + rest)[1..] == pre[1..] + rest;
      TrimStartOf(pre[1..], rest);
    }
  }

  lemma {:induction false} TrimEndOf(rest: string, post: string)
    requires AllSpace(post)
    requires rest == [] || !IsSpace(rest[|rest| - 1])
    ensures TrimEnd(rest + post) == rest
    decreases |post|
  {
    if post != [] {
      assert (rest + post)[..|rest + post| - 1] == rest + post[..|post| - 1];
      TrimEndOf(rest, post[..|post| - 1]);
    }
  }

  /**
   * `trim` is determined by its contract: whenever a string is spaces, then a
   * trimmed core, then spaces, `trim` returns that core.
   */
  lemma TrimUnique(pre: string, t: string, post: string)
    requires AllSpace(pre) && AllSpace(post) && IsTrimmed(t)
    ensures Trim(pre + t + post) == t
  {
    if t == [] {
      assert pre + t + post == (pre + post) + [];
      TrimStartOf(pre + post, []);
    } else {
      assert pre + t + post == pre + (t + post);
      TrimStartOf(pre, t + post);
      TrimEndOf(t, post);
    }
  }

  /** `trim` is idempotent, and leaves a trimmed string unchanged. */
  lemma TrimIdempotent(s: string)
    ensures Trim(Trim(s)) == Trim(s)
    ensures IsTrimmed(s) ==> Trim(s) == s
  {
    TrimShape(s);
    TrimUnique([], Trim(s), []);
    assert [] + Trim(s) + [] == Trim(s);
    if IsTrimmed(s) {
      TrimUnique([], s, []);
      assert [] + s + [] == s;
    }
  }

  /** `trim` returns the empty string exactly for strings made only of spaces. */
  lemma TrimEmpty(s: string)
    ensures Trim(s) == [] <==> AllSpace(s)
  {
    TrimShape(s);
    if AllSpace(s) {
      TrimUnique(s, [], []);
      assert s + [] + [] == s;
    }
  }

  // --------------------------------------------------------------- split

  /** Every piece between separators, empty pieces included. */
  function SplitAll(s: string, sep: char): (r: seq<string>)
    ensures |r| >= 1
    ensures forall k :: 0 <= k < |r| ==> sep !in r[k]
    decreases |s|
  {
    if s == [] then [[]]
    else
      var rest := SplitAll(s[1..], sep);
      if s[0] == sep then [[]] + rest
      else [[s[0]] + rest[0]] + rest[1..]
  }

  /** Puts the pieces back together, one separator between neighbours. */
  function Join(parts: seq<string>, sep: char): string
    requires |parts| >= 1
    decreases |parts|
  {
    if |parts| == 1 then parts[0] else parts[0] + [sep] + Join(parts[1..], sep)
  }

  /** Splitting loses nothing: joining the pieces gives back the string. */
  lemma {:induction false} JoinSplitAll(s: string, sep: char)
    ensures Join(SplitAll(s, sep), sep) == s
    decreases |s|
  {
    if s != [] {
      var rest := SplitAll(s[1..], sep);
      JoinSplitAll(s[1..], sep);
      if s[0] == sep {
        assert ([[]] + rest)[1..] == rest;
        assert s == [sep] + s[1..];
      } else {
        var r := [[s[0]] + rest[0]] + rest[1..];
        if |rest| == 1 {
          assert s == [s[0]] + s[1..];
        } else {
          assert r[1..] == rest[1..];
          assert Join(rest, sep) == rest[0] + [sep] + Join(rest[1..], sep);
          assert s == [s[0]] + s[1..];
        }
      }
    }
  }

  /** The first separator ends the first piece. */
  lemma {:induction false} SplitAllCons(a: string, b: string, sep: char)
    requires sep !in a
    ensures SplitAll(a + [sep] + b, sep) == [a] + SplitAll(b, sep)
    decreases |a|
  {
    var s := a + [sep] + b;
    if a == [] {
      assert s[1..] == b;
    } else {
      assert s[1..] == a[1..] + [sep] + b;
      SplitAllCons(a[1..], b, sep);
      assert [a[0]] + a[1..] == a;
    }
  }

  /** A string without the separator is a single piece. */
  lemma {:induction false} SplitAllSingle(a: string, sep: char)
    requires sep !in a
    ensures SplitAll(a, sep) == [a]
    decreases |a|
  {
    if a != [] {
      SplitAllSingle(a[1..], sep);
      assert [a[0]] + a[1..] == a;
    }
  }

  /** Removes the empty strings at the end of a list of pieces. */
  function DropTrailingEmpty(parts: seq<string>): (r: seq<string>)
    ensures |r| <= |parts| && r == parts[..|r|]
    ensures forall k :: |r| <= k < |parts| ==> parts[k] == []
    ensures r == [] || r[|r| - 1] != []
    decreases |parts|
  {
    if parts == [] || parts[|parts| - 1] != [] then parts
    else DropTrailingEmpty(parts[..|parts| - 1])
  }

  lemma {:induction false} DropTrailingEmptyCons(a: string, parts: seq<string>)
    requires a != []
    ensures DropTrailingEmpty([a] + parts) == [a] + DropTrailingEmpty(parts)
    decreases |parts|
  {
    if parts != [] && parts[|parts| - 1] == [] {
      assert ([a] + parts)[..|parts|] == [a] + parts[..|parts| - 1];
      DropTrailingEmptyCons(a, parts[..|parts| - 1]);
    }
  }

  /**
   * `String.split(sep)` for a separator that is not a regular-expression
   * metacharacter: a string without the separator is returned whole (even
   * the empty string); otherwise the pieces, without trailing empty pieces.
   */
  function Split(s: string, sep: char): seq<string> {
    if sep !in s then [s] else DropTrailingEmpty(SplitAll(s, sep))
  }

  /**
   * The pieces of `split` hold no separator; a string without the
   * separator comes back whole; otherwise the pieces are the leading
   * pieces of the full split, the last of them non-empty, and the pieces
   * left off are all empty.
   */
  lemma SplitShape(s: string, sep: char)
    ensures forall k :: 0 <= k < |Split(s, sep)| ==> sep !in Split(s, sep)[k]
    ensures sep !in s ==> Split(s, sep) == [s]
    ensures sep in s ==> |Split(s, sep)| <= |SplitAll(s, sep)| && Split(s, sep) == SplitAll(s, sep)[..|Split(s, sep)|]
    ensures sep in s ==> Split(s, sep) == [] || Split(s, sep)[|Split(s, sep)| - 1] != []
    ensures sep in s ==> forall k :: |Split(s, sep)| <= k < |SplitAll(s, sep)| ==> SplitAll(s, sep)[k] == []
  {
    if sep !in s {
      SplitAllSingle(s, sep);
    }
  }

  /** Splitting a string whose first piece is non-empty yields that piece first. */
  lemma SplitCons(a: string, b: string, sep: char)
    requires sep !in a && a != []
    ensures Split(a + [sep] + b, sep) == [a] + DropTrailingEmpty(SplitAll(b, sep))
  {
    assert (a + [sep] + b)[|a|] == sep;
    SplitAllCons(a, b, sep);
    DropTrailingEmptyCons(a, SplitAll(b, sep));
  }

  // ---------------------------------------------------- equalsIgnoreCase

  /** Case mapping of the ASCII letters; every other character is its own lower case. */
  function ToLowerChar(c: char): char {
    if 'A' <= c <= 'Z' then (c as int + 32) as char else c
  }

  function ToLower(s: string): (r: string)
    ensures |r| == |s| && forall i :: 0 <= i < |s| ==> r[i] == ToLowerChar(s[i])
  {
    seq(|s|, i requires 0 <= i < |s| => ToLowerChar(s[i]))
  }

  /** `String.equalsIgnoreCase` with ASCII case mapping. */
  predicate EqualsIgnoreCase(s: string, t: string) {
    |s| == |t| && forall i :: 0 <= i < |s| ==> ToLowerChar(s[i]) == ToLowerChar(t[i])
  }

  /** Against a lower-case word, ignoring case means: lower-casing gives the word. */
  lemma EqualsIgnoreCaseLower(s: string, word: string)
    requires ToLower(word) == word
    ensures EqualsIgnoreCase(s, word) <==> ToLower(s) == word
  {
    if ToLower(s) == word {
      forall i | 0 <= i < |s| ensures ToLowerChar(s[i]) == ToLowerChar(word[i]) {
        assert ToLower(word)[i] == word[i];
      }
    }
    if EqualsIgnoreCase(s, word) {
      assert forall i :: 0 <= i < |s| ==> ToLower(s)[i] == ToLower(word)[i];
    }
  }

  // ------------------------------------------------------------ parseInt

  predicate IsDigit(c: char) {
    '0' <= c <= '9'
  }

  predicate AllDigits(s: string) {
    forall i :: 0 <= i < |s| ==> IsDigit(s[i])
  }

  /** The value of a string of decimal digits, most significant first. */
  function DigitsValue(s: string): nat
    requires AllDigits(s)
    decreases |s|
  {
    if s == [] then 0
    else DigitsValue(s[..|s| - 1]) * 10 + (s[|s| - 1] as int - '0' as int)
  }

  function Pow10(n: nat): (r: nat)
    ensures r >= 1
  {
    if n == 0 then 1 else 10 * Pow10(n - 1)
  }

  /** A value of `n` digits is below 10 to the `n`. */
  lemma {:induction false} DigitsValueBound(s: string)
    requires AllDigits(s)
    ensures DigitsValue(s) < Pow10(|s|)
    decreases |s|
  {
    if s != [] {
      DigitsValueBound(s[..|s| - 1]);
    }
  }

  /**
   * `Integer.parseInt(s)` in radix 10: an optional sign, then at least one
   * digit, and a value that fits in an `int`; anything else throws
   * `NumberFormatException`, here `Empty`.
   */
  function ParseInt(s: string): Optional<int> {
    if s == [] then Empty
    else
      var signed := s[0] == '-' || s[0] == '+';
      var digits := if signed then s[1..] else s;
      if digits == [] || !AllDigits(digits) then Empty
      else
        var v := if s[0] == '-' then -(DigitsValue(digits) as int) else DigitsValue(digits);
        if MinInt32 as int <= v <= MaxInt32 as int then Of(v) else Empty
  }

  /**
   * What `parseInt` accepts fits in an `int` and is a non-empty run of
   * digits, alone or after one `-` or `+`; its value is the decimal value
   * of the digits, negated after a `-`.
   */
  lemma ParseIntMeaning(s: string)
    ensures ParseInt(s).Of? ==> MinInt32 as int <= ParseInt(s).value <= MaxInt32 as int
    ensures ParseInt(s).Of? ==>
      exists d :: AllDigits(d) && d != [] && (s == d || s == ['-'] + d || s == ['+'] + d)
    ensures ParseInt(s).Of? && AllDigits(s) ==> ParseInt(s).value == DigitsValue(s)
    ensures ParseInt(s).Of? && s != [] && s[0] == '-' ==>
      AllDigits(s[1..]) && ParseInt(s).value == -(DigitsValue(s[1..]) as int)
    ensures ParseInt(s).Of? && s != [] && s[0] == '+' ==>
      AllDigits(s[1..]) && ParseInt(s).value == DigitsValue(s[1..])
  {
    if ParseInt(s).Of? {
      var d := if s[0] == '-' || s[0] == '+' then s[1..] else s;
      assert s == d || s == ['-'] + d || s == ['+'] + d;
    }
  }

  function DigitChar(d: nat): char
    requires d < 10
  {
    ('0' as int + d) as char
  }

  /** `n` written with exactly `width` decimal digits, zero-padded. */
  function PadDigits(n: nat, width: nat): (r: string)
    ensures |r| == width && AllDigits(r)
    decreases width
  {
    if width == 0 then [] else PadDigits(n / 10, width - 1) + [DigitChar(n % 10)]
  }

  /** Reading back a zero-padded number gives the number. */
  lemma {:induction false} PadDigitsValue(n: nat, width: nat)
    requires n < Pow10(width)
    ensures DigitsValue(PadDigits(n, width)) == n
    decreases width
  {
    if width > 0 {
      var s := PadDigits(n, width);
      assert s[..|s| - 1] == PadDigits(n / 10, width - 1);
      PadDigitsValue(n / 10, width - 1);
    }
  }

  /** `parseInt` reads a zero-padded non-negative number back (up to 9 digits). */
  lemma ParsePadDigits(n: nat, width: nat)
    requires 1 <= width <= 9 && n < Pow10(width)
    ensures ParseInt(PadDigits(n, width)) == Of(n)
  {
    var s := PadDigits(n, width);
    PadDigitsValue(n, width);
    assert IsDigit(s[0]);
    if width < 9 {
      Pow10Monotone(width, 9);
    }
    Pow10Nine();
    assert n <= MaxInt32 as int;
  }

  /** `parseInt` reads a sign followed by a zero-padded number (up to 9 digits). */
  lemma ParseSignedPadDigits(n: nat, width: nat)
    requires 1 <= width <= 9 && n < Pow10(width)
    ensures ParseInt(['-'] + PadDigits(n, width)) == Of(-(n as int))
    ensures ParseInt(['+'] + PadDigits(n, width)) == Of(n)
  {
    var s := PadDigits(n, width);
    PadDigitsValue(n, width);
    assert (['-'] + s)[1..] == s && (['+'] + s)[1..] == s;
    if width < 9 {
      Pow10Monotone(width, 9);
    }
    Pow10Nine();
    assert n <= MaxInt32 as int;
  }

  lemma Pow10Nine()
    ensures Pow10(9) == 1_000_000_000
  {
    assert Pow10(3) == 1000;
    assert Pow10(6) == 1000 * Pow10(3);
  }

  lemma {:induction false} Pow10Monotone(a: nat, b: nat)
    requires a <= b
    ensures Pow10(a) <= Pow10(b)
    decreases b - a
  {
    if a < b {
      Pow10Monotone(a, b - 1);
    }
  }
}
