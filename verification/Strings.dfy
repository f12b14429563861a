/** The java.lang.String and java.lang.Integer behaviour the core relies on:
    trim, isBlank, indexOf, split on a one-character separator, the `\D`
    regex filter and Integer.parseInt. Strings are sequences of characters. */
module Strings {
  import opened Wrappers

  /** Largest and smallest values of a Java `int`. */
  const MaxInt: int := 0x7FFF_FFFF
  const MinInt: int := -0x8000_0000

  // ---------------------------------------------------------------------
  // trim / isBlank

  /** String.trim removes every character whose code is at most U+0020. */
  predicate IsTrimmable(c: char) {
    c as int <= 0x20
  }

  /** Drops the trimmable characters at the front. */
  function TrimStart(s: string): (r: string)
    ensures |r| <= |s|
    ensures |r| > 0 ==> !IsTrimmable(r[0])
    decreases |s|
  {
    if |s| > 0 && IsTrimmable(s[0]) then TrimStart(s[1..]) else s
  }

  /** Drops the trimmable characters at the back. */
  function TrimEnd(s: string): (r: string)
    ensures |r| <= |s|
    ensures |r| > 0 ==> !IsTrimmable(r[|r| - 1])
    decreases |s|
  {
    if |s| > 0 && IsTrimmable(s[|s| - 1]) then TrimEnd(s[..|s| - 1]) else s
  }

  /** String.trim: a slice of the argument neither end of which is
      trimmable. */
  function Trim(s: string): (r: string)
    ensures |r| <= |s|
    ensures |r| > 0 ==> !IsTrimmable(r[0]) && !IsTrimmable(r[|r| - 1])
  {
    TrimEndIsPrefix(TrimStart(s));
    TrimEnd(TrimStart(s))
  }

  /** String.trim returns a slice of its argument and drops only
      trimmable characters, and only at the two ends. */
  lemma TrimIsSlice(s: string)
    ensures exists i, j :: && 0 <= i <= j <= |s| && Trim(s) == s[i..j]
                           && (forall k :: 0 <= k < i ==> IsTrimmable(s[k]))
                           && (forall k :: j <= k < |s| ==> IsTrimmable(s[k]))
  {
    var t := TrimStart(s);
    TrimStartIsSuffix(s);
    TrimEndIsPrefix(t);
    var i := |s| - |t|;
    var n := |Trim(s)|;
    assert Trim(s) == t[..n];
    assert t[..n] == s[i..i + n];
    assert 0 <= i <= i + n <= |s|;
    forall k | i + n <= k < |s| ensures IsTrimmable(s[k]) {
      assert s[k] == t[k - i];
    }
  }

  lemma {:induction false} TrimStartIsSuffix(s: string)
    ensures TrimStart(s) == s[|s| - |TrimStart(s)|..]
    ensures forall k :: 0 <= k < |s| - |TrimStart(s)| ==> IsTrimmable(s[k])
    decreases |s|
  {
    if |s| > 0 && IsTrimmable(s[0]) {
      TrimStartIsSuffix(s[1..]);
      forall k | 1 <= k < |s| - |TrimStart(s)| ensures IsTrimmable(s[k]) {
        assert s[k] == s[1..][k - 1];
      }
    }
  }

  lemma {:induction false} TrimEndIsPrefix(s: string)
    ensures TrimEnd(s) == s[..|TrimEnd(s)|]
    ensures forall k :: |TrimEnd(s)| <= k < |s| ==> IsTrimmable(s[k])
    decreases |s|
  {
    if |s| > 0 && IsTrimmable(s[|s| - 1]) {
      TrimEndIsPrefix(s[..|s| - 1]);
      forall k | |TrimEnd(s)| <= k < |s| - 1 ensures IsTrimmable(s[k]) {
        assert s[k] == s[..|s| - 1][k];
      }
    }
  }

  /** Only trimmable characters are dropped at the front. */
  lemma {:induction false} TrimStartKeeps(s: string, c: char)
    requires !IsTrimmable(c)
    ensures c in s <==> c in TrimStart(s)
    decreases |s|
  {
    if |s| > 0 && IsTrimmable(s[0]) {
      assert s == [s[0]] + s[1..];
      TrimStartKeeps(s[1..], c);
    }
  }

  /** Only trimmable characters are dropped at the back. */
  lemma {:induction false} TrimEndKeeps(s: string, c: char)
    requires !IsTrimmable(c)
    ensures c in s <==> c in TrimEnd(s)
    decreases |s|
  {
    if |s| > 0 && IsTrimmable(s[|s| - 1]) {
      assert s == s[..|s| - 1] + [s[|s| - 1]];
      TrimEndKeeps(s[..|s| - 1], c);
    }
  }

  /** Every character that is not trimmable survives String.trim. */
  lemma TrimKeeps(s: string, c: char)
    requires !IsTrimmable(c)
    ensures c in s <==> c in Trim(s)
  {
    TrimStartKeeps(s, c);
    TrimEndKeeps(TrimStart(s), c);
  }

  /** A string that starts and ends with a non-trimmable character is its
      own trim. */
  lemma TrimOfTrimmed(s: string)
    requires |s| > 0 && !IsTrimmable(s[0]) && !IsTrimmable(s[|s| - 1])
    ensures Trim(s) == s
  {
  }

  /** A trailing space is trimmed away. */
  lemma TrimAppendSpace(s: string)
    requires IsDigits(s) && |s| > 0
    ensures Trim(s + " ") == s
  {
    assert (s + " ")[..|s|] == s;
    assert TrimStart(s + " ") == s + " ";
    assert TrimEnd(s + " ") == TrimEnd(s);
    TrimOfTrimmed(s);
  }

  /** Character.isWhitespace: the Unicode space, line and paragraph
      separators except the non-breaking ones, and the ASCII controls
      TAB, LF, VT, FF, CR and FS, GS, RS, US. */
  predicate IsWhitespace(c: char) {
    var n := c as int;
    || (0x09 <= n <= 0x0D) || (0x1C <= n <= 0x20)
    || n == 0x1680 || (0x2000 <= n <= 0x2006) || (0x2008 <= n <= 0x200A)
    || n == 0x2028 || n == 0x2029 || n == 0x205F || n == 0x3000
  }

  /** String.isBlank: empty, or whitespace only. */
  predicate IsBlank(s: string) {
    forall i :: 0 <= i < |s| ==> IsWhitespace(s[i])
  }

  // ---------------------------------------------------------------------
  // indexOf / split

  /** String.indexOf(c): the first position holding `c`, or -1. */
  function IndexOf(s: string, c: char): (r: int)
    ensures -1 <= r < |s|
    ensures r == -1 <==> c !in s
    ensures r >= 0 ==> s[r] == c && c !in s[..r]
    decreases |s|
  {
    if |s| == 0 then -1
    else if s[0] == c then 0
    else
      var k := IndexOf(s[1..], c);
      assert s == [s[0]] + s[1..];
      assert k >= 0 ==> s[..k + 1] == [s[0]] + s[1..][..k];
      if k == -1 then -1 else k + 1
  }

  /** The first occurrence of `c` is at `k` when `s[k]` is `c` and no
      earlier character is. */
  lemma {:induction false} IndexOfAt(s: string, c: char, k: nat)
    requires k < |s| && s[k] == c && c !in s[..k]
    ensures IndexOf(s, c) == k
    decreases k
  {
    if k > 0 {
      assert s[0] == s[..k][0];
      assert s[1..][..k - 1] == s[1..k];
      assert s[..k] == [s[0]] + s[1..k];
      IndexOfAt(s[1..], c, k - 1);
    }
  }

  /** Where `c` does not occur in `a`, its first position in `a + b` is
      found in `b`. */
  lemma {:induction false} IndexOfAppend(a: string, b: string, c: char)
    requires c !in a
    ensures IndexOf(a + b, c) == if c in b then |a| + IndexOf(b, c) else -1
    decreases |a|
  {
    if |a| > 0 {
      assert (a + b)[1..] == a[1..] + b;
      IndexOfAppend(a[1..], b, c);
    } else {
      assert a + b == b;
    }
  }

  /** Concatenates `parts` with `sep` between neighbours. */
  function Join(parts: seq<string>, sep: string): string
    decreases |parts|
  {
    if |parts| == 0 then ""
    else if |parts| == 1 then parts[0]
    else parts[0] + sep + Join(parts[1..], sep)
  }

  /** A joined string holds only characters of the parts and the separator. */
  lemma {:induction false} JoinChars(parts: seq<string>, sep: string, c: char)
    requires c !in sep
    requires forall i :: 0 <= i < |parts| ==> c !in parts[i]
    ensures c !in Join(parts, sep)
    decreases |parts|
  {
    if |parts| > 1 {
      JoinChars(parts[1..], sep, c);
    }
  }

  /** A join of two or more parts contains the separator. */
  lemma JoinHasSeparator(parts: seq<string>, sep: char)
    requires |parts| >= 2
    ensures sep in Join(parts, [sep])
  {
    assert Join(parts, [sep])[|parts[0]|] == sep;
  }

  /** A join starts with its first part and ends with its last part. */
  lemma {:induction false} JoinEnds(parts: seq<string>, sep: string)
    requires |parts| >= 1 && forall i :: 0 <= i < |parts| ==> |parts[i]| > 0
    ensures |Join(parts, sep)| > 0
    ensures Join(parts, sep)[0] == parts[0][0]
    ensures Join(parts, sep)[|Join(parts, sep)| - 1] == parts[|parts| - 1][|parts[|parts| - 1]| - 1]
    decreases |parts|
  {
    if |parts| > 1 {
      JoinEnds(parts[1..], sep);
    }
  }

  /** Every field between separators, empty ones included. */
  function Fields(s: string, sep: char): (r: seq<string>)
    ensures |r| >= 1
    ensures forall i :: 0 <= i < |r| ==> sep !in r[i]
    ensures Join(r, [sep]) == s
    decreases |s|
  {
    var k := IndexOf(s, sep);
    if k == -1 then [s]
    else
      var rest := Fields(s[k + 1..], sep);
      SplitAt(s, k);
      JoinCons(s[..k], rest, [sep]);
      [s[..k]] + rest
  }

  /** A string is the text before position `k`, the character there, and
      the text after it. */
  lemma SplitAt(s: string, k: nat)
    requires k < |s|
    ensures s == s[..k] + [s[k]] + s[k + 1..]
  {
  }

  /** Joining a part in front of two or more parts puts one separator
      between it and the join of the rest. */
  lemma JoinCons(first: string, rest: seq<string>, sep: string)
    requires |rest| >= 1
    ensures Join([first] + rest, sep) == first + sep + Join(rest, sep)
  {
    assert ([first] + rest)[1..] == rest;
  }

  /** Splitting a join of separator-free parts gives the parts back. */
  lemma {:induction false} FieldsOfJoin(parts: seq<string>, sep: char)
    requires |parts| >= 1
    requires forall i :: 0 <= i < |parts| ==> sep !in parts[i]
    ensures Fields(Join(parts, [sep]), sep) == parts
    decreases |parts|
  {
    if |parts| > 1 {
      var rest := Join(parts[1..], [sep]);
      var s := Join(parts, [sep]);
      var k := |parts[0]|;
      assert IndexOf(s, sep) == k && s[..k] == parts[0] && s[k + 1..] == rest by {
        assert s == parts[0] + ([sep] + rest);
        IndexOfAppend(parts[0], [sep] + rest, sep);
      }
      FieldsAfterFirst(s, sep, k);
      FieldsOfJoin(parts[1..], sep);
      assert parts == [parts[0]] + parts[1..];
    }
  }

  /** The fields of a string holding the separator: the text before its
      first occurrence, then the fields of the text after it. */
  lemma FieldsAfterFirst(s: string, sep: char, k: nat)
    requires k < |s| && IndexOf(s, sep) == k
    ensures Fields(s, sep) == [s[..k]] + Fields(s[k + 1..], sep)
  {
  }

  /** Drops the empty strings at the end, as String.split with limit 0 does. */
  function DropTrailingEmpty(fs: seq<string>): (r: seq<string>)
    ensures |r| <= |fs| && r == fs[..|r|]
    ensures |r| > 0 ==> r[|r| - 1] != ""
    ensures forall i :: |r| <= i < |fs| ==> fs[i] == ""
    decreases |fs|
  {
    if |fs| > 0 && fs[|fs| - 1] == "" then DropTrailingEmpty(fs[..|fs| - 1]) else fs
  }

  /** String.split on a one-character separator: without a separator the
      string comes back whole (even when empty); otherwise the fields, with
      trailing empty fields removed. */
  function Split(s: string, sep: char): (r: seq<string>)
    ensures sep !in s ==> r == [s]
    ensures forall i :: 0 <= i < |r| ==> sep !in r[i]
    ensures sep in s ==> |r| > 0 ==> r[|r| - 1] != ""
    ensures sep in s ==> exists n: nat :: Join(r + Blanks(n), [sep]) == s
  {
    if sep !in s then [s]
    else
      var fs := Fields(s, sep);
      var r := DropTrailingEmpty(fs);
      assert fs == r + Blanks(|fs| - |r|);
      r
  }

  /** `n` empty fields. */
  function Blanks(n: nat): (r: seq<string>)
    ensures |r| == n
    ensures forall i :: 0 <= i < n ==> r[i] == ""
  {
    seq(n, i => "")
  }

  /** Joining separator-free parts, the last of which is not empty, and
      splitting again returns the parts. */
  lemma {:induction false} SplitOfJoin(parts: seq<string>, sep: char)
    requires |parts| >= 1 && parts[|parts| - 1] != ""
    requires forall i :: 0 <= i < |parts| ==> sep !in parts[i]
    ensures Split(Join(parts, [sep]), sep) == parts
  {
    FieldsOfJoin(parts, sep);
  }

  // ---------------------------------------------------------------------
  // digits and Integer.parseInt

  predicate IsDigit(c: char) {
    '0' <= c <= '9'
  }

  predicate IsDigits(s: string) {
    forall i :: 0 <= i < |s| ==> IsDigit(s[i])
  }

  /** `s.replaceAll("\\D", "")`: the ASCII digits of `s`, in order. */
  function DigitsOnly(s: string): (r: string)
    ensures IsDigits(r)
    ensures |r| <= |s|
    ensures forall c :: c in r <==> c in s && IsDigit(c)
    decreases |s|
  {
    if |s| == 0 then ""
    else if IsDigit(s[0]) then [s[0]] + DigitsOnly(s[1..])
    else DigitsOnly(s[1..])
  }

  /** The filter works character by character: filtering a concatenation
      concatenates the filtered halves, so the digits keep their order and
      multiplicity. */
  lemma {:induction false} DigitsOnlyAppend(a: string, b: string)
    ensures DigitsOnly(a + b) == DigitsOnly(a) + DigitsOnly(b)
    decreases |a|
  {
    if |a| == 0 {
      assert a + b == b;
    } else {
      assert (a + b)[0] == a[0] && (a + b)[1..] == a[1..] + b;
      DigitsOnlyAppend(a[1..], b);
    }
  }

  /** A single character is kept exactly when it is a digit. */
  lemma DigitsOnlyChar(c: char)
    ensures DigitsOnly([c]) == if IsDigit(c) then [c] else []
  {
    assert [c][1..] == [];
  }

  /** A string of digits passes the filter unchanged. */
  lemma {:induction false} DigitsOnlyOfDigits(s: string)
    requires IsDigits(s)
    ensures DigitsOnly(s) == s
    decreases |s|
  {
    if |s| > 0 {
      DigitsOnlyOfDigits(s[1..]);
      assert s == [s[0]] + s[1..];
    }
  }

  function DigitValue(c: char): nat
    requires IsDigit(c)
  {
    c as int - '0' as int
  }

  function Pow10(n: nat): (r: nat)
    ensures r >= 1
  {
    if n == 0 then 1 else 10 * Pow10(n - 1)
  }

  /** Decimal value of a digit string, most significant digit first. */
  function Value(s: string): nat
    requires IsDigits(s)
    decreases |s|
  {
    if |s| == 0 then 0 else 10 * Value(s[..|s| - 1]) + DigitValue(s[|s| - 1])
  }

  /** `n` digits are worth less than 10^n. */
  lemma {:induction false} ValueBound(s: string)
    requires IsDigits(s)
    ensures Value(s) < Pow10(|s|)
    decreases |s|
  {
    if |s| > 0 {
      ValueBound(s[..|s| - 1]);
    }
  }

  /** Appending digits shifts the left part: concatenation is not addition. */
  lemma {:induction false} ValueAppend(a: string, b: string)
    requires IsDigits(a) && IsDigits(b)
    ensures IsDigits(a + b)
    ensures Value(a + b) == Value(a) * Pow10(|b|) + Value(b)
    decreases |b|
  {
    assert IsDigits(a + b) by {
      forall i | 0 <= i < |a + b| ensures IsDigit((a + b)[i]) {
        if i >= |a| { assert (a + b)[i] == b[i - |a|]; }
      }
    }
    if |b| > 0 {
      var b' := b[..|b| - 1];
      var d := DigitValue(b[|b| - 1]);
      assert (a + b)[..|a + b| - 1] == a + b';
      assert (a + b)[|a + b| - 1] == b[|b| - 1];
      ValueAppend(a, b');
      calc {
        Value(a + b);
        10 * Value(a + b') + d;
        10 * (Value(a) * Pow10(|b'|) + Value(b')) + d;
        { MulAssoc(Value(a), Pow10(|b'|)); }
        Value(a) * (10 * Pow10(|b'|)) + (10 * Value(b') + d);
        Value(a) * Pow10(|b|) + Value(b);
      }
    } else {
      assert a + b == a;
    }
  }

  lemma MulAssoc(x: nat, y: nat)
    ensures 10 * (x * y) == x * (10 * y)
  {
  }

  /** Integer.parseInt for ASCII digits: an optional sign, then at least
      one digit, and the value must fit in a Java `int`. */
  function ParseInt(s: string): (r: Option<int>)
    ensures r.Some? <==>
              || (|s| > 0 && IsDigits(s) && Value(s) <= MaxInt)
              || (|s| > 1 && s[0] == '+' && IsDigits(s[1..]) && Value(s[1..]) <= MaxInt)
              || (|s| > 1 && s[0] == '-' && IsDigits(s[1..]) && Value(s[1..]) <= -MinInt)
    ensures r.Some? && |s| > 1 && s[0] == '+' ==> r.value == Value(s[1..])
    ensures r.Some? && |s| > 1 && s[0] == '-' ==> r.value == -(Value(s[1..]) as int)
    ensures r.Some? ==> MinInt <= r.value <= MaxInt
    ensures IsDigits(s) && |s| > 0 && Value(s) <= MaxInt ==> r == Some(Value(s))
    ensures r.Some? && |s| > 0 && IsDigit(s[0]) ==> IsDigits(s) && r == Some(Value(s))
    ensures s == "" ==> r.None?
  {
    if |s| == 0 then None
    else if s[0] == '+' || s[0] == '-' then
      var digits := s[1..];
      if |digits| == 0 || !IsDigits(digits) then None
      else
        var v: int := if s[0] == '-' then -(Value(digits) as int) else Value(digits);
        if MinInt <= v <= MaxInt then Some(v) else None
    else if !IsDigits(s) then None
    else if Value(s) <= MaxInt then Some(Value(s)) else None
  }

  /** Digit strings of up to nine digits always parse, to their value. */
  lemma ParseShortDigits(s: string)
    requires IsDigits(s) && 0 < |s| <= 9
    ensures ParseInt(s) == Some(Value(s))
  {
    ValueBound(s);
    Pow10Monotone(|s|, 9);
  }

  lemma {:induction false} Pow10Monotone(m: nat, n: nat)
    requires m <= n
    ensures Pow10(m) <= Pow10(n)
    decreases n
  {
    if m < n {
      Pow10Monotone(m, n - 1);
    }
  }

  /** Longer prefixes of a digit string are worth at least as much, and a
      positive prefix is worth strictly less than every longer one. */
  lemma {:induction false} PrefixValueGrows(s: string, j: nat, k: nat)
    requires IsDigits(s) && j <= k <= |s|
    ensures Value(s[..j]) <= Value(s[..k])
    ensures j < k && Value(s[..j]) > 0 ==> Value(s[..j]) < Value(s[..k])
    decreases k - j
  {
    if j < k {
      PrefixValueGrows(s, j, k - 1);
      assert s[..k][..k - 1] == s[..k - 1];
    }
  }

  /** Digits are never trimmed away. */
  lemma TrimDigits(s: string)
    requires IsDigits(s)
    ensures Trim(s) == s
  {
    if |s| > 0 {
      TrimOfTrimmed(s);
    }
  }
}
