/** Resolution of a phone number: validation, digit extraction, truncation,
    candidate prefix generation, and the not-found mapping of an empty
    lookup. */
module CountryCodeService {
  import opened Wrappers
  import opened Strings
  import opened Domain
  import opened CountryCodePersistence

  /** Two digits of country code plus five digits of code specification. */
  const LongestCodeLength: nat := 2 + 5

  /** The two ways a lookup can fail: blank input (IllegalArgumentException)
      and no matching code (NotFoundException). */
  datatype LookupError = IllegalArgument | NotFound

  predicate StrictlyDecreasing(xs: seq<int>) {
    forall i, j :: 0 <= i < j < |xs| ==> xs[i] > xs[j]
  }

  /** No element of `xs` exceeds `m`. */
  predicate AtMost(xs: seq<int>, m: int) {
    forall i :: 0 <= i < |xs| ==> xs[i] <= m
  }

  // ---------------------------------------------------------------------
  // getSearchCodes

  /** The candidate codes of `s`, longest prefix first: for each prefix
      length from |s| down to 1, the parsed value of that prefix, kept when
      it parses and is positive. */
  function PrefixCodes(s: string): (r: seq<int>)
    ensures |r| <= |s|
    ensures forall i :: 0 <= i < |r| ==> r[i] > 0
    decreases |s|
  {
    if |s| == 0 then []
    else
      var rest := PrefixCodes(s[..|s| - 1]);
      match ParseInt(s)
      case Some(v) => if v > 0 then [v] + rest else rest
      case None => rest
  }

  /** The candidates are exactly the positive values of the prefixes that
      parse. */
  lemma {:induction false} PrefixCodesMembers(s: string)
    ensures forall v :: v in PrefixCodes(s) <==> exists k :: 1 <= k <= |s| && ParseInt(s[..k]) == Some(v) && v > 0
    decreases |s|
  {
    if |s| > 0 {
      var shorter := s[..|s| - 1];
      PrefixCodesMembers(shorter);
      PrefixCodesStep(s);
      assert forall k :: 0 <= k <= |shorter| ==> shorter[..k] == s[..k];
      assert s[..|s|] == s;
    }
  }

  /** getSearchCodes as a value: the candidates of the trimmed argument. */
  function SearchCodes(numberStr: string): seq<int> {
    PrefixCodes(Trim(numberStr))
  }

  /** getSearchCodes: trims, then drops the last character until nothing is
      left, collecting each positive value that parses. */
  method GetSearchCodes(numberStr: string) returns (acc: seq<int>)
    ensures acc == SearchCodes(numberStr)
    ensures forall i :: 0 <= i < |acc| ==> acc[i] > 0
    ensures |acc| <= |Trim(numberStr)|
  {
    acc := [];
    var s := Trim(numberStr);
    ghost var t := s;
    while |s| > 0
      invariant |s| <= |t| && s == t[..|s|]
      invariant acc + PrefixCodes(s) == PrefixCodes(t)
      decreases |s|
    {
      PrefixCodesStep(s);
      var parsed := ParseInt(s);
      if parsed.Some? && parsed.value > 0 {
        acc := acc + [parsed.value];
      }
      s := s[..|s| - 1];
    }
  }

  /** One step of the loop: the candidates of a non-empty string are its
      own value, when that parses and is positive, before the candidates
      of the string without its last character. */
  lemma PrefixCodesStep(s: string)
    requires |s| > 0
    ensures PrefixCodes(s) ==
      (if ParseInt(s).Some? && ParseInt(s).value > 0 then [ParseInt(s).value] else [])
      + PrefixCodes(s[..|s| - 1])
  {
  }

  /** On a digit string of at most nine digits every prefix parses to its
      value, so the candidates are exactly the positive prefix values. */
  lemma DigitPrefixMembers(s: string)
    requires IsDigits(s) && |s| <= 9
    ensures forall v :: v in PrefixCodes(s) <==> exists k :: 1 <= k <= |s| && Value(s[..k]) == v && v > 0
  {
    PrefixCodesMembers(s);
    forall k | 1 <= k <= |s| ensures ParseInt(s[..k]) == Some(Value(s[..k])) {
      ParseShortDigits(s[..k]);
    }
  }

  /** The candidates of a digit string of at most nine digits strictly
      decrease, the longest prefix first, and none exceeds the value of the
      whole string. */
  lemma {:induction false} DigitPrefixDecreasing(s: string)
    requires IsDigits(s) && |s| <= 9
    ensures StrictlyDecreasing(PrefixCodes(s))
    ensures AtMost(PrefixCodes(s), Value(s))
    decreases |s|
  {
    if |s| > 0 {
      DigitPrefixDecreasing(s[..|s| - 1]);
      DecreasingStep(s);
    }
  }

  /** The inductive step: putting the value of the whole string in front
      of the candidates of the shorter prefixes keeps them decreasing. */
  lemma DecreasingStep(s: string)
    requires IsDigits(s) && 0 < |s| <= 9
    requires StrictlyDecreasing(PrefixCodes(s[..|s| - 1]))
    requires AtMost(PrefixCodes(s[..|s| - 1]), Value(s[..|s| - 1]))
    ensures StrictlyDecreasing(PrefixCodes(s))
    ensures AtMost(PrefixCodes(s), Value(s))
  {
    var shorter := s[..|s| - 1];
    var rest := PrefixCodes(shorter);
    var v := Value(s);
    assert PrefixCodes(s) == (if v > 0 then [v] else []) + rest by {
      PrefixCodesStep(s);
      ParseShortDigits(s);
    }
    assert Value(shorter) <= v && (Value(shorter) > 0 ==> Value(shorter) < v);
    if v > 0 {
      PrependLarger(v, rest);
    }
  }

  lemma PrependLarger(v: int, rest: seq<int>)
    requires StrictlyDecreasing(rest)
    requires forall i :: 0 <= i < |rest| ==> rest[i] < v
    ensures StrictlyDecreasing([v] + rest)
    ensures AtMost([v] + rest, v)
  {
  }

  /** The truncated digits of a phone number: at most LongestCodeLength
      leading digits, in their original order. */
  function SearchDigits(phoneNumber: string): (r: string)
    ensures IsDigits(r) && |r| <= LongestCodeLength
    ensures r <= DigitsOnly(phoneNumber)
    ensures |r| == |DigitsOnly(phoneNumber)| || |r| == LongestCodeLength
  {
    var digits := DigitsOnly(phoneNumber);
    var cutLength := if |digits| < LongestCodeLength then |digits| else LongestCodeLength;
    digits[..cutLength]
  }

  // ---------------------------------------------------------------------
  // processPhoneNumberAndGetCountryDetails

  /** Blank input is an illegal argument before any lookup; otherwise the
      stored records matching the candidates of the truncated digits, and
      not-found when there are none. Every returned record is stored and
      carries the value of some prefix of those digits. */
  function ProcessPhoneNumber(table: set<CountryCode>, phoneNumber: string)
    : (r: Result<set<CountryCode>, LookupError>)
    ensures IsBlank(phoneNumber) <==> r == Failure(IllegalArgument)
    ensures r.Success? ==> r.value != {}
    ensures r.Success? ==> forall x :: x in r.value ==>
              && x in table
              && exists k :: 1 <= k <= |SearchDigits(phoneNumber)| && x.code == Value(SearchDigits(phoneNumber)[..k])
  {
    if IsBlank(phoneNumber) then Failure(IllegalArgument)
    else
      var digits := SearchDigits(phoneNumber);
      var found := FindByCode(table, SearchCodes(digits));
      TrimDigits(digits);
      DigitPrefixMembers(digits);
      if found == {} then Failure(NotFound) else Success(found)
  }

  /** The largest candidate found in the table is the value of the longest
      digit prefix that is a stored code: when prefix `k` is stored and no
      longer prefix is, exactly the records holding its value come back. */
  lemma LongestPrefixWins(table: set<CountryCode>, digits: string, k: nat)
    requires IsDigits(digits) && |digits| <= 9
    requires 1 <= k <= |digits| && Value(digits[..k]) > 0 && Stored(table, Value(digits[..k]))
    requires forall j :: k < j <= |digits| ==> !Stored(table, Value(digits[..j]))
    ensures FindByCode(table, SearchCodes(digits)) == set x | x in table && x.code == Value(digits[..k])
  {
    TrimDigits(digits);
    DigitPrefixMembers(digits);
    var codes := SearchCodes(digits);
    var best := Value(digits[..k]);
    assert best in codes;
    forall y | y in table && y.code in codes ensures y.code <= best {
      var j :| 1 <= j <= |digits| && Value(digits[..j]) == y.code && y.code > 0;
      assert Stored(table, Value(digits[..j]));
      PrefixValueGrows(digits, j, k);
    }
  }

  /** End to end: a non-blank phone number whose truncated digits have a
      stored prefix resolves to exactly the records of the longest such
      prefix. */
  lemma ResolveLongestPrefix(table: set<CountryCode>, phoneNumber: string, k: nat)
    requires !IsBlank(phoneNumber)
    requires 1 <= k <= |SearchDigits(phoneNumber)|
    requires Value(SearchDigits(phoneNumber)[..k]) > 0
    requires Stored(table, Value(SearchDigits(phoneNumber)[..k]))
    requires forall j :: k < j <= |SearchDigits(phoneNumber)| ==> !Stored(table, Value(SearchDigits(phoneNumber)[..j]))
    ensures ProcessPhoneNumber(table, phoneNumber)
         == Success(set x | x in table && x.code == Value(SearchDigits(phoneNumber)[..k]))
  {
    var digits := SearchDigits(phoneNumber);
    LongestPrefixWins(table, digits, k);
  }

  /** Some positive prefix of `digits` is a stored code. */
  predicate HasStoredPrefix(table: set<CountryCode>, digits: string)
    requires IsDigits(digits)
  {
    exists k :: 1 <= k <= |digits| && Value(digits[..k]) > 0 && Stored(table, Value(digits[..k]))
  }

  /** The lookup over the candidates of a digit string finds nothing exactly
      when no positive prefix of it is a stored code. */
  lemma EmptyLookupIffNoStoredPrefix(table: set<CountryCode>, digits: string)
    requires IsDigits(digits) && |digits| <= 9
    ensures FindByCode(table, SearchCodes(digits)) == {} <==> !HasStoredPrefix(table, digits)
  {
    TrimDigits(digits);
    DigitPrefixMembers(digits);
    var codes := SearchCodes(digits);
    if HasStoredPrefix(table, digits) {
      var k :| 1 <= k <= |digits| && Value(digits[..k]) > 0 && Stored(table, Value(digits[..k]));
      assert Value(digits[..k]) in codes;
      var i :| 0 <= i < |codes| && codes[i] == Value(digits[..k]);
      assert Stored(table, codes[i]);
    } else {
      forall i | 0 <= i < |codes| ensures !Stored(table, codes[i]) {
        assert codes[i] in codes;
      }
    }
  }

  /** Not found exactly when no positive prefix of the truncated digits is a
      stored code; this is a different outcome from the blank-input one. */
  lemma ResolveNotFound(table: set<CountryCode>, phoneNumber: string)
    requires !IsBlank(phoneNumber)
    ensures ProcessPhoneNumber(table, phoneNumber) == Failure(NotFound)
            <==> !HasStoredPrefix(table, SearchDigits(phoneNumber))
  {
    EmptyLookupIffNoStoredPrefix(table, SearchDigits(phoneNumber));
  }

  /** Non-blank input without a single digit gives no candidates, hence
      not-found rather than an illegal argument. */
  lemma NoDigitsIsNotFound(table: set<CountryCode>, phoneNumber: string)
    requires !IsBlank(phoneNumber) && DigitsOnly(phoneNumber) == ""
    ensures SearchCodes(SearchDigits(phoneNumber)) == []
    ensures ProcessPhoneNumber(table, phoneNumber) == Failure(NotFound)
  {
  }

  // ---------------------------------------------------------------------
  // saveToDB

  /** saveToDB, run to completion: the table becomes `codes`. */
  method SaveToDb(store: Store, codes: set<CountryCode>) returns (r: Store)
    ensures r.table == codes
  {
    r := AddCountryCodes(store, codes);
  }
}
