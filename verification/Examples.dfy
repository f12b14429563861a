/** Concrete registries and listing cells worked through the model: the
    longest stored candidate wins, a code cell with a space inside is not a
    number, and the same code written as an extension is read as the base
    digits followed by the suffix digits. */
module CountryCodeExamples {
  import opened Wrappers
  import opened Strings
  import opened Domain
  import opened CountryCodePersistence
  import opened CountryCodeService
  import opened CountryCodeParser

  const Russia := CountryCode("Russia", 7)
  const Kazakhstan := CountryCode("Kazakhstan", 77)

  /** The candidates of a Kazakh number, longest first, select Kazakhstan
      alone: 77 outranks 7 and no longer candidate is stored. */
  lemma LongerStoredCodeWins()
    ensures FindByCode({Russia, Kazakhstan}, [7711222, 771122, 77112, 7711, 771, 77, 7]) == {Kazakhstan}
  {
    var table := {Russia, Kazakhstan};
    var codes := [7711222, 771122, 77112, 7711, 771, 77, 7];
    assert codes[5] == 77;
    var r := FindByCode(table, codes);
    assert Kazakhstan in r;
    assert Russia !in r;
  }

  /** The Kazakh number of the listing resolves to Kazakhstan alone: its
      first seven digits are 7711222, the prefix 77 is stored, and every
      longer prefix is larger than any stored code. */
  lemma KazakhNumberResolves()
    ensures ProcessPhoneNumber({Russia, Kazakhstan}, "77112227231") == Success({Kazakhstan})
  {
    var p := "77112227231";
    assert IsDigits(p);
    assert p[..2] == "77" && Value("77") == 77 by {
      assert "77"[..1] == "7" && "7"[..0] == "";
    }
    ResolvesToLargest({Russia, Kazakhstan}, p, 2, {Kazakhstan});
  }

  /** A digit string whose prefix `k` is a stored code no smaller than any
      other stored code resolves to the holders of that code. */
  lemma ResolvesToLargest(table: set<CountryCode>, p: string, k: nat, expected: set<CountryCode>)
    requires IsDigits(p) && 1 <= k <= |p| && k <= LongestCodeLength
    requires Value(p[..k]) > 0 && Stored(table, Value(p[..k]))
    requires forall x :: x in table ==> x.code <= Value(p[..k])
    requires forall x :: x in expected <==> x in table && x.code == Value(p[..k])
    ensures ProcessPhoneNumber(table, p) == Success(expected)
  {
    assert !IsWhitespace(p[0]);
    DigitsOnlyOfDigits(p);
    var d := SearchDigits(p);
    assert d[..k] == p[..k];
    NoLongerPrefixStored(table, d, k);
    ResolvesTo(table, p, k, expected);
  }

  /** `711` resolves to Russia alone: the prefix 7 is stored, while 71 and
      711 are not. */
  lemma RussianNumberResolves()
    ensures ProcessPhoneNumber({Russia, Kazakhstan}, "711") == Success({Russia})
  {
    var p := "711";
    assert !IsBlank(p) && SearchDigits(p) == p by {
      assert IsDigits(p) && !IsWhitespace(p[0]);
      DigitsOnlyOfDigits(p);
    }
    assert p[..1] == "7" && Value("7") == 7 by {
      assert "7"[..0] == "";
    }
    assert p[..2] == "71" && Value("71") == 71 by {
      assert "71"[..1] == "7" && "7"[..0] == "";
    }
    assert p[..3] == "711" && Value("711") == 711 by {
      assert "711"[..2] == "71" && "71"[..1] == "7" && "7"[..0] == "";
    }
    ResolvesTo({Russia, Kazakhstan}, p, 1, {Russia});
  }

  /** Resolution through the longest stored prefix, with the winning
      records given as a set. */
  lemma ResolvesTo(table: set<CountryCode>, phoneNumber: string, k: nat, expected: set<CountryCode>)
    requires !IsBlank(phoneNumber)
    requires 1 <= k <= |SearchDigits(phoneNumber)|
    requires Value(SearchDigits(phoneNumber)[..k]) > 0
    requires Stored(table, Value(SearchDigits(phoneNumber)[..k]))
    requires forall j :: k < j <= |SearchDigits(phoneNumber)| ==> !Stored(table, Value(SearchDigits(phoneNumber)[..j]))
    requires forall x :: x in expected <==> x in table && x.code == Value(SearchDigits(phoneNumber)[..k])
    ensures ProcessPhoneNumber(table, phoneNumber) == Success(expected)
  {
    var v := Value(SearchDigits(phoneNumber)[..k]);
    ResolveLongestPrefix(table, phoneNumber, k);
    assert expected == set x | x in table && x.code == v;
  }

  /** When the value of prefix `k` is at least every stored code, no longer
      prefix is stored: its value is larger still. */
  lemma NoLongerPrefixStored(table: set<CountryCode>, d: string, k: nat)
    requires IsDigits(d) && 1 <= k <= |d| && Value(d[..k]) > 0
    requires forall x :: x in table ==> x.code <= Value(d[..k])
    ensures forall j :: k < j <= |d| ==> !Stored(table, Value(d[..j]))
  {
    forall j | k < j <= |d| ensures !Stored(table, Value(d[..j])) {
      PrefixValueGrows(d, k, j);
    }
  }


  /** A code cell written with a space and no parentheses, as in `1 242`,
      is not a number to Integer.parseInt, so the row fails. */
  lemma SpacedCodeFails()
    ensures ParseElement(["Bahamas", "1 242"]) == Failure(NumberFormat("1 242"))
  {
    var cell := "1 242";
    assert cell[0] == '1' && cell[|cell| - 1] == '2';
    TrimOfTrimmed(cell);
    assert ExtraStart !in cell && CodeSeparator !in cell;
    assert ParseInt(cell) == None by {
      assert cell[1] == ' ' && !IsDigit(cell[1]);
    }
  }

  /** `1 (242)` is read as the base `1` followed by the suffix `242`. */
  lemma ExtensionCellJoinsDigits()
    ensures ParseElement(["Bahamas", "1 (242)"]) == Success({CountryCode("Bahamas", 1242)})
  {
    var e := Extension("1", ["242"]);
    assert Value("1242") == 1242 by {
      assert "1242"[..3] == "124" && "124"[..2] == "12" && "12"[..1] == "1" && "1"[..0] == "";
    }
    assert WellFormed(e) && Render(e) == "1 (242)" by {
      assert Value("242") == 242 by {
        assert "242"[..2] == "24" && "24"[..1] == "2" && "2"[..0] == "";
      }
      assert Value("1") == 1 by {
        assert "1"[..0] == "";
      }
      assert "1" + "242" == "1242";
    }
    assert Denote(Trim("Bahamas"), e) == {CountryCode("Bahamas", 1242)} by {
      TrimOfTrimmed("Bahamas");
      assert "1" + "242" == "1242";
      assert Prefixed("1", ["242"]) == ["1242"];
      SingleCodeRecords("Bahamas", "1242");
    }
    ParseRendered("Bahamas", e);
  }

  lemma SingleCodeRecords(country: string, c: string)
    requires IsCode(c)
    ensures CodeRecords(country, [c]) == {CountryCode(country, Value(c))}
  {
    assert [c][0] == c;
  }
}
