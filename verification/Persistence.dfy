/** The stored record: one country and one of its calling codes (a Java
    `int`, so the parser can in principle produce a signed value). */
module Domain {
  datatype CountryCode = CountryCode(country: string, code: int)
}

/** The `country_code` table and its two operations: the replace-all insert
    and the rank-one lookup by a list of candidate codes. */
module CountryCodePersistence {
  import opened Domain

  /** The contents of the `country_code` table. Rows are inserted from a
      collection without duplicates, so the table is a set of records. */
  datatype Store = Store(table: set<CountryCode>)

  /** Some stored record carries `code`. */
  predicate Stored(table: set<CountryCode>, code: int) {
    exists x :: x in table && x.code == code
  }

  // ---------------------------------------------------------------------
  // findByCode: the SQL query read as a set expression

  /** `WHERE phone_code IN (codes)`. */
  function Candidates(table: set<CountryCode>, codes: seq<int>): (rows: set<CountryCode>)
    ensures forall x :: x in rows <==> x in table && x.code in codes
  {
    set x | x in table && x.code in codes
  }

  /** `DENSE_RANK() OVER (ORDER BY phone_code DESC)` of a row carrying
      `code`: one more than the number of distinct larger codes among `rows`. */
  function DenseRank(rows: set<CountryCode>, code: int): nat {
    1 + |set y | y in rows && y.code > code :: y.code|
  }

  /** A row has dense rank 1 exactly when no row carries a larger code. */
  lemma RankOneIsMaximal(rows: set<CountryCode>, code: int)
    ensures DenseRank(rows, code) == 1 <==> forall y :: y in rows ==> y.code <= code
  {
    var larger := set y | y in rows && y.code > code :: y.code;
    if y :| y in rows && y.code > code {
      assert y.code in larger;
    }
  }

  /** findByCode: an empty candidate list short-circuits to no rows;
      otherwise the rows among the candidates whose dense rank is 1. All
      returned rows are stored, carry a candidate code, carry one and the
      same code, and that code is the largest stored candidate. */
  function FindByCode(table: set<CountryCode>, codes: seq<int>): (r: set<CountryCode>)
    ensures |codes| == 0 ==> r == {}
    ensures forall x :: x in r <==>
              && x in table && x.code in codes
              && forall y :: y in table && y.code in codes ==> y.code <= x.code
    ensures forall x, y :: x in r && y in r ==> x.code == y.code
    ensures r == {} <==> forall i :: 0 <= i < |codes| ==> !Stored(table, codes[i])
  {
    if |codes| == 0 then {}
    else
      var rows := Candidates(table, codes);
      RankOneRows(rows);
      set x | x in rows && DenseRank(rows, x.code) == 1
  }

  /** `x` is a row of `rows` carrying the largest code among them. */
  predicate Largest(rows: set<CountryCode>, x: CountryCode) {
    x in rows && forall y :: y in rows ==> y.code <= x.code
  }

  /** The rank-1 rows are the rows carrying the largest code, and there are
      some whenever there are rows at all. */
  lemma RankOneRows(rows: set<CountryCode>)
    ensures forall x :: x in rows && DenseRank(rows, x.code) == 1 <==> Largest(rows, x)
    ensures rows != {} ==> exists x :: x in rows && DenseRank(rows, x.code) == 1
  {
    forall x | x in rows {
      RankOneIsMaximal(rows, x.code);
    }
    if rows != {} {
      HasLargest(rows);
    }
  }

  /** A non-empty finite set of records has one carrying a largest code. */
  lemma {:induction false} HasLargest(rows: set<CountryCode>)
    requires rows != {}
    ensures exists x :: Largest(rows, x)
    decreases |rows|
  {
    var z :| z in rows;
    var rest := rows - {z};
    if rest == {} {
      assert rows == {z};
      assert Largest(rows, z);
    } else {
      HasLargest(rest);
      var m :| Largest(rest, m);
      if z.code > m.code {
        assert Largest(rows, z);
      } else {
        assert Largest(rows, m);
      }
    }
  }

  /** Every stored record holding the winning code is returned: codes shared
      by several countries yield all of them. */
  lemma AllHoldersReturned(table: set<CountryCode>, codes: seq<int>, x: CountryCode, y: CountryCode)
    requires x in FindByCode(table, codes)
    requires y in table && y.code == x.code
    ensures y in FindByCode(table, codes)
  {
  }

  // ---------------------------------------------------------------------
  // addCountryCodes

  /** `TRUNCATE country_code`. */
  function ClearCodeTable(store: Store): (r: Store)
    ensures r.table == {}
  {
    Store({})
  }

  /** addCountryCodes, run to completion: the table is truncated and then
      every record of `codes` is inserted, one statement per record. The
      prior contents are gone and nothing but `codes` remains. */
  method AddCountryCodes(store: Store, codes: set<CountryCode>) returns (r: Store)
    ensures r.table == codes
  {
    r := ClearCodeTable(store);
    var pending := codes;
    while pending != {}
      invariant pending <= codes
      invariant r.table == codes - pending
      decreases pending
    {
      var code :| code in pending;
      r := Store(r.table + {code});
      pending := pending - {code};
    }
  }
}
