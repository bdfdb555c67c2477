/** Retain: minting the id of a newly confirmed case and appending the case
    to the case-base file. */
module Retain {
  import opened Tables
  import opened Retrieval

  /** Case ids are "K.." for the Laptop domain and "KC.." for any other. */
  function Prefix(domain: string): string
  {
    if domain == "Laptop" then "K" else "KC"
  }

  /** The suffix used when the last id yields no number. */
  const Fallback: string := "99"

  predicate IsDigit(ch: char) {
    '0' <= ch <= '9'
  }

  predicate AllDigits(s: string) {
    forall i :: 0 <= i < |s| ==> IsDigit(s[i])
  }

  /** The digit characters of `s`, in order (`filter(str.isdigit, s)` joined). */
  function Digits(s: string): (d: string)
    ensures AllDigits(d)
    ensures |d| <= |s|
    ensures d == [] <==> forall i :: 0 <= i < |s| ==> !IsDigit(s[i])
  {
    if s == [] then []
    else (if IsDigit(s[0]) then [s[0]] else []) + Digits(s[1..])
  }

  /** The number a digit string denotes (`int` of it); leading zeros allowed. */
  function ParseDecimal(d: string): nat
    requires AllDigits(d)
  {
    if d == [] then 0
    else 10 * ParseDecimal(d[..|d| - 1]) + (d[|d| - 1] as int - '0' as int)
  }

  function DigitChar(k: nat): (ch: char)
    requires k < 10
    ensures IsDigit(ch) && ch as int - '0' as int == k
  {
    ('0' as int + k) as char
  }

  /** The decimal text of `n`, without leading zeros. */
  function Decimal(n: nat): (s: string)
    ensures AllDigits(s)
    ensures 1 <= |s|
    ensures s[0] == '0' <==> n == 0
  {
    if n < 10 then [DigitChar(n)] else Decimal(n / 10) + [DigitChar(n % 10)]
  }

  /** The decimal text of `n` zero-padded to width at least 2 (format `02d`). */
  function Pad2(n: nat): (s: string)
    ensures AllDigits(s)
    ensures |s| >= 2
    ensures |s| == 2 || s[0] != '0'
  {
    var d := Decimal(n);
    if |d| < 2 then "0" + d else d
  }

  /** The id following `lastId`: the prefix, then the number formed by all the
      digits of `lastId` plus one, padded to two digits; the prefix and the
      fallback suffix when `lastId` has no digit. */
  function NextId(prefix: string, lastId: string): string
  {
    var d := Digits(lastId);
    if d == [] then prefix + Fallback else prefix + Pad2(ParseDecimal(d) + 1)
  }

  datatype RetainError = EmptyCaseBase

  /** The id for a new case of `domain`, minted from the last loaded case;
      an empty case base has no last row and fails. */
  function MintId(domain: string, cases: seq<Case>): (r: Result<string, RetainError>)
    ensures r.Failure? <==> cases == []
    ensures r.Success? ==> |r.value| >= |Prefix(domain)| + 2 && r.value[..|Prefix(domain)|] == Prefix(domain)
  {
    if cases == [] then Failure(EmptyCaseBase)
    else Success(NextId(Prefix(domain), cases[|cases| - 1].id))
  }

  // ---------------------------------------------------------------------
  // Properties of the id policy
  // ---------------------------------------------------------------------

  /** Reading back the decimal text of a number gives the number. */
  lemma {:induction false} ParseDecimalOfDecimal(n: nat)
    ensures ParseDecimal(Decimal(n)) == n
  {
    if n >= 10 {
      ParseDecimalOfDecimal(n / 10);
      var s := Decimal(n);
      assert s[..|s| - 1] == Decimal(n / 10);
    }
  }

  /** A leading zero does not change the number. */
  lemma {:induction false} ParseLeadingZero(s: string)
    requires AllDigits(s)
    ensures ParseDecimal("0" + s) == ParseDecimal(s)
  {
    if s != [] {
      var init := s[..|s| - 1];
      ParseLeadingZero(init);
      assert ("0" + s)[..|s|] == "0" + init;
    }
  }

  lemma {:induction false} DigitsConcat(a: string, b: string)
    ensures Digits(a + b) == Digits(a) + Digits(b)
  {
    if a == [] {
      assert a + b == b;
    } else {
      var ab := a + b;
      var head := if IsDigit(a[0]) then [a[0]] else [];
      assert ab[0] == a[0] && ab[1..] == a[1..] + b;
      assert Digits(ab) == head + Digits(a[1..] + b);
      DigitsConcat(a[1..], b);
      assert Digits(a) == head + Digits(a[1..]);
    }
  }

  lemma {:induction false} DigitsOfDigitString(s: string)
    requires AllDigits(s)
    ensures Digits(s) == s
  {
    if s != [] {
      DigitsOfDigitString(s[1..]);
      assert s == [s[0]] + s[1..];
    }
  }

  /** The padded text of `n` reads back as `n`. */
  lemma Pad2RoundTrip(n: nat)
    ensures ParseDecimal(Pad2(n)) == n
  {
    ParseDecimalOfDecimal(n);
    if |Decimal(n)| < 2 {
      ParseLeadingZero(Decimal(n));
    }
  }

  /** Behind a prefix without digits, the digits of a digit string are that
      string. */
  lemma DigitsBehindPrefix(prefix: string, d: string)
    requires Digits(prefix) == [] && AllDigits(d)
    ensures Digits(prefix + d) == d
  {
    DigitsConcat(prefix, d);
    DigitsOfDigitString(d);
  }

  /** When the last id has digits and the prefix has none, the new id starts
      with the prefix, carries at least two digits after it with no leading
      zero beyond that width, and its digits read as one more than the digits
      of the last id. */
  lemma NextIdIncrements(prefix: string, lastId: string)
    requires Digits(prefix) == []
    requires Digits(lastId) != []
    ensures var r := NextId(prefix, lastId);
            |r| >= |prefix| + 2 && r[..|prefix|] == prefix && AllDigits(r[|prefix|..]) &&
            (|r| == |prefix| + 2 || r[|prefix|] != '0') &&
            ParseDecimal(Digits(r)) == ParseDecimal(Digits(lastId)) + 1
  {
    var n := ParseDecimal(Digits(lastId)) + 1;
    var p := Pad2(n);
    var r := NextId(prefix, lastId);
    assert r == prefix + p;
    assert r[..|prefix|] == prefix && r[|prefix|..] == p;
    assert |r| == |prefix| + |p| && r[|prefix|] == p[0];
    DigitsBehindPrefix(prefix, p);
    Pad2RoundTrip(n);
  }

  /** When the last id has no digit, the new id is the prefix followed by the
      fallback suffix. */
  lemma NextIdFallback(prefix: string, lastId: string)
    requires Digits(lastId) == []
    ensures NextId(prefix, lastId) == prefix + Fallback
  {
  }

  /** The id minted from a non-empty case base: the domain prefix, then either
      the fallback "99" when the last case's id has no digit, or exactly the
      `02d` text of one more than the number its digits form: at least two
      digits, no leading zero beyond the width of two, reading back as that
      number. */
  lemma MintIdSuccessor(domain: string, cases: seq<Case>)
    requires cases != []
    ensures var r, p, d := MintId(domain, cases), Prefix(domain), Digits(cases[|cases| - 1].id);
            r.Success? && |r.value| >= |p| + 2 && r.value[..|p|] == p &&
            (d == [] ==> r.value == p + Fallback) &&
            (d != [] ==> AllDigits(r.value[|p|..]) && (|r.value| == |p| + 2 || r.value[|p|] != '0') &&
                         ParseDecimal(r.value[|p|..]) == ParseDecimal(d) + 1)
  {
    var p, lastId := Prefix(domain), cases[|cases| - 1].id;
    var d := Digits(lastId);
    if d != [] {
      var n := ParseDecimal(d) + 1;
      var r := NextId(p, lastId);
      assert r == p + Pad2(n);
      assert r[|p|..] == Pad2(n);
      Pad2RoundTrip(n);
    }
  }

  /** K07 and K7 both give K08: all digits are read and the result is padded. */
  lemma NextIdAfterK07()
    ensures NextId("K", "K07") == "K08"
    ensures NextId("K", "K7") == "K08"
  {
    assert Digits("K07") == "07" by {
      assert "K07"[1..] == "07" && "07"[1..] == "7" && "7"[1..] == [];
    }
    assert ParseDecimal("07") == 7 by {
      assert "07"[..1] == "0" && "0"[..0] == [];
    }
    assert Digits("K7") == "7" by {
      assert "K7"[1..] == "7" && "7"[1..] == [];
    }
    assert ParseDecimal("7") == 7 by {
      assert "7"[..0] == [];
    }
    assert Pad2(8) == "08";
  }

  /** K99 gives K100: the number grows past two digits. */
  lemma NextIdAfterK99()
    ensures NextId("K", "K99") == "K100"
  {
    assert Digits("K99") == "99" by {
      assert "K99"[1..] == "99" && "99"[1..] == "9" && "9"[1..] == [];
    }
    assert ParseDecimal("99") == 99 by {
      assert "99"[..1] == "9" && "9"[..0] == [];
    }
    assert Decimal(100) == "100" by {
      assert Decimal(1) == "1";
      assert Decimal(10) == "10";
    }
  }

  /** KC14 gives KC15 in the other domain. */
  lemma NextIdAfterKC14()
    ensures NextId(Prefix("Tanaman Cabai"), "KC14") == "KC15"
  {
    assert Digits("KC14") == "14" by {
      assert "KC14"[1..] == "C14" && "C14"[1..] == "14" && "14"[1..] == "4" && "4"[1..] == [];
    }
    assert ParseDecimal("14") == 14 by {
      assert "14"[..1] == "1" && "1"[..0] == [];
    }
    assert Decimal(15) == "15" by {
      assert Decimal(1) == "1";
    }
  }

  lemma NoDigitsInCaseX()
    ensures Digits("CASE-X") == []
  {
    assert "CASE-X"[1..] == "ASE-X" && "ASE-X"[1..] == "SE-X" && "SE-X"[1..] == "E-X";
    assert "E-X"[1..] == "-X" && "-X"[1..] == "X" && "X"[1..] == [];
  }

  /** An id without digits, such as CASE-X, gives K99. */
  lemma NextIdAfterCaseX()
    ensures NextId("K", "CASE-X") == "K99"
  {
    NoDigitsInCaseX();
  }

  /** The policy does not look for existing ids: when the last id has no digit
      the fallback can repeat an id already in the case base. */
  lemma MintIdMayCollide()
    ensures var cases := [Case("K99", "G01", "S01"), Case("CASE-X", "G02", "S02")];
            MintId("Laptop", cases) == Success(cases[0].id)
  {
    var cases := [Case("K99", "G01", "S01"), Case("CASE-X", "G02", "S02")];
    assert cases[|cases| - 1].id == "CASE-X";
    NextIdAfterCaseX();
    assert Prefix("Laptop") == "K";
  }

  // ---------------------------------------------------------------------
  // The case-base file
  // ---------------------------------------------------------------------

  /** The case-base file of one domain, as its rows. */
  class CaseBase {
    var rows: seq<Row>

    constructor (rows: seq<Row>)
      ensures this.rows == rows
    {
      this.rows := rows;
    }

    /** The cases a load of the file yields. */
    function Loaded(): seq<Case>
      reads this
    {
      Clean(rows)
    }

    /** Mints an id from the last loaded case, joins the ids with ',' and
        appends one row at the end of the file; fails, changing nothing, when
        the loaded case base is empty. */
    method Retain(domain: string, ids: seq<string>, solution: string) returns (r: Result<string, RetainError>)
      modifies this
      ensures r == MintId(domain, old(Loaded()))
      ensures r.Failure? ==> rows == old(rows)
      ensures r.Success? ==> rows == old(rows) + [Row(r.value, Join(ids), solution)]
    {
      var loaded := Clean(rows);
      if loaded == [] {
        return Failure(EmptyCaseBase);
      }
      var lastId := loaded[|loaded| - 1].id;
      var prefix := Prefix(domain);
      var newId := NextId(prefix, lastId);
      var signature := Join(ids);
      rows := rows + [Row(newId, signature, solution)];
      r := Success(newId);
    }
  }

  /** The joined text of a list starting with a non-empty id is not empty. */
  lemma JoinNonEmpty(ids: seq<string>)
    requires |ids| >= 1 && ids[0] != ""
    ensures Join(ids) != ""
  {
    if |ids| > 1 {
      assert Join(ids)[..|ids[0]|] == ids[0];
    }
  }

  /** Retain then re-query: after a successful retain the next load ends with
      the new case, and querying with exactly the retained ids scores that
      case 100 and ranks first a case scoring at least 100. */
  lemma RetainThenQuery(table: SymptomTable, rows: seq<Row>, domain: string, ids: seq<string>, solution: string)
    requires Clean(rows) != []
    requires solution != ""
    requires |ids| >= 1 && forall i :: 0 <= i < |ids| ==> ids[i] != "" && ',' !in ids[i]
    requires Total(table, ids) > 0
    ensures var newId := MintId(domain, Clean(rows)).value;
            var after := Clean(rows + [Row(newId, Join(ids), solution)]);
            after == Clean(rows) + [Case(newId, Join(ids), solution)] &&
            Score(table, ids, after[|after| - 1]).similarity == 100.0 &&
            Ranked(table, ids, after)[0].similarity >= 100.0
  {
    var newId := MintId(domain, Clean(rows)).value;
    var row := Row(newId, Join(ids), solution);
    assert newId != "";
    JoinNonEmpty(ids);
    AppendVisibleOnReload(rows, row);
    var after := Clean(rows + [row]);
    var c := Case(newId, Join(ids), solution);
    assert ToCase(row) == c;
    SplitJoin(ids);
    ExactMatchScores100(table, c);
    TopIsBest(table, ids, after, |after| - 1);
  }
}
