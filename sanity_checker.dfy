/**
 * The peg-palace sanity checker: three checks over the Pegword, Pegsite and
 * Pegdate tables, each recorded by name in a passing or a failing list.
 */
module SanityCheck {

  const PegsMatchCheck: string := "pegword-pegsite-pegs-match"
  const PegsCountCheck: string := "pegs-count"
  const RegexCheck: string := "pegpalace-regex"

  /** The number of distinct pegs the Pegword and Pegsite tables must hold. */
  const PegwordCount: nat := 1092
  /** The number of distinct pegs the Pegdate table must hold. */
  const PegdateCount: nat := 366

  /** One row of a peg table, with the columns the checker reads. */
  datatype PegRow =
    | Pegword(peg: int, word: string)
    | Pegsite(peg: int, region: string, site: string)
    | Pegdate(peg: int, color: string, celebrity: string)

  /** What `db.all` returns for each of the three tables. */
  datatype PegTables = PegTables(pegwords: seq<PegRow>, pegsites: seq<PegRow>, pegdates: seq<PegRow>)

  /** How a call ended: normally, or with the TypeError raised by putting a row (a dict) into a set. */
  datatype Completion = Returned | RaisedTypeError

  /** One recorded check. */
  datatype CheckResult = CheckResult(name: string, passed: bool)

  /** The set of pegs of a table: duplicates collapse. */
  function Pegs(rows: seq<PegRow>): (s: set<int>)
    ensures forall r :: r in rows ==> r.peg in s
    ensures forall p :: p in s ==> exists r :: r in rows && r.peg == p
  {
    set r | r in rows :: r.peg
  }

  /** The pegs of a non-empty table: those of its tail, plus the first row's. */
  lemma PegsCons(rows: seq<PegRow>)
    requires rows != []
    ensures Pegs(rows) == Pegs(rows[1..]) + {rows[0].peg}
  {
    forall p | p in Pegs(rows) ensures p in Pegs(rows[1..]) + {rows[0].peg} {
      var r :| r in rows && r.peg == p;
      if r != rows[0] {
        assert r in rows[1..];
      }
    }
  }

  /** A table has no more distinct pegs than rows. */
  lemma {:induction false} PegsAtMostRows(rows: seq<PegRow>)
    ensures |Pegs(rows)| <= |rows|
  {
    if rows != [] {
      PegsAtMostRows(rows[1..]);
      PegsCons(rows);
    }
  }

  /** Rows with pairwise distinct pegs give exactly as many pegs as rows. */
  lemma {:induction false} PegsOfDistinctRows(rows: seq<PegRow>)
    requires forall i, j :: 0 <= i < j < |rows| ==> rows[i].peg != rows[j].peg
    ensures |Pegs(rows)| == |rows|
  {
    if rows != [] {
      var tail := rows[1..];
      assert forall i, j :: 0 <= i < j < |tail| ==> tail[i].peg != tail[j].peg by {
        forall i, j | 0 <= i < j < |tail| ensures tail[i].peg != tail[j].peg {
          assert tail[i] == rows[i + 1] && tail[j] == rows[j + 1];
        }
      }
      PegsOfDistinctRows(tail);
      PegsCons(rows);
    }
  }

  /**
   * pegs-match: word and site pegs are the same set, and the date pegs meet the
   * word pegs in the date pegs, that is, every date peg is a word peg.
   */
  predicate PegsMatch(db: PegTables)
    ensures PegsMatch(db) <==>
      Pegs(db.pegwords) == Pegs(db.pegsites) && Pegs(db.pegdates) <= Pegs(db.pegwords)
  {
    var wordPegs, sitePegs, datePegs := Pegs(db.pegwords), Pegs(db.pegsites), Pegs(db.pegdates);
    wordPegs == sitePegs && datePegs * wordPegs == datePegs
  }

  /**
   * pegs-count: exactly 1092 distinct word pegs, 1092 distinct site pegs and 366
   * distinct date pegs. It can pass only when each table has at least as many
   * rows as the count it needs.
   */
  predicate PegsCount(db: PegTables)
    ensures PegsCount(db) ==>
      |db.pegwords| >= PegwordCount && |db.pegsites| >= PegwordCount && |db.pegdates| >= PegdateCount
  {
    PegsAtMostRows(db.pegwords);
    PegsAtMostRows(db.pegsites);
    PegsAtMostRows(db.pegdates);
    |Pegs(db.pegwords)| == PegwordCount && |Pegs(db.pegsites)| == PegwordCount
    && |Pegs(db.pegdates)| == PegdateCount
  }

  /** A character of the class `[a-z0-9\-]`. */
  predicate NameChar(c: char)
  {
    'a' <= c <= 'z' || '0' <= c <= '9' || c == '-'
  }

  /** Every character of `s` is in the class. */
  predicate AllNameChars(s: string)
  {
    forall i :: 0 <= i < |s| ==> NameChar(s[i])
  }

  /** Python's `$`: the end of the string, or just before a newline that ends it. */
  predicate AtEnd(s: string, k: nat)
  {
    k == |s| || (k + 1 == |s| && s[k] == '\n')
  }

  /** The name with one trailing newline, if any, dropped. */
  function Chomped(s: string): string
  {
    if |s| > 0 && s[|s| - 1] == '\n' then s[..|s| - 1] else s
  }

  /**
   * `re.match(r"^[a-z0-9\-]+$", s)` succeeds: one or more class characters, then
   * `$`. That is, after dropping one trailing newline the name is a non-empty run
   * of `a`-`z`, `0`-`9` and `-`.
   */
  predicate ValidName(s: string)
    ensures ValidName(s) <==> |Chomped(s)| > 0 && AllNameChars(Chomped(s))
  {
    ValidNameIff(s);
    exists k :: 1 <= k <= |s| && AllNameChars(s[..k]) && AtEnd(s, k)
  }

  /** A match ending where `$` may stand is a match of the whole name with one trailing newline dropped. */
  lemma ValidNameIff(s: string)
    ensures (exists k :: 1 <= k <= |s| && AllNameChars(s[..k]) && AtEnd(s, k)) <==>
      |Chomped(s)| > 0 && AllNameChars(Chomped(s))
  {
    var body := Chomped(s);
    if |body| > 0 && AllNameChars(body) {
      assert s[..|body|] == body;
      assert AtEnd(s, |body|);
    }
    if exists k :: 1 <= k <= |s| && AllNameChars(s[..k]) && AtEnd(s, k) {
      var k :| 1 <= k <= |s| && AllNameChars(s[..k]) && AtEnd(s, k);
      if k == |s| {
        assert s[..k] == s;
        assert NameChar(s[|s| - 1]) by {
          assert s[..k][|s| - 1] == s[|s| - 1];
        }
      } else {
        assert s[..k] == body;
      }
    }
  }

  /** Examples: upper case is refused, the empty name is refused, one trailing newline is admitted. */
  lemma ValidNameExamples()
    ensures ValidName("pegs-1") && ValidName("a\n")
    ensures !ValidName("Peg") && !ValidName("") && !ValidName("\n") && !ValidName("a\n\n")
  {
    assert "pegs-1"[..6] == "pegs-1";
    assert "a\n"[..1] == "a";
    assert !NameChar("Peg"[0]);
    assert "\n"[..0] == [];
    assert "a\n\n"[..2] == "a\n";
    assert !NameChar("a\n"[1]);
  }

  /** The columns of a row the regex is applied to: `word`; `region` and `site`; `color` and `celebrity`. */
  function NameColumns(r: PegRow): seq<string>
  {
    match r
    case Pegword(_, word) => [word]
    case Pegsite(_, region, site) => [region, site]
    case Pegdate(_, color, celebrity) => [color, celebrity]
  }

  /** The name columns of a row all pass the regex. */
  predicate NamesValid(r: PegRow)
    ensures NamesValid(r) <==> forall name :: name in NameColumns(r) ==> ValidName(name)
  {
    match r
    case Pegword(_, word) => ValidName(word)
    case Pegsite(_, region, site) => ValidName(region) && ValidName(site)
    case Pegdate(_, color, celebrity) => ValidName(color) && ValidName(celebrity)
  }

  /** The rows of a table whose names fail the regex, as the checker collects them. */
  function InvalidRows(rows: seq<PegRow>): (s: set<PegRow>)
    ensures forall r :: r in s <==> r in rows && !NamesValid(r)
  {
    set r | r in rows && !NamesValid(r)
  }

  /**
   * Every row of the three tables has valid names, so no invalid row is ever put
   * into a set: the three collected sets are all empty.
   */
  predicate AllNamesValid(db: PegTables)
    ensures AllNamesValid(db) <==>
      InvalidRows(db.pegwords) == {} && InvalidRows(db.pegsites) == {} && InvalidRows(db.pegdates) == {}
  {
    forall r :: r in db.pegwords + db.pegsites + db.pegdates ==> NamesValid(r)
  }

  /** The checks a peg-palace run records, in order; the regex check is reached only when nothing raises. */
  function PegPalaceResults(db: PegTables): (rs: seq<CheckResult>)
    ensures |rs| == if AllNamesValid(db) then 3 else 2
    ensures forall i :: 0 <= i < |rs| && rs[i].name == RegexCheck ==> rs[i].passed
  {
    [CheckResult(PegsMatchCheck, PegsMatch(db)), CheckResult(PegsCountCheck, PegsCount(db))]
    + if AllNamesValid(db) then [CheckResult(RegexCheck, true)] else []
  }

  /** The names of the results that passed, in order. */
  function PassedNames(rs: seq<CheckResult>): seq<string>
  {
    if rs == [] then []
    else (if rs[0].passed then [rs[0].name] else []) + PassedNames(rs[1..])
  }

  /** The names of the results that failed, in order. */
  function FailedNames(rs: seq<CheckResult>): seq<string>
  {
    if rs == [] then []
    else (if rs[0].passed then [] else [rs[0].name]) + FailedNames(rs[1..])
  }

  /** The names of all results, in order. */
  function Names(rs: seq<CheckResult>): seq<string>
  {
    if rs == [] then [] else [rs[0].name] + Names(rs[1..])
  }

  /** Filtering the passed names distributes over concatenation. */
  lemma {:induction false} PassedNamesAppend(a: seq<CheckResult>, b: seq<CheckResult>)
    ensures PassedNames(a + b) == PassedNames(a) + PassedNames(b)
  {
    if a == [] {
      assert a + b == b;
    } else {
      assert (a + b)[0] == a[0] && (a + b)[1..] == a[1..] + b;
      PassedNamesAppend(a[1..], b);
    }
  }

  /** Filtering the failed names distributes over concatenation. */
  lemma {:induction false} FailedNamesAppend(a: seq<CheckResult>, b: seq<CheckResult>)
    ensures FailedNames(a + b) == FailedNames(a) + FailedNames(b)
  {
    if a == [] {
      assert a + b == b;
    } else {
      assert (a + b)[0] == a[0] && (a + b)[1..] == a[1..] + b;
      FailedNamesAppend(a[1..], b);
    }
  }

  /** Each result lands in exactly one of the two lists. */
  lemma {:induction false} PassedFailedPartition(rs: seq<CheckResult>)
    ensures |PassedNames(rs)| + |FailedNames(rs)| == |rs|
    ensures forall i :: 0 <= i < |rs| ==> rs[i].name in (if rs[i].passed then PassedNames(rs) else FailedNames(rs))
  {
    if rs != [] {
      PassedFailedPartition(rs[1..]);
      forall i | 1 <= i < |rs|
        ensures rs[i].name in (if rs[i].passed then PassedNames(rs) else FailedNames(rs))
      {
        assert rs[i] == rs[1..][i - 1];
      }
    }
  }

  /** When nothing raises, the three names are recorded in order, and the regex check passes. */
  lemma PegPalaceNamesInOrder(db: PegTables)
    requires AllNamesValid(db)
    ensures Names(PegPalaceResults(db)) == [PegsMatchCheck, PegsCountCheck, RegexCheck]
    ensures RegexCheck in PassedNames(PegPalaceResults(db)) && RegexCheck !in FailedNames(PegPalaceResults(db))
  {
    var a := CheckResult(PegsMatchCheck, PegsMatch(db));
    var b := CheckResult(PegsCountCheck, PegsCount(db));
    var c := CheckResult(RegexCheck, true);
    assert PegPalaceResults(db) == [a, b, c];
    assert [a, b, c][1..] == [b, c] && [b, c][1..] == [c] && [c][1..] == [];
    assert |RegexCheck| != |PegsMatchCheck| && |RegexCheck| != |PegsCountCheck|;
    assert FailedNames([]) == [] && PassedNames([]) == [] && Names([]) == [];
    assert Names([c]) == [RegexCheck] && PassedNames([c]) == [RegexCheck] && FailedNames([c]) == [];
    assert Names([b, c]) == [PegsCountCheck, RegexCheck];
    assert PassedNames([b, c]) == (if b.passed then [PegsCountCheck] else []) + [RegexCheck];
    assert FailedNames([b, c]) == (if b.passed then [] else [PegsCountCheck]);
    assert PassedNames([a, b, c]) == (if a.passed then [PegsMatchCheck] else []) + PassedNames([b, c]);
    assert FailedNames([a, b, c]) == (if a.passed then [] else [PegsMatchCheck]) + FailedNames([b, c]);
  }

  /** The lists of a run of the two counted checks, then the regex check when it is reached. */
  lemma RunLists(matched: bool, counted: bool, reached: bool)
    ensures var rs := [CheckResult(PegsMatchCheck, matched), CheckResult(PegsCountCheck, counted)]
        + if reached then [CheckResult(RegexCheck, true)] else [];
      && PassedNames(rs) == (if matched then [PegsMatchCheck] else []) + (if counted then [PegsCountCheck] else [])
        + (if reached then [RegexCheck] else [])
      && FailedNames(rs) == (if matched then [] else [PegsMatchCheck]) + (if counted then [] else [PegsCountCheck])
  {
    var first := [CheckResult(PegsMatchCheck, matched), CheckResult(PegsCountCheck, counted)];
    var rest := if reached then [CheckResult(RegexCheck, true)] else [];
    assert first[1..][1..] == [];
    assert rest != [] ==> rest[1..] == [];
    PassedNamesAppend(first, rest);
    FailedNamesAppend(first, rest);
  }

  /** The names a peg-palace run appends to each list: every check goes to the list its condition picks. */
  lemma PegPalaceLists(db: PegTables)
    ensures PassedNames(PegPalaceResults(db)) ==
      (if PegsMatch(db) then [PegsMatchCheck] else []) + (if PegsCount(db) then [PegsCountCheck] else [])
      + (if AllNamesValid(db) then [RegexCheck] else [])
    ensures FailedNames(PegPalaceResults(db)) ==
      (if PegsMatch(db) then [] else [PegsMatchCheck]) + (if PegsCount(db) then [] else [PegsCountCheck])
  {
    RunLists(PegsMatch(db), PegsCount(db), AllNamesValid(db));
  }

  /** The checker: a snapshot of the three tables and the two lists of check names. */
  class SanityChecker {
    const db: PegTables
    var passing: seq<string>
    var failing: seq<string>

    constructor (db: PegTables)
      ensures this.db == db && passing == [] && failing == []
    {
      this.db := db;
      passing, failing := [], [];
    }

    /** `__check`: records `checkName` in exactly one list, by `condition`, and returns the condition. */
    method RecordCheck(condition: bool, checkName: string) returns (r: bool)
      modifies this
      ensures r == condition
      ensures passing == old(passing) + (if condition then [checkName] else [])
      ensures failing == old(failing) + (if condition then [] else [checkName])
    {
      if condition {
        passing := passing + [checkName];
      } else {
        failing := failing + [checkName];
      }
      r := condition;
    }

    /** `__check_pegpalace`: the three checks, appended to both lists as `PegPalaceResults` says. */
    method CheckPegPalace() returns (c: Completion)
      modifies this
      ensures c == if AllNamesValid(db) then Returned else RaisedTypeError
      ensures passing == old(passing) + PassedNames(PegPalaceResults(db))
      ensures failing == old(failing) + FailedNames(PegPalaceResults(db))
    {
      ghost var passing0, failing0 := passing, failing;
      var _ := RecordCheck(PegsMatch(db), PegsMatchCheck);
      var _ := RecordCheck(PegsCount(db), PegsCountCheck);
      ghost var passed2 := (if PegsMatch(db) then [PegsMatchCheck] else []) + (if PegsCount(db) then [PegsCountCheck] else []);
      ghost var failed2 := (if PegsMatch(db) then [] else [PegsMatchCheck]) + (if PegsCount(db) then [] else [PegsCountCheck]);
      assert passing == passing0 + passed2 && failing == failing0 + failed2;
      PegPalaceLists(db);

      var invalidWords := InvalidRows(db.pegwords);
      var invalidSites := InvalidRows(db.pegsites);
      var invalidDates := InvalidRows(db.pegdates);
      assert AllNamesValid(db) <==> invalidWords == {} && invalidSites == {} && invalidDates == {} by {
      }
      // A row is a dict: putting one into a set raises TypeError (unhashable type).
      if invalidWords != {} || invalidSites != {} || invalidDates != {} {
        c := RaisedTypeError;
        assert passed2 + [] == passed2;
        return;
      }

      var _ := RecordCheck(|invalidWords| + |invalidSites| + |invalidDates| == 0, RegexCheck);
      assert passing == passing0 + (passed2 + [RegexCheck]);
      c := Returned;
    }

    /** `check`: runs the peg-palace checks, then resets both lists; a raised TypeError skips the reset. */
    method Check() returns (c: Completion)
      modifies this
      ensures c == if AllNamesValid(db) then Returned else RaisedTypeError
      ensures c == Returned ==> passing == [] && failing == []
      ensures c == RaisedTypeError ==>
        && passing == old(passing) + PassedNames(PegPalaceResults(db))
        && failing == old(failing) + FailedNames(PegPalaceResults(db))
    {
      c := CheckPegPalace();
      if c == RaisedTypeError {
        return;
      }
      passing, failing := [], [];
    }
  }
}
