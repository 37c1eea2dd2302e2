/**
 * The page-selection parser `check_comma_separated_num`: a string such as
 * "1,2,5-10,20,30" becomes a list of page numbers and a validity flag.
 *
 * The string is first checked against the whole-string pattern
 * `^\d+(?:[,|-]\d+)*$`; a string that fails it gives `([], False)`. Otherwise
 * it is split on ',' and each clause contributes in turn: a plain integer is
 * appended as is, any other clause is split on '-' and, when every part is an
 * integer, the run from the smallest to the largest part is appended in
 * ascending order. A clause with a part that is not an integer (only possible
 * through '|', which the pattern admits as a separator) clears the flag and
 * contributes nothing, and the later clauses are still processed.
 */
module PageSelection {
  import opened Wrappers
  import opened Text
  import opened Lists

  /** The parse result: the page list and the validity flag. */
  datatype Parsed = Parsed(pages: seq<int>, valid: bool)

  /**
   * The inputs on which this model and Python's `re` agree: ASCII text
   * (so `\d` means 0-9) that does not end in a newline (which `$` would skip).
   */
  predicate AsciiInput(s: string) {
    && (forall i | 0 <= i < |s| :: s[i] as int < 128)
    && (|s| == 0 || s[|s| - 1] != '\n')
  }

  /** The characters the pattern's class `[,|-]` admits between digit runs. */
  predicate IsSeparator(c: char) {
    c == ',' || c == '|' || c == '-'
  }

  /** `^\d+(?:[,|-]\d+)*$` as an automaton: a digit, then what may follow a digit. */
  predicate MatchesPattern(s: string)
    decreases |s|, 1
  {
    |s| > 0 && IsDigit(s[0]) && AfterDigit(s[1..])
  }

  /** What may follow a digit: nothing, another digit, or a separator followed by a match. */
  predicate AfterDigit(s: string)
    decreases |s|, 0
  {
    || |s| == 0
    || (IsDigit(s[0]) && AfterDigit(s[1..]))
    || (IsSeparator(s[0]) && MatchesPattern(s[1..]))
  }

  /**
   * An independent reading of the pattern: a non-empty string over digits
   * and separators that starts and ends with a digit and never has a
   * separator that is not followed by a digit.
   */
  ghost predicate WellFormed(s: string) {
    && |s| > 0
    && IsDigit(s[0])
    && IsDigit(s[|s| - 1])
    && (forall i | 0 <= i < |s| :: IsDigit(s[i]) || IsSeparator(s[i]))
    && (forall i | 0 <= i < |s| - 1 && IsSeparator(s[i]) :: IsDigit(s[i + 1]))
  }

  ghost predicate WellFormedTail(s: string) {
    || |s| == 0
    || (&& IsDigit(s[|s| - 1])
        && (forall i | 0 <= i < |s| :: IsDigit(s[i]) || IsSeparator(s[i]))
        && (forall i | 0 <= i < |s| - 1 && IsSeparator(s[i]) :: IsDigit(s[i + 1])))
  }

  lemma {:induction false} AfterDigitIsWellFormedTail(s: string)
    ensures AfterDigit(s) <==> WellFormedTail(s)
    decreases |s|
  {
    if |s| > 0 {
      AfterDigitIsWellFormedTail(s[1..]);
      if |s| > 1 {
        AfterDigitIsWellFormedTail(s[2..]);
        assert s[1..][1..] == s[2..];
      }
      if WellFormedTail(s) {
        if IsDigit(s[0]) {
          assert WellFormedTail(s[1..]);
        } else {
          assert |s| > 1 && IsDigit(s[1]);
          assert WellFormedTail(s[2..]);
        }
      }
    }
  }

  /** The automaton accepts exactly the well-formed strings. */
  lemma PatternIsWellFormed(s: string)
    ensures MatchesPattern(s) <==> WellFormed(s)
  {
    if |s| > 0 {
      AfterDigitIsWellFormedTail(s[1..]);
      if WellFormed(s) {
        assert WellFormedTail(s[1..]);
      }
    }
  }

  /** `[int(n) for n in parts]`, or None when one `int` raises. */
  function ParseAll(parts: seq<string>): (r: Option<seq<int>>)
    ensures r.Some? <==> forall k | 0 <= k < |parts| :: ParseInt(parts[k]).Some?
    ensures r.Some? ==> |r.value| == |parts|
    ensures r.Some? ==> forall k | 0 <= k < |parts| :: r.value[k] == ParseInt(parts[k]).value
  {
    if |parts| == 0 then Some([])
    else
      match (ParseInt(parts[0]), ParseAll(parts[1..]))
      case (Some(v), Some(vs)) => Some([v] + vs)
      case _ => None
  }

  /** `min(nums)`. */
  function Min(nums: seq<int>): (m: int)
    requires |nums| > 0
    ensures m in nums && forall k | 0 <= k < |nums| :: m <= nums[k]
  {
    if |nums| == 1 then nums[0]
    else
      var rest := Min(nums[1..]);
      assert forall k | 1 <= k < |nums| :: nums[k] == nums[1..][k - 1];
      if nums[0] <= rest then nums[0] else rest
  }

  /** `max(nums)`. */
  function Max(nums: seq<int>): (m: int)
    requires |nums| > 0
    ensures m in nums && forall k | 0 <= k < |nums| :: nums[k] <= m
  {
    if |nums| == 1 then nums[0]
    else
      var rest := Max(nums[1..]);
      assert forall k | 1 <= k < |nums| :: nums[k] == nums[1..][k - 1];
      if rest <= nums[0] then nums[0] else rest
  }

  lemma MinAtMostMax(nums: seq<int>)
    requires |nums| > 0
    ensures Min(nums) <= Max(nums)
  {
    assert Min(nums) <= nums[0] <= Max(nums);
  }

  /** `range(lo, hi)`: lo, lo + 1, ..., hi - 1. */
  function Range(lo: int, hi: int): (r: seq<int>)
    ensures |r| == if lo <= hi then hi - lo else 0
    ensures forall k | 0 <= k < |r| :: r[k] == lo + k
    decreases hi - lo
  {
    if hi <= lo then [] else [lo] + Range(lo + 1, hi)
  }

  /** What one comma-separated clause contributes, and whether it parsed. */
  function ClauseValue(clause: string): Parsed {
    match ParseInt(clause)
    case Some(v) => Parsed([v], true)
    case None => HyphenValue(Split(clause, '-'))
  }

  /** A clause that is not an integer, given by its '-'-separated parts. */
  function HyphenValue(parts: seq<string>): Parsed
    requires |parts| > 0
  {
    match ParseAll(parts)
    case None => Parsed([], false)
    case Some(nums) => Parsed(Span(Min(nums), Max(nums)), true)
  }

  /** The run appended for a hyphen clause with smallest part lo and largest part hi. */
  function Span(lo: int, hi: int): seq<int> {
    if lo == hi then [lo] else Range(lo, hi + 1)
  }

  /** The clauses processed in order: contributions concatenated, flag cleared by any failure. */
  function ParseClauses(clauses: seq<string>): Parsed {
    if |clauses| == 0 then Parsed([], true)
    else
      var before := ParseClauses(clauses[..|clauses| - 1]);
      var last := ClauseValue(clauses[|clauses| - 1]);
      Parsed(before.pages + last.pages, before.valid && last.valid)
  }

  /** The result `check_comma_separated_num` returns for `value`. */
  function Selection(value: string): Parsed {
    if MatchesPattern(value) then ParseClauses(Split(value, ',')) else Parsed([], false)
  }

  /** `check_comma_separated_num`: the loop over clauses with its mutable flag. */
  method CheckCommaSeparatedNum(value: string) returns (numPages: seq<int>, valid: bool)
    requires AsciiInput(value)
    ensures Parsed(numPages, valid) == Selection(value)
    ensures !MatchesPattern(value) ==> numPages == [] && !valid
  {
    valid := MatchesPattern(value);
    numPages := [];
    if valid {
      var pages := Split(value, ',');
      for k := 0 to |pages|
        invariant Parsed(numPages, valid) == ParseClauses(pages[..k])
      {
        var num := pages[k];
        ParseClausesStep(pages, k);
        match ParseInt(num)
        case Some(v) =>
          assert ClauseValue(num) == Parsed([v], true);
          numPages := numPages + [v];
        case None =>
          var nums := ParseAll(Split(num, '-'));
          if nums.Some? {
            var numMin := Min(nums.value);
            var numMax := Max(nums.value);
            HyphenClauseValue(num);
            MinAtMostMax(nums.value);
            SpanIsRange(numMin, numMax);
            if numMin == numMax {
              numPages := numPages + [numMin];
            } else {
              numPages := numPages + Range(numMin, numMax + 1);
            }
          } else {
            assert ClauseValue(num) == Parsed([], false);
            assert numPages + [] == numPages;
            valid := false;
          }
      }
      assert pages[..|pages|] == pages;
    }
  }

  lemma HyphenClauseValue(clause: string)
    requires ParseInt(clause).None? && ParseAll(Split(clause, '-')).Some?
    ensures var nums := ParseAll(Split(clause, '-')).value;
      ClauseValue(clause) == Parsed(Span(Min(nums), Max(nums)), true)
  {
  }

  /** One more clause: its contribution goes after those of the clauses before it. */
  lemma ParseClausesStep(clauses: seq<string>, k: nat)
    requires k < |clauses|
    ensures ParseClauses(clauses[..k + 1])
         == Parsed(ParseClauses(clauses[..k]).pages + ClauseValue(clauses[k]).pages,
                   ParseClauses(clauses[..k]).valid && ClauseValue(clauses[k]).valid)
  {
    assert clauses[..k + 1][..k] == clauses[..k];
  }

  // ---------------------------------------------------------------------
  // Clause-level properties
  // ---------------------------------------------------------------------

  /**
   * A clause that does not start with '-' contributes only non-negative
   * numbers: its '-'-separated parts hold no sign.
   */
  lemma ClauseValuesNonNegative(clause: string)
    requires |clause| == 0 || clause[0] != '-'
    ensures forall v | v in ClauseValue(clause).pages :: v >= 0
  {
    UnsignedParse(clause);
    if ParseInt(clause).None? {
      var parts := Split(clause, '-');
      if ParseAll(parts).Some? {
        var nums := ParseAll(parts).value;
        var lo := Min(nums);
        assert lo >= 0 by {
          var k :| 0 <= k < |nums| && nums[k] == lo;
          assert parts[k] in parts;
          UnsignedParse(parts[k]);
        }
        HyphenRun(parts, nums);
        RangeMembers(lo, Max(nums) + 1);
      }
    }
  }

  predicate StartsWithDigit(s: string) {
    |s| > 0 && IsDigit(s[0])
  }

  /**
   * `int` reads a leading '-' as a sign, so a clause "-5" on its own would
   * contribute -5; the pattern never lets such a clause through.
   */
  lemma SignedClause()
    ensures ClauseValue("-5") == Parsed([-5], true)
  {
    assert !IsDigit("-5"[0]) && "-5"[1..] == "5";
    assert ParseInt("-5") == Some(-5);
  }

  /** The clauses of a string that passes the pattern contribute no negative number. */
  lemma {:induction false} ParseClausesNonNegative(clauses: seq<string>)
    requires forall k | 0 <= k < |clauses| :: StartsWithDigit(clauses[k])
    ensures forall v | v in ParseClauses(clauses).pages :: v >= 0
  {
    if |clauses| > 0 {
      var n := |clauses| - 1;
      assert forall k | 0 <= k < n :: clauses[..n][k] == clauses[k];
      ParseClausesNonNegative(clauses[..n]);
      assert StartsWithDigit(clauses[n]);
      ClauseValuesNonNegative(clauses[n]);
    }
  }

  /**
   * Every page number a selection yields is at least 0, so 0 is the
   * smallest value that can appear; it names no page of a document.
   */
  lemma SelectionNonNegative(value: string)
    ensures forall v | v in Selection(value).pages :: v >= 0
  {
    if MatchesPattern(value) {
      MatchFields(value);
      ParseClausesNonNegative(Split(value, ','));
    }
  }

  /** Every clause of a string the pattern accepts is non-empty and starts with a digit. */
  lemma ClausesStartWithDigit(value: string)
    requires MatchesPattern(value)
    ensures forall c | c in Split(value, ',') :: |c| > 0 && IsDigit(c[0])
  {
    MatchFields(value);
    var fields := Split(value, ',');
    forall c | c in fields ensures |c| > 0 && IsDigit(c[0]) {
      var k :| 0 <= k < |fields| && fields[k] == c;
      assert StartsWithDigit(fields[k]);
    }
  }

  lemma {:induction false} MatchFields(s: string)
    requires MatchesPattern(s)
    ensures forall k | 0 <= k < |Split(s, ',')| :: StartsWithDigit(Split(s, ',')[k])
    decreases |s|, 1
  {
    AfterDigitFields(s[1..]);
    var rest := Split(s[1..], ',');
    var fields := Split(s, ',');
    assert fields == [[s[0]] + rest[0]] + rest[1..];
    forall k | 0 <= k < |fields| ensures StartsWithDigit(fields[k]) {
      if k == 0 {
        assert fields[0][0] == s[0];
      } else {
        assert fields[k] == rest[k];
        assert StartsWithDigit(rest[k]);
      }
    }
  }

  /** After a digit, every field but the first (which continues that digit's field) starts with a digit. */
  lemma {:induction false} AfterDigitFields(s: string)
    requires AfterDigit(s)
    ensures forall k | 1 <= k < |Split(s, ',')| :: StartsWithDigit(Split(s, ',')[k])
    decreases |s|, 0
  {
    if |s| > 0 {
      var rest := Split(s[1..], ',');
      var fields := Split(s, ',');
      if s[0] == ',' {
        MatchFields(s[1..]);
        assert fields == [""] + rest;
        forall k | 1 <= k < |fields| ensures StartsWithDigit(fields[k]) {
          assert fields[k] == rest[k - 1];
          assert StartsWithDigit(rest[k - 1]);
        }
      } else {
        if IsDigit(s[0]) && AfterDigit(s[1..]) {
          AfterDigitFields(s[1..]);
        } else {
          MatchFields(s[1..]);
        }
        assert fields == [[s[0]] + rest[0]] + rest[1..];
        forall k | 1 <= k < |fields| ensures StartsWithDigit(fields[k]) {
          assert fields[k] == rest[k];
          assert StartsWithDigit(rest[k]);
        }
      }
    }
  }

  // ---------------------------------------------------------------------
  // When the flag stays set
  // ---------------------------------------------------------------------

  /** `\d+(?:-\d+)*`: the shape of a comma clause of an accepted string without '|'. */
  predicate RunMatches(c: string)
    decreases |c|, 1
  {
    |c| > 0 && IsDigit(c[0]) && RunAfterDigit(c[1..])
  }

  /** What may follow a digit inside such a clause: nothing, a digit, or '-' and another run. */
  predicate RunAfterDigit(c: string)
    decreases |c|, 0
  {
    || |c| == 0
    || (IsDigit(c[0]) && RunAfterDigit(c[1..]))
    || (c[0] == '-' && RunMatches(c[1..]))
  }

  /** A non-empty string of digits, which `int` reads. */
  predicate DigitRun(p: string) {
    |p| > 0 && AllDigits(p)
  }

  /** Every comma clause of an accepted string without '|' has the shape digits, then '-' and digits, repeated. */
  lemma {:induction false} MatchRuns(s: string)
    requires MatchesPattern(s) && '|' !in s
    ensures forall k | 0 <= k < |Split(s, ',')| :: RunMatches(Split(s, ',')[k])
    decreases |s|, 1
  {
    AfterDigitRuns(s[1..]);
    var rest := Split(s[1..], ',');
    var fields := Split(s, ',');
    assert fields == [[s[0]] + rest[0]] + rest[1..];
    forall k | 0 <= k < |fields| ensures RunMatches(fields[k]) {
      if k == 0 {
        assert fields[0][0] == s[0] && fields[0][1..] == rest[0];
      } else {
        assert fields[k] == rest[k];
      }
    }
  }

  /** After a digit, the first field continues the current clause and the others are whole clauses. */
  lemma {:induction false} AfterDigitRuns(s: string)
    requires AfterDigit(s) && '|' !in s
    ensures RunAfterDigit(Split(s, ',')[0])
    ensures forall k | 1 <= k < |Split(s, ',')| :: RunMatches(Split(s, ',')[k])
    decreases |s|, 0
  {
    if |s| > 0 {
      var rest := Split(s[1..], ',');
      var fields := Split(s, ',');
      if s[0] == ',' {
        MatchRuns(s[1..]);
        assert fields == [""] + rest;
        forall k | 1 <= k < |fields| ensures RunMatches(fields[k]) {
          assert fields[k] == rest[k - 1];
        }
      } else {
        if IsDigit(s[0]) {
          AfterDigitRuns(s[1..]);
        } else {
          assert s[0] == '-';
          MatchRuns(s[1..]);
        }
        assert fields == [[s[0]] + rest[0]] + rest[1..];
        assert fields[0][0] == s[0] && fields[0][1..] == rest[0];
        forall k | 1 <= k < |fields| ensures RunMatches(fields[k]) {
          assert fields[k] == rest[k];
        }
      }
    }
  }

  /** The '-' parts of a clause of that shape are all non-empty digit runs. */
  lemma {:induction false} RunParts(c: string)
    requires RunMatches(c)
    ensures forall k | 0 <= k < |Split(c, '-')| :: DigitRun(Split(c, '-')[k])
    decreases |c|, 1
  {
    RunAfterDigitParts(c[1..]);
    var rest := Split(c[1..], '-');
    var parts := Split(c, '-');
    assert parts == [[c[0]] + rest[0]] + rest[1..];
    forall k | 0 <= k < |parts| ensures DigitRun(parts[k]) {
      if k == 0 {
        forall i | 0 <= i < |parts[0]| ensures IsDigit(parts[0][i]) {
          if i > 0 {
            assert parts[0][i] == rest[0][i - 1];
          }
        }
      } else {
        assert parts[k] == rest[k];
      }
    }
  }

  /** After a digit, the first '-' part is digits only and the later parts are non-empty digit runs. */
  lemma {:induction false} RunAfterDigitParts(c: string)
    requires RunAfterDigit(c)
    ensures AllDigits(Split(c, '-')[0])
    ensures forall k | 1 <= k < |Split(c, '-')| :: DigitRun(Split(c, '-')[k])
    decreases |c|, 0
  {
    if |c| > 0 {
      var rest := Split(c[1..], '-');
      var parts := Split(c, '-');
      if c[0] == '-' {
        RunParts(c[1..]);
        assert parts == [""] + rest;
        forall k | 1 <= k < |parts| ensures DigitRun(parts[k]) {
          assert parts[k] == rest[k - 1];
        }
      } else {
        RunAfterDigitParts(c[1..]);
        assert parts == [[c[0]] + rest[0]] + rest[1..];
        forall i | 0 <= i < |parts[0]| ensures IsDigit(parts[0][i]) {
          if i > 0 {
            assert parts[0][i] == rest[0][i - 1];
          }
        }
        forall k | 1 <= k < |parts| ensures DigitRun(parts[k]) {
          assert parts[k] == rest[k];
        }
      }
    }
  }

  /** A clause of that shape keeps the flag set. */
  lemma RunClauseValid(c: string)
    requires RunMatches(c)
    ensures ClauseValue(c).valid
  {
    if ParseInt(c).None? {
      var parts := Split(c, '-');
      RunParts(c);
      forall k | 0 <= k < |parts| ensures ParseInt(parts[k]).Some? {
        assert DigitRun(parts[k]);
      }
    }
  }

  /** The flag survives the clause loop exactly when every clause keeps it set. */
  lemma ParseClausesValid(clauses: seq<string>)
    ensures ParseClauses(clauses).valid <==> forall k | 0 <= k < |clauses| :: ClauseValue(clauses[k]).valid
  {
    if forall k | 0 <= k < |clauses| :: ClauseValue(clauses[k]).valid {
      AllClausesKeepFlag(clauses);
    } else {
      var k :| 0 <= k < |clauses| && !ClauseValue(clauses[k]).valid;
      FailedClauseClearsFlag(clauses, k);
    }
  }

  /** Clauses that each keep the flag set leave it set. */
  lemma {:induction false} AllClausesKeepFlag(clauses: seq<string>)
    requires forall k | 0 <= k < |clauses| :: ClauseValue(clauses[k]).valid
    ensures ParseClauses(clauses).valid
    decreases |clauses|
  {
    if |clauses| > 0 {
      var init := clauses[..|clauses| - 1];
      forall k | 0 <= k < |init| ensures ClauseValue(init[k]).valid {
        assert init[k] == clauses[k];
      }
      AllClausesKeepFlag(init);
    }
  }

  /** One clause that fails clears the flag for good. */
  lemma {:induction false} FailedClauseClearsFlag(clauses: seq<string>, k: nat)
    requires k < |clauses| && !ClauseValue(clauses[k]).valid
    ensures !ParseClauses(clauses).valid
    decreases |clauses|
  {
    var n := |clauses| - 1;
    if k < n {
      var init := clauses[..n];
      assert init[k] == clauses[k];
      FailedClauseClearsFlag(init, k);
    }
  }

  /**
   * The validity flag is set exactly when the input matches the pattern and
   * holds no '|': a '|' is the only way a matching clause can fail `int`.
   */
  lemma SelectionValid(value: string)
    ensures Selection(value).valid <==> MatchesPattern(value) && '|' !in value
  {
    if MatchesPattern(value) {
      var fields := Split(value, ',');
      ParseClausesValid(fields);
      if '|' in value {
        FieldHolds(fields, ',', '|');
        var k :| 0 <= k < |fields| && '|' in fields[k];
        BarClauseRejected(fields[k]);
      } else {
        MatchRuns(value);
        forall k | 0 <= k < |fields| ensures ClauseValue(fields[k]).valid {
          RunClauseValid(fields[k]);
        }
      }
    }
  }

  /** A non-empty run of digits, leading zeros included, is appended as its decimal value. */
  lemma DigitRunClause(c: string)
    requires DigitRun(c)
    ensures ClauseValue(c) == Parsed([DecimalValue(c)], true)
  {
  }

  /** A plain decimal integer, 0 included, is appended verbatim. */
  lemma PlainClauseVerbatim(n: nat)
    ensures ClauseValue(DecimalString(n)) == Parsed([n], true)
  {
    DigitRunClause(DecimalString(n));
  }

  /** A clause with a hyphen whose parts are all digit runs is not an integer, but every part is. */
  lemma HyphenClauseParses(clause: string)
    requires '-' in clause
    requires forall p | p in Split(clause, '-') :: |p| > 0 && AllDigits(p)
    ensures ParseInt(clause).None? && ParseAll(Split(clause, '-')).Some?
  {
    var parts := Split(clause, '-');
    assert !AllDigits(clause) by {
      var i :| 0 <= i < |clause| && clause[i] == '-';
    }
    if clause[0] == '-' {
      SplitLeadingSeparator(clause, '-');
      assert false;
    }
    forall k | 0 <= k < |parts| ensures ParseInt(parts[k]).Some? {
      assert parts[k] in parts;
    }
  }

  /**
   * A clause that is not an integer but whose hyphen-separated parts all are
   * contributes every integer from the smallest to the largest part,
   * ascending, once each (the single value when they coincide), and stays valid.
   */
  lemma HyphenClauseRange(clause: string) returns (lo: int, hi: int)
    requires ParseInt(clause).None? && ParseAll(Split(clause, '-')).Some?
    ensures lo == Min(ParseAll(Split(clause, '-')).value)
    ensures hi == Max(ParseAll(Split(clause, '-')).value)
    ensures lo <= hi
    ensures ClauseValue(clause) == Parsed(Range(lo, hi + 1), true)
  {
    var nums := ParseAll(Split(clause, '-')).value;
    lo, hi := Min(nums), Max(nums);
    assert lo <= nums[0] <= hi;
    HyphenClauseValue(clause);
    SpanIsRange(lo, hi);
  }

  /** The run appended for a hyphen clause is `range(lo, hi + 1)`, also when both ends coincide. */
  lemma SpanIsRange(lo: int, hi: int)
    requires lo <= hi
    ensures Span(lo, hi) == Range(lo, hi + 1)
  {
  }

  /** The run `range(lo, end)` holds exactly the integers from lo up to but excluding end. */
  lemma RangeMembers(lo: int, end: int)
    ensures forall v :: v in Range(lo, end) <==> lo <= v < end
  {
    var r := Range(lo, end);
    forall v | lo <= v < end ensures v in r {
      assert r[v - lo] == v;
    }
  }

  /**
   * `"a-b"` contributes the ascending run from min(a, b) to max(a, b)
   * whatever the order of the operands, so `"10-5"` and `"5-10"` agree.
   */
  lemma TwoPartRange(a: nat, b: nat)
    ensures var lo, hi := if a <= b then a else b, if a <= b then b else a;
      ClauseValue(DecimalString(a) + "-" + DecimalString(b)) == Parsed(Range(lo, hi + 1), true)
  {
    TwoRunRange(DecimalString(a), DecimalString(b), a, b);
  }

  /** The same for two digit runs as typed, leading zeros included: `"05-3"` contributes 3, 4, 5. */
  lemma TwoRunRange(da: string, db: string, a: nat, b: nat)
    requires DigitRun(da) && DigitRun(db) && DecimalValue(da) == a && DecimalValue(db) == b
    ensures var lo, hi := if a <= b then a else b, if a <= b then b else a;
      ClauseValue(da + "-" + db) == Parsed(Range(lo, hi + 1), true)
  {
    var clause := da + "-" + db;
    TwoRunParses(da, db);
    PairParts(Split(clause, '-'), a, b);
  }

  /** Two '-' parts that read as a and b give the ascending run between them. */
  lemma PairParts(parts: seq<string>, a: int, b: int)
    requires ParseAll(parts) == Some([a, b])
    ensures var lo, hi := if a <= b then a else b, if a <= b then b else a;
      HyphenValue(parts) == Parsed(Range(lo, hi + 1), true)
  {
    HyphenRun(parts, [a, b]);
    PairBounds(a, b);
  }

  /** The smallest and largest of two parts. */
  lemma PairBounds(a: int, b: int)
    ensures Min([a, b]) == (if a <= b then a else b)
    ensures Max([a, b]) == (if a <= b then b else a)
  {
    assert [a, b][1..] == [b];
  }

  /** `"a-b"` for digit runs a and b is not an integer, and its two hyphen-separated parts read as a and b. */
  lemma TwoRunParses(da: string, db: string)
    requires DigitRun(da) && DigitRun(db)
    ensures var clause := da + "-" + db;
      && ParseInt(clause).None?
      && ParseAll(Split(clause, '-')) == Some([DecimalValue(da) as int, DecimalValue(db) as int])
      && ClauseValue(clause) == HyphenValue(Split(clause, '-'))
  {
    var clause := da + "-" + db;
    DigitsHoldNoSeparator(da, '-');
    DigitsHoldNoSeparator(db, '-');
    assert clause == Join([da, db], '-');
    SplitJoin([da, db], '-');
    InnerHyphen(clause, |da|);
    var nums := ParseAll([da, db]).value;
    assert nums == [DecimalValue(da) as int, DecimalValue(db) as int] by {
      assert nums[0] == ParseInt(da).value && nums[1] == ParseInt(db).value;
    }
  }

  /** A clause holding '|' passes the pattern but neither parse: it clears the flag and adds nothing. */
  lemma BarClauseRejected(clause: string)
    requires '|' in clause
    ensures ClauseValue(clause) == Parsed([], false)
  {
    NotANumber(clause, '|');
    var parts := Split(clause, '-');
    FieldHolds(parts, '-', '|');
    var k :| 0 <= k < |parts| && '|' in parts[k];
    NotANumber(parts[k], '|');
  }

  // ---------------------------------------------------------------------
  // Whole-string properties
  // ---------------------------------------------------------------------

  lemma {:induction false} ParseClausesAppend(xs: seq<string>, ys: seq<string>)
    ensures ParseClauses(xs + ys)
         == Parsed(ParseClauses(xs).pages + ParseClauses(ys).pages,
                   ParseClauses(xs).valid && ParseClauses(ys).valid)
    decreases |ys|
  {
    if |ys| == 0 {
      assert xs + ys == xs;
    } else {
      var n := |ys|;
      var zs := xs + ys;
      var init, last := ys[..n - 1], ys[n - 1];
      assert zs[..|zs| - 1] == xs + init;
      assert zs[|zs| - 1] == last;
      assert ys[..n - 1] == init;
      ParseClausesAppend(xs, init);
      ConcatAssociative(ParseClauses(xs).pages, ParseClauses(init).pages, ClauseValue(last).pages);
    }
  }

  lemma {:induction false} AfterDigitThenComma(s: string, b: string)
    requires AfterDigit(s) && MatchesPattern(b)
    ensures AfterDigit(s + "," + b)
    decreases |s|
  {
    var t := s + "," + b;
    if |s| == 0 {
      assert t[1..] == b;
    } else if IsDigit(s[0]) && AfterDigit(s[1..]) {
      AfterDigitThenComma(s[1..], b);
      assert t[1..] == s[1..] + "," + b;
    } else {
      MatchesThenComma(s[1..], b);
      assert t[1..] == s[1..] + "," + b;
    }
  }

  lemma {:induction false} MatchesThenComma(a: string, b: string)
    requires MatchesPattern(a) && MatchesPattern(b)
    ensures MatchesPattern(a + "," + b)
    decreases |a|
  {
    AfterDigitThenComma(a[1..], b);
    assert (a + "," + b)[1..] == a[1..] + "," + b;
  }

  /**
   * Joining two selections with a comma concatenates their page lists in
   * order, without sorting or removing repeats, and the result is valid
   * exactly when both are: a failing clause does not stop the clauses after it.
   */
  lemma SelectionConcat(a: string, b: string)
    requires MatchesPattern(a) && MatchesPattern(b)
    ensures MatchesPattern(a + "," + b)
    ensures Selection(a + "," + b)
         == Parsed(Selection(a).pages + Selection(b).pages, Selection(a).valid && Selection(b).valid)
  {
    MatchesThenComma(a, b);
    SplitAppend(a, b, ',');
    assert a + "," + b == a + [','] + b;
    ParseClausesAppend(Split(a, ','), Split(b, ','));
  }

  /** A string the pattern rejects gives no pages and is invalid; the empty string and an empty clause are rejected. */
  lemma RejectedInputs()
    ensures Selection("") == Parsed([], false)
    ensures Selection("1,,2") == Parsed([], false)
    ensures Selection("1-") == Parsed([], false)
    ensures Selection(",1") == Parsed([], false)
  {
    assert !MatchesPattern("1,,2") by {
      assert "1,,2"[1..] == ",,2";
      assert ",,2"[1..] == ",2";
    }
    assert !MatchesPattern("1-") by {
      assert "1-"[1..] == "-";
      assert "-"[1..] == "";
    }
  }

  /** A selection without commas is a single clause. */
  lemma SingleClause(c: string)
    requires MatchesPattern(c) && ',' !in c
    ensures Selection(c) == ClauseValue(c)
  {
    SplitWithoutSeparator(c, ',');
    assert [c][..0] == [];
    var v := ClauseValue(c);
    assert ParseClauses([c]) == Parsed([] + v.pages, true && v.valid);
    assert [] + v.pages == v.pages;
  }

  /** Page 0 is kept: the pattern and `int` both accept it. */
  lemma ZeroSelection()
    ensures Selection("0") == Parsed([0], true)
  {
    assert MatchesPattern("0") by {
      assert "0"[1..] == "";
    }
    SingleClause("0");
    assert DecimalString(0) == "0";
    PlainClauseVerbatim(0);
  }

  /** A reversed range is normalised to ascending order. */
  lemma ReversedRangeSelection()
    ensures Selection("10-5") == Parsed([5, 6, 7, 8, 9, 10], true)
  {
    RangeSelection(10, 5);
    assert DecimalString(10) + "-" + DecimalString(5) == "10-5";
    RangeLiterals();
  }

  /** The two literal runs the examples below select. */
  lemma RangeLiterals()
    ensures Range(1, 6) == [1, 2, 3, 4, 5]
    ensures Range(5, 11) == [5, 6, 7, 8, 9, 10]
  {
  }

  /** Every hyphen part counts: `"1-5-3"` runs from the smallest part to the largest. */
  lemma MultiHyphenSelection()
    ensures Selection("1-5-3") == Parsed([1, 2, 3, 4, 5], true)
  {
    var c := "1-5-3";
    assert MatchesPattern(c) by {
      assert c[1..] == "-5-3" && c[2..] == "5-3" && c[3..] == "-3" && c[4..] == "3";
      assert "-5-3"[1..] == "5-3" && "5-3"[1..] == "-3" && "-3"[1..] == "3" && "3"[1..] == "";
    }
    SingleClause(c);
    MultiHyphenClause();
    RangeLiterals();
  }

  lemma MultiHyphenClause()
    ensures ClauseValue("1-5-3") == Parsed(Range(1, 6), true)
  {
    MultiHyphenParts();
    MultiHyphenNumbers();
    assert ParseInt("1-5-3").None? by {
      assert !IsDigit("1-5-3"[1]) && "1-5-3"[0] == '1';
    }
    NonNumberClause("1-5-3", ["1", "5", "3"]);
    HyphenRun(["1", "5", "3"], [1, 5, 3]);
    assert Min([1, 5, 3]) == 1 && Max([1, 5, 3]) == 5;
  }

  /** "1-5-3" splits on '-' into three numbers. */
  lemma MultiHyphenParts()
    ensures Split("1-5-3", '-') == ["1", "5", "3"]
  {
    SplitWithoutSeparator("1", '-');
    SplitWithoutSeparator("5", '-');
    SplitWithoutSeparator("3", '-');
    SplitAppend("1", "5", '-');
    assert "1" + ['-'] + "5" == "1-5";
    SplitAppend("1-5", "3", '-');
    assert "1-5" + ['-'] + "3" == "1-5-3";
  }

  lemma MultiHyphenNumbers()
    ensures ParseAll(["1", "5", "3"]) == Some([1, 5, 3])
  {
    assert ParseInt("1") == Some(1) && ParseInt("5") == Some(5) && ParseInt("3") == Some(3) by {
      assert "1"[..0] == "" && "5"[..0] == "" && "3"[..0] == "";
    }
    var r := ParseAll(["1", "5", "3"]);
    assert r.Some? && |r.value| == 3 && r.value[0] == 1 && r.value[1] == 5 && r.value[2] == 3;
    assert r.value == [1, 5, 3];
  }

  /** A clause that is not a number is worth what its '-'-separated parts are worth. */
  lemma NonNumberClause(clause: string, parts: seq<string>)
    requires ParseInt(clause).None? && Split(clause, '-') == parts
    ensures |parts| > 0 && ClauseValue(clause) == HyphenValue(parts)
  {
  }

  /**
   * Parts that all parse select the ascending run from the smallest to the
   * largest of them, once each, and stay valid.
   */
  lemma HyphenRun(parts: seq<string>, nums: seq<int>)
    requires |parts| > 0 && ParseAll(parts) == Some(nums)
    ensures HyphenValue(parts) == Parsed(Range(Min(nums), Max(nums) + 1), true)
  {
    var lo, hi := Min(nums), Max(nums);
    assert HyphenValue(parts) == Parsed(Span(lo, hi), true);
    MinAtMostMax(nums);
    SpanIsRange(lo, hi);
  }

  /** A clause with '|' makes the selection invalid even though the pattern accepts it. */
  lemma BarSelection()
    ensures Selection("1|2") == Parsed([], false)
  {
    assert MatchesPattern("1|2") by {
      assert "1|2"[1..] == "|2" && "|2"[1..] == "2" && "2"[1..] == "";
    }
    SingleClause("1|2");
    BarClauseRejected("1|2");
  }

  lemma DigitsMatch(s: string)
    requires |s| > 0 && AllDigits(s)
    ensures MatchesPattern(s)
  {
    PatternIsWellFormed(s);
  }

  /** A plain number on its own selects exactly that number. */
  lemma PlainSelection(n: nat)
    ensures Selection(DecimalString(n)) == Parsed([n], true)
  {
    DigitsMatch(DecimalString(n));
    DigitsHoldNoSeparator(DecimalString(n), ',');
    SingleClause(DecimalString(n));
  }

  /** A two-part range on its own selects the ascending run between its ends. */
  lemma RangeSelection(a: nat, b: nat)
    ensures MatchesPattern(DecimalString(a) + "-" + DecimalString(b))
    ensures var lo, hi := if a <= b then a else b, if a <= b then b else a;
      Selection(DecimalString(a) + "-" + DecimalString(b)) == Parsed(Range(lo, hi + 1), true)
  {
    RangeClauseMatches(a, b);
    SingleClause(DecimalString(a) + "-" + DecimalString(b));
    TwoPartRange(a, b);
  }

  /** `"a-b"` passes the pattern and holds no comma. */
  lemma RangeClauseMatches(a: nat, b: nat)
    ensures MatchesPattern(DecimalString(a) + "-" + DecimalString(b))
    ensures ',' !in DecimalString(a) + "-" + DecimalString(b)
  {
    var da, db := DecimalString(a), DecimalString(b);
    var c := da + "-" + db;
    RangeClauseChars(da, db);
    assert c[|da| + 1] == db[0];
    assert WellFormed(c);
    PatternIsWellFormed(c);
    forall i | 0 <= i < |c| ensures c[i] != ',' {
      assert if i == |da| then c[i] == '-' else IsDigit(c[i]);
    }
  }

  lemma RangeClauseChars(da: string, db: string)
    requires AllDigits(da) && AllDigits(db)
    ensures var c := da + "-" + db;
      forall i | 0 <= i < |c| :: if i == |da| then c[i] == '-' else IsDigit(c[i])
  {
    var c := da + "-" + db;
    forall i | 0 <= i < |c| ensures if i == |da| then c[i] == '-' else IsDigit(c[i]) {
      if i < |da| { assert c[i] == da[i]; }
      else if i > |da| { assert c[i] == db[i - |da| - 1]; }
    }
  }

  /**
   * Clauses are read one after another: the selection of clauses joined by
   * commas is the in-order concatenation of what each clause selects.
   */
  lemma SelectionJoin(clauses: seq<string>)
    requires |clauses| > 0
    requires forall k | 0 <= k < |clauses| :: MatchesPattern(clauses[k]) && ',' !in clauses[k]
    ensures MatchesPattern(Join(clauses, ','))
    ensures Selection(Join(clauses, ',')) == ParseClauses(clauses)
  {
    JoinMatches(clauses);
    SplitJoin(clauses, ',');
  }

  lemma {:induction false} JoinMatches(clauses: seq<string>)
    requires |clauses| > 0
    requires forall k | 0 <= k < |clauses| :: MatchesPattern(clauses[k])
    ensures MatchesPattern(Join(clauses, ','))
    decreases |clauses|
  {
    if |clauses| > 1 {
      JoinMatches(clauses[1..]);
      MatchesThenComma(clauses[0], Join(clauses[1..], ','));
      assert clauses[0] + [','] + Join(clauses[1..], ',') == clauses[0] + "," + Join(clauses[1..], ',');
    }
  }

  /**
   * The example of the field's hint text, "1,2,5-10,20,30" (written below as
   * its pieces joined): the clauses contribute in order, the range ascending.
   */
  lemma HintExample()
    ensures Selection("1" + "," + ("2" + "," + (("5" + "-" + "10") + "," + ("20" + "," + "30"))))
         == Parsed([1, 2, 5, 6, 7, 8, 9, 10, 20, 30], true)
  {
    HintExampleFromTwo();
    assert DecimalString(1) == "1";
    PlainSelection(1);
    DigitsMatch("1");
    SelectionConcat("1", "2" + "," + (("5" + "-" + "10") + "," + ("20" + "," + "30")));
  }

  lemma HintExampleFromTwo()
    ensures MatchesPattern("2" + "," + (("5" + "-" + "10") + "," + ("20" + "," + "30")))
    ensures Selection("2" + "," + (("5" + "-" + "10") + "," + ("20" + "," + "30")))
         == Parsed([2, 5, 6, 7, 8, 9, 10, 20, 30], true)
  {
    HintExampleFromRange();
    assert DecimalString(2) == "2";
    PlainSelection(2);
    DigitsMatch("2");
    SelectionConcat("2", ("5" + "-" + "10") + "," + ("20" + "," + "30"));
  }

  lemma HintExampleFromRange()
    ensures MatchesPattern(("5" + "-" + "10") + "," + ("20" + "," + "30"))
    ensures Selection(("5" + "-" + "10") + "," + ("20" + "," + "30")) == Parsed([5, 6, 7, 8, 9, 10, 20, 30], true)
  {
    HintExampleTail();
    HintExampleRange();
    SelectionConcat("5" + "-" + "10", "20" + "," + "30");
  }

  lemma HintExampleRange()
    ensures MatchesPattern("5" + "-" + "10")
    ensures Selection("5" + "-" + "10") == Parsed([5, 6, 7, 8, 9, 10], true)
  {
    RangeSelection(5, 10);
    assert DecimalString(5) == "5" && DecimalString(10) == "10";
    RangeLiterals();
  }

  lemma HintExampleTail()
    ensures MatchesPattern("20" + "," + "30")
    ensures Selection("20" + "," + "30") == Parsed([20, 30], true)
  {
    assert DecimalString(20) == "20" && DecimalString(30) == "30";
    NumberPair(20, 30);
    DigitsMatch("20");
    DigitsMatch("30");
    MatchesThenComma("20", "30");
  }

  /**
   * Pages are neither sorted nor de-duplicated: two numbers joined by a comma
   * select both, in the order written, even when the first is larger or
   * they are equal.
   */
  lemma NumberPair(a: nat, b: nat)
    ensures Selection(DecimalString(a) + "," + DecimalString(b)) == Parsed([a, b], true)
  {
    var da, db := DecimalString(a), DecimalString(b);
    PlainSelection(a);
    PlainSelection(b);
    DigitsMatch(da);
    DigitsMatch(db);
    SelectionConcat(da, db);
  }

  /**
   * A failing clause clears the flag, yet the numbers on either side of it
   * still contribute their pages.
   */
  lemma FailedClauseKeepsOthers(a: nat, bad: string, b: nat)
    requires MatchesPattern(bad) && '|' in bad && ',' !in bad
    ensures Selection(DecimalString(a) + "," + bad + "," + DecimalString(b)) == Parsed([a, b], false)
  {
    var da, db := DecimalString(a), DecimalString(b);
    SingleClause(bad);
    BarClauseRejected(bad);
    PlainSelection(a);
    PlainSelection(b);
    DigitsMatch(da);
    DigitsMatch(db);
    SelectionThree(da, bad, db);
    assert [a] + [] + [b] == [a, b];
  }

  /** Three selections joined by commas: their pages in order, valid when all three are. */
  lemma SelectionThree(x: string, y: string, z: string)
    requires MatchesPattern(x) && MatchesPattern(y) && MatchesPattern(z)
    ensures Selection(x + "," + y + "," + z)
         == Parsed(Selection(x).pages + Selection(y).pages + Selection(z).pages,
                   Selection(x).valid && Selection(y).valid && Selection(z).valid)
  {
    SelectionConcat(y, z);
    SelectionConcat(x, y + "," + z);
    ConcatAssociative(x + ",", y + ",", z);
    ConcatAssociative(x + ",", y, ",");
    assert x + "," + (y + "," + z) == x + "," + y + "," + z;
    ConcatAssociative(Selection(x).pages, Selection(y).pages, Selection(z).pages);
  }
}
