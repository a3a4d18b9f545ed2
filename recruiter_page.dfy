/**
 * The recruiter page: a free-text query is lower-cased, keywords in it switch
 * on `ILIKE` filters over the `credentials` table (always restricted to rows
 * that are not revoked), and a `gpa <op> number` phrase adds an in-memory
 * GPA threshold.
 */
module RecruiterPage {
  import opened Wrappers
  import opened Registry
  import Text

  /** The columns the keyword filters look at. */
  datatype Column = Major | UniversityName | DegreeType

  /** One condition of the database query: `.eq('is_revoked', false)` or `.ilike(column, '%word%')`. */
  datatype Filter = NotRevoked | ILike(column: Column, word: string)

  /** A keyword rule: when the query contains any of `triggers`, `filter` is added. */
  datatype Rule = Rule(triggers: seq<string>, filter: Filter)

  /** The keyword rules, in the order the page tests them. */
  const Rules: seq<Rule> := [
    Rule(["cs", "computer science"], ILike(Major, "computer")),
    Rule(["stanford"], ILike(UniversityName, "stanford")),
    Rule(["berkeley"], ILike(UniversityName, "berkeley")),
    Rule(["mit"], ILike(UniversityName, "mit")),
    Rule(["bachelor"], ILike(DegreeType, "bachelor")),
    Rule(["master"], ILike(DegreeType, "master"))
  ]

  /** The query contains one of `words` as a substring (`includes`, not a whole-word match). */
  predicate ContainsAny(query: string, words: seq<string>) {
    words != [] && (Text.Contains(query, words[0]) || ContainsAny(query, words[1..]))
  }

  predicate Fires(rule: Rule, query: string) {
    ContainsAny(query, rule.triggers)
  }

  /**
   * The conditions of the database query: `is_revoked = false`, then the
   * filters of the rules that fire, in rule order.
   */
  function Conditions(rules: seq<Rule>, query: string): seq<Filter> {
    if rules == [] then [NotRevoked]
    else Conditions(rules[..|rules| - 1], query) + Step(rules[|rules| - 1], query)
  }

  /** The filter one rule contributes. */
  function Step(rule: Rule, query: string): seq<Filter> {
    if Fires(rule, query) then [rule.filter] else []
  }

  /** A condition is in the query exactly when it is `is_revoked = false` or some rule carrying it fires. */
  lemma {:induction false} ConditionsIff(rules: seq<Rule>, query: string, f: Filter)
    ensures f in Conditions(rules, query) <==>
      f == NotRevoked || exists i :: 0 <= i < |rules| && Fires(rules[i], query) && rules[i].filter == f
  {
    if rules != [] {
      var init := rules[..|rules| - 1];
      ConditionsIff(init, query, f);
      if i :| 0 <= i < |rules| - 1 && Fires(rules[i], query) && rules[i].filter == f {
        assert init[i] == rules[i];
      }
    }
  }

  /** Every condition of the database query built for `query`. */
  function QueryFilters(query: string): seq<Filter> {
    Conditions(Rules, query)
  }

  /** The chain of `if (query.includes(..))` statements that extends `dbQuery`. */
  method BuildFilters(query: string) returns (filters: seq<Filter>)
    ensures filters == QueryFilters(query)
  {
    RulesUnrolled(query);
    filters := [NotRevoked];
    if Text.Contains(query, "cs") || Text.Contains(query, "computer science") {
      filters := filters + [ILike(Major, "computer")];
    }
    assert filters == [NotRevoked] + Step(Rules[0], query);
    if Text.Contains(query, "stanford") {
      filters := filters + [ILike(UniversityName, "stanford")];
    }
    assert filters == [NotRevoked] + Step(Rules[0], query) + Step(Rules[1], query);
    if Text.Contains(query, "berkeley") {
      filters := filters + [ILike(UniversityName, "berkeley")];
    }
    assert filters == [NotRevoked] + Step(Rules[0], query) + Step(Rules[1], query) + Step(Rules[2], query);
    if Text.Contains(query, "mit") {
      filters := filters + [ILike(UniversityName, "mit")];
    }
    assert filters == [NotRevoked] + Step(Rules[0], query) + Step(Rules[1], query) + Step(Rules[2], query)
      + Step(Rules[3], query);
    if Text.Contains(query, "bachelor") {
      filters := filters + [ILike(DegreeType, "bachelor")];
    }
    assert filters == [NotRevoked] + Step(Rules[0], query) + Step(Rules[1], query) + Step(Rules[2], query)
      + Step(Rules[3], query) + Step(Rules[4], query);
    if Text.Contains(query, "master") {
      filters := filters + [ILike(DegreeType, "master")];
    }
  }

  /** The six rules one by one, as the chain of statements tests them. */
  lemma RulesUnrolled(query: string)
    ensures QueryFilters(query) ==
      [NotRevoked] + Step(Rules[0], query) + Step(Rules[1], query) + Step(Rules[2], query)
      + Step(Rules[3], query) + Step(Rules[4], query) + Step(Rules[5], query)
    ensures Fires(Rules[0], query) <==> Text.Contains(query, "cs") || Text.Contains(query, "computer science")
    ensures Fires(Rules[1], query) <==> Text.Contains(query, "stanford")
    ensures Fires(Rules[2], query) <==> Text.Contains(query, "berkeley")
    ensures Fires(Rules[3], query) <==> Text.Contains(query, "mit")
    ensures Fires(Rules[4], query) <==> Text.Contains(query, "bachelor")
    ensures Fires(Rules[5], query) <==> Text.Contains(query, "master")
  {
    Unroll6(Rules, query);
    SingleTrigger(Rules[1], query);
    SingleTrigger(Rules[2], query);
    SingleTrigger(Rules[3], query);
    SingleTrigger(Rules[4], query);
    SingleTrigger(Rules[5], query);
    TwoTriggers(Rules[0], query);
  }

  lemma TwoTriggers(rule: Rule, query: string)
    requires |rule.triggers| == 2
    ensures Fires(rule, query) <==> Text.Contains(query, rule.triggers[0]) || Text.Contains(query, rule.triggers[1])
  {
    assert rule.triggers[1..][0] == rule.triggers[1];
    SingleTrigger(Rule(rule.triggers[1..], rule.filter), query);
  }

  lemma Unroll6(rules: seq<Rule>, query: string)
    requires |rules| == 6
    ensures Conditions(rules, query) ==
      [NotRevoked] + Step(rules[0], query) + Step(rules[1], query) + Step(rules[2], query)
      + Step(rules[3], query) + Step(rules[4], query) + Step(rules[5], query)
  {
    assert rules[..1][..0] == [];
    assert Conditions(rules[..1], query) == [NotRevoked] + Step(rules[0], query);
    assert rules[..2][..1] == rules[..1];
    assert Conditions(rules[..2], query) == Conditions(rules[..1], query) + Step(rules[1], query);
    assert rules[..3][..2] == rules[..2];
    assert Conditions(rules[..3], query) == Conditions(rules[..2], query) + Step(rules[2], query);
    assert rules[..4][..3] == rules[..3];
    assert Conditions(rules[..4], query) == Conditions(rules[..3], query) + Step(rules[3], query);
    assert rules[..5][..4] == rules[..4];
    assert Conditions(rules[..5], query) == Conditions(rules[..4], query) + Step(rules[4], query);
    assert rules[..5] == rules[..|rules| - 1];
  }

  lemma SingleTrigger(rule: Rule, query: string)
    requires |rule.triggers| == 1
    ensures Fires(rule, query) <==> Text.Contains(query, rule.triggers[0])
  {
    assert rule.triggers[1..] == [];
    assert !ContainsAny(query, rule.triggers[1..]);
  }

  function ColumnValue(row: Row, c: Column): string {
    match c
    case Major => row.major
    case UniversityName => row.universityName
    case DegreeType => row.degreeType
  }

  /** A row meets a condition; `ILIKE '%w%'` is a case-insensitive substring test. */
  predicate Holds(row: Row, f: Filter) {
    match f
    case NotRevoked => !row.isRevoked
    case ILike(c, w) => Text.Contains(Text.ToLower(ColumnValue(row, c)), Text.ToLower(w))
  }

  /** A row meets every condition: the query's conditions are combined with AND. */
  predicate Satisfies(row: Row, filters: seq<Filter>) {
    forall f :: f in filters ==> Holds(row, f)
  }

  /** The rows the database returns for a conjunction of conditions, in table order. */
  function Select(table: Table, filters: seq<Filter>): (r: Table)
    ensures forall row :: row in r <==> row in table && Satisfies(row, filters)
    ensures |r| <= |table|
  {
    if table == [] then []
    else (if Satisfies(table[0], filters) then [table[0]] else []) + Select(table[1..], filters)
  }

  /**
   * The in-memory `filter(c => parseFloat(c.gpa) >= minGpa)`. `atLeast(g, t)`
   * stands for `parseFloat(g) >= parseFloat(t)`.
   */
  function KeepAtLeast(rows: Table, token: string, atLeast: (string, string) -> bool): (r: Table)
    ensures forall row :: row in r <==> row in rows && atLeast(row.gpa, token)
    ensures |r| <= |rows|
  {
    if rows == [] then []
    else (if atLeast(rows[0].gpa, token) then [rows[0]] else []) + KeepAtLeast(rows[1..], token, atLeast)
  }

  // ---------------------------------------------------------------------------
  // The pattern /gpa\s*[><=]+\s*(\d+\.?\d*)/ and its first capture group.
  // ---------------------------------------------------------------------------

  predicate IsComparison(c: char) {
    c == '>' || c == '<' || c == '='
  }

  /** The length of the longest prefix of `s` whose characters all satisfy `p`. */
  function Span(s: string, p: char -> bool): (n: nat)
    ensures n <= |s|
    ensures forall k :: 0 <= k < n ==> p(s[k])
    ensures n < |s| ==> !p(s[n])
  {
    if s == [] || !p(s[0]) then 0 else 1 + Span(s[1..], p)
  }

  /** The characters a span counts from position `i` on all belong to its class. */
  lemma SpanFrom(s: string, i: nat, p: char -> bool)
    requires i <= |s|
    ensures i + Span(s[i..], p) <= |s|
    ensures forall k :: i <= k < i + Span(s[i..], p) ==> p(s[k])
    ensures i + Span(s[i..], p) < |s| ==> !p(s[i + Span(s[i..], p)])
  {
    forall k | i <= k < i + Span(s[i..], p)
      ensures p(s[k])
    {
      assert s[k] == s[i..][k - i];
    }
    var n := Span(s[i..], p);
    if i + n < |s| {
      assert s[i + n] == s[i..][n];
    }
  }

  /** Where the run of `p`-characters starting at position `i` of `s` ends. */
  function SpanEnd(s: string, i: nat, p: char -> bool): (j: nat)
    requires i <= |s|
    ensures i <= j <= |s|
    ensures forall k :: i <= k < j ==> p(s[k])
    ensures j < |s| ==> !p(s[j])
  {
    SpanFrom(s, i, p);
    i + Span(s[i..], p)
  }

  /** The greedy match of `\d+\.?\d*` at the start of `s`. */
  function NumberAt(s: string): Option<string> {
    var a := Span(s, Text.IsDigit);
    if a == 0 then None
    else if a < |s| && s[a] == '.' then Some(s[..a + 1 + Span(s[a + 1..], Text.IsDigit)])
    else Some(s[..a])
  }

  /**
   * The capture of the pattern when it matches at the start of `s`. The parts
   * of the pattern match disjoint classes of characters, so greedy matching
   * never backtracks and one pass decides.
   */
  function GpaAt(s: string): Option<string> {
    if !Text.StartsWith(s, "gpa") then None
    else
      var a := SpanEnd(s, 3, Text.IsJsWhitespace);
      var b := SpanEnd(s, a, IsComparison);
      if a == b then None
      else NumberAt(s[SpanEnd(s, b, Text.IsJsWhitespace)..])
  }

  /** The result of `at` at the leftmost position of `s` where it gives one. */
  function Leftmost(s: string, at: string -> Option<string>): Option<string>
    decreases |s|
  {
    if at(s).Some? then at(s)
    else if s == [] then None
    else Leftmost(s[1..], at)
  }

  /** `query.match(...)`: the capture of the leftmost match, if any. */
  function GpaToken(query: string): Option<string> {
    Leftmost(query, GpaAt)
  }

  /** The results `handleSearch` shows for the lower-cased query `query`. */
  function SearchResults(table: Table, query: string, atLeast: (string, string) -> bool): Table {
    var rows := Select(table, QueryFilters(query));
    match GpaToken(query)
    case None => rows
    case Some(t) => KeepAtLeast(rows, t, atLeast)
  }

  /**
   * The body of the `try` block up to `setCandidates`: build the database
   * query, run it, and apply the GPA threshold in memory when the query
   * carries one.
   */
  method RunSearch(table: Table, query: string, atLeast: (string, string) -> bool) returns (filtered: Table)
    ensures filtered == SearchResults(table, query, atLeast)
  {
    var token := GpaToken(query);
    var filters := BuildFilters(query);
    filtered := Select(table, filters);
    if token.Some? {
      filtered := KeepAtLeast(filtered, token.value, atLeast);
    }
  }

  /** The toast a press of "Search" ends with. */
  datatype SearchNotice = EmptyQuery | SearchFailed | NoResults | SearchComplete(count: nat)

  class CandidateSearch {
    var searchQuery: string
    var isSearching: bool
    var candidates: seq<Row>

    constructor ()
      ensures searchQuery == "" && !isSearching && candidates == []
    {
      searchQuery := "";
      isSearching := false;
      candidates := [];
    }

    /** The search box's `onChange`. */
    method SetQuery(text: string)
      modifies this
      ensures searchQuery == text
      ensures isSearching == old(isSearching) && candidates == old(candidates)
    {
      searchQuery := text;
    }

    /**
     * `handleSearch`. `table` is the registry, `queryFails` whether the
     * database call reports an error, and `atLeast` the GPA comparison.
     */
    method HandleSearch(table: Table, queryFails: bool, atLeast: (string, string) -> bool)
      returns (notice: SearchNotice)
      modifies this
      ensures searchQuery == old(searchQuery)
      ensures Text.IsBlank(searchQuery) ==>
        notice == EmptyQuery && isSearching == old(isSearching) && candidates == old(candidates)
      ensures !Text.IsBlank(searchQuery) ==> !isSearching
      ensures !Text.IsBlank(searchQuery) && queryFails ==>
        notice == SearchFailed && candidates == old(candidates)
      ensures !Text.IsBlank(searchQuery) && !queryFails ==>
        && candidates == SearchResults(table, Text.ToLower(searchQuery), atLeast)
        && notice == (if candidates == [] then NoResults else SearchComplete(|candidates|))
    {
      if Text.IsBlank(searchQuery) {
        return EmptyQuery;
      }
      isSearching := true;
      var query := Text.ToLower(searchQuery);
      if queryFails {
        notice := SearchFailed;
      } else {
        var filtered := RunSearch(table, query, atLeast);
        candidates := filtered;
        if filtered == [] {
          notice := NoResults;
        } else {
          notice := SearchComplete(|filtered|);
        }
      }
      isSearching := false;
    }

    /** `handleClear` */
    method HandleClear()
      modifies this
      ensures searchQuery == "" && candidates == []
      ensures isSearching == old(isSearching)
    {
      searchQuery := "";
      candidates := [];
    }
  }

  // ---------------------------------------------------------------------------
  // Properties of the search.
  // ---------------------------------------------------------------------------

  /**
   * A row is shown exactly when it is in the table, is not revoked, meets the
   * filter of every rule the query fires, and, when the query carries a GPA
   * phrase, passes the threshold.
   */
  lemma SearchIff(table: Table, query: string, atLeast: (string, string) -> bool, row: Row)
    ensures row in SearchResults(table, query, atLeast) <==>
      && row in table
      && !row.isRevoked
      && (forall i :: 0 <= i < |Rules| && Fires(Rules[i], query) ==> Holds(row, Rules[i].filter))
      && (GpaToken(query).Some? ==> atLeast(row.gpa, GpaToken(query).value))
  {
    var fs := QueryFilters(query);
    ConditionsIff(Rules, query, NotRevoked);
    if (forall i :: 0 <= i < |Rules| && Fires(Rules[i], query) ==> Holds(row, Rules[i].filter)) && !row.isRevoked {
      forall f | f in fs
        ensures Holds(row, f)
      {
        if f != NotRevoked {
          ConditionsIff(Rules, query, f);
        }
      }
    }
    if Satisfies(row, fs) {
      forall i | 0 <= i < |Rules| && Fires(Rules[i], query)
        ensures Holds(row, Rules[i].filter)
      {
        ConditionsIff(Rules, query, Rules[i].filter);
      }
    }
  }

  /** No search ever shows a revoked credential. */
  lemma NeverRevoked(table: Table, query: string, atLeast: (string, string) -> bool, row: Row)
    requires row in SearchResults(table, query, atLeast)
    ensures !row.isRevoked && row in table
  {
    SearchIff(table, query, atLeast, row);
  }

  /** Without a GPA phrase no GPA threshold is applied. */
  lemma NoGpaPhraseNoThreshold(table: Table, query: string, atLeast: (string, string) -> bool)
    requires GpaToken(query).None?
    ensures SearchResults(table, query, atLeast) == Select(table, QueryFilters(query))
  {
  }

  /** A leftmost result is a result at some position, and no earlier position gives one. */
  lemma {:induction false} LeftmostFound(s: string, at: string -> Option<string>)
    requires Leftmost(s, at).Some?
    ensures exists i ::
      && 0 <= i <= |s|
      && at(s[i..]) == Leftmost(s, at)
      && forall j :: 0 <= j < i ==> at(s[j..]).None?
    decreases |s|
  {
    if at(s).Some? {
      assert s[0..] == s;
    } else {
      LeftmostFound(s[1..], at);
      var i :|
        && 0 <= i <= |s[1..]|
        && at(s[1..][i..]) == Leftmost(s, at)
        && forall j :: 0 <= j < i ==> at(s[1..][j..]).None?;
      assert s[i + 1..] == s[1..][i..];
      forall j | 0 <= j < i + 1
        ensures at(s[j..]).None?
      {
        if j > 0 {
          assert s[j..] == s[1..][j - 1..];
        } else {
          assert s[0..] == s;
        }
      }
    }
  }

  /** There is no leftmost result exactly when no position gives one. */
  lemma {:induction false} LeftmostNone(s: string, at: string -> Option<string>)
    ensures Leftmost(s, at).None? <==> forall i :: 0 <= i <= |s| ==> at(s[i..]).None?
    decreases |s|
  {
    assert s[0..] == s;
    if at(s).None? && s != [] {
      LeftmostNone(s[1..], at);
      forall i | 1 <= i <= |s|
        ensures s[i..] == s[1..][i - 1..]
      {
      }
    }
  }

  /** The capture comes from the leftmost position where the pattern matches. */
  lemma GpaTokenLeftmost(query: string)
    requires GpaToken(query).Some?
    ensures exists i ::
      && 0 <= i <= |query|
      && GpaAt(query[i..]) == GpaToken(query)
      && forall j :: 0 <= j < i ==> GpaAt(query[j..]).None?
  {
    LeftmostFound(query, GpaAt);
  }

  /** There is no capture exactly when the pattern matches at no position. */
  lemma GpaTokenNone(query: string)
    ensures GpaToken(query).None? <==> forall i :: 0 <= i <= |query| ==> GpaAt(query[i..]).None?
  {
    LeftmostNone(query, GpaAt);
  }

  /** A query without the letters "gpa" carries no GPA phrase. */
  lemma NoGpaWithoutKeyword(query: string)
    requires !Text.Contains(query, "gpa")
    ensures GpaToken(query).None?
  {
    forall i | 0 <= i <= |query|
      ensures GpaAt(query[i..]).None?
    {
      if Text.StartsWith(query[i..], "gpa") {
        assert Text.OccursAt(query, "gpa", i);
        Text.ContainsAt(query, "gpa", i);
      }
    }
    GpaTokenNone(query);
  }

  /** What `NumberAt` captures is a number. */
  lemma NumberAtIsNumber(s: string)
    requires NumberAt(s).Some?
    ensures IsNumber(NumberAt(s).value)
  {
    var a := Span(s, Text.IsDigit);
    if a < |s| && s[a] == '.' {
      var b := Span(s[a + 1..], Text.IsDigit);
      assert forall k :: a < k < a + 1 + b ==> s[k] == s[a + 1..][k - a - 1];
    }
  }

  /** Digits, then at most one point followed by digits: the language of `\d+\.?\d*`. */
  predicate IsNumber(t: string) {
    && t != [] && Text.IsDigit(t[0])
    && (forall k :: 0 <= k < |t| ==> Text.IsDigit(t[k]) || t[k] == '.')
    && (forall k, m :: 0 <= k < m < |t| && t[k] == '.' ==> t[m] != '.')
  }

  /** What `NumberAt` captures is a prefix of the text it reads. */
  lemma NumberAtPrefix(s: string)
    requires NumberAt(s).Some?
    ensures Text.StartsWith(s, NumberAt(s).value)
  {
  }

  /** No number at the start of `s` is longer than the one `NumberAt` captures: the match is greedy. */
  lemma NumberAtLongest(s: string, t: string)
    requires NumberAt(s).Some? && Text.StartsWith(s, t) && IsNumber(t)
    ensures |t| <= |NumberAt(s).value|
  {
    var a := Span(s, Text.IsDigit);
    assert forall k :: 0 <= k < |t| ==> t[k] == s[k];
    if |t| > a {
      // The first non-digit of `s` lies inside `t`, so it is `t`'s one point.
      assert a < |s| && !Text.IsDigit(s[a]) && s[a] == '.';
      var b := Span(s[a + 1..], Text.IsDigit);
      if |t| > a + 1 + b {
        assert s[a + 1..][b] == t[a + 1 + b];
        assert t[a] == '.' && t[a + 1 + b] != '.';
      }
    }
  }

  /**
   * The pattern matches at the start of `s` with capture `t`: `gpa`, white
   * space up to `a`, comparison signs from `a` to `b` (at least one), white
   * space up to `c`, and then `t`, a number.
   */
  predicate GpaMatch(s: string, a: int, b: int, c: int, t: string) {
    && Text.StartsWith(s, "gpa")
    && 3 <= a < b <= c <= |s|
    && (forall k :: 3 <= k < a ==> Text.IsJsWhitespace(s[k]))
    && (forall k :: a <= k < b ==> IsComparison(s[k]))
    && (forall k :: b <= k < c ==> Text.IsJsWhitespace(s[k]))
    && Text.StartsWith(s[c..], t)
    && IsNumber(t)
  }

  /** A capture comes with a match of the whole pattern at the start of the text. */
  lemma GpaAtMatches(s: string)
    requires GpaAt(s).Some?
    ensures exists a, b, c :: GpaMatch(s, a, b, c, GpaAt(s).value)
  {
    var a := SpanEnd(s, 3, Text.IsJsWhitespace);
    var b := SpanEnd(s, a, IsComparison);
    var c := SpanEnd(s, b, Text.IsJsWhitespace);
    NumberAtIsNumber(s[c..]);
    NumberAtPrefix(s[c..]);
    assert GpaMatch(s, a, b, c, GpaAt(s).value);
  }

  /** A run of `p`-characters from `i` to `j` that `p` does not continue is the span from `i`. */
  lemma SpanEndIs(s: string, i: nat, j: nat, p: char -> bool)
    requires i <= j <= |s|
    requires forall k :: i <= k < j ==> p(s[k])
    requires j < |s| ==> !p(s[j])
    ensures SpanEnd(s, i, p) == j
  {
  }

  /**
   * Wherever the pattern matches at the start of `s`, `GpaAt` captures
   * something, and it reads the number from the same position.
   */
  lemma MatchGpaAt(s: string, a: int, b: int, c: int, t: string)
    requires GpaMatch(s, a, b, c, t)
    ensures GpaAt(s).Some?
    ensures GpaAt(s) == NumberAt(s[c..])
  {
    assert !Text.IsJsWhitespace(s[a]);
    SpanEndIs(s, 3, a, Text.IsJsWhitespace);
    assert c < |s| && s[c] == t[0];
    assert b < |s| ==> !IsComparison(s[b]);
    SpanEndIs(s, a, b, IsComparison);
    SpanEndIs(s, b, c, Text.IsJsWhitespace);
    assert Text.IsDigit(s[c..][0]);
  }

  /** `GpaAt` captures exactly when the pattern matches at the start of `s`. */
  lemma GpaAtIff(s: string)
    ensures GpaAt(s).Some? <==> exists a, b, c, t :: GpaMatch(s, a, b, c, t)
  {
    if GpaAt(s).Some? {
      GpaAtMatches(s);
    }
    if exists a, b, c, t :: GpaMatch(s, a, b, c, t) {
      var a, b, c, t :| GpaMatch(s, a, b, c, t);
      MatchGpaAt(s, a, b, c, t);
    }
  }

  /** Among all numbers the pattern could end with, `GpaAt` captures a longest one. */
  lemma GpaAtLongest(s: string, a: int, b: int, c: int, t: string)
    requires GpaMatch(s, a, b, c, t)
    ensures GpaAt(s).Some? && |t| <= |GpaAt(s).value|
  {
    MatchGpaAt(s, a, b, c, t);
    NumberAtLongest(s[c..], t);
  }

  /** A capture outdoes every number that completes a match. */
  lemma GpaAtOutdoes(s: string)
    requires GpaAt(s).Some?
    ensures forall a, b, c, u :: GpaMatch(s, a, b, c, u) ==> |u| <= |GpaAt(s).value|
  {
    forall a, b, c, u | GpaMatch(s, a, b, c, u)
      ensures |u| <= |GpaAt(s).value|
    {
      GpaAtLongest(s, a, b, c, u);
    }
  }

  /** A number that completes a match and is as long as the capture is the capture. */
  lemma GpaAtOfLength(s: string, a: int, b: int, c: int, t: string)
    requires GpaMatch(s, a, b, c, t) && GpaAt(s).Some? && |GpaAt(s).value| == |t|
    ensures GpaAt(s) == Some(t)
  {
    MatchGpaAt(s, a, b, c, t);
    NumberAtPrefix(s[c..]);
    assert t == s[c..][..|t|];
  }

  /** The capture is exactly the number that completes a match and is not outdone by a longer one. */
  lemma GpaAtValueIff(s: string, t: string)
    ensures GpaAt(s) == Some(t) <==>
      && (exists a, b, c :: GpaMatch(s, a, b, c, t))
      && (forall a, b, c, u :: GpaMatch(s, a, b, c, u) ==> |u| <= |t|)
  {
    if GpaAt(s) == Some(t) {
      GpaAtMatches(s);
      GpaAtOutdoes(s);
    }
    if (exists a, b, c :: GpaMatch(s, a, b, c, t)) && (forall a, b, c, u :: GpaMatch(s, a, b, c, u) ==> |u| <= |t|) {
      var a, b, c :| GpaMatch(s, a, b, c, t);
      GpaAtLongest(s, a, b, c, t);
      GpaAtMatches(s);
      var a', b', c' :| GpaMatch(s, a', b', c', GpaAt(s).value);
      assert |GpaAt(s).value| <= |t|;
      GpaAtOfLength(s, a, b, c, t);
    }
  }

  /** The capture is a number. */
  lemma GpaTokenIsNumber(query: string)
    requires GpaToken(query).Some?
    ensures IsNumber(GpaToken(query).value)
  {
    GpaTokenLeftmost(query);
    var i :| 0 <= i <= |query| && GpaAt(query[i..]) == GpaToken(query);
    GpaAtMatches(query[i..]);
  }

  /** Lower-casing is pointwise, so an occurrence of `t` in `s` is an occurrence of its lower case. */
  lemma LowerOccurs(s: string, t: string, i: nat)
    requires Text.OccursAt(s, t, i)
    ensures Text.OccursAt(Text.ToLower(s), Text.ToLower(t), i)
  {
    var ls := Text.ToLower(s);
    forall k | 0 <= k < |t|
      ensures ls[i..i + |t|][k] == Text.ToLower(t)[k]
    {
      assert s[i + k] == t[k];
    }
  }

  /**
   * A keyword typed in any mix of upper and lower case fires its rule, since
   * the rules are matched against the lower-cased query.
   */
  lemma AnyCaseFires(query: string, typed: string, i: nat, r: nat, k: nat)
    requires Text.OccursAt(query, typed, i)
    requires r < |Rules| && k < |Rules[r].triggers| && Text.ToLower(typed) == Rules[r].triggers[k]
    ensures Fires(Rules[r], Text.ToLower(query))
    ensures Rules[r].filter in QueryFilters(Text.ToLower(query))
  {
    LowerOccurs(query, typed, i);
    Text.ContainsAt(Text.ToLower(query), Text.ToLower(typed), i);
    ConditionsIff(Rules, Text.ToLower(query), Rules[r].filter);
  }

  /** "physics" contains "cs", so it brings in the computer-major filter. */
  lemma PhysicsFiresComputer()
    ensures ILike(Major, "computer") in QueryFilters("physics")
  {
    assert Text.OccursAt("physics", "cs", 5);
    Text.ContainsAt("physics", "cs", 5);
    TwoTriggers(Rules[0], "physics");
    ConditionsIff(Rules, "physics", ILike(Major, "computer"));
  }

  /** "submit" contains "mit", so it brings in the MIT filter. */
  lemma SubmitFiresMit()
    ensures ILike(UniversityName, "mit") in QueryFilters("submit")
  {
    assert Text.OccursAt("submit", "mit", 3);
    Text.ContainsAt("submit", "mit", 3);
    SingleTrigger(Rules[3], "submit");
    ConditionsIff(Rules, "submit", ILike(UniversityName, "mit"));
  }
}
