/** The audit-log routes: `GET /v1/logs` reads its paging parameters with JavaScript
    `parseInt`, builds a parameterised WHERE clause from the optional filters and pages with
    LIMIT/OFFSET placeholders; `GET /v1/logs/stats` folds the per-result counts into a map. */
module LogsRoutes {
  import opened Wrappers
  import opened Text
  import opened Types
  import opened SqlParams

  // ---------------------------------------------------------------- parseInt

  /** The white space `parseInt` skips before the number (the ASCII part of it). */
  predicate IsSpace(c: char)
  {
    c == ' ' || c == '\t' || c == '\n' || c == '\r' || c == '\U{000B}' || c == '\U{000C}'
  }

  function TrimStart(s: string): (r: string)
    ensures |r| <= |s| && r == s[|s| - |r|..]
    ensures r == [] || !IsSpace(r[0])
  {
    if s != [] && IsSpace(s[0]) then TrimStart(s[1..]) else s
  }

  /** The longest run of `base` digits at the start of `s`. */
  function DigitPrefix(s: string, base: nat): (r: string)
    requires base == 10 || base == 16
    ensures IsDigits(r, base) && r <= s
    ensures |r| < |s| ==> DigitValue(s[|r|], base).None?
  {
    if s != [] && DigitValue(s[0], base).Some? then [s[0]] + DigitPrefix(s[1..], base) else []
  }

  /** The digits after the sign: hexadecimal after a `0x`/`0X` prefix, decimal otherwise;
      `None` when no digit follows. */
  function ParseUnsigned(u: string): (r: Option<nat>)
  {
    var hex := |u| >= 2 && u[0] == '0' && (u[1] == 'x' || u[1] == 'X');
    var base := if hex then 16 else 10;
    var digits := DigitPrefix(if hex then u[2..] else u, base);
    if digits == [] then None else Some(DigitsValue(digits, base))
  }

  /** One optional sign, then the digits. */
  function Signed(t: string): (r: Option<int>)
  {
    var unsigned := if t != [] && (t[0] == '-' || t[0] == '+') then t[1..] else t;
    match ParseUnsigned(unsigned)
    case None => None
    case Some(n) => if t != [] && t[0] == '-' then Some(-(n as int)) else Some(n)
  }

  /** `parseInt(text)` without a radix, `None` standing for `NaN` (also for an absent
      parameter, which `parseInt` reads as the text "undefined"): skip leading white space,
      take one optional sign, then read the digits. */
  function ParseInt(text: Option<string>): (r: Option<int>)
    ensures text.None? ==> r.None?
  {
    if text.None? then None else Signed(TrimStart(text.value))
  }

  lemma SignedPlain(t: string, n: nat)
    requires t != [] && '0' <= t[0] <= '9' && ParseUnsigned(t) == Some(n)
    ensures Signed(t) == Some(n)
  {
  }

  lemma SignedMinus(t: string, n: nat)
    requires t != [] && t[0] == '-' && ParseUnsigned(t[1..]) == Some(n)
    ensures Signed(t) == Some(-(n as int))
  {
  }

  lemma TrimStartStops(s: string)
    requires s == [] || !IsSpace(s[0])
    ensures TrimStart(s) == s
  {
  }

  /** A run of digits followed by anything that is not a digit reads as that run. */
  lemma {:induction false} DigitPrefixStops(d: string, rest: string, base: nat)
    requires base == 10 || base == 16
    requires IsDigits(d, base)
    requires rest == [] || DigitValue(rest[0], base).None?
    ensures DigitPrefix(d + rest, base) == d
  {
    if d != [] {
      assert (d + rest)[1..] == d[1..] + rest;
      DigitPrefixStops(d[1..], rest, base);
    } else {
      assert d + rest == rest;
    }
  }

  /** Text that ends a decimal number without turning a lone `0` into a `0x` prefix. */
  predicate EndsNumber(rest: string)
  {
    rest == [] || (DigitValue(rest[0], 10).None? && rest[0] != 'x' && rest[0] != 'X')
  }

  /** The decimal text of a natural number reads back as that number, whatever non-digit text
      follows it. */
  lemma ParseUnsignedFormat(n: nat, rest: string)
    requires EndsNumber(rest)
    ensures ParseUnsigned(FormatNat(n, 10) + rest) == Some(n)
  {
    var s := FormatNat(n, 10);
    var u := s + rest;
    ParseFormat(n, 10);
    assert DigitsValue(s, 10) == n;
    if |s| >= 2 {
      assert u[0] == s[0] != '0';
    } else if rest != [] {
      assert u[1] == rest[0];
    }
    assert !(|u| >= 2 && u[0] == '0' && (u[1] == 'x' || u[1] == 'X'));
    DigitPrefixStops(s, rest, 10);
  }

  /** `parseInt` reads back the decimal text of any natural number, and stops before a
      trailing non-digit. */
  lemma ParseIntFormat(n: nat, rest: string)
    requires EndsNumber(rest)
    ensures ParseInt(Some(FormatNat(n, 10) + rest)) == Some(n)
  {
    var s := FormatNat(n, 10);
    var u := s + rest;
    assert DigitValue(s[0], 10).Some?;
    assert u[0] == s[0];
    TrimStartStops(u);
    ParseUnsignedFormat(n, rest);
    SignedPlain(u, n);
  }

  lemma MinusText(u: string, n: nat)
    requires ParseUnsigned(u) == Some(n)
    ensures ParseInt(Some("-" + u)) == Some(-(n as int))
  {
    var t := "-" + u;
    assert t[0] == '-' && t[1..] == u;
    TrimStartStops(t);
    SignedMinus(t, n);
  }

  /** ... and, after a minus sign, the negative number. */
  lemma ParseIntNegative(n: nat, rest: string)
    requires EndsNumber(rest)
    ensures ParseInt(Some("-" + (FormatNat(n, 10) + rest))) == Some(-(n as int))
  {
    ParseUnsignedFormat(n, rest);
    MinusText(FormatNat(n, 10) + rest, n);
  }

  // ---------------------------------------------------------------- paging

  /** `parseInt(page) || 1`: `NaN` and 0 fall back to 1. */
  function Page(page: Option<string>): (r: int)
    ensures r != 0
  {
    match ParseInt(page)
    case None => 1
    case Some(n) => if n == 0 then 1 else n
  }

  /** `Math.min(parseInt(perPage) || 50, 100)` */
  function PerPage(perPage: Option<string>): (r: int)
    ensures r != 0 && r <= 100
  {
    var n := match ParseInt(perPage) case None => 50 case Some(v) => if v == 0 then 50 else v;
    if n < 100 then n else 100
  }

  /** `(page - 1) * perPage`: the rows that come before the page. */
  function Offset(page: int, perPage: int): int
  {
    (page - 1) * perPage
  }

  /** The first page starts at row 0, and each page starts `perPage` rows after the previous. */
  lemma OffsetSteps(page: int, perPage: int)
    ensures Offset(1, perPage) == 0
    ensures Offset(page + 1, perPage) == Offset(page, perPage) + perPage
  {
  }

  /** `Math.ceil(total / perPage)` for a non-zero `perPage`. */
  function TotalPages(total: nat, perPage: int): int
    requires perPage != 0
  {
    if perPage > 0 then (total + perPage - 1) / perPage else -(total / -perPage)
  }

  /** `TotalPages` is the ceiling of the exact quotient: the least integer not below
      `total / perPage`, for a page size of either sign. */
  lemma TotalPagesIsCeiling(total: nat, perPage: int)
    requires perPage != 0
    ensures (TotalPages(total, perPage) - 1) as real < total as real / perPage as real
    ensures total as real / perPage as real <= TotalPages(total, perPage) as real
  {
    var q := TotalPages(total, perPage);
    var x := total as real / perPage as real;
    if perPage > 0 {
      assert q * perPage <= total + perPage - 1 < (q + 1) * perPage;
      assert (q - 1) * perPage < total <= q * perPage;
      assert x * perPage as real == total as real;
    } else {
      var p := -perPage;
      var d := total / p;
      assert d * p <= total < (d + 1) * p;
      assert q == -d;
      assert x * perPage as real == total as real;
    }
  }

  /** For a positive page size, `TotalPages` pages hold all `total` rows and one page fewer
      would not. */
  lemma {:induction false} TotalPagesHoldAll(total: nat, perPage: int)
    requires perPage > 0
    ensures TotalPages(total, perPage) >= 0
    ensures TotalPages(total, perPage) * perPage >= total
    ensures TotalPages(total, perPage) == 0 || (TotalPages(total, perPage) - 1) * perPage < total
  {
    var q := TotalPages(total, perPage);
    assert q * perPage <= total + perPage - 1 < (q + 1) * perPage;
  }

  /** Absent paging parameters mean page 1 of 50 rows. */
  lemma PagingDefaults()
    ensures Page(None) == 1 && PerPage(None) == 50
  {
  }

  /** A page given in decimal is taken as written (0 meaning 1), whatever non-digit text
      follows; a page size above 100 is cut to 100. */
  lemma DecimalPaging(n: nat, rest: string)
    requires EndsNumber(rest)
    ensures Page(Some(FormatNat(n, 10) + rest)) == if n == 0 then 1 else n
    ensures PerPage(Some(FormatNat(n, 10) + rest)) == if n == 0 then 50 else if n < 100 then n else 100
  {
    ParseIntFormat(n, rest);
    PagingReads(Some(FormatNat(n, 10) + rest), n);
  }

  /** Paging from a parameter `parseInt` reads as `v`. */
  lemma PagingReads(text: Option<string>, v: int)
    requires ParseInt(text) == Some(v)
    ensures Page(text) == if v == 0 then 1 else v
    ensures PerPage(text) == if v == 0 then 50 else if v < 100 then v else 100
  {
  }

  /** A negative page size is not clamped from below: it reaches the query, and the offset
      runs backwards. */
  lemma NegativePageSize(n: nat)
    requires n > 0
    ensures PerPage(Some("-" + FormatNat(n, 10))) == -(n as int)
    ensures Offset(2, PerPage(Some("-" + FormatNat(n, 10)))) < 0
  {
    ParseIntNegative(n, "");
    assert FormatNat(n, 10) + "" == FormatNat(n, 10);
    PagingReads(Some("-" + FormatNat(n, 10)), -(n as int));
  }

  // ---------------------------------------------------------------- the WHERE clause

  /** A bound value of a query. `Date` is `new Date(text)`; date parsing is not modelled. */
  datatype SqlValue = Text(text: string) | Date(source: string) | Number(n: int)

  /** The optional query filters. */
  datatype LogFilter = LogFilter(
    result: Option<string>,
    licenseKey: Option<string>,
    startDate: Option<string>,
    endDate: Option<string>)

  /** One filter that is in force: the comparison it makes and the value it binds. */
  type Condition = Clause<SqlValue>

  const ResultTest: string := "result ="
  const KeyTest: string := "license_key ="
  const StartTest: string := "created_at >="
  const EndTest: string := "created_at <="

  /** The filters in force, in the fixed order result, license key, start date, end date; a
      filter is in force when its text is present and not empty. */
  function Active(f: LogFilter): (r: seq<Condition>)
    ensures |r| <= 4
  {
    When(Truthy(f.result), Clause(ResultTest, Text(f.result.GetOr(""))))
    + When(Truthy(f.licenseKey), Clause(KeyTest, Text(f.licenseKey.GetOr(""))))
    + When(Truthy(f.startDate), Clause(StartTest, Date(f.startDate.GetOr(""))))
    + When(Truthy(f.endDate), Clause(EndTest, Date(f.endDate.GetOr(""))))
  }

  /** The filter-building part of `GET /v1/logs`: each filter in force pushes its condition,
      numbered by the running `paramCount`, and its value. */
  method BuildConditions(f: LogFilter) returns (conditions: seq<string>, values: seq<SqlValue>, paramCount: nat)
    ensures conditions == Numbering(Active(f)) && values == ValuesOf(Active(f))
    ensures paramCount == |Active(f)| + 1
  {
    var result := Clause(ResultTest, Text(f.result.GetOr("")));
    var key := Clause(KeyTest, Text(f.licenseKey.GetOr("")));
    var start := Clause(StartTest, Date(f.startDate.GetOr("")));
    var end := Clause(EndTest, Date(f.endDate.GetOr("")));
    conditions, values, paramCount := [], [], 1;
    conditions, values, paramCount := PushWhen(conditions, values, paramCount, Truthy(f.result), result, []);
    conditions, values, paramCount := PushWhen(conditions, values, paramCount, Truthy(f.licenseKey), key,
                                               When(Truthy(f.result), result));
    conditions, values, paramCount := PushWhen(conditions, values, paramCount, Truthy(f.startDate), start,
                                               When(Truthy(f.result), result) + When(Truthy(f.licenseKey), key));
    conditions, values, paramCount := PushWhen(conditions, values, paramCount, Truthy(f.endDate), end,
                                               When(Truthy(f.result), result) + When(Truthy(f.licenseKey), key) + When(Truthy(f.startDate), start));
  }

  /** `conditions.length > 0 ? 'WHERE ' + conditions.join(' AND ') : ''` */
  function WhereClause(conditions: seq<string>): (r: string)
    ensures conditions == [] <==> r == ""
    ensures conditions != [] ==> r == "WHERE " + Join(conditions, " AND ")
  {
    if |conditions| > 0 then "WHERE " + Join(conditions, " AND ") else ""
  }

  const CountSelect: string := "SELECT COUNT(*) FROM auth_logs "
  const PageSelect: string := "SELECT * FROM auth_logs "
  const PageOrder: string := " ORDER BY created_at DESC LIMIT "
  const OffsetWord: string := " OFFSET "

  /** The two statements of `GET /v1/logs`. */
  datatype LogQueries = LogQueries(
    countSql: string,
    countValues: seq<SqlValue>,
    pageSql: string,
    pageValues: seq<SqlValue>)

  /** The statements for a request: the count runs with the filter values; the page query
      appends `perPage` and the offset, bound to the two placeholders after the filters'. */
  method BuildQueries(f: LogFilter, page: Option<string>, perPage: Option<string>) returns (q: LogQueries)
    ensures q.countValues == ValuesOf(Active(f))
    ensures q.pageValues == q.countValues + [Number(PerPage(perPage)), Number(Offset(Page(page), PerPage(perPage)))]
    ensures q.countSql == CountSelect + WhereClause(Numbering(Active(f)))
    ensures q.pageSql == PageSelect + WhereClause(Numbering(Active(f))) + PageOrder
                         + Placeholder(|Active(f)| + 1) + OffsetWord + Placeholder(|Active(f)| + 2)
  {
    var pageNumber := Page(page);
    var size := PerPage(perPage);
    var offset := Offset(pageNumber, size);
    var conditions, values, paramCount := BuildConditions(f);
    var whereClause := WhereClause(conditions);
    var countSql := CountSelect + whereClause;
    var countValues := values;
    values := values + [Number(size), Number(offset)];
    var limit := Placeholder(paramCount);
    paramCount := paramCount + 1;
    var offsetAt := Placeholder(paramCount);
    paramCount := paramCount + 1;
    var pageSql := PageSelect + whereClause + PageOrder + limit + OffsetWord + offsetAt;
    q := LogQueries(countSql, countValues, pageSql, values);
  }

  /** There is no WHERE clause exactly when no filter is in force. */
  lemma NoFilters(f: LogFilter)
    ensures WhereClause(Numbering(Active(f))) == "" <==>
      !Truthy(f.result) && !Truthy(f.licenseKey) && !Truthy(f.startDate) && !Truthy(f.endDate)
  {
    FilterOrder(f);
  }

  /** The filters keep their fixed order: a result filter always comes first, an end-date
      filter always last. */
  lemma FilterOrder(f: LogFilter)
    ensures Truthy(f.result) ==> Active(f)[0] == Clause(ResultTest, Text(f.result.value))
    ensures Truthy(f.endDate) ==> Active(f)[|Active(f)| - 1] == Clause(EndTest, Date(f.endDate.value))
    ensures |Active(f)| == (if Truthy(f.result) then 1 else 0) + (if Truthy(f.licenseKey) then 1 else 0)
                         + (if Truthy(f.startDate) then 1 else 0) + (if Truthy(f.endDate) then 1 else 0)
  {
  }

  // ---------------------------------------------------------------- stats

  /** One row of the per-result count, its count already read as a number. */
  datatype StatRow = StatRow(result: string, count: nat)

  /** `rows.reduce((acc, row) => { acc[row.result] = count; return acc }, {})` */
  function Tally(rows: seq<StatRow>): (m: map<string, nat>)
    ensures forall k :: k in m <==> exists i :: 0 <= i < |rows| && rows[i].result == k
  {
    if rows == [] then map[]
    else
      var last := rows[|rows| - 1];
      var m := Tally(rows[..|rows| - 1]);
      assert forall i :: 0 <= i < |rows| - 1 ==> rows[..|rows| - 1][i] == rows[i];
      m[last.result := last.count]
  }

  /** A later row with the same result overwrites an earlier one: each result maps to the
      count of the last row that carries it. */
  lemma {:induction false} LastRowWins(rows: seq<StatRow>, i: nat)
    requires i < |rows|
    requires forall j :: i < j < |rows| ==> rows[j].result != rows[i].result
    ensures rows[i].result in Tally(rows) && Tally(rows)[rows[i].result] == rows[i].count
  {
    if i < |rows| - 1 {
      var init := rows[..|rows| - 1];
      assert forall j :: i < j < |init| ==> init[j] == rows[j];
      LastRowWins(init, i);
    }
  }
}
