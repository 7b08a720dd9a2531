/** The paginated search (`search`): request page after page of the case
    search service until the page index reaches the page count the latest
    answer reported, drop every case terminated on or after its filing date,
    and collect the rest as five-field records together with the summed fee.

    The service is a sequence of responses: `responses[i]` is what the request
    for page `i` gets. A request past the end of the sequence gets no answer,
    like a request that raised. Fees are whole cents. */
module CaseSearch {
  import opened Outcomes
  import opened Calendar
  import opened Seqs
  import opened Cases

  /** One element of a page's `content`. `dateTermed` is `None` when the
      field is missing or null. */
  datatype Row = Row(
    caseNumberFull: string,
    caseTitle: string,
    dateFiled: string,
    dateTermed: Option<string>,
    caseLink: string,
    jurisdictionType: string)

  /** The parts of an answered page the search reads: `content`,
      `pageInfo.totalPages` and `receipt.searchFee`. */
  datatype Page = Page(content: seq<Row>, totalPages: int, feeCents: nat)

  datatype Response =
    | Answered(page: Page)
    | Refused(status: int)   // an answer whose status is not `ok`
    | Unreachable            // the request raised

  datatype Found = Found(cases: seq<Case>, costCents: nat)

  /** `case.get('dateTermed')` is truthy: present and not empty. */
  predicate HasTermDate(row: Row)
  {
    row.dateTermed.Some? && row.dateTermed.value != ""
  }

  /** The dates of a row that `strptime` must accept for the row to be read. */
  predicate RowDatesParse(row: Row)
  {
    && ParseDay(row.dateFiled).Some?
    && (HasTermDate(row) ==> ParseDay(row.dateTermed.value).Some?)
  }

  /** A row the search skips: terminated on or after the day it was filed. */
  predicate TerminatedAtFiling(row: Row)
  {
    && HasTermDate(row)
    && ParseDay(row.dateFiled).Some?
    && ParseDay(row.dateTermed.value).Some?
    && ParseDay(row.dateTermed.value).value >= ParseDay(row.dateFiled).value
  }

  predicate Open(row: Row)
  {
    !TerminatedAtFiling(row)
  }

  /** The record the search keeps for a row, fields in history-file order. */
  function ToCase(row: Row): Case
  {
    Case(row.caseNumberFull, row.caseTitle, row.dateFiled, row.caseLink, row.jurisdictionType)
  }

  /** The body of the loop over `content`: read the filing date, then the
      termination date if there is one, and skip the row if it was terminated
      on or after filing. `Ok(None)` is a skipped row. */
  function ReadRow(row: Row): (r: Result<Option<Case>>)
    ensures r.Ok? <==> RowDatesParse(row)
    ensures r.Err? ==> r.error.BadDate?
    ensures r.Ok? ==> (r.value.Some? <==> Open(row))
    ensures r.Ok? && r.value.Some? ==> r.value.value == ToCase(row)
  {
    var filed :- ParseDay(row.dateFiled).ToResult(BadDate(row.dateFiled));
    if HasTermDate(row) then
      var termed :- ParseDay(row.dateTermed.value).ToResult(BadDate(row.dateTermed.value));
      if termed >= filed then Ok(None) else Ok(Some(ToCase(row)))
    else Ok(Some(ToCase(row)))
  }

  /** The cases one page contributes, in the service's order; the first
      unreadable date ends the run. */
  function ReadRows(rows: seq<Row>): (r: Result<seq<Case>>)
    ensures r.Ok? <==> forall i :: 0 <= i < |rows| ==> RowDatesParse(rows[i])
    ensures r.Err? ==> r.error.BadDate?
    ensures r.Ok? ==> r.value == Map(ToCase, Filter(Open, rows))
    decreases |rows|
  {
    if rows == [] then Ok([])
    else
      var first :- ReadRow(rows[0]);
      var rest :- ReadRows(rows[1..]);
      Ok((if first.Some? then [first.value] else []) + rest)
  }

  /** A page the loop processes without stopping the run. */
  predicate PageReadable(response: Response)
  {
    response.Answered? && forall i :: 0 <= i < |response.page.content| ==> RowDatesParse(response.page.content[i])
  }

  /** Page `i` was read and reported more pages after it. */
  predicate ContinuesAfter(responses: seq<Response>, i: int)
  {
    0 <= i < |responses| && PageReadable(responses[i]) && i + 1 < responses[i].page.totalPages
  }

  /** The cases of the first `n` pages, page after page. */
  function CasesOfPages(responses: seq<Response>, n: int): seq<Case>
    requires 0 <= n <= |responses|
    requires forall i :: 0 <= i < n ==> responses[i].Answered?
  {
    if n == 0 then []
    else CasesOfPages(responses, n - 1) + Map(ToCase, Filter(Open, responses[n - 1].page.content))
  }

  /** The fees of the first `n` pages. */
  function FeesOfPages(responses: seq<Response>, n: int): nat
    requires 0 <= n <= |responses|
    requires forall i :: 0 <= i < n ==> responses[i].Answered?
  {
    if n == 0 then 0 else FeesOfPages(responses, n - 1) + responses[n - 1].page.feeCents
  }

  /** The search loop. `requested` is the number of page requests made, that
      is, the value of the page counter when the loop ends or fails.

      It requests pages 0, 1, 2, ... in turn, carries on after page `i` exactly
      when page `i` reported more than `i + 1` pages, and stops at the first
      page that did not. On success the cases are every open row of those
      pages mapped to records, page by page and in the service's order within
      a page, and the cost is the sum of their fees. A page that is refused,
      unanswered or holds an unreadable date ends the search with an error and
      no cases. */
  method Search(responses: seq<Response>) returns (r: Result<Found>, requested: nat)
    ensures requested >= 1
    ensures forall i :: 0 <= i < requested - 1 ==> ContinuesAfter(responses, i)
    ensures r.Ok? ==>
      && requested <= |responses|
      && PageReadable(responses[requested - 1])
      && requested >= responses[requested - 1].page.totalPages
      && (forall i :: 0 <= i < requested ==> responses[i].Answered?)
      && r.value.cases == CasesOfPages(responses, requested)
      && r.value.costCents == FeesOfPages(responses, requested)
    ensures r.Err? ==> requested > |responses| || !PageReadable(responses[requested - 1])
    ensures r.Err? && requested > |responses| ==> r.error == NoResponse(requested - 1)
    ensures r.Err? && requested <= |responses| && responses[requested - 1].Unreachable? ==>
      r.error == NoResponse(requested - 1)
    ensures r.Err? && requested <= |responses| && responses[requested - 1].Refused? ==>
      r.error == HttpError(requested - 1, responses[requested - 1].status)
    ensures r.Err? && requested <= |responses| && responses[requested - 1].Answered? ==>
      r.error.BadDate?
  {
    var cases: seq<Case> := [];
    var page: nat := 0;
    var totalPages := 1;
    var cost: nat := 0;
    while page < totalPages
      invariant page <= |responses|
      invariant forall i :: 0 <= i < page ==> responses[i].Answered?
      invariant page == 0 ==> totalPages == 1
      invariant page > 0 ==> totalPages == responses[page - 1].page.totalPages
      invariant forall i :: 0 <= i < page - 1 ==> ContinuesAfter(responses, i)
      invariant page > 0 ==> PageReadable(responses[page - 1])
      invariant cases == CasesOfPages(responses, page)
      invariant cost == FeesOfPages(responses, page)
      decreases |responses| - page
    {
      if page == |responses| {
        return Err(NoResponse(page)), page + 1;
      }
      var response := responses[page];
      match response {
        case Unreachable =>
          return Err(NoResponse(page)), page + 1;
        case Refused(status) =>
          return Err(HttpError(page, status)), page + 1;
        case Answered(p) =>
          cost := cost + p.feeCents;
          totalPages := p.totalPages;
          var pageCases := ReadRows(p.content);
          if pageCases.Err? {
            return Err(pageCases.error), page + 1;
          }
          cases := cases + pageCases.value;
      }
      page := page + 1;
    }
    return Ok(Found(cases, cost)), page;
  }

  /** A record comes out of a page exactly when some open row of the page
      maps to it. */
  lemma RowsMembers(rows: seq<Row>, c: Case)
    ensures c in Map(ToCase, Filter(Open, rows)) <==> exists row :: row in rows && Open(row) && ToCase(row) == c
  {
    var kept := Filter(Open, rows);
    var mapped := Map(ToCase, kept);
    FilterMembers(Open, rows);
    if c in mapped {
      var k :| 0 <= k < |mapped| && mapped[k] == c;
      assert kept[k] in rows && Open(kept[k]) && ToCase(kept[k]) == c;
    }
    if exists row :: row in rows && Open(row) && ToCase(row) == c {
      var row :| row in rows && Open(row) && ToCase(row) == c;
      var k :| 0 <= k < |kept| && kept[k] == row;
      assert mapped[k] == c;
    }
  }

  /** A record produced by some open row among the first `n` pages. */
  ghost predicate FromOpenRow(responses: seq<Response>, n: int, c: Case)
    requires 0 <= n <= |responses|
    requires forall i :: 0 <= i < n ==> responses[i].Answered?
  {
    exists i, row :: 0 <= i < n && row in responses[i].page.content && Open(row) && ToCase(row) == c
  }

  /** Nothing the search returns was terminated at filing, and every open row
      of a page it read is returned: the records of the first `n` pages are
      exactly those of their open rows. */
  lemma {:induction false} CasesOfPagesMembers(responses: seq<Response>, n: int, c: Case)
    requires 0 <= n <= |responses|
    requires forall i :: 0 <= i < n ==> responses[i].Answered?
    ensures c in CasesOfPages(responses, n) <==> FromOpenRow(responses, n, c)
    decreases n
  {
    if n > 0 {
      CasesOfPagesMembers(responses, n - 1, c);
      var rows := responses[n - 1].page.content;
      RowsMembers(rows, c);
      if FromOpenRow(responses, n, c) {
        var i, row :| 0 <= i < n && row in responses[i].page.content && Open(row) && ToCase(row) == c;
        if i < n - 1 {
          assert FromOpenRow(responses, n - 1, c);
        }
      }
      if FromOpenRow(responses, n - 1, c) {
        var i, row :| 0 <= i < n - 1 && row in responses[i].page.content && Open(row) && ToCase(row) == c;
        assert FromOpenRow(responses, n, c);
      }
      if c in Map(ToCase, Filter(Open, rows)) {
        var row :| row in rows && Open(row) && ToCase(row) == c;
        assert FromOpenRow(responses, n, c);
      }
    }
  }

  /** The example run: two pages of one open case each, ten cents a page, both
      reporting two pages. The loop reads both and stops; the run returns the
      two cases in page order and costs twenty cents. */
  lemma TwoPageExample(a: Row, b: Row)
    requires RowDatesParse(a) && Open(a) && RowDatesParse(b) && Open(b)
    ensures var responses := [Answered(Page([a], 2, 10)), Answered(Page([b], 2, 10))];
      && ContinuesAfter(responses, 0)
      && !ContinuesAfter(responses, 1)
      && CasesOfPages(responses, 2) == [ToCase(a), ToCase(b)]
      && FeesOfPages(responses, 2) == 20
  {
    var responses := [Answered(Page([a], 2, 10)), Answered(Page([b], 2, 10))];
    assert responses[0].page.content == [a] && responses[1].page.content == [b];
    assert [a][1..] == [] && [b][1..] == [];
    assert Filter(Open, [a]) == [a];
    assert Filter(Open, [b]) == [b];
    assert Map(ToCase, [a]) == [ToCase(a)];
    assert Map(ToCase, [b]) == [ToCase(b)];
    assert CasesOfPages(responses, 1) == [ToCase(a)];
    assert FeesOfPages(responses, 1) == 10;
  }
}
