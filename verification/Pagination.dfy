/** The list branch of cmd/api/routers/routers.go over one table, and the walk that follows its tokens. */
module Pagination {
  import opened Wrappers
  import opened Tokens
  import Dates
  import Lexicographic

  /** A stored resource: its row id, its creationTimestamp text and its JSON. */
  datatype Row = Row(id: int, date: string, data: string)

  datatype Cursor = Cursor(date: string, id: int)

  /** The conditions of the query other than the cursor: kind, namespace, name pattern, labels, times. */
  type Filter = Row -> bool

  /** ORDER BY date DESC, id DESC (CreationTSAndIDSorter). */
  predicate Precedes(a: Row, b: Row) {
    Lexicographic.Less(b.date, a.date) || (a.date == b.date && b.id < a.id)
  }

  /** (date, id) < (continueDate, continueId) (CreationTSAndIDFilter). */
  predicate Below(r: Row, c: Cursor) {
    Lexicographic.Less(r.date, c.date) || (r.date == c.date && r.id < c.id)
  }

  lemma PrecedesIsStrictOrder(a: Row, b: Row, c: Row)
    ensures !Precedes(a, a)
    ensures Precedes(a, b) && Precedes(b, c) ==> Precedes(a, c)
    ensures a.id != b.id ==> Precedes(a, b) || Precedes(b, a)
  {
    Lexicographic.LessIrreflexive(a.date);
    Lexicographic.LessTotal(a.date, b.date);
    if Lexicographic.Less(c.date, b.date) && Lexicographic.Less(b.date, a.date) {
      Lexicographic.LessTransitive(c.date, b.date, a.date);
    }
  }

  predicate Sorted(rows: seq<Row>) {
    forall i, j | 0 <= i < j < |rows| :: Precedes(rows[i], rows[j])
  }

  /** WHERE: the matching rows, below the cursor when there is one. */
  function Where(table: seq<Row>, filter: Filter, cursor: Option<Cursor>): (rows: seq<Row>)
    ensures forall r :: r in rows <==> r in table && filter(r) && (cursor.Some? ==> Below(r, cursor.value))
  {
    if table == [] then []
    else
      var rest := Where(table[1..], filter, cursor);
      if filter(table[0]) && (cursor.Some? ==> Below(table[0], cursor.value)) then [table[0]] + rest else rest
  }

  function Insert(r: Row, sorted: seq<Row>): (rows: seq<Row>)
    ensures forall x :: x in rows <==> x == r || x in sorted
  {
    if sorted == [] then [r]
    else if Precedes(sorted[0], r) then [sorted[0]] + Insert(r, sorted[1..])
    else [r] + sorted
  }

  /** ORDER BY. */
  function Ordered(rows: seq<Row>): (sorted: seq<Row>)
    ensures forall x :: x in sorted <==> x in rows
  {
    if rows == [] then [] else Insert(rows[0], Ordered(rows[1..]))
  }

  function Take(rows: seq<Row>, limit: nat): (taken: seq<Row>) {
    if |rows| < limit then rows else rows[..limit]
  }

  /** The rows the database returns for one query. */
  function Select(table: seq<Row>, filter: Filter, cursor: Option<Cursor>, limit: nat): seq<Row> {
    Take(Ordered(Where(table, filter, cursor)), limit)
  }

  /** Row ids are the primary key. */
  predicate DistinctIds(rows: seq<Row>) {
    forall i, j | 0 <= i < j < |rows| :: rows[i].id != rows[j].id
  }

  lemma {:induction false} WhereKeepsDistinct(table: seq<Row>, filter: Filter, cursor: Option<Cursor>)
    requires DistinctIds(table)
    ensures DistinctIds(Where(table, filter, cursor))
  {
    if table != [] {
      WhereKeepsDistinct(table[1..], filter, cursor);
      assert forall r | r in table[1..] :: r.id != table[0].id;
    }
  }

  lemma {:induction false} InsertSorted(r: Row, sorted: seq<Row>)
    requires Sorted(sorted) && forall x | x in sorted :: x.id != r.id
    ensures Sorted(Insert(r, sorted))
  {
    if sorted != [] {
      PrecedesIsStrictOrder(sorted[0], r, r);
      if Precedes(sorted[0], r) {
        InsertSorted(r, sorted[1..]);
        assert forall x | x in Insert(r, sorted[1..]) :: Precedes(sorted[0], x);
      } else {
        PrecedesIsStrictOrder(r, sorted[0], r);
        forall x | x in sorted ensures Precedes(r, x) { PrecedesIsStrictOrder(r, sorted[0], x); }
      }
    }
  }

  lemma {:induction false} OrderedIsSorted(rows: seq<Row>)
    requires DistinctIds(rows)
    ensures Sorted(Ordered(rows))
  {
    if rows != [] {
      OrderedIsSorted(rows[1..]);
      InsertSorted(rows[0], Ordered(rows[1..]));
    }
  }

  lemma HeadIsFirst(a: seq<Row>, b: seq<Row>)
    requires Sorted(a) && Sorted(b) && a != [] && b != [] && forall x :: x in a <==> x in b
    ensures a[0] == b[0]
  {
    assert a[0] in b && b[0] in a;
    PrecedesIsStrictOrder(a[0], b[0], a[0]);
  }

  lemma {:induction false} SortedIsUnique(a: seq<Row>, b: seq<Row>)
    requires Sorted(a) && Sorted(b) && forall x :: x in a <==> x in b
    ensures a == b
  {
    assert b != [] ==> b[0] in a;
    if a != [] {
      assert a[0] in b;
      HeadIsFirst(a, b);
      TailMembers(a);
      TailMembers(b);
      SortedIsUnique(a[1..], b[1..]);
      assert a == [a[0]] + a[1..] && b == [b[0]] + b[1..];
    }
  }

  lemma TailMembers(a: seq<Row>)
    requires Sorted(a) && a != []
    ensures forall x :: x in a[1..] <==> x in a && x != a[0]
  {
    PrecedesIsStrictOrder(a[0], a[0], a[0]);
  }

  /** In a sorted list, the rows below row n - 1 are those after it. */
  lemma BelowIsAfter(all: seq<Row>, n: nat, x: Row)
    requires Sorted(all) && 0 < n <= |all| && x in all
    ensures Below(x, Cursor(all[n - 1].date, all[n - 1].id)) <==> x in all[n..]
  {
    var last := all[n - 1];
    PrecedesIsStrictOrder(x, last, x);
    var i :| 0 <= i < |all| && all[i] == x;
    if i >= n {
      assert x == all[n..][i - n];
    } else {
      assert i < n - 1 ==> Precedes(x, last);
      forall k | n <= k < |all| ensures all[k] != x {
        assert Precedes(last, all[k]);
      }
    }
  }

  /** The query below row n - 1 of the full answer gives the rest of the full answer. */
  lemma RestBelowCursor(table: seq<Row>, filter: Filter, n: nat)
    requires DistinctIds(table) && 0 < n <= |Ordered(Where(table, filter, None))|
    ensures var all := Ordered(Where(table, filter, None));
            Ordered(Where(table, filter, Some(Cursor(all[n - 1].date, all[n - 1].id)))) == all[n..]
  {
    var all := Ordered(Where(table, filter, None));
    var last := all[n - 1];
    var cursor := Some(Cursor(last.date, last.id));
    var rest := Ordered(Where(table, filter, cursor));
    WhereKeepsDistinct(table, filter, None);
    OrderedIsSorted(Where(table, filter, None));
    WhereKeepsDistinct(table, filter, cursor);
    OrderedIsSorted(Where(table, filter, cursor));
    forall x ensures x in rest <==> x in all[n..] {
      if x in all {
        BelowIsAfter(all, n, x);
      }
    }
    SortedIsUnique(rest, all[n..]);
  }

  function Header(): string {
    "{\"kind\": \"List\", \"apiVersion\": \"v1\", \"items\": ["
  }

  function Footer(token: string): string {
    "], \"metadata\": {\"continue\": \"" + token + "\"}}"
  }

  function Joined(rows: seq<Row>): string {
    if rows == [] then ""
    else if |rows| == 1 then rows[0].data
    else Joined(rows[..|rows| - 1]) + "," + rows[|rows| - 1].data
  }

  function Envelope(rows: seq<Row>, token: string): string {
    Header() + Joined(rows) + Footer(token)
  }

  lemma JoinedNothing()
    ensures forall s: string :: s + Joined([]) == s
  {
  }

  lemma JoinedMore(prefix: string, rows: seq<Row>, r: Row)
    ensures rows == [] ==> prefix + r.data == prefix + Joined(rows + [r])
    ensures rows != [] ==> prefix + Joined(rows) + "," + r.data == prefix + Joined(rows + [r])
  {
    assert (rows + [r])[..|rows|] == rows;
    assert prefix + Joined(rows) + "," + r.data == prefix + (Joined(rows) + "," + r.data);
  }

  /** The streaming callback over the selected rows, and the end of the response. */
  method StreamList(selected: seq<Row>, limit: nat) returns (body: string, written: seq<Row>, token: string)
    requires limit > 0
    ensures written == Take(selected, limit)
    ensures |selected| <= limit ==> token == ""
    ensures |selected| > limit ==> token == CreateToken(selected[limit - 1].id, selected[limit - 1].date)
    ensures body == Envelope(written, token)
    ensures body == "{\"kind\": \"List\", \"apiVersion\": \"v1\", \"items\": [" + Joined(written)
                    + ("], \"metadata\": {\"continue\": \"" + token + "\"}}")
  {
    hide Header, Footer, CreateToken, Joined;
    JoinedNothing();
    var count, hasMore, headerWritten, lastWritten := 0, false, false, Row(0, "", "");
    body, written := "", [];
    while count < |selected|
      invariant 0 <= count <= |selected|
      invariant written == selected[..if count < limit then count else limit]
      invariant hasMore <==> count > limit
      invariant headerWritten <==> count > 0
      invariant body == if headerWritten then Header() + Joined(written) else ""
      invariant count > 0 ==> written != [] && lastWritten == written[|written| - 1]
    {
      var resource := selected[count];
      count := count + 1;
      if count > limit {
        hasMore := true;
      } else {
        if !headerWritten {
          body := body + Header();
          headerWritten := true;
        } else {
          body := body + ",";
        }
        body := body + resource.data;
        lastWritten := resource;
        JoinedMore(Header(), written, resource);
        written := written + [resource];
      }
    }
    if !headerWritten {
      body := body + Header();
    }
    token := if hasMore then CreateToken(lastWritten.id, lastWritten.date) else "";
    body := body + Footer(token);
    EnvelopeReads(written, token);
  }

  lemma EnvelopeReads(rows: seq<Row>, token: string)
    ensures Envelope(rows, token) ==
            "{\"kind\": \"List\", \"apiVersion\": \"v1\", \"items\": [" + Joined(rows)
            + ("], \"metadata\": {\"continue\": \"" + token + "\"}}")
  {
    hide Joined;
  }

  datatype Response = BadRequest(error: Error) | List(items: seq<Row>, token: string)

  /** The first limit of the wanted rows, newest first and the greater id first among equal dates. */
  ghost predicate FirstOf(items: seq<Row>, table: seq<Row>, wanted: Filter, limit: int) {
    && |items| <= limit
    && (forall r | r in items :: r in table && wanted(r))
    && (forall i, j | 0 <= i < j < |items| ::
          || Lexicographic.Less(items[j].date, items[i].date)
          || (items[j].date == items[i].date && items[j].id < items[i].id))
    && (forall r | r in table && wanted(r) && r !in items ::
          && |items| == limit
          && forall x | x in items :: Lexicographic.Less(r.date, x.date) || (r.date == x.date && r.id < x.id))
  }

  /** Those rows, with an empty token when no wanted row remains, and otherwise that of the last row. */
  ghost predicate IsPage(page: Response, table: seq<Row>, wanted: Filter, limit: int) {
    && page.List? && FirstOf(page.items, table, wanted, limit)
    && (page.token == if forall r | r in table && wanted(r) :: r in page.items then ""
                      else if page.items == [] then ""
                      else CreateToken(page.items[|page.items| - 1].id, page.items[|page.items| - 1].date))
  }

  /** Rows that a page leaves out come after all of it. */
  lemma LeftOutIsLater(rows: seq<Row>, limit: nat, r: Row)
    requires Sorted(rows) && limit > 0 && r in rows
    ensures var items := PageOf(rows, limit).items;
            r !in items ==> |items| == limit && forall x | x in items :: Precedes(x, r)
  {
    var items := PageOf(rows, limit).items;
    var j :| 0 <= j < |rows| && rows[j] == r;
    if j < |items| {
      assert items[j] == r;
    } else {
      forall x | x in items ensures Precedes(x, r) {
        var i :| 0 <= i < |items| && items[i] == x;
        assert rows[i] == x;
      }
    }
  }

  lemma MoreThanAPage(rows: seq<Row>, limit: nat)
    requires Sorted(rows) && limit > 0
    ensures |rows| <= limit <==> forall r | r in rows :: r in PageOf(rows, limit).items
  {
    if |rows| > limit {
      var r := rows[limit];
      assert r in rows;
      forall i | 0 <= i < limit ensures rows[i] != r {
        assert Precedes(rows[i], r);
        PrecedesIsStrictOrder(r, r, r);
      }
    }
  }

  lemma PageIsPage(table: seq<Row>, filter: Filter, cursor: Option<Cursor>, wanted: Filter, limit: nat)
    requires DistinctIds(table) && limit > 0
    requires forall r :: wanted(r) <==> filter(r) && (cursor.Some? ==> Below(r, cursor.value))
    ensures IsPage(PageOf(Ordered(Where(table, filter, cursor)), limit), table, wanted, limit)
  {
    hide CreateToken, Where, Ordered;
    var rows := Ordered(Where(table, filter, cursor));
    assert forall r :: r in rows <==> r in table && wanted(r);
    WhereKeepsDistinct(table, filter, cursor);
    OrderedIsSorted(Where(table, filter, cursor));
    forall r | r in rows && r !in PageOf(rows, limit).items
      ensures |PageOf(rows, limit).items| == limit && forall x | x in PageOf(rows, limit).items :: Precedes(x, r)
    {
      LeftOutIsLater(rows, limit, r);
    }
    MoreThanAPage(rows, limit);
    SortedPage(rows, limit, table, wanted);
  }

  lemma SortedPage(rows: seq<Row>, limit: nat, table: seq<Row>, wanted: Filter)
    requires Sorted(rows) && limit > 0 && forall r :: r in rows <==> r in table && wanted(r)
    requires var items := PageOf(rows, limit).items;
             forall r | r in rows && r !in items :: |items| == limit && forall x | x in items :: Precedes(x, r)
    requires |rows| <= limit <==> forall r | r in rows :: r in PageOf(rows, limit).items
    ensures IsPage(PageOf(rows, limit), table, wanted, limit)
  {
    hide CreateToken, FirstOf, Sorted;
    SortedFirst(rows, limit, PageOf(rows, limit).items, table, wanted);
    assert forall r | r in PageOf(rows, limit).items :: r in rows;
  }

  lemma SortedFirst(rows: seq<Row>, limit: nat, items: seq<Row>, table: seq<Row>, wanted: Filter)
    requires Sorted(rows) && forall r :: r in rows <==> r in table && wanted(r)
    requires |items| <= limit && |items| <= |rows| && items == rows[..|items|]
    requires forall r | r in rows && r !in items :: |items| == limit && forall x | x in items :: Precedes(x, r)
    ensures FirstOf(items, table, wanted, limit)
  {
    assert forall i, j | 0 <= i < j < |items| :: items[i] == rows[i] && items[j] == rows[j] && Precedes(rows[i], rows[j]);
    assert forall r | r in items :: r in rows;
  }

  /** One list request: the parameters are checked, limit + 1 rows are read, at most limit are written. */
  method GetResources(
    table: seq<Row>, filter: Filter, limitParam: Option<string>, continueToken: string, other: OtherDates)
    returns (response: Response)
    ensures response == Answer(table, filter, limitParam, continueToken, other)
    ensures response == BadRequest(BadLimit) <==>
            limitParam.Some?
            && !(ParseInt(limitParam.value).Some? && 1 <= ParseInt(limitParam.value).value <= 1000)
    ensures response == BadRequest(BadContinue) <==>
            && (limitParam.Some? ==>
                  ParseInt(limitParam.value).Some? && 1 <= ParseInt(limitParam.value).value <= 1000)
            && continueToken != "" && !Meaningful(continueToken, other)
    ensures response.List? && DistinctIds(table) && continueToken == "" ==>
              IsPage(response, table, filter, PageSize(limitParam))
    ensures response.List? && DistinctIds(table) && continueToken != "" ==>
              forall id, date :: TokenMeans(continueToken, id, date, other) ==>
                if date == "" then IsPage(response, table, filter, PageSize(limitParam))
                else IsPage(response, table, r => filter(r) && (Lexicographic.Less(r.date, date) ||
                                                                (r.date == date && r.id < ParseInt(id).value)),
                            PageSize(limitParam))
  {
    hide Checked, Where, Ordered, ParseInt, Take, PageOf, CreateToken, Envelope, Meaningful, TokenMeans, IsPage, DistinctIds;
    var params := Middleware(limitParam, continueToken, other);
    CheckedLimit(limitParam, continueToken, other);
    if params.Rejected? {
      return BadRequest(params.error);
    }
    var cursor := None;
    if params.continueId != "" && params.continueDate != "" {
      cursor := Some(Cursor(params.continueDate, IdOf(params.continueId)));
    }
    var selected := Select(table, filter, cursor, params.limit + 1);
    var body, written, token := StreamList(selected, params.limit);
    ReadOneMore(Ordered(Where(table, filter, cursor)), params.limit);
    if DistinctIds(table) {
      ShownPage(table, filter, cursor, params, continueToken, other);
    }
    return List(written, token);
  }

  /** The page, said of every id and date that the token means. */
  lemma ShownPage(
    table: seq<Row>, filter: Filter, cursor: Option<Cursor>, params: Params, token: string, other: OtherDates)
    requires DistinctIds(table) && params.Params? && params.limit > 0
    requires if token == "" then params.continueId == params.continueDate == ""
             else TokenMeans(token, params.continueId, params.continueDate, other)
    requires cursor == if params.continueId == "" || params.continueDate == "" then None
                       else Some(Cursor(params.continueDate, IdOf(params.continueId)))
    ensures var page := PageOf(Ordered(Where(table, filter, cursor)), params.limit);
            && (token == "" ==> IsPage(page, table, filter, params.limit))
            && (token != "" ==> forall id, date :: TokenMeans(token, id, date, other) ==>
                  if date == "" then IsPage(page, table, filter, params.limit)
                  else IsPage(page, table, r => filter(r) && (Lexicographic.Less(r.date, date) ||
                                                              (r.date == date && r.id < ParseInt(id).value)),
                              params.limit))
  {
    hide ParseInt, Where, Ordered, PageOf, IsPage, DistinctIds, Reserialised;
    if token == "" {
      PageIsPage(table, filter, cursor, filter, params.limit);
    } else {
      forall id, date | TokenMeans(token, id, date, other)
        ensures var page := PageOf(Ordered(Where(table, filter, cursor)), params.limit);
                if date == "" then IsPage(page, table, filter, params.limit)
                else IsPage(page, table, r => filter(r) && (Lexicographic.Less(r.date, date) ||
                                                            (r.date == date && r.id < ParseInt(id).value)),
                            params.limit)
      {
        OneMeaning(token, id, date, params.continueId, params.continueDate, other);
        MeaningHasId(token, id, date, other);
        if date == "" {
          PageIsPage(table, filter, cursor, filter, params.limit);
        } else {
          PageIsPage(table, filter, cursor,
                     r => filter(r) && (Lexicographic.Less(r.date, date) || (r.date == date && r.id < ParseInt(id).value)),
                     params.limit);
        }
      }
    }
  }

  lemma MeaningHasId(token: string, id: string, date: string, other: OtherDates)
    requires TokenMeans(token, id, date, other)
    ensures ParseInt(id).Some? && id != ""
  {
  }

  lemma CheckedLimit(limitParam: Option<string>, token: string, other: OtherDates)
    ensures var params := Checked(limitParam, token, other);
            params.Params? ==> MIN_ALLOWED_LIMIT <= params.limit <= MAX_ALLOWED_LIMIT
  {
  }

  /** Reading one row more than the limit is enough to know whether rows remain. */
  lemma ReadOneMore(rows: seq<Row>, limit: nat)
    requires limit > 0
    ensures var selected := Take(rows, limit + 1);
            PageOf(rows, limit) == List(Take(selected, limit), if |selected| <= limit then ""
                                        else CreateToken(selected[limit - 1].id, selected[limit - 1].date))
  {
  }

  /** The bigint that the database reads in the id text. */
  function IdOf(continueId: string): int {
    if ParseInt(continueId).Some? then ParseInt(continueId).value else 0
  }

  /** The page a request gets: the first limit rows of the answer below its cursor. */
  function Answer(
    table: seq<Row>, filter: Filter, limitParam: Option<string>, token: string, other: OtherDates): (r: Response)
  {
    var params := Checked(limitParam, token, other);
    if params.Rejected? then BadRequest(params.error)
    else
      var cursor := if params.continueId == "" || params.continueDate == "" then None
                    else Some(Cursor(params.continueDate, IdOf(params.continueId)));
      PageOf(Ordered(Where(table, filter, cursor)), params.limit)
  }

  /** The first limit rows, and a token at the last of them when there are more. */
  function PageOf(rows: seq<Row>, limit: nat): (page: Response)
    requires limit > 0
  {
    if |rows| <= limit then List(rows, "")
    else List(rows[..limit], CreateToken(rows[limit - 1].id, rows[limit - 1].date))
  }

  /** Dates as Kubernetes writes them, ids as the database numbers rows. */
  predicate Stored(rows: seq<Row>) {
    DistinctIds(rows) && forall r | r in rows :: Dates.Canonical(r.date) && Int64(r.id)
  }

  /** The request with the token of row n - 1 continues exactly after row n - 1. */
  lemma NextPage(table: seq<Row>, filter: Filter, limit: Option<string>, n: nat, other: OtherDates)
    requires Stored(table) && LimitAccepted(limit) && 0 < n <= |Ordered(Where(table, filter, None))|
    ensures var all := Ordered(Where(table, filter, None));
            && CreateToken(all[n - 1].id, all[n - 1].date) != ""
            && Answer(table, filter, limit, CreateToken(all[n - 1].id, all[n - 1].date), other)
               == PageOf(all[n..], PageSize(limit))
  {
    hide Checked, CreateToken, Dates.Canonical, ParseInt, Where, Ordered;
    var last := Ordered(Where(table, filter, None))[n - 1];
    assert last in Ordered(Where(table, filter, None));
    TokenRoundTrip(limit, last.id, last.date, other);
    CanonicalIsLong(last.date);
    RestBelowCursor(table, filter, n);
  }

  lemma CanonicalIsLong(date: string)
    requires Dates.Canonical(date)
    ensures date != ""
  {
  }

  function Flatten(pages: seq<seq<Row>>): seq<Row> {
    if pages == [] then [] else Flatten(pages[..|pages| - 1]) + pages[|pages| - 1]
  }

  /** The token a client holds after the first n rows. */
  ghost predicate TokenAt(full: seq<Row>, n: nat, token: string) {
    if n == 0 then token == "" else n < |full| && token == CreateToken(full[n - 1].id, full[n - 1].date)
  }

  lemma PageAt(table: seq<Row>, filter: Filter, limit: Option<string>, n: nat, token: string, other: OtherDates)
    requires Stored(table) && LimitAccepted(limit) && TokenAt(Ordered(Where(table, filter, None)), n, token)
    ensures var full := Ordered(Where(table, filter, None));
            && n <= |full|
            && Answer(table, filter, limit, token, other) == PageOf(full[n..], PageSize(limit))
  {
    hide Where, Ordered, ParseInt;
    AcceptedLimit(limit);
    if n == 0 {
      var full := Ordered(Where(table, filter, None));
      assert full[0..] == full;
    } else {
      NextPage(table, filter, limit, n, other);
    }
  }

  lemma PageRows(full: seq<Row>, n: nat, limit: nat)
    requires n <= |full| && limit > 0
    ensures var page := PageOf(full[n..], limit);
            && page.List? && full[..n] + page.items == full[..n + |page.items|]
            && (|full| - n <= limit ==> page.token == "" && |page.items| == |full| - n)
            && (|full| - n > limit ==> |page.items| == limit && TokenAt(full, n + limit, page.token))
  {
    var page := PageOf(full[n..], limit);
    assert page.items == full[n..n + |page.items|];
  }

  lemma WholeAnswer(table: seq<Row>, filter: Filter)
    requires Stored(table)
    ensures var full := Ordered(Where(table, filter, None));
            Sorted(full) && Chronological(full) && forall r :: r in full <==> r in table && filter(r)
  {
    hide Dates.Canonical, Dates.Instant;
    var full := Ordered(Where(table, filter, None));
    WhereKeepsDistinct(table, filter, None);
    OrderedIsSorted(Where(table, filter, None));
    forall i, j | 0 <= i < j < |full| ensures NotOlder(full[i], full[j]) {
      assert full[i] in full && full[j] in full && Precedes(full[i], full[j]);
      if full[i].date != full[j].date {
        Dates.TextOrderIsTimeOrder(full[j].date, full[i].date);
      }
    }
  }

  predicate NotOlder(a: Row, b: Row) {
    && Dates.Canonical(a.date) && Dates.Canonical(b.date)
    && Dates.Instant(a.date) >= Dates.Instant(b.date)
  }

  ghost predicate Chronological(rows: seq<Row>) {
    forall i, j | 0 <= i < j < |rows| :: NotOlder(rows[i], rows[j])
  }

  /** The limit a client asks for on its k-th request, if it does. */
  type Limits = nat -> Option<string>

  predicate ExactPages(pages: seq<seq<Row>>, n: nat, limits: Limits)
    requires n <= |pages|
  {
    forall k | 0 <= k < n :: |pages[k]| == PageSize(limits(k))
  }

  /**
   * A client that follows the tokens from the first page to the empty one, over a table that does not
   * change, with any limits the server accepts: every matching row once, newest first, in full pages.
   */
  method FollowTokens(table: seq<Row>, filter: Filter, limits: Limits, other: OtherDates)
    returns (pages: seq<seq<Row>>, all: seq<Row>)
    requires Stored(table) && forall k :: LimitAccepted(limits(k))
    ensures all == Flatten(pages)
    ensures Sorted(all) && Chronological(all) && forall r :: r in all <==> r in table && filter(r)
    ensures forall i, j | 0 <= i < j < |all| ::
              || Lexicographic.Less(all[j].date, all[i].date)
              || (all[j].date == all[i].date && all[j].id < all[i].id)
    ensures pages != [] && ExactPages(pages, |pages| - 1, limits)
    ensures all != [] ==> 0 < |pages[|pages| - 1]| <= PageSize(limits(|pages| - 1))
  {
    hide ParseInt, CreateToken, Where, Ordered, Answer, Stored, PageOf, TokenAt, Chronological, IsPage, TokenMeans,
      Meaningful, DistinctIds, LimitAccepted, PageSize;
    ghost var full := Ordered(Where(table, filter, None));
    assert Stored(table) && forall k :: LimitAccepted(limits(k));
    var token, done := "", false;
    pages, all := [], [];
    WholeAnswer(table, filter);
    assert TokenAt(full, 0, "") by { FirstToken(full); }
    while !done
      invariant all == Flatten(pages) && |all| <= |full| && all == full[..|all|]
      invariant !done ==> TokenAt(full, |all|, token) && ExactPages(pages, |pages|, limits)
      invariant !done ==> all == [] || |all| < |full|
      invariant done ==> |all| == |full| && pages != [] && ExactPages(pages, |pages| - 1, limits)
      invariant done && all != [] ==> 0 < |pages[|pages| - 1]| <= PageSize(limits(|pages| - 1))
      decreases |full| - |all| + if done then 0 else 1
    {
      ghost var n, limit := |all|, PageSize(limits(|pages|));
      AcceptedLimit(limits(|pages|));
      var response := GetResources(table, filter, limits(|pages|), token, other);
      PageAt(table, filter, limits(|pages|), n, token, other);
      PageRows(full, n, limit);
      assert (pages + [response.items])[..|pages|] == pages;
      pages, all, token := pages + [response.items], all + response.items, response.token;
      done := token == "";
      if |full| - n > limit {
        NonEmptyToken(table, filter, n + limit, token);
      }
    }
    assert full[..|full|] == full;
  }

  lemma FirstToken(full: seq<Row>)
    ensures TokenAt(full, 0, "")
  {
  }

  /** A token in the middle of the answer is never the empty one. */
  lemma NonEmptyToken(table: seq<Row>, filter: Filter, n: nat, token: string)
    requires Stored(table) && n > 0 && TokenAt(Ordered(Where(table, filter, None)), n, token)
    ensures token != "" && n < |Ordered(Where(table, filter, None))|
  {
    hide Where, Ordered;
    var full := Ordered(Where(table, filter, None));
    assert full[n - 1] in full;
    assert forall r | r in Where(table, filter, None) :: r in table;
  }
}
