/** The figures the contribution-history panel shows above the listing
    (web/src/components/circle/ContributionHistory.jsx): the total
    contributed, the part recorded for the current calendar month, and how
    many distinct members contributed. A missing response body counts as
    an empty listing. */
module ContributionStats {
  import opened Common
  import opened CircleModels
  import opened CircleHandlers
  import opened ContributionsHandler

  datatype Stats = Stats(total: nat, thisMonth: nat, memberCount: nat)

  /** The sum of the amounts, as `reduce((sum, c) => sum + c.amount, 0)`. */
  function Total(data: seq<ContributionResponse>): nat
  {
    if data == [] then 0 else Total(data[..|data| - 1]) + data[|data| - 1].amount
  }

  /** Whether a month falls in the same calendar month and year as `now`. */
  predicate SameCalendarMonth(month: Moment, now: Moment)
  {
    month.month == now.month && month.year == now.year
  }

  function InMonthOf(now: Moment): ContributionResponse -> bool
  {
    (c: ContributionResponse) => SameCalendarMonth(c.month, now)
  }

  /** The sum over the entries whose month is the current one. */
  function ThisMonth(data: seq<ContributionResponse>, now: Moment): nat
  {
    Total(Filter(data, InMonthOf(now)))
  }

  /** `new Set(data.map(c => c.user_id)).size` */
  function MemberCount(data: seq<ContributionResponse>): nat
  {
    |set c | c in data :: c.userId|
  }

  /** The panel's figures for a response body, `[]` standing in for a
      missing one. */
  function StatsOf(body: Option<seq<ContributionResponse>>, now: Moment): (s: Stats)
    ensures body.None? ==> s == Stats(0, 0, 0)
  {
    var data := if body.Some? then body.value else [];
    Stats(Total(data), ThisMonth(data, now), MemberCount(data))
  }

  // ---------------------------------------------------------------------
  // Properties

  /** The total of two listings is the sum of their totals. */
  lemma {:induction false} TotalAppend(a: seq<ContributionResponse>, b: seq<ContributionResponse>)
    ensures Total(a + b) == Total(a) + Total(b)
    decreases |b|
  {
    if b != [] {
      var b' := b[..|b| - 1];
      TotalAppend(a, b');
      assert (a + b)[..|a + b| - 1] == a + b';
    } else {
      assert a + b == a;
    }
  }

  /** Leaving entries out never raises the total. */
  lemma {:induction false} FilterTotalAtMost(data: seq<ContributionResponse>, p: ContributionResponse -> bool)
    ensures Total(Filter(data, p)) <= Total(data)
    decreases |data|
  {
    if data != [] {
      var prefix := data[..|data| - 1];
      var last := data[|data| - 1];
      FilterTotalAtMost(prefix, p);
      assert data == prefix + [last];
      FilterSnoc(prefix, last, p);
      TotalAppend(Filter(prefix, p), if p(last) then [last] else []);
    }
  }

  /** Amounts are never negative, so this month's figure never exceeds the
      total. */
  lemma ThisMonthAtMostTotal(data: seq<ContributionResponse>, now: Moment)
    ensures ThisMonth(data, now) <= Total(data)
  {
    FilterTotalAtMost(data, InMonthOf(now));
  }

  /** Every entry is counted in the total: each amount is at most it. */
  lemma {:induction false} AmountAtMostTotal(data: seq<ContributionResponse>, i: int)
    requires 0 <= i < |data|
    ensures data[i].amount <= Total(data)
    decreases |data|
  {
    if i < |data| - 1 {
      AmountAtMostTotal(data[..|data| - 1], i);
    }
  }

  /** There are never more contributors than entries, and none exactly when
      the listing is empty. */
  lemma {:induction false} MemberCountBounds(data: seq<ContributionResponse>)
    ensures MemberCount(data) <= |data|
    ensures MemberCount(data) == 0 <==> data == []
    decreases |data|
  {
    if data != [] {
      var prefix := data[..|data| - 1];
      var last := data[|data| - 1];
      MemberCountBounds(prefix);
      assert data == prefix + [last];
      assert (set c | c in data :: c.userId) == (set c | c in prefix :: c.userId) + {last.userId};
    }
  }

  /** A listing of one member's contributions counts one contributor. */
  lemma OneContributor(data: seq<ContributionResponse>, u: Id)
    requires data != []
    requires forall c :: c in data ==> c.userId == u
    ensures MemberCount(data) == 1
  {
    assert (set c | c in data :: c.userId) == {u} by {
      assert data[0] in data;
    }
  }

  // ---------------------------------------------------------------------
  // How a recorded contribution reaches the current month's figure

  /** The response entry for a stored contribution, with the user's name
      and email. */
  function EntryFor(row: Contribution, name: string, email: string): (e: ContributionResponse)
    ensures Shows(e, row)
  {
    ContributionResponse(row.id, row.userId, name, email, row.amount, row.month, row.createdAt)
  }

  /** As the source records it, a contribution's month is the zero time,
      year 1, so for any current date after year 1 it never counts towards
      this month's figure. */
  lemma AsWrittenRowNeverThisMonth(
    data: seq<ContributionResponse>, id: Id, c: Id, u: Id, amount: Amount, now: Moment, name: string, email: string)
    requires now.year != 1
    ensures ThisMonth(data + [EntryFor(ContributionRowAsWritten(id, c, u, amount, now), name, email)], now) ==
      ThisMonth(data, now)
  {
    var e := EntryFor(ContributionRowAsWritten(id, c, u, amount, now), name, email);
    FilterSnoc(data, e, InMonthOf(now));
    TotalAppend(Filter(data, InMonthOf(now)), []);
    assert Filter(data, InMonthOf(now)) + [] == Filter(data, InMonthOf(now));
  }

  /** A contribution stamped with the recording month (the corrected row,
      which CircleHandlers.RecordContribution stores) adds its whole amount
      to this month's figure. */
  lemma RecordedRowCountsThisMonth(
    data: seq<ContributionResponse>, id: Id, c: Id, u: Id, amount: Amount, now: Moment, name: string, email: string)
    ensures ThisMonth(data + [EntryFor(ContributionRow(id, c, u, amount, now), name, email)], now) ==
      ThisMonth(data, now) + amount
  {
    var e := EntryFor(ContributionRow(id, c, u, amount, now), name, email);
    FilterSnoc(data, e, InMonthOf(now));
    TotalAppend(Filter(data, InMonthOf(now)), [e]);
  }
}
