/** The dashboard's daily-users series: the last 30 days from the stats
    endpoint, with today's point added when it is missing. */
module Dashboard {
  import opened Wrappers

  datatype DailyCount = DailyCount(date: string, count: int)

  /** The parts of the stats payload the series is built from. */
  datatype Stats = Stats(last30Days: Option<seq<DailyCount>>, todayDau: Option<int>)

  /** `iso.split('T')[0]`: the text before the first `T`. */
  function DatePart(iso: string): (d: string)
    ensures d <= iso
    ensures forall i :: 0 <= i < |d| ==> d[i] != 'T'
    ensures d == iso || iso[|d|] == 'T'
  {
    if iso == [] || iso[0] == 'T' then [] else [iso[0]] + DatePart(iso[1..])
  }

  /** An ISO timestamp `<date>T<time>` from `toISOString` gives back its date. */
  lemma {:induction false} DatePartOfTimestamp(date: string, time: string)
    requires forall i :: 0 <= i < |date| ==> date[i] != 'T'
    ensures DatePart(date + "T" + time) == date
  {
    if date != [] {
      assert (date + "T" + time)[1..] == date[1..] + "T" + time;
      DatePartOfTimestamp(date[1..], time);
    }
  }

  /** `data.find(d => d.date === date)`: the first point for `date`. */
  function Find(data: seq<DailyCount>, date: string): (r: Option<DailyCount>)
    ensures r.None? <==> forall i :: 0 <= i < |data| ==> data[i].date != date
    ensures r.Some? ==> exists i :: 0 <= i < |data| && data[i] == r.value && r.value.date == date &&
                                    forall j :: 0 <= j < i ==> data[j].date != date
  {
    if data == [] then None
    else if data[0].date == date then Some(data[0])
    else
      var r := Find(data[1..], date);
      if r.Some? then
        ghost var i :| 0 <= i < |data[1..]| && data[1..][i] == r.value && r.value.date == date &&
                       forall j :: 0 <= j < i ==> data[1..][j].date != date;
        assert data[i + 1] == r.value;
        assert forall j :: 0 < j < i + 1 ==> data[j].date != date by {
          forall j | 0 < j < i + 1 ensures data[j].date != date {
            assert data[j] == data[1..][j - 1];
          }
        }
        r
      else r
  }

  /** `chartData` at the moment whose ISO timestamp is `now`: a copy of
      `last30Days`, plus `{date: today, count: todayDau || 0}` when no point
      for today's date is there. */
  function ChartData(stats: Option<Stats>, now: string): (r: seq<DailyCount>)
    ensures stats.None? ==> r == []
    ensures stats.Some? ==>
      var base, today := stats.value.last30Days.GetOr([]), DatePart(now);
      && base <= r
      && ((exists i :: 0 <= i < |base| && base[i].date == today) ==> r == base)
      && ((forall i :: 0 <= i < |base| ==> base[i].date != today) ==>
            r == base + [DailyCount(today, stats.value.todayDau.GetOr(0))])
    ensures stats.Some? ==> exists i :: 0 <= i < |r| && r[i].date == DatePart(now)
  {
    match stats
    case None => []
    case Some(s) =>
      var data, today := s.last30Days.GetOr([]), DatePart(now);
      if Find(data, today).None? then
        var r := data + [DailyCount(today, s.todayDau.GetOr(0))];
        assert r[|data|].date == today;
        r
      else data
  }

  /** Without `last30Days` the series is today's point alone. */
  lemma NoHistoryGivesToday(todayDau: Option<int>, now: string)
    ensures ChartData(Some(Stats(None, todayDau)), now) == [DailyCount(DatePart(now), todayDau.GetOr(0))]
  {
  }

  /** Feeding the series back in adds nothing: today is already there. */
  lemma ChartDataIdempotent(stats: Stats, now: string)
    ensures var r := ChartData(Some(stats), now);
      ChartData(Some(Stats(Some(r), stats.todayDau)), now) == r
  {
  }
}
