/**
 * The dashboard's "media per month" chart (actions/get-graph-media-per-month.ts):
 * the media counted by the month of their creation, one bar per month.
 *
 * The store read (`prismadb.media.findMany()`) becomes the parameter: the
 * month index `createdAt.getMonth()` of each medium, in the order the store
 * returns them.
 */
module GraphPerMonth {

  /** What Date.prototype.getMonth returns: 0 for January up to 11 for December. */
  type MonthIndex = m: int | 0 <= m < 12

  datatype GraphEntry = GraphEntry(name: string, total: nat)

  /** The bar labels, January first. */
  const MONTH_NAMES: seq<string> :=
    ["Jan", "Fev", "Mar", "Abr", "Mai", "Jun", "Jul", "Ago", "Set", "Out", "Nov", "Dez"]

  /** The sum of the totals of `graph`. */
  function Total(graph: seq<GraphEntry>): nat {
    if graph == [] then 0 else graph[0].total + Total(graph[1..])
  }

  /** How many of `months` fall in the months `lo` to December. */
  function CountFrom(months: seq<MonthIndex>, lo: nat): nat
    requires lo <= 12
    decreases 12 - lo
  {
    if lo == 12 then 0 else multiset(months)[lo] + CountFrom(months, lo + 1)
  }

  lemma {:induction false} CountFromAppend(months: seq<MonthIndex>, x: MonthIndex, lo: nat)
    requires lo <= 12
    ensures CountFrom(months + [x], lo) == CountFrom(months, lo) + (if lo <= x then 1 else 0)
    decreases 12 - lo
  {
    if lo < 12 {
      CountFromAppend(months, x, lo + 1);
      assert multiset(months + [x]) == multiset(months) + multiset{x};
    }
  }

  /** Every medium falls in exactly one month, so the counts of the twelve months add up to the number of media. */
  lemma {:induction false} CountAll(months: seq<MonthIndex>)
    ensures CountFrom(months, 0) == |months|
  {
    if months != [] {
      var init := months[..|months| - 1];
      var x := months[|months| - 1];
      assert months == init + [x];
      CountAll(init);
      CountFromAppend(init, x, 0);
    }
  }

  lemma {:induction false} TotalFrom(graph: seq<GraphEntry>, months: seq<MonthIndex>, lo: nat)
    requires |graph| == 12 && lo <= 12
    requires forall m :: 0 <= m < 12 ==> graph[m].total == multiset(months)[m]
    ensures Total(graph[lo..]) == CountFrom(months, lo)
    decreases 12 - lo
  {
    if lo < 12 {
      TotalFrom(graph, months, lo + 1);
      assert graph[lo..][1..] == graph[lo + 1..];
    }
  }

  /**
   * The first loop of getGraphMediaPerMonth: a dictionary from month index
   * to the number of media created in that month, holding only the months
   * that have media, so that every value is at least 1.
   */
  method CountByMonth(months: seq<MonthIndex>) returns (monthlyCreation: map<int, nat>)
    ensures forall m :: m in monthlyCreation <==> m in multiset(months)
    ensures forall m :: m in monthlyCreation ==>
              monthlyCreation[m] == multiset(months)[m] && monthlyCreation[m] >= 1
  {
    monthlyCreation := map[];
    var i := 0;
    while i < |months|
      invariant 0 <= i <= |months|
      invariant forall m :: m in monthlyCreation <==> m in multiset(months[..i])
      invariant forall m :: m in monthlyCreation ==>
                  monthlyCreation[m] == multiset(months[..i])[m] && monthlyCreation[m] >= 1
    {
      var month := months[i];
      assert months[..i + 1] == months[..i] + [month];
      if month !in monthlyCreation || monthlyCreation[month] == 0 {
        monthlyCreation := monthlyCreation[month := 1];
      } else {
        monthlyCreation := monthlyCreation[month := monthlyCreation[month] + 1];
      }
      i := i + 1;
    }
    assert months[..i] == months;
  }

  /**
   * getGraphMediaPerMonth. After counting, the source's `for..in` over the
   * dictionary's integer keys is written as a walk over the twelve month
   * slots that tests whether each month is a key; it writes each count into
   * the bar of that month, and the other bars keep 0.
   */
  method GraphMediaPerMonth(months: seq<MonthIndex>) returns (graph: seq<GraphEntry>)
    ensures |graph| == 12
    ensures forall m :: 0 <= m < 12 ==> graph[m] == GraphEntry(MONTH_NAMES[m], multiset(months)[m])
  {
    var monthlyCreation := CountByMonth(months);
    var graphData := new GraphEntry[12](k requires 0 <= k < 12 => GraphEntry(MONTH_NAMES[k], 0));
    var m := 0;
    while m < 12
      invariant 0 <= m <= 12
      invariant forall k :: 0 <= k < 12 ==>
                  graphData[k] == GraphEntry(MONTH_NAMES[k], if k < m then multiset(months)[k] else 0)
    {
      if m in monthlyCreation {
        graphData[m] := graphData[m].(total := monthlyCreation[m]);
      }
      m := m + 1;
    }
    graph := graphData[..];
  }

  /** The bars of the chart add up to the number of media. */
  lemma GraphTotal(graph: seq<GraphEntry>, months: seq<MonthIndex>)
    requires |graph| == 12
    requires forall m :: 0 <= m < 12 ==> graph[m] == GraphEntry(MONTH_NAMES[m], multiset(months)[m])
    ensures Total(graph) == |months|
  {
    TotalFrom(graph, months, 0);
    CountAll(months);
    assert graph[0..] == graph;
  }
}
