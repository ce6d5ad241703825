/**
 * The aggregations of hello.py whose results are combinatorial: the
 * per-sourcebook counts (lines 159-165), the size-by-type frequency
 * heatmap over the ten most frequent types (lines 189-196) and the ten
 * most and least durable monsters (lines 220-221). All of them read the
 * full derived table, not the filtered one.
 */
module Reports {
  import opened Wrappers
  import opened Seqs
  import opened Bestiary

  /** How many entries `nlargest` / `nsmallest` keep in lines 189, 220 and 221. */
  const TopN: nat := 10

  /** The `name` column is not null, so `count` over it counts the row. */
  predicate HasName(row: Row) {
    row.monster.name.Some?
  }

  /** Every row, as `value_counts` counts them. */
  predicate AnyRow(row: Row) {
    true
  }

  // ---------------------------------------------------------------------
  // Sourcebook counts (lines 159-165)
  // ---------------------------------------------------------------------

  /** The group label of a row after `fillna({'source': 'Unknown'})`. */
  function SourceKey(row: Row): string {
    row.monster.source.GetOr("Unknown")
  }

  /**
   * `df.fillna({'source':'Unknown'}).groupby('source').agg(count=('name','count'))
   * .sort_values('count', ascending=False)`.
   */
  function SourceCounts(rows: seq<Row>): (r: seq<(string, nat)>)
    ensures SortedDesc(r, Count)
    ensures multiset(r) == multiset(Tally(rows, SourceKey, HasName))
  {
    SortDesc(Tally(rows, SourceKey, HasName), Count)
  }

  /**
   * One entry per sourcebook, null sources under "Unknown", each holding
   * the number of named rows from it, largest first; the counts add up
   * to the number of rows with a name.
   */
  lemma SourceCountsSpec(rows: seq<Row>)
    ensures SortedDesc(SourceCounts(rows), Count)
    ensures DistinctKeys(SourceCounts(rows))
    ensures KeysOf(SourceCounts(rows)) == set row | row in rows :: SourceKey(row)
    ensures forall p :: p in SourceCounts(rows) ==> p.1 == KeyCount(rows, SourceKey, HasName, p.0)
    ensures Total(SourceCounts(rows)) == CountIf(rows, HasName)
  {
    TallySpec(rows, SourceKey, HasName);
    SortedTally(Tally(rows, SourceKey, HasName), Count);
  }

  /** A named row without a source. */
  predicate NamedWithoutSource(row: Row) {
    HasName(row) && row.monster.source.None?
  }

  /** A named row whose source is literally "Unknown". */
  predicate NamedFromUnknown(row: Row) {
    HasName(row) && row.monster.source == Some("Unknown")
  }

  /**
   * The "Unknown" group collects every named row with a null source,
   * together with those whose source is literally "Unknown".
   */
  lemma {:induction false} UnknownCollectsNullSources(rows: seq<Row>)
    ensures KeyCount(rows, SourceKey, HasName, "Unknown")
         == CountIf(rows, NamedWithoutSource) + CountIf(rows, NamedFromUnknown)
  {
    if rows != [] {
      UnknownCollectsNullSources(rows[1..]);
    }
  }

  /** Whenever some source is null, an "Unknown" entry is in the counts. */
  lemma NullSourceListedAsUnknown(rows: seq<Row>, i: nat)
    requires i < |rows| && rows[i].monster.source.None?
    ensures "Unknown" in Labels(SourceCounts(rows))
  {
    SourceCountsSpec(rows);
    assert SourceKey(rows[i]) == "Unknown";
    LabelsOfDistinct(SourceCounts(rows));
  }

  // ---------------------------------------------------------------------
  // Type frequency by size (lines 189-196)
  // ---------------------------------------------------------------------

  function Kind(row: Row): string {
    row.monster.kind
  }

  function SizeOf(row: Row): string {
    row.monster.size
  }

  function SizeAndKind(row: Row): (string, string) {
    (row.monster.size, row.monster.kind)
  }

  /** The number of rows of type `t` (`df['type'].value_counts()[t]`). */
  function TypeCount(rows: seq<Row>, t: string): nat {
    KeyCount(rows, Kind, AnyRow, t)
  }

  /** `df['type'].value_counts().nlargest(n).index`. */
  function TopTypes(rows: seq<Row>, n: nat): (r: seq<string>)
    ensures |r| <= n
  {
    TopLabels(Tally(rows, Kind, AnyRow), n)
  }

  /** The types occurring in the table. */
  ghost function Types(rows: seq<Row>): set<string> {
    KeySet(rows, Kind)
  }

  /** `nlargest(n)` keeps `min(n, #types)` types, ... */
  lemma TopTypesCount(rows: seq<Row>, n: nat)
    ensures |TopTypes(rows, n)| == if n < |Types(rows)| then n else |Types(rows)|
  {
    TallySpec(rows, Kind, AnyRow);
    TopLabelsCount(Tally(rows, Kind, AnyRow), n);
  }

  /** ... each of them once, ... */
  lemma TopTypesDistinct(rows: seq<Row>, n: nat)
    ensures forall i, j :: 0 <= i < j < |TopTypes(rows, n)| ==> TopTypes(rows, n)[i] != TopTypes(rows, n)[j]
  {
    TopLabelsDistinct(Tally(rows, Kind, AnyRow), n);
  }

  /** ... each the type of some row of the table, ... */
  lemma TopTypesOccur(rows: seq<Row>, n: nat)
    ensures forall t :: t in TopTypes(rows, n) ==> t in Types(rows)
  {
    TallySpec(rows, Kind, AnyRow);
    TopLabelsAreKeys(Tally(rows, Kind, AnyRow), n);
  }

  /** ... and none less frequent than a type left out. */
  lemma TopTypesDominate(rows: seq<Row>, n: nat)
    ensures forall t, u ::
      (t in TopTypes(rows, n) && u !in TopTypes(rows, n) && u in Types(rows)) ==>
        TypeCount(rows, t) >= TypeCount(rows, u)
  {
    TallySpec(rows, Kind, AnyRow);
    TopLabelsDominate(Tally(rows, Kind, AnyRow), n);
  }

  /** The heatmap of line 197: row labels, column labels and one count per cell. */
  datatype Heatmap = Heatmap(sizes: seq<string>, types: seq<string>, counts: seq<seq<nat>>)

  /** The mask `df['type'].isin(types)`. */
  function InTypes(types: seq<string>): Row -> bool {
    (row: Row) => row.monster.kind in types
  }

  /** Line 189: the rows whose type is among the ten most frequent. */
  function TopTypeRows(rows: seq<Row>): seq<Row> {
    Select(rows, InTypes(TopTypes(rows, TopN)))
  }

  /**
   * Lines 190-196: count named rows per (size, type) among the rows of
   * the ten most frequent types, pivot sizes against types and fill the
   * combinations that never occur with 0.
   */
  function TypeSizeHeatmap(rows: seq<Row>): (h: Heatmap)
    ensures |h.counts| == |h.sizes|
    ensures forall i :: 0 <= i < |h.sizes| ==> |h.counts[i]| == |h.types|
  {
    var sub := TopTypeRows(rows);
    var groups := Tally(sub, SizeAndKind, HasName);
    var sizes := Labels(Tally(sub, SizeOf, AnyRow));
    var types := Labels(Tally(sub, Kind, AnyRow));
    Heatmap(sizes, types, Pivot(groups, sizes, types))
  }

  /**
   * The heatmap is a grid, one row of counts per size and one count per
   * type, and no size or type labels two rows or two columns.
   */
  lemma HeatmapGrid(rows: seq<Row>)
    ensures var h := TypeSizeHeatmap(rows);
      && |h.counts| == |h.sizes|
      && (forall i :: 0 <= i < |h.sizes| ==> |h.counts[i]| == |h.types|)
      && (forall i, j :: 0 <= i < j < |h.sizes| ==> h.sizes[i] != h.sizes[j])
      && (forall i, j :: 0 <= i < j < |h.types| ==> h.types[i] != h.types[j])
  {
    var sub := TopTypeRows(rows);
    LabelsOfDistinct(Tally(sub, SizeOf, AnyRow));
    LabelsOfDistinct(Tally(sub, Kind, AnyRow));
  }

  /** The rows of the heatmap are the sizes of the monsters of a top type. */
  lemma HeatmapSizes(rows: seq<Row>)
    ensures forall s :: s in TypeSizeHeatmap(rows).sizes <==>
      exists row :: row in rows && Kind(row) in TopTypes(rows, TopN) && SizeOf(row) == s
  {
    var top := TopTypes(rows, TopN);
    var sub := TopTypeRows(rows);
    var sizes := TypeSizeHeatmap(rows).sizes;
    TallyLabels(sub, SizeOf, AnyRow);
    forall s | s in sizes ensures exists row :: row in rows && Kind(row) in top && SizeOf(row) == s {
      var row :| row in sub && SizeOf(row) == s;
      assert row in rows && InTypes(top)(row);
    }
    forall s | exists row :: row in rows && Kind(row) in top && SizeOf(row) == s ensures s in sizes {
      var row :| row in rows && Kind(row) in top && SizeOf(row) == s;
      assert row in sub;
    }
  }

  /** The columns of the heatmap are exactly the ten (or fewer) most frequent types. */
  lemma HeatmapTypes(rows: seq<Row>)
    ensures forall t :: t in TypeSizeHeatmap(rows).types <==> t in TopTypes(rows, TopN)
  {
    var top := TopTypes(rows, TopN);
    var sub := TopTypeRows(rows);
    var types := TypeSizeHeatmap(rows).types;
    TallyLabels(sub, Kind, AnyRow);
    TopTypesOccur(rows, TopN);
    forall t | t in types ensures t in top {
      var row :| row in sub && Kind(row) == t;
      assert InTypes(top)(row);
    }
    forall t | t in top ensures t in types {
      var row :| row in rows && Kind(row) == t;
      assert row in sub;
    }
  }

  /** The count of a (size, top type) group among the top-type rows is its count in the whole table. */
  lemma HeatmapCell(rows: seq<Row>, size: string, kind: string)
    requires kind in TopTypes(rows, TopN)
    ensures Lookup(Tally(TopTypeRows(rows), SizeAndKind, HasName), (size, kind))
         == KeyCount(rows, SizeAndKind, HasName, (size, kind))
  {
    var top := TopTypes(rows, TopN);
    TallySpec(TopTypeRows(rows), SizeAndKind, HasName);
    forall i | 0 <= i < |rows| && SizeAndKind(rows[i]) == (size, kind) && HasName(rows[i])
      ensures InTypes(top)(rows[i])
    {
    }
    KeyCountSelect(rows, InTypes(top), SizeAndKind, HasName, (size, kind));
  }

  /**
   * Each cell holds the number of named monsters of that size and type
   * in the whole table, 0 where there are none.
   */
  lemma HeatmapCells(rows: seq<Row>)
    ensures var h := TypeSizeHeatmap(rows);
      forall i, j :: 0 <= i < |h.sizes| && 0 <= j < |h.types| ==>
        h.counts[i][j] == KeyCount(rows, SizeAndKind, HasName, (h.sizes[i], h.types[j]))
  {
    var h := TypeSizeHeatmap(rows);
    HeatmapTypes(rows);
    forall i, j | 0 <= i < |h.sizes| && 0 <= j < |h.types|
      ensures h.counts[i][j] == KeyCount(rows, SizeAndKind, HasName, (h.sizes[i], h.types[j]))
    {
      HeatmapCell(rows, h.sizes[i], h.types[j]);
    }
  }

  // ---------------------------------------------------------------------
  // Top and bottom survivors (lines 220-221)
  // ---------------------------------------------------------------------

  function Survivability(row: Row): int {
    row.survivability
  }

  /** `df.nlargest(10, 'survivability')`. */
  function TopSurvivors(rows: seq<Row>): (r: seq<Row>)
    ensures |r| == if |rows| < TopN then |rows| else TopN
    ensures multiset(r) <= multiset(rows)
    ensures SortedDesc(r, Survivability)
    ensures forall x, y :: x in r && y in multiset(rows) - multiset(r) ==> x.survivability >= y.survivability
  {
    Largest(rows, TopN, Survivability)
  }

  /** `df.nsmallest(10, 'survivability')`. */
  function BottomSurvivors(rows: seq<Row>): (r: seq<Row>)
    ensures |r| == if |rows| < TopN then |rows| else TopN
    ensures multiset(r) <= multiset(rows)
    ensures SortedAsc(r, Survivability)
    ensures forall x, y :: x in r && y in multiset(rows) - multiset(r) ==> x.survivability <= y.survivability
  {
    Smallest(rows, TopN, Survivability)
  }

  /** No two rows of the table share a survivability. */
  predicate DistinctSurvivability(rows: seq<Row>) {
    forall i, j :: 0 <= i < j < |rows| ==> rows[i].survivability != rows[j].survivability
  }

  lemma {:induction false} DistinctSurvivabilityOnce(rows: seq<Row>, x: Row)
    requires DistinctSurvivability(rows)
    ensures multiset(rows)[x] <= 1
  {
    if rows != [] {
      assert rows == [rows[0]] + rows[1..];
      assert DistinctSurvivability(rows[1..]);
      DistinctSurvivabilityOnce(rows[1..], x);
      if rows[0] == x {
        assert x !in rows[1..];
      }
    }
  }

  /** Two rows of such a table with the same survivability are the same row. */
  lemma SameSurvivabilitySameRow(rows: seq<Row>, x: Row, y: Row)
    requires DistinctSurvivability(rows) && x in rows && y in rows
    requires x.survivability == y.survivability
    ensures x == y
  {
    var i :| 0 <= i < |rows| && rows[i] == x;
    var j :| 0 <= j < |rows| && rows[j] == y;
  }

  /** A row left out of the top ten is strictly less durable than each of them. */
  lemma TopBeatsRest(rows: seq<Row>, x: Row, y: Row)
    requires DistinctSurvivability(rows) && x in TopSurvivors(rows)
    ensures y in multiset(rows) - multiset(TopSurvivors(rows)) ==> y.survivability < x.survivability
  {
    if y in multiset(rows) - multiset(TopSurvivors(rows)) {
      assert x in multiset(TopSurvivors(rows));
      if y.survivability == x.survivability {
        SameSurvivabilitySameRow(rows, x, y);
        DistinctSurvivabilityOnce(rows, x);
      }
    }
  }

  /** A row left out of the bottom ten is strictly more durable than each of them. */
  lemma BottomUnderRest(rows: seq<Row>, x: Row, y: Row)
    requires DistinctSurvivability(rows) && x in BottomSurvivors(rows)
    ensures y in multiset(rows) - multiset(BottomSurvivors(rows)) ==> y.survivability > x.survivability
  {
    if y in multiset(rows) - multiset(BottomSurvivors(rows)) {
      assert x in multiset(BottomSurvivors(rows));
      if y.survivability == x.survivability {
        SameSurvivabilitySameRow(rows, x, y);
        DistinctSurvivabilityOnce(rows, x);
      }
    }
  }

  /**
   * Multiplicity bookkeeping: when `x` occurs once in `all`, in both `top`
   * and `bot`, and no element is left out of both, the two rests together
   * fit in `all` without `x`.
   */
  lemma RestsFit(all: multiset<Row>, top: multiset<Row>, bot: multiset<Row>, x: Row)
    requires top <= all && bot <= all && x in top && x in bot && all[x] <= 1
    requires forall y :: !(y in all - top && y in all - bot)
    ensures (all - top) + (all - bot) <= all - multiset{x}
  {
    forall y ensures ((all - top) + (all - bot))[y] <= (all - multiset{x})[y] {
      assert !(y in all - top && y in all - bot);
    }
  }

  /** Taking a sub-multiset away leaves exactly the difference in size. */
  lemma DifferenceCard(a: multiset<Row>, b: multiset<Row>)
    requires b <= a
    ensures |a - b| == |a| - |b|
  {
    assert a == b + (a - b);
  }

  /** A sub-multiset is no larger. */
  lemma SubMultisetCard(a: multiset<Row>, b: multiset<Row>)
    requires a <= b
    ensures |a| <= |b|
  {
    assert b == a + (b - a);
  }

  /**
   * A row in both the top and the bottom ten leaves the rest of the table
   * split into rows below it (outside the top ten) and rows above it
   * (outside the bottom ten), and neither rest contains the row itself.
   */
  lemma RestsCover(rows: seq<Row>, x: Row)
    requires DistinctSurvivability(rows) && x in TopSurvivors(rows) && x in BottomSurvivors(rows)
    ensures (multiset(rows) - multiset(TopSurvivors(rows))) + (multiset(rows) - multiset(BottomSurvivors(rows)))
         <= multiset(rows) - multiset{x}
  {
    var all := multiset(rows);
    var restTop, restBot := all - multiset(TopSurvivors(rows)), all - multiset(BottomSurvivors(rows));
    DistinctSurvivabilityOnce(rows, x);
    forall y ensures !(y in restTop && y in restBot) {
      TopBeatsRest(rows, x, y);
      BottomUnderRest(rows, x, y);
    }
    RestsFit(all, multiset(TopSurvivors(rows)), multiset(BottomSurvivors(rows)), x);
  }

  /** Cardinality bookkeeping: two rests of a twenty-row table cannot fit beside one row. */
  lemma RestsTooLarge(rows: seq<Row>, x: Row)
    requires |rows| >= 2 * TopN && DistinctSurvivability(rows)
    requires x in TopSurvivors(rows) && x in BottomSurvivors(rows)
    ensures |multiset(rows) - multiset(TopSurvivors(rows))| + |multiset(rows) - multiset(BottomSurvivors(rows))|
          > |multiset(rows) - multiset{x}|
  {
    var all := multiset(rows);
    DifferenceCard(all, multiset(TopSurvivors(rows)));
    DifferenceCard(all, multiset(BottomSurvivors(rows)));
    assert x in all;
    DifferenceCard(all, multiset{x});
  }

  /**
   * With at least twenty rows of pairwise different survivability, the
   * ten most and the ten least durable monsters are twenty different rows.
   */
  lemma TopAndBottomDisjoint(rows: seq<Row>)
    requires |rows| >= 2 * TopN && DistinctSurvivability(rows)
    ensures |TopSurvivors(rows)| == TopN && |BottomSurvivors(rows)| == TopN
    ensures forall x :: x in TopSurvivors(rows) ==> x !in BottomSurvivors(rows)
  {
    var all := multiset(rows);
    var top, bot := TopSurvivors(rows), BottomSurvivors(rows);
    forall x | x in top ensures x !in bot {
      if x in bot {
        RestsCover(rows, x);
        RestsTooLarge(rows, x);
        SubMultisetCard((all - multiset(top)) + (all - multiset(bot)), all - multiset{x});
        assert false;
      }
    }
  }

  /**
   * Multiplicity bookkeeping: two disjoint sub-multisets of `all` and an
   * element of `all` in neither fit in `all` together.
   */
  lemma ThreeFit(all: multiset<Row>, top: multiset<Row>, bot: multiset<Row>, x: Row)
    requires top <= all && bot <= all && x in all && x !in top && x !in bot
    requires forall y :: !(y in top && y in bot)
    ensures top + bot + multiset{x} <= all
  {
    forall y ensures (top + bot + multiset{x})[y] <= all[y] {
      assert !(y in top && y in bot);
    }
  }

  /**
   * A row left out of both the top and the bottom ten lies strictly between
   * them, so the two lists and the row fit in the table side by side.
   */
  lemma LeftOutOfBoth(rows: seq<Row>, x: Row)
    requires DistinctSurvivability(rows) && x in rows
    requires x !in TopSurvivors(rows) && x !in BottomSurvivors(rows)
    ensures multiset(TopSurvivors(rows)) + multiset(BottomSurvivors(rows)) + multiset{x} <= multiset(rows)
  {
    var all := multiset(rows);
    var top, bot := TopSurvivors(rows), BottomSurvivors(rows);
    assert x in all - multiset(top) && x in all - multiset(bot);
    forall y ensures !(y in multiset(top) && y in multiset(bot)) {
      if y in multiset(top) && y in multiset(bot) {
        TopBeatsRest(rows, y, x);
        BottomUnderRest(rows, y, x);
      }
    }
    ThreeFit(all, multiset(top), multiset(bot), x);
  }

  /**
   * With fewer than twenty rows of pairwise different survivability, every
   * row is among the ten most or the ten least durable: the two tables
   * together show the whole table.
   */
  lemma SmallTableCovered(rows: seq<Row>)
    requires |rows| < 2 * TopN && DistinctSurvivability(rows)
    ensures forall x :: x in rows ==> x in TopSurvivors(rows) || x in BottomSurvivors(rows)
  {
    var all := multiset(rows);
    var top, bot := TopSurvivors(rows), BottomSurvivors(rows);
    forall x | x in rows ensures x in top || x in bot {
      if |rows| <= TopN {
        SmallTopHoldsAll(rows, x);
      } else if x !in top && x !in bot {
        LeftOutOfBoth(rows, x);
        SubMultisetCard(multiset(top) + multiset(bot) + multiset{x}, all);
        assert false;
      }
    }
  }

  /** A table of at most ten rows is all in its top ten. */
  lemma SmallTopHoldsAll(rows: seq<Row>, x: Row)
    requires |rows| <= TopN && x in rows
    ensures x in TopSurvivors(rows)
  {
    var all := multiset(rows);
    DifferenceCard(all, multiset(TopSurvivors(rows)));
    assert all - multiset(TopSurvivors(rows)) == multiset{};
    assert x in all;
  }
}
