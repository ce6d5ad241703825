/**
 * The monster table, the two columns hello.py derives once per row
 * (lines 26-27), and the interactive filter stage (lines 88-98).
 */
module Bestiary {
  import opened Wrappers
  import opened CrParser
  import opened Seqs

  /** One row of the `monsters` table: the columns the script reads. */
  datatype Monster = Monster(
    name: Option<string>,
    cr: CrValue,
    kind: string,              // the `type` column
    size: string,
    ac: int,
    hp: int,
    speed: string,
    align: Option<string>,
    legendary: Option<string>, // "Legendary" or null
    source: Option<string>)

  /** A row after lines 26-27: the loaded columns plus `cr_num` and `survivability`. */
  datatype Row = Row(monster: Monster, crNum: Option<real>, survivability: int)

  // ---------------------------------------------------------------------
  // Derived columns (lines 26-27)
  // ---------------------------------------------------------------------

  /** `row` is `m` with its two derived columns: nothing else of `m` is changed. */
  predicate DerivedFrom(row: Row, m: Monster, floatOfText: string -> Option<real>) {
    && row.monster == m
    && ParseCr(m.cr, floatOfText) == Parsed(row.crNum)
    && row.survivability == m.ac * m.hp
  }

  /** `parse_cr` returns, without raising, on each of the first `n` rows. */
  predicate ParsesBefore(ms: seq<Monster>, n: int, floatOfText: string -> Option<real>)
    requires n <= |ms|
  {
    forall j :: 0 <= j < n ==> ParseCr(ms[j].cr, floatOfText).Parsed?
  }

  /**
   * `df['cr_num'] = df['cr'].apply(parse_cr)` followed by
   * `df['survivability'] = df['ac'] * df['hp']`. `apply` visits the rows
   * in order, so the first row whose CR raises aborts the script with
   * that row's exception and no column is added.
   */
  function DeriveColumns(ms: seq<Monster>, floatOfText: string -> Option<real>)
    : (r: Result<seq<Row>, CrError>)
    ensures r.Ok? <==> ParsesBefore(ms, |ms|, floatOfText)
    ensures r.Ok? ==> |r.value| == |ms|
    ensures r.Ok? ==> forall i :: 0 <= i < |ms| ==> DerivedFrom(r.value[i], ms[i], floatOfText)
    ensures r.Err? ==> exists i :: (
      && 0 <= i < |ms|
      && ParseCr(ms[i].cr, floatOfText) == Raised(r.error)
      && ParsesBefore(ms, i, floatOfText))
  {
    if ms == [] then Ok([])
    else
      match ParseCr(ms[0].cr, floatOfText)
      case Raised(e) =>
        assert ParsesBefore(ms, 0, floatOfText);
        Err(e)
      case Parsed(v) =>
        var tail := ms[1..];
        match DeriveColumns(tail, floatOfText)
        case Err(e) =>
          ghost var k :| && 0 <= k < |tail|
                         && ParseCr(tail[k].cr, floatOfText) == Raised(e)
                         && ParsesBefore(tail, k, floatOfText);
          assert ParseCr(ms[k + 1].cr, floatOfText) == Raised(e);
          assert ParsesBefore(ms, k + 1, floatOfText) by {
            forall j | 0 <= j < k + 1 ensures ParseCr(ms[j].cr, floatOfText).Parsed? {
              if j > 0 {
                assert ms[j] == tail[j - 1];
              }
            }
          }
          Err(e)
        case Ok(rest) =>
          var r := [Row(ms[0], v, ms[0].ac * ms[0].hp)] + rest;
          assert forall i :: 0 <= i < |ms| ==> DerivedFrom(r[i], ms[i], floatOfText) by {
            forall i | 0 <= i < |ms| ensures DerivedFrom(r[i], ms[i], floatOfText) {
              if i > 0 {
                assert r[i] == rest[i - 1] && ms[i] == tail[i - 1];
              }
            }
          }
          assert ParsesBefore(ms, |ms|, floatOfText) by {
            forall j | 0 <= j < |ms| ensures ParseCr(ms[j].cr, floatOfText).Parsed? {
              if j > 0 {
                assert ms[j] == tail[j - 1];
              }
            }
          }
          Ok(r)
  }

  /** Example: a monster with AC 15 and 20 HP has survivability 300. */
  lemma SurvivabilityExample(m: Monster, floatOfText: string -> Option<real>)
    requires m.ac == 15 && m.hp == 20 && m.cr == CrText("1/4")
    ensures DeriveColumns([m], floatOfText) == Ok([Row(m, Some(0.25), 300)])
  {
    QuarterExample(floatOfText);
    var r := DeriveColumns([m], floatOfText);
    assert ParsesBefore([m], 1, floatOfText);
    assert DerivedFrom(r.value[0], m, floatOfText);
    assert r.value == [Row(m, Some(0.25), 300)];
  }

  // ---------------------------------------------------------------------
  // The filter stage (lines 88-98)
  // ---------------------------------------------------------------------

  /** The values of the six sliders and the "Legendary Only" checkbox. */
  datatype Criteria = Criteria(
    minAc: int, maxAc: int,
    minHp: int, maxHp: int,
    minCr: real, maxCr: real,
    legendaryOnly: bool)

  /**
   * The range mask of lines 89-96. A missing `cr_num` is NaN in pandas
   * and fails both CR comparisons.
   */
  predicate InRanges(row: Row, c: Criteria) {
    && c.minAc <= row.monster.ac <= c.maxAc
    && c.minHp <= row.monster.hp <= c.maxHp
    && row.crNum.Some? && c.minCr <= row.crNum.value <= c.maxCr
  }

  /** The mask of line 98: an exact match; a null `legendary` is not "Legendary". */
  predicate IsLegendary(row: Row) {
    row.monster.legendary == Some("Legendary")
  }

  /** A row the filter stage keeps. */
  predicate Matches(row: Row, c: Criteria) {
    InRanges(row, c) && (c.legendaryOnly ==> IsLegendary(row))
  }

  /** The range mask as a column of booleans. */
  function RangeMask(c: Criteria): Row -> bool {
    row => InRanges(row, c)
  }

  /** The combined mask of the whole filter stage. */
  function FilterMask(c: Criteria): Row -> bool {
    row => Matches(row, c)
  }

  /** The table the filter stage leaves in `df_filt`. */
  function Filtered(rows: seq<Row>, c: Criteria): (r: seq<Row>)
    ensures |r| == CountIf(rows, FilterMask(c))
    ensures forall i :: 0 <= i < |r| ==> Matches(r[i], c)
  {
    Select(rows, FilterMask(c))
  }

  /**
   * Lines 88-98 step by step: copy the table, narrow it by the range
   * mask, and, when the checkbox is ticked, narrow it again to the
   * legendary rows.
   */
  method ApplyFilters(df: seq<Row>, c: Criteria) returns (dfFilt: seq<Row>)
    ensures dfFilt == Filtered(df, c)
  {
    dfFilt := df;
    dfFilt := Select(dfFilt, RangeMask(c));
    if c.legendaryOnly {
      dfFilt := Select(dfFilt, IsLegendary);
      SelectThenSelect(df, RangeMask(c), IsLegendary, FilterMask(c));
    } else {
      SelectThenSelect(df, RangeMask(c), _ => true, FilterMask(c));
      SelectKeepsAll(dfFilt, _ => true);
    }
  }

  /**
   * The filtered table keeps, in their original order, exactly the rows
   * that lie within every bound (inclusive) and, when the checkbox is
   * ticked, are legendary.
   */
  lemma FilteredSpec(rows: seq<Row>, c: Criteria)
    ensures IsSubsequence(Filtered(rows, c), rows)
    ensures |Filtered(rows, c)| == CountIf(rows, FilterMask(c))
    ensures forall row :: row in Filtered(rows, c) <==> row in rows && Matches(row, c)
    ensures forall i :: 0 <= i < |Filtered(rows, c)| ==>
      var row := Filtered(rows, c)[i];
      && c.minAc <= row.monster.ac <= c.maxAc
      && c.minHp <= row.monster.hp <= c.maxHp
      && row.crNum.Some? && c.minCr <= row.crNum.value <= c.maxCr
      && (c.legendaryOnly ==> row.monster.legendary == Some("Legendary"))
  {
    SelectIsSubsequence(rows, FilterMask(c));
  }

  /** Filtering an already filtered table with the same criteria changes nothing. */
  lemma FilterIdempotent(rows: seq<Row>, c: Criteria)
    ensures Filtered(Filtered(rows, c), c) == Filtered(rows, c)
  {
    SelectIdempotent(rows, FilterMask(c));
  }

  /** A row whose CR did not parse never survives the filter, whatever the bounds. */
  lemma MissingCrNeverKept(rows: seq<Row>, c: Criteria)
    ensures forall row :: row in Filtered(rows, c) ==> row.crNum.Some?
  {
  }

  /** The row has a parsed CR. */
  predicate HasCr(row: Row) {
    row.crNum.Some?
  }

  /**
   * With bounds spanning every row's AC, HP and (parsed) CR and the
   * checkbox off, the filter keeps exactly the rows whose CR parsed:
   * rows with a missing `cr_num` are dropped even by the widest bounds.
   */
  lemma FullRangeKeepsParsedRows(rows: seq<Row>, c: Criteria)
    requires !c.legendaryOnly
    requires forall i :: 0 <= i < |rows| ==>
      && c.minAc <= rows[i].monster.ac <= c.maxAc
      && c.minHp <= rows[i].monster.hp <= c.maxHp
      && (rows[i].crNum.Some? ==> c.minCr <= rows[i].crNum.value <= c.maxCr)
    ensures Filtered(rows, c) == Select(rows, HasCr)
  {
    SelectSameOn(rows, FilterMask(c), HasCr);
  }

  /** `a` and `b` are the same table except, possibly, for the `legendary` column. */
  predicate SameButLegendary(a: seq<Row>, b: seq<Row>) {
    && |a| == |b|
    && forall i :: 0 <= i < |a| ==>
      a[i].(monster := a[i].monster.(legendary := b[i].monster.legendary)) == b[i]
  }

  /**
   * With the checkbox off the `legendary` column has no effect: tables
   * that differ only there filter to tables that differ only there.
   */
  lemma {:induction false} LegendaryIgnoredWhenOff(a: seq<Row>, b: seq<Row>, c: Criteria)
    requires !c.legendaryOnly && SameButLegendary(a, b)
    ensures SameButLegendary(Filtered(a, c), Filtered(b, c))
  {
    if a != [] {
      assert SameButLegendary(a[1..], b[1..]);
      LegendaryIgnoredWhenOff(a[1..], b[1..], c);
      var fa, fb := Filtered(a[1..], c), Filtered(b[1..], c);
      assert a[0].(monster := a[0].monster.(legendary := b[0].monster.legendary)) == b[0];
      assert Matches(a[0], c) == Matches(b[0], c);
      if Matches(a[0], c) {
        assert Filtered(a, c) == [a[0]] + fa && Filtered(b, c) == [b[0]] + fb;
        SameButLegendaryCons(a[0], b[0], fa, fb);
      } else {
        assert Filtered(a, c) == fa && Filtered(b, c) == fb;
      }
    }
  }

  /** Prepending rows that differ only in `legendary` keeps two tables so related. */
  lemma SameButLegendaryCons(x: Row, y: Row, a: seq<Row>, b: seq<Row>)
    requires x.(monster := x.monster.(legendary := y.monster.legendary)) == y
    requires SameButLegendary(a, b)
    ensures SameButLegendary([x] + a, [y] + b)
  {
    forall i | 0 <= i < |[x] + a|
      ensures ([x] + a)[i].(monster := ([x] + a)[i].monster.(legendary := ([y] + b)[i].monster.legendary)) == ([y] + b)[i]
    {
      if i > 0 {
        assert ([x] + a)[i] == a[i - 1] && ([y] + b)[i] == b[i - 1];
      }
    }
  }

  /** Example: bounds AC 10..10 keep the AC-10 monster and drop the AC-11 one. */
  lemma ExactAcExample(x: Row, y: Row, c: Criteria)
    requires x.monster.ac == 10 && y.monster.ac == 11
    requires c.minAc == 10 && c.maxAc == 10 && !c.legendaryOnly
    requires Matches(x, c)
    ensures Filtered([x, y], c) == [x]
  {
    assert [x, y][1..] == [y] && [y][1..] == [];
    assert Select([y], FilterMask(c)) == [];
    assert Select([x, y], FilterMask(c)) == [x] + Select([y], FilterMask(c));
  }
}
