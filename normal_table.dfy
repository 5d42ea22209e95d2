/**
 * `tableSnd` of test/utils.js: the standard normal distribution function
 * read from a fixed table of 490 values at steps of 0.01 (x = 0.00 .. 4.89),
 * with linear interpolation between neighbouring entries, the constant 1
 * from index 447 on, and mirroring for negative arguments.
 *
 * The arithmetic is exact (`real`); the source computes in IEEE doubles.
 * The source's index `parseInt((ux - 0.00) / 0.01)` is modelled as the
 * floor of ux / 0.01.
 */
module NormalTable {
  import opened RealFacts

  // The table, one constant per source line: row r holds the entries for
  // x = r / 10 + c / 100, c = 0 .. 9.
  const Row00: seq<real> := [0.50000, 0.50399, 0.50798, 0.51197, 0.51595, 0.51994, 0.52392, 0.52790, 0.53188, 0.53586]
  const Row01: seq<real> := [0.53983, 0.54380, 0.54776, 0.55172, 0.55567, 0.55962, 0.56356, 0.56749, 0.57142, 0.57535]
  const Row02: seq<real> := [0.57926, 0.58317, 0.58706, 0.59095, 0.59483, 0.59871, 0.60257, 0.60642, 0.61026, 0.61409]
  const Row03: seq<real> := [0.61791, 0.62172, 0.62552, 0.62930, 0.63307, 0.63683, 0.64058, 0.64431, 0.64803, 0.65173]
  const Row04: seq<real> := [0.65542, 0.65910, 0.66276, 0.66640, 0.67003, 0.67364, 0.67724, 0.68082, 0.68439, 0.68793]
  const Row05: seq<real> := [0.69146, 0.69497, 0.69847, 0.70194, 0.70540, 0.70884, 0.71226, 0.71566, 0.71904, 0.72240]
  const Row06: seq<real> := [0.72575, 0.72907, 0.73237, 0.73565, 0.73891, 0.74215, 0.74537, 0.74857, 0.75175, 0.75490]
  const Row07: seq<real> := [0.75804, 0.76115, 0.76424, 0.76730, 0.77035, 0.77337, 0.77637, 0.77935, 0.78230, 0.78524]
  const Row08: seq<real> := [0.78814, 0.79103, 0.79389, 0.79673, 0.79955, 0.80234, 0.80511, 0.80785, 0.81057, 0.81327]
  const Row09: seq<real> := [0.81594, 0.81859, 0.82121, 0.82381, 0.82639, 0.82894, 0.83147, 0.83398, 0.83646, 0.83891]
  const Row10: seq<real> := [0.84134, 0.84375, 0.84614, 0.84849, 0.85083, 0.85314, 0.85543, 0.85769, 0.85993, 0.86214]
  const Row11: seq<real> := [0.86433, 0.86650, 0.86864, 0.87076, 0.87286, 0.87493, 0.87698, 0.87900, 0.88100, 0.88298]
  const Row12: seq<real> := [0.88493, 0.88686, 0.88877, 0.89065, 0.89251, 0.89435, 0.89617, 0.89796, 0.89973, 0.90147]
  const Row13: seq<real> := [0.90320, 0.90490, 0.90658, 0.90824, 0.90988, 0.91149, 0.91309, 0.91466, 0.91621, 0.91774]
  const Row14: seq<real> := [0.91924, 0.92073, 0.92220, 0.92364, 0.92507, 0.92647, 0.92785, 0.92922, 0.93056, 0.93189]
  const Row15: seq<real> := [0.93319, 0.93448, 0.93574, 0.93699, 0.93822, 0.93943, 0.94062, 0.94179, 0.94295, 0.94408]
  const Row16: seq<real> := [0.94520, 0.94630, 0.94738, 0.94845, 0.94950, 0.95053, 0.95154, 0.95254, 0.95352, 0.95449]
  const Row17: seq<real> := [0.95543, 0.95637, 0.95728, 0.95818, 0.95907, 0.95994, 0.96080, 0.96164, 0.96246, 0.96327]
  const Row18: seq<real> := [0.96407, 0.96485, 0.96562, 0.96638, 0.96712, 0.96784, 0.96856, 0.96926, 0.96995, 0.97062]
  const Row19: seq<real> := [0.97128, 0.97193, 0.97257, 0.97320, 0.97381, 0.97441, 0.97500, 0.97558, 0.97615, 0.97670]
  const Row20: seq<real> := [0.97725, 0.97778, 0.97831, 0.97882, 0.97932, 0.97982, 0.98030, 0.98077, 0.98124, 0.98169]
  const Row21: seq<real> := [0.98214, 0.98257, 0.98300, 0.98341, 0.98382, 0.98422, 0.98461, 0.98500, 0.98537, 0.98574]
  const Row22: seq<real> := [0.98610, 0.98645, 0.98679, 0.98713, 0.98745, 0.98778, 0.98809, 0.98840, 0.98870, 0.98899]
  const Row23: seq<real> := [0.98928, 0.98956, 0.98983, 0.99010, 0.99036, 0.99061, 0.99086, 0.99111, 0.99134, 0.99158]
  const Row24: seq<real> := [0.99180, 0.99202, 0.99224, 0.99245, 0.99266, 0.99286, 0.99305, 0.99324, 0.99343, 0.99361]
  const Row25: seq<real> := [0.99379, 0.99396, 0.99413, 0.99430, 0.99446, 0.99461, 0.99477, 0.99492, 0.99506, 0.99520]
  const Row26: seq<real> := [0.99534, 0.99547, 0.99560, 0.99573, 0.99585, 0.99598, 0.99609, 0.99621, 0.99632, 0.99643]
  const Row27: seq<real> := [0.99653, 0.99664, 0.99674, 0.99683, 0.99693, 0.99702, 0.99711, 0.99720, 0.99728, 0.99736]
  const Row28: seq<real> := [0.99744, 0.99752, 0.99760, 0.99767, 0.99774, 0.99781, 0.99788, 0.99795, 0.99801, 0.99807]
  const Row29: seq<real> := [0.99813, 0.99819, 0.99825, 0.99831, 0.99836, 0.99841, 0.99846, 0.99851, 0.99856, 0.99861]
  const Row30: seq<real> := [0.99865, 0.99869, 0.99874, 0.99878, 0.99882, 0.99886, 0.99889, 0.99893, 0.99896, 0.99900]
  const Row31: seq<real> := [0.99903, 0.99906, 0.99910, 0.99913, 0.99916, 0.99918, 0.99921, 0.99924, 0.99926, 0.99929]
  const Row32: seq<real> := [0.99931, 0.99934, 0.99936, 0.99938, 0.99940, 0.99942, 0.99944, 0.99946, 0.99948, 0.99950]
  const Row33: seq<real> := [0.99952, 0.99953, 0.99955, 0.99957, 0.99958, 0.99960, 0.99961, 0.99962, 0.99964, 0.99965]
  const Row34: seq<real> := [0.99966, 0.99968, 0.99969, 0.99970, 0.99971, 0.99972, 0.99973, 0.99974, 0.99975, 0.99976]
  const Row35: seq<real> := [0.99977, 0.99978, 0.99978, 0.99979, 0.99980, 0.99981, 0.99981, 0.99982, 0.99983, 0.99983]
  const Row36: seq<real> := [0.99984, 0.99985, 0.99985, 0.99986, 0.99986, 0.99987, 0.99987, 0.99988, 0.99988, 0.99989]
  const Row37: seq<real> := [0.99989, 0.99990, 0.99990, 0.99990, 0.99991, 0.99991, 0.99992, 0.99992, 0.99992, 0.99992]
  const Row38: seq<real> := [0.99993, 0.99993, 0.99993, 0.99994, 0.99994, 0.99994, 0.99994, 0.99995, 0.99995, 0.99995]
  const Row39: seq<real> := [0.99995, 0.99995, 0.99996, 0.99996, 0.99996, 0.99996, 0.99996, 0.99996, 0.99997, 0.99997]
  const Row40: seq<real> := [0.99997, 0.99997, 0.99997, 0.99997, 0.99997, 0.99997, 0.99998, 0.99998, 0.99998, 0.99998]
  const Row41: seq<real> := [0.99998, 0.99998, 0.99998, 0.99998, 0.99998, 0.99998, 0.99998, 0.99998, 0.99999, 0.99999]
  const Row42: seq<real> := [0.99999, 0.99999, 0.99999, 0.99999, 0.99999, 0.99999, 0.99999, 0.99999, 0.99999, 0.99999]
  const Row43: seq<real> := [0.99999, 0.99999, 0.99999, 0.99999, 0.99999, 0.99999, 0.99999, 0.99999, 0.99999, 0.99999]
  const Row44: seq<real> := [0.99999, 0.99999, 1.00000, 1.00000, 1.00000, 1.00000, 1.00000, 1.00000, 1.00000, 1.00000]
  const Row45: seq<real> := [1.00000, 1.00000, 1.00000, 1.00000, 1.00000, 1.00000, 1.00000, 1.00000, 1.00000, 1.00000]
  const Row46: seq<real> := [1.00000, 1.00000, 1.00000, 1.00000, 1.00000, 1.00000, 1.00000, 1.00000, 1.00000, 1.00000]
  const Row47: seq<real> := [1.00000, 1.00000, 1.00000, 1.00000, 1.00000, 1.00000, 1.00000, 1.00000, 1.00000, 1.00000]
  const Row48: seq<real> := [1.00000, 1.00000, 1.00000, 1.00000, 1.00000, 1.00000, 1.00000, 1.00000, 1.00000, 1.00000]

  /**
   * Row r of the table, by a search over the 49 row constants: one sequence
   * comprehension over a single 490-entry constant is far costlier to reason
   * about, and separate rows keep each sortedness lemma small.
   */
  function Row(r: nat): (row: seq<real>)
    requires r < 49
    ensures |row| == 10
  {
    if r < 24 then
      if r < 12 then
        if r < 6 then
          if r < 3 then
            if r < 1 then
              Row00
            else
              if r < 2 then
                Row01
              else
                Row02
          else
            if r < 4 then
              Row03
            else
              if r < 5 then
                Row04
              else
                Row05
        else
          if r < 9 then
            if r < 7 then
              Row06
            else
              if r < 8 then
                Row07
              else
                Row08
          else
            if r < 10 then
              Row09
            else
              if r < 11 then
                Row10
              else
                Row11
      else
        if r < 18 then
          if r < 15 then
            if r < 13 then
              Row12
            else
              if r < 14 then
                Row13
              else
                Row14
          else
            if r < 16 then
              Row15
            else
              if r < 17 then
                Row16
              else
                Row17
        else
          if r < 21 then
            if r < 19 then
              Row18
            else
              if r < 20 then
                Row19
              else
                Row20
          else
            if r < 22 then
              Row21
            else
              if r < 23 then
                Row22
              else
                Row23
    else
      if r < 36 then
        if r < 30 then
          if r < 27 then
            if r < 25 then
              Row24
            else
              if r < 26 then
                Row25
              else
                Row26
          else
            if r < 28 then
              Row27
            else
              if r < 29 then
                Row28
              else
                Row29
        else
          if r < 33 then
            if r < 31 then
              Row30
            else
              if r < 32 then
                Row31
              else
                Row32
          else
            if r < 34 then
              Row33
            else
              if r < 35 then
                Row34
              else
                Row35
      else
        if r < 42 then
          if r < 39 then
            if r < 37 then
              Row36
            else
              if r < 38 then
                Row37
              else
                Row38
          else
            if r < 40 then
              Row39
            else
              if r < 41 then
                Row40
              else
                Row41
        else
          if r < 45 then
            if r < 43 then
              Row42
            else
              if r < 44 then
                Row43
              else
                Row44
          else
            if r < 47 then
              if r < 46 then
                Row45
              else
                Row46
            else
              if r < 48 then
                Row47
              else
                Row48
  }

  /** The table as the source indexes it: entry n is Row(n / 10)[n % 10]. */
  function Table(): (t: seq<real>)
    ensures |t| == 490
  {
    seq(490, n requires 0 <= n < 490 => Row(n / 10)[n % 10])
  }

  /** A row whose ten entries never decrease. */
  predicate RowSorted(row: seq<real>) {
    |row| == 10 && forall c :: 0 <= c < 9 ==> row[c] <= row[c + 1]
  }

  lemma RowsSorted00To09()
    ensures RowSorted(Row00)
    ensures RowSorted(Row01)
    ensures RowSorted(Row02)
    ensures RowSorted(Row03)
    ensures RowSorted(Row04)
    ensures RowSorted(Row05)
    ensures RowSorted(Row06)
    ensures RowSorted(Row07)
    ensures RowSorted(Row08)
    ensures RowSorted(Row09)
  {
  }

  lemma RowsSorted10To19()
    ensures RowSorted(Row10)
    ensures RowSorted(Row11)
    ensures RowSorted(Row12)
    ensures RowSorted(Row13)
    ensures RowSorted(Row14)
    ensures RowSorted(Row15)
    ensures RowSorted(Row16)
    ensures RowSorted(Row17)
    ensures RowSorted(Row18)
    ensures RowSorted(Row19)
  {
  }

  lemma RowsSorted20To29()
    ensures RowSorted(Row20)
    ensures RowSorted(Row21)
    ensures RowSorted(Row22)
    ensures RowSorted(Row23)
    ensures RowSorted(Row24)
    ensures RowSorted(Row25)
    ensures RowSorted(Row26)
    ensures RowSorted(Row27)
    ensures RowSorted(Row28)
    ensures RowSorted(Row29)
  {
  }

  lemma RowsSorted30To39()
    ensures RowSorted(Row30)
    ensures RowSorted(Row31)
    ensures RowSorted(Row32)
    ensures RowSorted(Row33)
    ensures RowSorted(Row34)
    ensures RowSorted(Row35)
    ensures RowSorted(Row36)
    ensures RowSorted(Row37)
    ensures RowSorted(Row38)
    ensures RowSorted(Row39)
  {
  }

  lemma RowsSorted40To48()
    ensures RowSorted(Row40)
    ensures RowSorted(Row41)
    ensures RowSorted(Row42)
    ensures RowSorted(Row43)
    ensures RowSorted(Row44)
    ensures RowSorted(Row45)
    ensures RowSorted(Row46)
    ensures RowSorted(Row47)
    ensures RowSorted(Row48)
  {
  }

  /** The last entry of each row is at most the first of the next. */
  lemma RowsLinked()
    ensures Row00[9] <= Row01[0]
    ensures Row01[9] <= Row02[0]
    ensures Row02[9] <= Row03[0]
    ensures Row03[9] <= Row04[0]
    ensures Row04[9] <= Row05[0]
    ensures Row05[9] <= Row06[0]
    ensures Row06[9] <= Row07[0]
    ensures Row07[9] <= Row08[0]
    ensures Row08[9] <= Row09[0]
    ensures Row09[9] <= Row10[0]
    ensures Row10[9] <= Row11[0]
    ensures Row11[9] <= Row12[0]
    ensures Row12[9] <= Row13[0]
    ensures Row13[9] <= Row14[0]
    ensures Row14[9] <= Row15[0]
    ensures Row15[9] <= Row16[0]
    ensures Row16[9] <= Row17[0]
    ensures Row17[9] <= Row18[0]
    ensures Row18[9] <= Row19[0]
    ensures Row19[9] <= Row20[0]
    ensures Row20[9] <= Row21[0]
    ensures Row21[9] <= Row22[0]
    ensures Row22[9] <= Row23[0]
    ensures Row23[9] <= Row24[0]
    ensures Row24[9] <= Row25[0]
    ensures Row25[9] <= Row26[0]
    ensures Row26[9] <= Row27[0]
    ensures Row27[9] <= Row28[0]
    ensures Row28[9] <= Row29[0]
    ensures Row29[9] <= Row30[0]
    ensures Row30[9] <= Row31[0]
    ensures Row31[9] <= Row32[0]
    ensures Row32[9] <= Row33[0]
    ensures Row33[9] <= Row34[0]
    ensures Row34[9] <= Row35[0]
    ensures Row35[9] <= Row36[0]
    ensures Row36[9] <= Row37[0]
    ensures Row37[9] <= Row38[0]
    ensures Row38[9] <= Row39[0]
    ensures Row39[9] <= Row40[0]
    ensures Row40[9] <= Row41[0]
    ensures Row41[9] <= Row42[0]
    ensures Row42[9] <= Row43[0]
    ensures Row43[9] <= Row44[0]
    ensures Row44[9] <= Row45[0]
    ensures Row45[9] <= Row46[0]
    ensures Row46[9] <= Row47[0]
    ensures Row47[9] <= Row48[0]
  {
  }

  lemma RowSortedAt(r: nat)
    requires r < 49
    ensures RowSorted(Row(r))
  {
    RowsSorted00To09();
    RowsSorted10To19();
    RowsSorted20To29();
    RowsSorted30To39();
    RowsSorted40To48();
  }

  lemma RowLinkAt(r: nat)
    requires r < 48
    ensures Row(r)[9] <= Row(r + 1)[0]
  {
    RowsLinked();
  }

  /** Neighbouring entries never decrease. */
  lemma TableStep(i: nat)
    requires i + 1 < |Table()|
    ensures Table()[i] <= Table()[i + 1]
  {
    var r, c := i / 10, i % 10;
    if c < 9 {
      assert (i + 1) / 10 == r && (i + 1) % 10 == c + 1;
      RowSortedAt(r);
    } else {
      assert (i + 1) / 10 == r + 1 && (i + 1) % 10 == 0;
      RowLinkAt(r);
    }
  }

  /** The table is non-decreasing. */
  lemma {:induction false} TableMonotone(a: nat, b: nat)
    requires a <= b < |Table()|
    ensures Table()[a] <= Table()[b]
    decreases b - a
  {
    if a < b {
      TableStep(a);
      TableMonotone(a + 1, b);
    }
  }

  /** 490 entries, starting at 0.5; 0.99999 at index 441 and 1 from index 442. */
  lemma TableLandmarks()
    ensures |Table()| == 490
    ensures Table()[0] == 0.5 && Table()[441] == 0.99999
    ensures Table()[442] == 1.0 && Table()[489] == 1.0
  {
    assert Table()[0] == Row(0)[0];
    assert Table()[441] == Row(44)[1];
    assert Table()[442] == Row(44)[2];
    assert Table()[489] == Row(48)[9];
  }

  /** Every entry lies in [0.5, 1]. */
  lemma TableBounds(i: nat)
    requires i < |Table()|
    ensures 0.5 <= Table()[i] <= 1.0
  {
    TableLandmarks();
    TableMonotone(0, i);
    TableMonotone(i, 489);
  }

  /** An entry is 1 exactly from index 442 on. */
  lemma TableSaturated(i: nat)
    requires i < |Table()|
    ensures Table()[i] == 1.0 <==> i >= 442
  {
    TableLandmarks();
    TableBounds(i);
    if i >= 442 {
      TableMonotone(442, i);
    } else {
      TableMonotone(i, 441);
    }
  }

  /**
   * The shape of the table that the lookup relies on: 490 entries from 0.5,
   * never decreasing, and equal to 1 exactly from index 442 on.
   */
  predicate TableShape(t: seq<real>) {
    && |t| == 490
    && t[0] == 0.5
    && (forall a, b :: 0 <= a <= b < |t| ==> t[a] <= t[b])
    && (forall i :: 0 <= i < |t| ==> (t[i] == 1.0 <==> i >= 442))
  }

  lemma TableHasShape()
    ensures TableShape(Table())
  {
    TableLandmarks();
    forall a, b | 0 <= a <= b < |Table()|
      ensures Table()[a] <= Table()[b]
    {
      TableMonotone(a, b);
    }
    forall i | 0 <= i < |Table()|
      ensures Table()[i] == 1.0 <==> i >= 442
    {
      TableSaturated(i);
    }
  }

  /** Entries of a table of that shape lie in [0.5, 1]. */
  lemma ShapeBounds(t: seq<real>, i: nat)
    requires TableShape(t) && i < |t|
    ensures 0.5 <= t[i] <= 1.0
  {
    assert t[0] <= t[i] <= t[489];
  }

  // ------------------------------------------------------------- tableSnd

  /** Interpolation runs on segments i < 447; from there on the result is 1. */
  const Cutoff: nat := 447

  /** `parseInt((ux - 0.00) / 0.01)` for ux >= 0: the index of the step at or below ux. */
  function SegmentIndex(ux: real): (i: nat)
    requires ux >= 0.0
    ensures i as real <= ux / 0.01 < i as real + 1.0
  {
    (ux / 0.01).Floor
  }

  /** `v0 + (v1 - v0) * (ux - i * 0.01) / 0.01` with v0, v1 the entries i and i + 1. */
  function Segment(t: seq<real>, i: nat, ux: real): real
    requires i + 1 < |t|
  {
    t[i] + (t[i + 1] - t[i]) * (ux - i as real * 0.01) / 0.01
  }

  /**
   * `v0` of tableSnd for |x| = ux: interpolated on segment i when i < 447,
   * so that only entries up to 447 of the 490 are read, and 1 otherwise.
   */
  function Interpolate(t: seq<real>, ux: real): (v: real)
    requires TableShape(t) && ux >= 0.0
    ensures 0.5 <= v <= 1.0
  {
    var i := SegmentIndex(ux);
    if i < Cutoff then
      SegmentBetween(t, i, ux);
      ShapeBounds(t, i);
      ShapeBounds(t, i + 1);
      Segment(t, i, ux)
    else 1.0
  }

  /** The body of tableSnd over a table t: the lookup for |x|, mirrored as 1 - v0 when x < 0. */
  function Lookup(t: seq<real>, x: real): (v: real)
    requires TableShape(t)
    ensures 0.0 <= v <= 1.0
    ensures x >= 0.0 ==> v >= 0.5
    ensures x < 0.0 ==> v <= 0.5
  {
    var ux := if x < 0.0 then -x else x;
    var v0 := Interpolate(t, ux);
    if x < 0.0 then 1.0 - v0 else v0
  }

  /** tableSnd(x): the lookup over the source's table. */
  function TableSnd(x: real): (v: real)
    ensures 0.0 <= v <= 1.0
    ensures x >= 0.0 ==> v >= 0.5
    ensures x < 0.0 ==> v <= 0.5
  {
    TableHasShape();
    Lookup(Table(), x)
  }

  // ------------------------------------------------------ interpolation facts

  /** How far ux lies past the knot i * 0.01, in table steps. */
  function Fraction(i: nat, ux: real): real {
    (ux - i as real * 0.01) / 0.01
  }

  /** The point a fraction f of the way from lo to hi. */
  function Lerp(lo: real, hi: real, f: real): real {
    lo + (hi - lo) * f
  }

  lemma LerpForm(v0: real, v1: real, d: real)
    ensures v0 + (v1 - v0) * d / 0.01 == Lerp(v0, v1, d / 0.01)
  {
  }

  /** The source's `(v1 - v0) * d / 0.01` is v1 - v0 times the covered fraction of the step. */
  lemma SegmentAsLerp(t: seq<real>, i: nat, ux: real)
    requires i + 1 < |t|
    ensures Segment(t, i, ux) == Lerp(t[i], t[i + 1], Fraction(i, ux))
  {
    LerpForm(t[i], t[i + 1], ux - i as real * 0.01);
  }

  lemma SegmentFraction(i: nat, ux: real)
    requires ux >= 0.0 && SegmentIndex(ux) == i
    ensures 0.0 <= Fraction(i, ux) < 1.0
  {
  }

  lemma LerpBetween(lo: real, hi: real, f: real)
    requires lo <= hi && 0.0 <= f <= 1.0
    ensures lo <= Lerp(lo, hi, f) <= hi
  {
    MulNonNegative(hi - lo, f);
    MulNonNegative(hi - lo, 1.0 - f);
    assert (hi - lo) * (1.0 - f) == (hi - lo) - (hi - lo) * f;
  }

  lemma LerpMonotone(lo: real, hi: real, f: real, g: real)
    requires lo <= hi && f <= g
    ensures Lerp(lo, hi, f) <= Lerp(lo, hi, g)
  {
    MulNonNegative(hi - lo, g - f);
    assert (hi - lo) * (g - f) == (hi - lo) * g - (hi - lo) * f;
  }

  lemma LerpBelowOne(lo: real, hi: real, f: real)
    requires lo <= hi <= 1.0 && lo < 1.0 && 0.0 <= f < 1.0
    ensures Lerp(lo, hi, f) < 1.0
  {
    MulNonNegative(1.0 - hi, f);
    assert (1.0 - hi) * f == (1.0 - lo) * f - (hi - lo) * f;
    MulPositive(1.0 - lo, 1.0 - f);
    assert (1.0 - lo) * (1.0 - f) == (1.0 - lo) - (1.0 - lo) * f;
  }

  /** On its own segment the interpolation stays between the two entries it joins. */
  lemma SegmentBetween(t: seq<real>, i: nat, ux: real)
    requires TableShape(t) && i < Cutoff && ux >= 0.0 && SegmentIndex(ux) == i
    ensures t[i] <= Segment(t, i, ux) <= t[i + 1]
  {
    SegmentFraction(i, ux);
    SegmentAsLerp(t, i, ux);
    LerpBetween(t[i], t[i + 1], Fraction(i, ux));
  }

  lemma SegmentIndexMonotone(a: real, b: real)
    requires 0.0 <= a <= b
    ensures SegmentIndex(a) <= SegmentIndex(b)
  {
  }

  // ------------------------------------------ the lookup over any such table

  /** The lookup passes through every entry: at ux = k * 0.01 it returns entry k. */
  lemma InterpolateAtKnot(t: seq<real>, k: nat)
    requires TableShape(t) && k < |t|
    ensures Interpolate(t, k as real * 0.01) == t[k]
  {
    var ux := k as real * 0.01;
    assert ux / 0.01 == k as real;
    assert SegmentIndex(ux) == k;
    if k < Cutoff {
      SegmentAsLerp(t, k, ux);
      assert Fraction(k, ux) == 0.0;
    } else {
      assert t[k] == 1.0;
    }
  }

  /**
   * Continuity: segment k - 1 ends at the value the lookup takes at the next
   * knot, the cut-off at 447 included, so the pieces join without a jump.
   */
  lemma SegmentsMeet(t: seq<real>, k: nat)
    requires TableShape(t) && 1 <= k <= Cutoff
    ensures Segment(t, k - 1, k as real * 0.01) == Interpolate(t, k as real * 0.01)
  {
    SegmentAsLerp(t, k - 1, k as real * 0.01);
    assert Fraction(k - 1, k as real * 0.01) == 1.0;
    InterpolateAtKnot(t, k);
  }

  /** The lookup reaches 1 exactly from ux = 4.42 on. */
  lemma InterpolateSaturates(t: seq<real>, ux: real)
    requires TableShape(t) && ux >= 0.0
    ensures Interpolate(t, ux) == 1.0 <==> ux >= 4.42
  {
    var i := SegmentIndex(ux);
    if i < Cutoff {
      SegmentFraction(i, ux);
      SegmentAsLerp(t, i, ux);
      ShapeBounds(t, i + 1);
      if ux >= 4.42 {
        assert i >= 442;
        assert t[i] == 1.0 && t[i + 1] == 1.0;
      } else {
        assert i <= 441;
        assert t[i] <= t[441] && t[441] != 1.0;
        assert t[i] <= t[i + 1];
        LerpBelowOne(t[i], t[i + 1], Fraction(i, ux));
      }
    }
  }

  /** The lookup never decreases as ux grows. */
  lemma InterpolateMonotone(t: seq<real>, a: real, b: real)
    requires TableShape(t) && 0.0 <= a <= b
    ensures Interpolate(t, a) <= Interpolate(t, b)
  {
    var i, j := SegmentIndex(a), SegmentIndex(b);
    SegmentIndexMonotone(a, b);
    if j < Cutoff {
      if i == j {
        SegmentAsLerp(t, i, a);
        SegmentAsLerp(t, i, b);
        assert t[i] <= t[i + 1];
        LerpMonotone(t[i], t[i + 1], Fraction(i, a), Fraction(i, b));
      } else {
        SegmentBetween(t, i, a);
        SegmentBetween(t, j, b);
        assert t[i + 1] <= t[j];
      }
    }
  }

  lemma LookupAtZero(t: seq<real>)
    requires TableShape(t)
    ensures Lookup(t, 0.0) == 0.5
  {
    InterpolateAtKnot(t, 0);
  }

  lemma LookupSymmetric(t: seq<real>, x: real)
    requires TableShape(t)
    ensures Lookup(t, -x) == 1.0 - Lookup(t, x)
  {
    if x == 0.0 {
      LookupAtZero(t);
    }
  }

  lemma LookupSaturates(t: seq<real>, x: real)
    requires TableShape(t)
    ensures Lookup(t, x) == 1.0 <==> x >= 4.42
    ensures Lookup(t, x) == 0.0 <==> x <= -4.42
  {
    if x >= 0.0 {
      InterpolateSaturates(t, x);
    } else {
      InterpolateSaturates(t, -x);
    }
  }

  lemma LookupMonotone(t: seq<real>, x: real, y: real)
    requires TableShape(t) && x <= y
    ensures Lookup(t, x) <= Lookup(t, y)
  {
    if 0.0 <= x {
      InterpolateMonotone(t, x, y);
    } else if y < 0.0 {
      InterpolateMonotone(t, -y, -x);
    }
  }

  // ------------------------------------------------ tableSnd over its table

  /** tableSnd(0) is 0.5. */
  lemma TableSndAtZero()
    ensures TableSnd(0.0) == 0.5
  {
    TableHasShape();
    LookupAtZero(Table());
  }

  /** tableSnd(-x) == 1 - tableSnd(x), for every x. */
  lemma TableSndSymmetric(x: real)
    ensures TableSnd(-x) == 1.0 - TableSnd(x)
  {
    TableHasShape();
    LookupSymmetric(Table(), x);
  }

  /** tableSnd is exactly 1 from 4.42 on and exactly 0 from -4.42 down, and nowhere else. */
  lemma TableSndSaturates(x: real)
    ensures TableSnd(x) == 1.0 <==> x >= 4.42
    ensures TableSnd(x) == 0.0 <==> x <= -4.42
  {
    TableHasShape();
    LookupSaturates(Table(), x);
  }

  /** tableSnd is non-decreasing, as a distribution function must be. */
  lemma TableSndMonotone(x: real, y: real)
    requires x <= y
    ensures TableSnd(x) <= TableSnd(y)
  {
    TableHasShape();
    LookupMonotone(Table(), x, y);
  }

  /** At x = k * 0.01 tableSnd returns table entry k, and 1 minus it at -x. */
  lemma TableSndAtKnot(k: nat)
    requires k < 490
    ensures TableSnd(k as real * 0.01) == Table()[k]
    ensures TableSnd(-(k as real * 0.01)) == 1.0 - Table()[k]
  {
    TableHasShape();
    InterpolateAtKnot(Table(), k);
    LookupSymmetric(Table(), k as real * 0.01);
  }

  /** No jump anywhere: each interpolation segment ends at the next knot's value. */
  lemma TableSndSegmentsMeet(k: nat)
    requires 1 <= k <= Cutoff
    ensures Segment(Table(), k - 1, k as real * 0.01) == TableSnd(k as real * 0.01)
  {
    TableHasShape();
    SegmentsMeet(Table(), k);
  }
}
