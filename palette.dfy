/**
 * categorize_highlight: the label of the palette colour nearest to a stroke
 * colour in Euclidean distance, the earliest entry winning a tie.
 *
 * Channels are exact reals. Distances are compared squared: the square root
 * is strictly monotone on non-negative reals (SqrtPreservesOrder), so the
 * minimum and the ties are the same as with the root taken.
 */
module Palette {
  import opened Wrappers

  /** A reference colour and the category it stands for. */
  datatype Entry = Entry(reference: seq<real>, category: string)

  /** The palette in dictionary insertion order, which is the order min scans. */
  const LightBlue: seq<real> := [0.5608, 0.8706, 0.9765]
  const Yellow: seq<real> := [1.0, 0.9412, 0.4]
  const Green: seq<real> := [0.4902, 0.9412, 0.4]
  const Pink: seq<real> := [0.9686, 0.6, 0.8196]
  const Red: seq<real> := [0.9216, 0.2863, 0.2863]

  const Table: seq<Entry> := [
    Entry(LightBlue, "Ideas & Insights"),
    Entry(Yellow, "General Notes"),
    Entry(Green, "Action Items / To-Do"),
    Entry(Pink, "Quotes & References"),
    Entry(Red, "Critical Issues / Warnings")
  ]

  const Labels: set<string> := {
    "Ideas & Insights", "General Notes", "Action Items / To-Do",
    "Quotes & References", "Critical Issues / Warnings"
  }

  /** The text of the IndexError raised when a colour has more channels than a reference. */
  const IndexErrorMessage: string := "tuple index out of range"

  /** A square is non-negative, and zero only for zero. */
  lemma Square(c: real)
    ensures c * c >= 0.0
    ensures c * c == 0.0 <==> c == 0.0
  {
    if c < 0.0 {
      SquareStrict(0.0, -c);
      assert c * c == (-c) * (-c);
    } else if c > 0.0 {
      SquareStrict(0.0, c);
    }
  }

  /** Squaring is strictly increasing on the non-negative reals. */
  lemma SquareStrict(a: real, b: real)
    requires 0.0 <= a < b
    ensures a * a < b * b
  {
    var low, mid, high := a * a, a * b, b * b;
    assert low <= mid;
    assert mid < high;
  }

  /**
   * The squared distance over the channels the colour has, as the generator
   * in categorize_highlight sums them: zero exactly when the colour agrees
   * with the reference on each of them.
   */
  function SqDist(color: seq<real>, reference: seq<real>): (d: real)
    requires |color| <= |reference|
    ensures d >= 0.0
    ensures d == 0.0 <==> color == reference[..|color|]
  {
    if color == [] then 0.0
    else
      var rest := SqDist(color[1..], reference[1..]);
      var c := color[0] - reference[0];
      assert color == [color[0]] + color[1..];
      assert reference[..|color|] == [reference[0]] + reference[1..][..|color| - 1];
      Square(c);
      assert color == reference[..|color|] <==> c == 0.0 && color[1..] == reference[1..][..|color| - 1];
      c * c + rest
  }

  /** The squared distances from a colour to the entries, in palette order: the keys min compares. */
  function Distances(entries: seq<Entry>, color: seq<real>): (ds: seq<real>)
    requires forall j :: 0 <= j < |entries| ==> |color| <= |entries[j].reference|
    ensures |ds| == |entries|
    ensures forall j :: 0 <= j < |entries| ==> ds[j] == SqDist(color, entries[j].reference)
  {
    seq(|entries|, j requires 0 <= j < |entries| => SqDist(color, entries[j].reference))
  }

  /** Among the first n keys, key k is no larger than any other and strictly smaller than every key before it. */
  predicate IsFirstMinAmong(ds: seq<real>, n: nat, k: nat)
    requires n <= |ds|
  {
    k < n &&
    (forall j :: 0 <= j < n ==> ds[k] <= ds[j]) &&
    (forall j :: 0 <= j < k ==> ds[k] < ds[j])
  }

  /**
   * Python's min over the first n keys: scan in order, keep the first one,
   * and replace it only by a strictly smaller one.
   */
  function FirstMinAmong(ds: seq<real>, n: nat): (k: nat)
    requires 0 < n <= |ds|
    ensures IsFirstMinAmong(ds, n, k)
    decreases n
  {
    if n == 1 then 0
    else
      var k := FirstMinAmong(ds, n - 1);
      if ds[n - 1] < ds[k] then n - 1 else k
  }

  /** The two conditions of IsFirstMinAmong pick out a single index. */
  lemma FirstMinIsUnique(ds: seq<real>, n: nat, k1: nat, k2: nat)
    requires n <= |ds|
    requires IsFirstMinAmong(ds, n, k1) && IsFirstMinAmong(ds, n, k2)
    ensures k1 == k2
  {
    assert ds[k1] <= ds[k2] && ds[k2] <= ds[k1];
  }

  /** Entry k is nearest to the colour, and the first entry to be so. */
  predicate IsNearest(entries: seq<Entry>, color: seq<real>, k: nat)
    requires forall j :: 0 <= j < |entries| ==> |color| <= |entries[j].reference|
  {
    IsFirstMinAmong(Distances(entries, color), |entries|, k)
  }

  /** min over every key of the palette. */
  function BestIndex(entries: seq<Entry>, color: seq<real>): (k: nat)
    requires |entries| > 0
    requires forall j :: 0 <= j < |entries| ==> |color| <= |entries[j].reference|
    ensures IsNearest(entries, color, k)
  {
    FirstMinAmong(Distances(entries, color), |entries|)
  }

  /** The nearest entry is unique. */
  lemma NearestIsUnique(entries: seq<Entry>, color: seq<real>, k1: nat, k2: nat)
    requires forall j :: 0 <= j < |entries| ==> |color| <= |entries[j].reference|
    requires IsNearest(entries, color, k1) && IsNearest(entries, color, k2)
    ensures k1 == k2
  {
    FirstMinIsUnique(Distances(entries, color), |entries|, k1, k2);
  }

  lemma TableShape()
    ensures |Table| == 5
    ensures forall j :: 0 <= j < |Table| ==> |Table[j].reference| == 3
  {
  }

  /**
   * categorize_highlight. A colour with more than three channels makes the
   * generator index past the end of a reference triple and raise IndexError.
   */
  function Classify(color: seq<real>): (r: Result<string>)
    ensures r.Err? <==> |color| > 3
    ensures r.Err? ==> r.msg == IndexErrorMessage
    ensures r.Ok? ==> exists k: nat :: IsNearest(Table, color, k) && r.value == Table[k].category
  {
    TableShape();
    if |color| > 3 then Err(IndexErrorMessage)
    else Ok(Table[BestIndex(Table, color)].category)
  }

  /** The result is always one of the five category labels. */
  lemma ClassifyRange(color: seq<real>)
    requires |color| <= 3
    ensures Classify(color).Ok? && Classify(color).value in Labels
  {
    TableShape();
    var k := BestIndex(Table, color);
    assert Classify(color) == Ok(Table[k].category);
  }

  /** Comparing squared distances is comparing distances: the root keeps order and equality. */
  lemma SqrtPreservesOrder(d1: real, d2: real)
    requires d1 >= 0.0 && d2 >= 0.0
    ensures d1 < d2 <==> d1 * d1 < d2 * d2
    ensures d1 == d2 <==> d1 * d1 == d2 * d2
  {
    if d1 < d2 {
      SquareStrict(d1, d2);
    } else if d2 < d1 {
      SquareStrict(d2, d1);
    }
  }

  /**
   * Keys whose squares are the squared distances pick the same first minimum:
   * min over the `** 0.5` distances chooses the entry min over squared distances does.
   */
  lemma RootsPickSameMin(ds: seq<real>, roots: seq<real>, n: nat, k: nat)
    requires n <= |ds| && |roots| == |ds|
    requires forall j :: 0 <= j < n ==> roots[j] >= 0.0 && roots[j] * roots[j] == ds[j]
    ensures IsFirstMinAmong(roots, n, k) <==> IsFirstMinAmong(ds, n, k)
  {
    if k < n {
      forall j | 0 <= j < n
        ensures (roots[k] < roots[j] <==> ds[k] < ds[j]) && (roots[k] <= roots[j] <==> ds[k] <= ds[j])
      {
        SqrtPreservesOrder(roots[k], roots[j]);
      }
    }
  }

  /** The palette scan with the root taken agrees with the scan on squared distances. */
  lemma RootsPickNearest(entries: seq<Entry>, color: seq<real>, roots: seq<real>, k: nat)
    requires forall j :: 0 <= j < |entries| ==> |color| <= |entries[j].reference|
    requires |roots| == |entries|
    requires forall j :: 0 <= j < |entries| ==> roots[j] >= 0.0 && roots[j] * roots[j] == SqDist(color, entries[j].reference)
    ensures IsFirstMinAmong(roots, |entries|, k) <==> IsNearest(entries, color, k)
  {
    RootsPickSameMin(Distances(entries, color), roots, |entries|, k);
  }

  /** Classify returns the label min picks with the Euclidean distances themselves as keys. */
  lemma ClassifyByRoots(color: seq<real>, roots: seq<real>)
    requires |color| <= 3
    requires forall j :: 0 <= j < |Table| ==> |color| <= |Table[j].reference|
    requires |roots| == |Table|
    requires forall j :: 0 <= j < |Table| ==> roots[j] >= 0.0 && roots[j] * roots[j] == SqDist(color, Table[j].reference)
    ensures Classify(color) == Ok(Table[FirstMinAmong(roots, |Table|)].category)
  {
    var k := FirstMinAmong(roots, |Table|);
    RootsPickNearest(Table, color, roots, k);
    ClassifyIsNearest(color, k);
  }

  /** No two entries share a reference colour (their red channels already differ). */
  lemma ReferencesDistinct(i: nat, j: nat)
    requires i < |Table| && j < |Table| && i != j
    ensures Table[i].reference != Table[j].reference
  {
    assert Table[i].reference[0] != Table[j].reference[0];
  }

  /** A colour equal to a palette colour gets that colour's label. */
  lemma ClassifyPaletteColour(i: nat)
    requires i < |Table|
    ensures Classify(Table[i].reference) == Ok(Table[i].category)
  {
    TableShape();
    var color := Table[i].reference;
    var k := BestIndex(Table, color);
    assert Table[i].reference[..3] == color;
    assert SqDist(color, Table[i].reference) == 0.0;
    assert SqDist(color, Table[k].reference) == 0.0;
    assert Table[k].reference[..3] == Table[k].reference;
    if k != i {
      ReferencesDistinct(i, k);
    }
  }

  /** Over three channels the squared distance is the familiar three-term sum. */
  lemma SqDistThree(color: seq<real>, reference: seq<real>)
    requires |color| == 3 && |reference| == 3
    ensures SqDist(color, reference) ==
      (color[0] - reference[0]) * (color[0] - reference[0]) +
      (color[1] - reference[1]) * (color[1] - reference[1]) +
      (color[2] - reference[2]) * (color[2] - reference[2])
  {
    var c1, r1 := color[1..], reference[1..];
    var c2, r2 := c1[1..], r1[1..];
    assert c2[1..] == [];
    assert SqDist(c2, r2) == (color[2] - reference[2]) * (color[2] - reference[2]) + SqDist(c2[1..], r2[1..]);
    assert SqDist(c1, r1) == (color[1] - reference[1]) * (color[1] - reference[1]) + SqDist(c2, r2);
  }

  /** Black as a colour list: an annotation without a stroke colour is given [0, 0, 0]. */
  const Black: seq<real> := [0.0, 0.0, 0.0]

  lemma BlackToLightBlue()
    ensures SqDist(Black, LightBlue) == 2.02599325
  {
    SqDistThree(Black, LightBlue);
  }

  lemma BlackToYellow()
    ensures SqDist(Black, Yellow) == 2.04585744
  {
    SqDistThree(Black, Yellow);
  }

  lemma BlackToGreen()
    ensures SqDist(Black, Green) == 1.28615348
  {
    SqDistThree(Black, Green);
  }

  lemma BlackToPink()
    ensures SqDist(Black, Pink) == 1.96993012
  {
    SqDistThree(Black, Pink);
  }

  lemma BlackToRed()
    ensures SqDist(Black, Red) == 1.01328194
  {
    SqDistThree(Black, Red);
  }

  lemma TableReferences()
    ensures Table[0].reference == LightBlue && Table[1].reference == Yellow && Table[2].reference == Green
    ensures Table[3].reference == Pink && Table[4].reference == Red
    ensures Table[4].category == "Critical Issues / Warnings"
  {
  }

  /** Red, the last entry, is strictly nearer to black than every other entry. */
  lemma BlackNearestIsRed()
    ensures forall j :: 0 <= j < |Table| ==> |Black| <= |Table[j].reference|
    ensures IsNearest(Table, Black, 4)
  {
    TableShape();
    TableReferences();
    BlackToRed();
    var dRed := SqDist(Black, Table[4].reference);
    forall j | 0 <= j < 4 ensures dRed < SqDist(Black, Table[j].reference) {
      if j == 0 { BlackToLightBlue(); }
      else if j == 1 { BlackToYellow(); }
      else if j == 2 { BlackToGreen(); }
      else { BlackToPink(); }
    }
  }

  /** The nearest entry, in the sense of IsNearest, is the one whose label is returned. */
  lemma ClassifyIsNearest(color: seq<real>, k: nat)
    requires |color| <= 3
    requires forall j :: 0 <= j < |Table| ==> |color| <= |Table[j].reference|
    requires IsNearest(Table, color, k)
    ensures Classify(color) == Ok(Table[k].category)
  {
    TableShape();
    NearestIsUnique(Table, color, k, BestIndex(Table, color));
  }

  /** Black, the colour given to an annotation without a stroke colour, is nearest to red. */
  lemma ClassifyBlack()
    ensures Classify(Black) == Ok("Critical Issues / Warnings")
  {
    BlackNearestIsRed();
    TableReferences();
    ClassifyIsNearest(Black, 4);
  }

  /**
   * An empty colour list has distance zero to every entry, so the first
   * entry wins the tie.
   */
  lemma ClassifyEmpty()
    ensures Classify([]) == Ok("Ideas & Insights")
  {
    TableShape();
    assert IsNearest(Table, [], 0);
    NearestIsUnique(Table, [], 0, BestIndex(Table, []));
  }
}
