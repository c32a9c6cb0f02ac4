/** The list of dark-channel entries that the atmospheric-light estimate sorts:
    one `(x, y, value)` triple per position of the dark channel, first in scan
    order, then in descending order of value. */
module DarkPixels {
  import opened Image

  /** One entry of the list: column, row and dark-channel value. */
  datatype DarkPixel = DarkPixel(x: nat, y: nat, value: Byte)

  /** `e` names a position of `dark` and carries the value stored there. */
  predicate IsEntryOf(dark: seq<seq<Byte>>, e: DarkPixel) {
    IsRect(dark) && e.y < Rows(dark) && e.x < Cols(dark) && e.value == dark[e.y][e.x]
  }

  /** `a` comes before `b` in row-major scan order. */
  predicate ScanBefore(a: DarkPixel, b: DarkPixel) {
    a.y < b.y || (a.y == b.y && a.x < b.x)
  }

  /** The entries of row `y`, left to right. */
  function RowEntries(row: seq<Byte>, y: nat): seq<DarkPixel> {
    seq(|row|, x requires 0 <= x < |row| => DarkPixel(x, y, row[x]))
  }

  /** The entries of rows `y..` of `dark`, in scan order. */
  function FlattenFrom(dark: seq<seq<Byte>>, y: nat): (r: seq<DarkPixel>)
    requires IsRect(dark) && y <= Rows(dark)
    ensures forall i :: 0 <= i < |r| ==> IsEntryOf(dark, r[i]) && y <= r[i].y
    decreases Rows(dark) - y
  {
    if y == Rows(dark) then []
    else
      var head := RowEntries(dark[y], y);
      var rest := FlattenFrom(dark, y + 1);
      head + rest
  }

  /** The entries of rows `y..` are listed in strictly increasing scan order. */
  lemma {:induction false} FlattenFromScanOrder(dark: seq<seq<Byte>>, y: nat)
    requires IsRect(dark) && y <= Rows(dark)
    ensures forall i, j :: 0 <= i < j < |FlattenFrom(dark, y)| ==>
              ScanBefore(FlattenFrom(dark, y)[i], FlattenFrom(dark, y)[j])
    decreases Rows(dark) - y
  {
    if y < Rows(dark) {
      FlattenFromScanOrder(dark, y + 1);
      var head := RowEntries(dark[y], y);
      var rest := FlattenFrom(dark, y + 1);
      var r := head + rest;
      forall i, j | 0 <= i < j < |r|
        ensures ScanBefore(r[i], r[j])
      {
        if j < |head| {
        } else if i < |head| {
          assert r[j] == rest[j - |head|];
        } else {
          assert r[i] == rest[i - |head|] && r[j] == rest[j - |head|];
        }
      }
    }
  }

  /** Position of the entry of (x, y) in a row-major list of a grid with
      `cols` columns (`position[0] * cols + position[1]`). */
  function ScanIndex(y: nat, x: nat, cols: nat): nat {
    y * cols + x
  }

  /** Offset of the `d`-th row of a grid with `c` columns, counted row by row. */
  function RowStart(d: nat, c: nat): nat {
    if d == 0 then 0 else RowStart(d - 1, c) + c
  }

  lemma {:induction false} RowStartIsProduct(d: nat, c: nat)
    ensures RowStart(d, c) == d * c
  {
    if d > 0 {
      RowStartIsProduct(d - 1, c);
      assert d * c == (d - 1) * c + c;
    }
  }

  /** Number of entries of rows `y..`, counted row by row. */
  lemma {:induction false} FlattenFromLength(dark: seq<seq<Byte>>, y: nat)
    requires IsRect(dark) && y <= Rows(dark)
    ensures |FlattenFrom(dark, y)| == RowStart(Rows(dark) - y, Cols(dark))
    decreases Rows(dark) - y
  {
    if y < Rows(dark) {
      FlattenFromLength(dark, y + 1);
    }
  }

  /** Within rows `y..`, the entry of position (x, yy) sits at offset
      `(yy - y) * cols + x`. */
  lemma {:induction false} FlattenFromIndex(dark: seq<seq<Byte>>, y: nat, yy: nat, x: nat)
    requires IsRect(dark) && y <= yy < Rows(dark) && x < Cols(dark)
    ensures RowStart(yy - y, Cols(dark)) + x < |FlattenFrom(dark, y)|
    ensures FlattenFrom(dark, y)[RowStart(yy - y, Cols(dark)) + x] == DarkPixel(x, yy, dark[yy][x])
    decreases yy - y
  {
    var c := Cols(dark);
    var r := FlattenFrom(dark, y);
    var head := RowEntries(dark[y], y);
    var rest := FlattenFrom(dark, y + 1);
    assert r == head + rest;
    if yy == y {
      assert r[x] == head[x];
    } else {
      FlattenFromIndex(dark, y + 1, yy, x);
      var k := RowStart(yy - (y + 1), c) + x;
      assert RowStart(yy - y, c) + x == c + k;
      assert r[c + k] == rest[k];
    }
  }

  /** The entry of position (x, y) sits at offset `y * cols + x` of the whole list. */
  lemma FlattenIndex(dark: seq<seq<Byte>>, y: nat, x: nat)
    requires IsRect(dark) && y < Rows(dark) && x < Cols(dark)
    ensures ScanIndex(y, x, Cols(dark)) < |FlattenFrom(dark, 0)|
    ensures FlattenFrom(dark, 0)[ScanIndex(y, x, Cols(dark))] == DarkPixel(x, y, dark[y][x])
  {
    FlattenFromIndex(dark, 0, y, x);
    assert y - 0 == y;
    RowStartIsProduct(y, Cols(dark));
  }

  /** The list built by `getAtmosphericLight` before sorting: entry
      `y * cols + x` is `(x, y, dark[y][x])`. */
  function Flatten(dark: seq<seq<Byte>>): (r: seq<DarkPixel>)
    requires IsRect(dark)
    ensures |r| == Rows(dark) * Cols(dark)
    ensures forall i :: 0 <= i < |r| ==> IsEntryOf(dark, r[i])
    ensures forall y, x :: 0 <= y < Rows(dark) && 0 <= x < Cols(dark) ==>
              ScanIndex(y, x, Cols(dark)) < |r| && r[ScanIndex(y, x, Cols(dark))] == DarkPixel(x, y, dark[y][x])
  {
    var r := FlattenFrom(dark, 0);
    forall y, x | 0 <= y < Rows(dark) && 0 <= x < Cols(dark)
      ensures ScanIndex(y, x, Cols(dark)) < |r| && r[ScanIndex(y, x, Cols(dark))] == DarkPixel(x, y, dark[y][x])
    {
      FlattenIndex(dark, y, x);
    }
    FlattenFromLength(dark, 0);
    RowStartIsProduct(Rows(dark), Cols(dark));
    r
  }

  /** No two entries of the list name the same position. */
  lemma FlattenPositionsDistinct(dark: seq<seq<Byte>>)
    requires IsRect(dark)
    ensures forall i, j :: 0 <= i < j < |Flatten(dark)| ==>
              (Flatten(dark)[i].x, Flatten(dark)[i].y) != (Flatten(dark)[j].x, Flatten(dark)[j].y)
  {
    FlattenFromScanOrder(dark, 0);
  }

  /** Entries are ordered by non-increasing dark value (the comparator of the
      `std::sort` in `getAtmosphericLight`, which promises nothing about equal values). */
  predicate Descending(s: seq<DarkPixel>) {
    forall i :: 0 < i < |s| ==> s[i - 1].value >= s[i].value
  }

  /** A descending list is descending between any two of its entries. */
  lemma {:induction false} DescendingPairwise(s: seq<DarkPixel>, i: nat, j: nat)
    requires Descending(s) && i <= j < |s|
    ensures s[i].value >= s[j].value
    decreases j - i
  {
    if i < j {
      DescendingPairwise(s, i, j - 1);
    }
  }

  /** `sorted` is a possible outcome of sorting `Flatten(dark)` by descending
      dark value: the same entries, in some descending order. */
  ghost predicate IsDescendingArrangement(sorted: seq<DarkPixel>, dark: seq<seq<Byte>>)
    requires IsRect(dark)
    ensures IsDescendingArrangement(sorted, dark) ==> |sorted| == Rows(dark) * Cols(dark)
  {
    var flat := Flatten(dark);
    var ok := multiset(sorted) == multiset(flat) && Descending(sorted);
    assert ok ==> |sorted| == |multiset(sorted)| == |multiset(flat)| == |flat|;
    ok
  }

  /** `s` without its entry at index `j`. */
  function RemoveAt(s: seq<DarkPixel>, j: nat): seq<DarkPixel>
    requires j < |s|
  {
    s[..j] + s[j + 1..]
  }

  /** Removing one entry takes exactly that entry out of the multiset. */
  lemma RemoveAtMultiset(s: seq<DarkPixel>, j: nat)
    requires j < |s|
    ensures multiset(RemoveAt(s, j)) == multiset(s) - multiset{s[j]}
  {
    assert s == s[..j] + [s[j]] + s[j + 1..];
  }

  /** Removing one entry from a descending list leaves it descending. */
  lemma RemoveAtDescending(s: seq<DarkPixel>, j: nat)
    requires j < |s| && Descending(s)
    ensures Descending(RemoveAt(s, j))
  {
    var t := RemoveAt(s, j);
    forall i | 0 < i < |t|
      ensures t[i - 1].value >= t[i].value
    {
      if i < j {
        assert t[i - 1] == s[i - 1] && t[i] == s[i];
      } else if i == j {
        assert t[i - 1] == s[j - 1] && t[i] == s[j + 1];
        DescendingPairwise(s, j - 1, j + 1);
      } else {
        assert t[i - 1] == s[i] && t[i] == s[i + 1];
      }
    }
  }

  /** Removing from a descending list an entry as large as the first one
      shifts the values after the first by one place. */
  lemma RemoveAtShiftsValues(s: seq<DarkPixel>, j: nat)
    requires j < |s| && Descending(s) && s[j].value == s[0].value
    ensures forall i :: 0 < i < |s| ==> RemoveAt(s, j)[i - 1].value == s[i].value
  {
    var t := RemoveAt(s, j);
    forall i | 0 < i < |s|
      ensures t[i - 1].value == s[i].value
    {
      if i - 1 < j {
        assert t[i - 1] == s[i - 1];
        DescendingPairwise(s, 0, i - 1);
        DescendingPairwise(s, i, j);
        DescendingPairwise(s, i - 1, i);
      } else {
        assert t[i - 1] == s[i];
      }
    }
  }

  /** Where the first entry of `s1` sits in `s2`: at an index whose value is
      that of `s2`'s first entry. */
  lemma FindFirst(s1: seq<DarkPixel>, s2: seq<DarkPixel>) returns (j: nat)
    requires multiset(s1) == multiset(s2) && Descending(s1) && Descending(s2) && |s1| > 0
    ensures j < |s2| && s2[j] == s1[0] && s2[j].value == s2[0].value
  {
    assert s1[0] in multiset(s2);
    j :| 0 <= j < |s2| && s2[j] == s1[0];
    assert s2[0] in multiset(s1);
    var k :| 0 <= k < |s1| && s1[k] == s2[0];
    DescendingPairwise(s1, 0, k);
    DescendingPairwise(s2, 0, j);
  }

  /** Two descending lists with the same entries carry the same dark value at
      every index: how the sort orders equal values can change which entries
      come first, never which values do. */
  lemma {:induction false} DescendingValuesAgree(s1: seq<DarkPixel>, s2: seq<DarkPixel>)
    requires multiset(s1) == multiset(s2) && Descending(s1) && Descending(s2)
    ensures |s1| == |s2|
    ensures forall i :: 0 <= i < |s1| ==> s1[i].value == s2[i].value
    decreases |s1|
  {
    assert |s1| == |multiset(s1)| == |multiset(s2)| == |s2|;
    if |s1| > 0 {
      var e := s1[0];
      var j := FindFirst(s1, s2);
      var t1 := s1[1..];
      var t2 := RemoveAt(s2, j);
      assert multiset(t1) == multiset(t2) by {
        RemoveAtMultiset(s2, j);
        RemoveAtMultiset(s1, 0);
        assert RemoveAt(s1, 0) == t1;
      }
      assert Descending(t1);
      RemoveAtDescending(s2, j);
      RemoveAtShiftsValues(s2, j);
      DescendingValuesAgree(t1, t2);
      forall i | 0 < i < |s1|
        ensures s1[i].value == s2[i].value
      {
        assert s1[i] == t1[i - 1];
      }
    }
  }

  /** Whatever order the sort leaves equal values in, the `i`-th sorted entry
      of a dark channel always has the same dark value. */
  lemma SortedDarkValuesDetermined(dark: seq<seq<Byte>>, s1: seq<DarkPixel>, s2: seq<DarkPixel>)
    requires IsRect(dark)
    requires IsDescendingArrangement(s1, dark) && IsDescendingArrangement(s2, dark)
    ensures |s1| == |s2|
    ensures forall i :: 0 <= i < |s1| ==> s1[i].value == s2[i].value
  {
    DescendingValuesAgree(s1, s2);
  }

  /** Inserts `e` in front of the first entry whose value it reaches. */
  function Insert(e: DarkPixel, s: seq<DarkPixel>): (r: seq<DarkPixel>)
    requires Descending(s)
    ensures multiset(r) == multiset(s) + multiset{e}
    ensures Descending(r)
    ensures r[0] == e || (|s| > 0 && r[0] == s[0])
  {
    if |s| == 0 || e.value >= s[0].value then [e] + s
    else
      var t := s[1..];
      assert Descending(t) by {
        forall i | 0 < i < |t|
          ensures t[i - 1].value >= t[i].value
        {
          assert t[i - 1] == s[i] && t[i] == s[i + 1];
        }
      }
      var r := Insert(e, t);
      assert s == [s[0]] + t;
      assert s[0].value >= r[0].value;
      assert Descending([s[0]] + r) by {
        var u := [s[0]] + r;
        forall i | 0 < i < |u|
          ensures u[i - 1].value >= u[i].value
        {
          if i > 1 {
            assert u[i - 1] == r[i - 2] && u[i] == r[i - 1];
          }
        }
      }
      [s[0]] + r
  }

  /** One sort with the same comparator: any order it yields is
      acceptable, this one only shows that such an order always exists. */
  function SortDescending(s: seq<DarkPixel>): (r: seq<DarkPixel>)
    ensures multiset(r) == multiset(s)
    ensures Descending(r)
  {
    if |s| == 0 then []
    else
      assert s == [s[0]] + s[1..];
      Insert(s[0], SortDescending(s[1..]))
  }

  /** Every dark channel has a descending arrangement of its entries. */
  lemma ArrangementExists(dark: seq<seq<Byte>>)
    requires IsRect(dark)
    ensures IsDescendingArrangement(SortDescending(Flatten(dark)), dark)
  {
  }
}
