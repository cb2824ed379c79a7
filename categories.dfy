/** Categorical coding of one table column, as the table engine's category
    dtype does it: the categories are the distinct non-missing values in
    ascending order (a column mixing integers and strings lists the integers
    ascending, then the strings ascending), and a cell's code is the position
    of its value in that list, or -1 for a missing cell. */
module CategoryCodes {
  import opened Values
  import opened Seqs

  function NonMissing(s: seq<Value>): (r: seq<Value>)
    ensures forall v :: v in r <==> v in s && v != Missing
    decreases |s|
  {
    if s == [] then []
    else NonMissing(s[..|s| - 1]) + (if s[|s| - 1] == Missing then [] else [s[|s| - 1]])
  }

  predicate AllInts(s: seq<Value>)
  {
    forall i :: 0 <= i < |s| ==> s[i].Int?
  }

  predicate AllStrs(s: seq<Value>)
  {
    forall i :: 0 <= i < |s| ==> s[i].Str?
  }

  function Categories(col: seq<Value>): (cats: seq<Value>)
    ensures NoDup(cats)
    ensures forall v :: v in cats <==> v in col && v != Missing
  {
    var u := Unique(NonMissing(col));
    NoDupFromMultiset(u, SortValues(u));
    assert forall v :: v in SortValues(u) <==> v in multiset(u);
    SortValues(u)
  }

  /** The categories come out in ascending order; in a mixed column every
      integer comes before every string. */
  lemma CategoriesSorted(col: seq<Value>)
    ensures Sorted(Categories(col))
    ensures forall i, j ::
              (0 <= i < |Categories(col)| && 0 <= j < |Categories(col)|
               && Categories(col)[i].Int? && Categories(col)[j].Str?) ==> i < j
  {
    var cats := Categories(col);
    SortValuesSorted(Unique(NonMissing(col)));
    forall i, j | 0 <= i < |cats| && 0 <= j < |cats| && cats[i].Int? && cats[j].Str?
      ensures i < j
    {
      if j <= i {
        assert LessEq(cats[j], cats[i]);
        assert false;
      }
    }
  }

  /** The code of one cell. */
  function Code(cats: seq<Value>, v: Value): int
  {
    if v in cats then IndexOf(cats, v) else -1
  }

  /** `column.cat.codes`. */
  function EncodeColumn(col: seq<Value>): (codes: seq<int>)
    ensures |codes| == |col|
    ensures forall i :: 0 <= i < |col| && col[i] == Missing ==> codes[i] == -1
    ensures forall i :: 0 <= i < |col| && col[i] != Missing ==>
              0 <= codes[i] < |Categories(col)| && Categories(col)[codes[i]] == col[i]
  {
    var cats := Categories(col);
    seq(|col|, i requires 0 <= i < |col| => Code(cats, col[i]))
  }

  /** Decoding codes through a category list; -1 (or any code out of range)
      reads back as a missing value. */
  function DecodeColumn(cats: seq<Value>, codes: seq<int>): (col: seq<Value>)
    ensures |col| == |codes|
  {
    seq(|codes|, i requires 0 <= i < |codes| =>
      if 0 <= codes[i] < |cats| then cats[codes[i]] else Missing)
  }

  /** Round trip: decoding the codes through the categories gives the column back. */
  lemma DecodeEncodeColumn(col: seq<Value>)
    ensures DecodeColumn(Categories(col), EncodeColumn(col)) == col
  {
    var d := DecodeColumn(Categories(col), EncodeColumn(col));
    forall i | 0 <= i < |col| ensures d[i] == col[i] {
    }
  }

  /** Two cells get the same code exactly when they hold the same value. */
  lemma EncodeColumnInjective(col: seq<Value>, i: nat, j: nat)
    requires i < |col| && j < |col|
    ensures EncodeColumn(col)[i] == EncodeColumn(col)[j] <==> col[i] == col[j]
  {
    var codes := EncodeColumn(col);
    if col[i] != Missing && col[j] == Missing {
      assert codes[i] >= 0 && codes[j] == -1;
    } else if col[i] == Missing && col[j] != Missing {
      assert codes[i] == -1 && codes[j] >= 0;
    }
  }

  /** Every category is the value of some cell and every non-missing cell's
      value is a category: the number of categories is the number of distinct
      non-missing values (`nunique`). */
  function NUnique(col: seq<Value>): (n: nat)
    ensures n == |Categories(col)|
  {
    |Unique(NonMissing(col))|
  }
}
