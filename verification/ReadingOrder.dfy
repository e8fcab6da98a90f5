/** The reading order of a page's blocks: order_blocks and its helpers of
    worker/app/pipeline/reading_order.py. */
module ReadingOrder {
  import opened Options
  import opened Sorting
  import opened ColumnBands

  /** A JSON value, as far as the page layout looks at it. */
  datatype Json = Null | Bool(b: bool) | Int(i: int) | Float(x: real) | Text(s: string) | Array(items: seq<Json>)

  /** One layout block; `id` tells the objects apart. */
  datatype Block = Block(id: nat, kind: string, content: string, order: Json, blockId: Json, bbox: Json)

  /** `isinstance(value, int)`, which holds of booleans too. */
  function AsInt(v: Json): Option<int> {
    match v
    case Int(i) => Some(i)
    case Bool(b) => Some(if b then 1 else 0)
    case _ => None
  }

  /** An int or float that is not a boolean. */
  function AsNumber(v: Json): Option<real> {
    match v
    case Int(i) => Some(i as real)
    case Float(x) => Some(x)
    case _ => None
  }

  /** `_bbox`: four numbers that span an area. */
  function BoxOf(v: Json): Option<Box> {
    if v.Array? && |v.items| == 4 && (forall k :: 0 <= k < 4 ==> AsNumber(v.items[k]).Some?) then
      var x0, y0 := AsNumber(v.items[0]).value, AsNumber(v.items[1]).value;
      var x1, y1 := AsNumber(v.items[2]).value, AsNumber(v.items[3]).value;
      if x1 <= x0 || y1 <= y0 then None
      else
        var box: Box := (x0, y0, x1, y1);
        Some(box)
    else None
  }

  /** The model's own enumeration; blocks without one come last. */
  datatype Rank = At(n: int) | Unranked

  predicate RankLe(a: Rank, b: Rank) {
    match (a, b)
    case (_, Unranked) => true
    case (Unranked, At(_)) => false
    case (At(m), At(n)) => m <= n
  }

  function RankOf(v: Json): Rank {
    match AsInt(v)
    case Some(n) => At(n)
    case None => Unranked
  }

  /** What the geometric order looks at, by block index. */
  datatype Page = Page(boxes: seq<Box>, ranks: seq<Rank>, bands: seq<Interval>) {
    ghost predicate Valid() {
      |boxes| == |ranks| && bands != []
    }

    function Top(i: nat): real {
      if i < |boxes| then boxes[i].1 else 0.0
    }

    function RankAt(i: nat): Rank {
      if i < |ranks| then ranks[i] else Unranked
    }

    predicate IsSpanning(i: nat) {
      i < |boxes| && Spans(boxes[i], bands)
    }

    function Column(i: nat): nat {
      if i < |boxes| then Dominant(boxes[i], bands) else 0
    }

    /** Sort key `(top, model order, index)`. */
    predicate KeyLe(i: nat, j: nat) {
      Top(i) < Top(j)
      || (Top(i) == Top(j) && RankAt(i) != RankAt(j) && RankLe(RankAt(i), RankAt(j)))
      || (Top(i) == Top(j) && RankAt(i) == RankAt(j) && i <= j)
    }

    function ByKey(): (nat, nat) -> bool {
      (i: nat, j: nat) => KeyLe(i, j)
    }

    function Separates(): nat -> bool {
      (i: nat) => IsSpanning(i)
    }

    function Stays(): nat -> bool {
      (i: nat) => !IsSpanning(i)
    }

    /** The separators, top to bottom. */
    function Spanning(): seq<nat> {
      Sort(Filter(Upto(|boxes|), Separates()), ByKey())
    }

    function Within(): seq<nat> {
      Filter(Upto(|boxes|), Stays())
    }

    /** `_band_below_spans`: the separators whose top is at or above that of `i`. */
    function BandBelow(i: nat): nat {
      AtOrAbove(Spanning(), Top(i))
    }

    function AtOrAbove(spanning: seq<nat>, top: real): nat {
      if spanning == [] then 0
      else AtOrAbove(spanning[1..], top) + if Top(spanning[0]) <= top then 1 else 0
    }

    function SitsIn(position: nat): nat -> bool {
      (i: nat) => BandBelow(i) == position
    }

    function BelongsTo(column: nat): nat -> bool {
      (i: nat) => Column(i) == column
    }

    function InBand(position: nat): seq<nat> {
      Filter(Within(), SitsIn(position))
    }

    function InColumn(indices: seq<nat>, column: nat): seq<nat> {
      Sort(Filter(indices, BelongsTo(column)), ByKey())
    }

    /** `_column_order`: the first `n` columns, each top to bottom. */
    function Columns(indices: seq<nat>, n: nat): seq<nat> {
      if n == 0 then [] else Columns(indices, n - 1) + InColumn(indices, n - 1)
    }

    /** The first `p` horizontal bands, each with the separator below it. */
    function Sections(p: nat): seq<nat>
      requires p <= |Spanning()|
    {
      if p == 0 then []
      else Sections(p - 1) + Columns(InBand(p - 1), |bands|) + [Spanning()[p - 1]]
    }

    function Order(): seq<nat> {
      Sections(|Spanning()|) + Columns(InBand(|Spanning()|), |bands|)
    }

    /** What it means to be read first. A separator is read after the blocks that
        start above it and before those that start at its top or below; between two
        separators columns are read left to right, a column top to bottom, blocks
        of one height in the model's order. */
    predicate ReadFirst(i: nat, j: nat) {
      i != j &&
      if IsSpanning(i) && IsSpanning(j) then KeyLe(i, j)
      else if IsSpanning(j) then Top(i) < Top(j)
      else if IsSpanning(i) then Top(i) <= Top(j)
      else
        BandBelow(i) < BandBelow(j)
        || (BandBelow(i) == BandBelow(j)
            && (Column(i) < Column(j) || (Column(i) == Column(j) && KeyLe(i, j))))
    }

    ghost function ReadingOrder(): (nat, nat) -> bool {
      (i: nat, j: nat) => ReadFirst(i, j)
    }

    lemma KeyIsTotal()
      ensures TotalPreorder(ByKey())
    {
    }

    lemma FilteredUpto(keep: nat -> bool)
      ensures forall i: nat :: i in Filter(Upto(|boxes|), keep) <==> i < |boxes| && keep(i)
      ensures Distinct(Filter(Upto(|boxes|), keep))
    {
      forall i: nat | i < |boxes|
        ensures i in Upto(|boxes|)
      {
        assert Upto(|boxes|)[i] == i;
      }
      FilterDistinct(Upto(|boxes|), keep);
    }

    /** Sorting keeps the members, each once, in key order. */
    lemma SortedByKey(indices: seq<nat>)
      requires Distinct(indices)
      ensures forall i: nat :: i in Sort(indices, ByKey()) <==> i in indices
      ensures Distinct(Sort(indices, ByKey())) && SortedBy(Sort(indices, ByKey()), ByKey())
    {
      KeyIsTotal();
      SortMembers(indices, ByKey());
      SortDistinct(indices, ByKey());
      SortSorts(indices, ByKey());
    }

    lemma SpanningMembers()
      ensures forall i: nat :: i in Spanning() <==> IsSpanning(i)
      ensures Distinct(Spanning()) && SortedBy(Spanning(), ByKey())
    {
      FilteredUpto(Separates());
      SortedByKey(Filter(Upto(|boxes|), Separates()));
    }

    lemma InBandMembers(position: nat)
      ensures forall i: nat ::
                i in InBand(position) <==> i < |boxes| && !IsSpanning(i) && BandBelow(i) == position
      ensures Distinct(InBand(position))
    {
      FilteredUpto(Stays());
      FilterDistinct(Within(), SitsIn(position));
    }

    /** Counting in a list sorted by height: the first ones count, the others do not. */
    lemma {:induction false} CountedFirst(spanning: seq<nat>, top: real, q: nat)
      requires SortedBy(spanning, ByKey()) && q < |spanning|
      ensures AtOrAbove(spanning, top) <= |spanning|
      ensures q < AtOrAbove(spanning, top) <==> Top(spanning[q]) <= top
    {
      CountAtMost(spanning[1..], top);
      if Top(spanning[0]) <= top {
        if q > 0 {
          CountedFirst(spanning[1..], top, q - 1);
        }
      } else {
        NoneCounted(spanning[1..], top);
        assert KeyLe(spanning[0], spanning[q]) || q == 0;
      }
    }

    lemma {:induction false} CountAtMost(spanning: seq<nat>, top: real)
      ensures AtOrAbove(spanning, top) <= |spanning|
    {
      if spanning != [] {
        CountAtMost(spanning[1..], top);
      }
    }

    lemma {:induction false} NoneCounted(spanning: seq<nat>, top: real)
      requires forall k :: 0 <= k < |spanning| ==> Top(spanning[k]) > top
      ensures AtOrAbove(spanning, top) == 0
    {
      if spanning != [] {
        NoneCounted(spanning[1..], top);
      }
    }

    lemma {:induction false} BandBelowMeans(i: nat, q: nat)
      requires q < |Spanning()|
      ensures BandBelow(i) <= |Spanning()|
      ensures q < BandBelow(i) <==> Top(Spanning()[q]) <= Top(i)
    {
      SpanningMembers();
      CountedFirst(Spanning(), Top(i), q);
    }

    lemma InColumnMembers(indices: seq<nat>, column: nat)
      requires Distinct(indices)
      ensures forall i: nat :: i in InColumn(indices, column) <==> i in indices && Column(i) == column
      ensures Distinct(InColumn(indices, column)) && SortedBy(InColumn(indices, column), ByKey())
    {
      FilterDistinct(indices, BelongsTo(column));
      SortedByKey(Filter(indices, BelongsTo(column)));
    }

    lemma {:induction false} ColumnsMembers(indices: seq<nat>, n: nat)
      requires Distinct(indices)
      ensures forall i: nat :: i in Columns(indices, n) <==> i in indices && Column(i) < n
    {
      if n > 0 {
        ColumnsMembers(indices, n - 1);
        InColumnMembers(indices, n - 1);
      }
    }

    lemma SortedAppend(a: seq<nat>, b: seq<nat>)
      requires SortedBy(a, ReadingOrder()) && SortedBy(b, ReadingOrder())
      requires forall i, j :: i in a && j in b ==> ReadFirst(i, j)
      ensures SortedBy(a + b, ReadingOrder())
    {
      hide ReadFirst;
    }

    /** One band's blocks, column by column, are in reading order. */
    lemma {:induction false} ColumnsInOrder(position: nat, n: nat)
      ensures SortedBy(Columns(InBand(position), n), ReadingOrder())
    {
      hide InBand, InColumn, ReadFirst, ReadingOrder;
      if n > 0 {
        ColumnsInOrder(position, n - 1);
        OneColumnInOrder(position, n - 1);
        NextColumnAfter(position, n - 1);
        SortedAppend(Columns(InBand(position), n - 1), InColumn(InBand(position), n - 1));
      }
    }

    lemma NextColumnAfter(position: nat, n: nat)
      ensures forall i, j :: i in Columns(InBand(position), n) && j in InColumn(InBand(position), n) ==> ReadFirst(i, j)
    {
      InBandMembers(position);
      ColumnsMembers(InBand(position), n);
      InColumnMembers(InBand(position), n);
      hide InBand, InColumn, Columns;
    }

    lemma OneColumnInOrder(position: nat, n: nat)
      ensures SortedBy(InColumn(InBand(position), n), ReadingOrder())
    {
      InBandMembers(position);
      InColumnMembers(InBand(position), n);
      var column := InColumn(InBand(position), n);
      hide InBand, InColumn;
      forall p, q | 0 <= p < q < |column|
        ensures ReadFirst(column[p], column[q])
      {
        assert column[p] in column && column[q] in column;
        assert ByKey()(column[p], column[q]);
      }
    }

    /** What the first `p` sections hold. */
    ghost predicate Placed(i: nat, p: nat)
      requires p <= |Spanning()|
    {
      (i < |boxes| && !IsSpanning(i) && BandBelow(i) < p) || exists q :: 0 <= q < p && Spanning()[q] == i
    }

    /** Blocks of an earlier band, and separators above a band, are read before it. */
    lemma EarlierFirst(i: nat, j: nat, p: nat)
      requires p <= |Spanning()| && !IsSpanning(j) && BandBelow(j) == p
      requires Placed(i, p)
      ensures ReadFirst(i, j)
    {
      SpanningMembers();
      if q :| 0 <= q < p && Spanning()[q] == i {
        assert Spanning()[q] in Spanning();
        BandBelowMeans(j, q);
      }
    }

    /** The separator below band `p` is read after all that. */
    lemma SeparatorNext(i: nat, p: nat)
      requires p < |Spanning()|
      requires Placed(i, p) || (!IsSpanning(i) && BandBelow(i) == p)
      ensures ReadFirst(i, Spanning()[p])
    {
      SpanningMembers();
      assert Spanning()[p] in Spanning();
      if q :| 0 <= q < p && Spanning()[q] == i {
        assert Spanning()[q] in Spanning();
        assert ByKey()(Spanning()[q], Spanning()[p]);
      } else {
        BandBelowMeans(i, p);
      }
    }

    lemma ColumnInRange(i: nat)
      requires Valid()
      ensures Column(i) < |bands|
    {
      if i < |boxes| {
        BestIsFirstLargest(boxes[i], bands, |bands|);
      }
    }

    lemma BandColumnsMembers(position: nat)
      requires Valid()
      ensures forall i: nat :: i in Columns(InBand(position), |bands|) <==>
                i < |boxes| && !IsSpanning(i) && BandBelow(i) == position
    {
      InBandMembers(position);
      ColumnsMembers(InBand(position), |bands|);
      forall i: nat
        ensures Column(i) < |bands|
      {
        ColumnInRange(i);
      }
    }

    lemma {:induction false} SectionsInOrder(p: nat)
      requires Valid() && p <= |Spanning()|
      ensures SortedBy(Sections(p), ReadingOrder())
      ensures forall i: nat :: i in Sections(p) <==> Placed(i, p)
    {
      hide ReadFirst, Columns, InBand, BandBelow, IsSpanning, Spanning;
      if p > 0 {
        var before, band, separator := Sections(p - 1), Columns(InBand(p - 1), |bands|), Spanning()[p - 1];
        SectionsInOrder(p - 1);
        ColumnsInOrder(p - 1, |bands|);
        BandColumnsMembers(p - 1);
        forall i, j | i in before && j in band
          ensures ReadFirst(i, j)
        {
          EarlierFirst(i, j, p - 1);
        }
        SortedAppend(before, band);
        forall i | i in before + band
          ensures ReadFirst(i, separator)
        {
          SeparatorNext(i, p - 1);
        }
        SortedAppend(before + band, [separator]);
        forall i: nat
          ensures i in Sections(p) <==> Placed(i, p)
        {
          PlacedStep(i, p);
          assert i in Sections(p) <==> i in before || i in band || i == separator;
        }
      }
    }

    lemma PlacedStep(i: nat, p: nat)
      requires 0 < p <= |Spanning()|
      ensures Placed(i, p) <==>
                || Placed(i, p - 1)
                || (i < |boxes| && !IsSpanning(i) && BandBelow(i) == p - 1)
                || i == Spanning()[p - 1]
    {
    }

    /** The main result: the order lists every block once, and whichever of two
        blocks comes first is the one to be read first. */
    lemma {:induction false} OrderIsReadingOrder()
      requires Valid()
      ensures SortedBy(Order(), ReadingOrder()) && IsPermutation(Order(), |boxes|)
    {
      hide ReadFirst, Columns, InBand;
      var n := |Spanning()|;
      var before, band := Sections(n), Columns(InBand(n), |bands|);
      SectionsInOrder(n);
      ColumnsInOrder(n, |bands|);
      BandColumnsMembers(n);
      forall i, j | i in before && j in band
        ensures ReadFirst(i, j)
      {
        EarlierFirst(i, j, n);
      }
      SortedAppend(before, band);
      forall i: nat
        ensures i in Order() <==> i < |boxes|
      {
        assert i in Order() <==> i in before || i in band;
        EveryBlockPlaced(i);
      }
      SortedIsDistinct(Order());
    }

    /** Equal heights are ordered by the model's number, numbered blocks first, and then as
        the blocks come. */
    ghost predicate InModelOrder(i: nat, j: nat)
      requires i < |ranks| && j < |ranks|
    {
      match (ranks[i], ranks[j])
      case (At(m), At(n)) => m < n || (m == n && i < j)
      case (At(_), Unranked) => true
      case (Unranked, At(_)) => false
      case (Unranked, Unranked) => i < j
    }

    /** What being read first means on the page. A block over two columns separates: what
        is read before it starts above it, and what after it not above it. Of two others,
        with no separator starting between them, the one further left is read first, and
        in one column the one that starts higher; with one between them, the one above. */
    lemma {:induction false} ReadFirstMeans(i: nat, j: nat)
      requires |boxes| == |ranks| && i < |boxes| && j < |boxes| && ReadFirst(i, j)
      ensures OverTwo(boxes[i], bands) && OverTwo(boxes[j], bands) ==>
                boxes[i].1 < boxes[j].1 || (boxes[i].1 == boxes[j].1 && InModelOrder(i, j))
      ensures !OverTwo(boxes[i], bands) && OverTwo(boxes[j], bands) ==> boxes[i].1 < boxes[j].1
      ensures OverTwo(boxes[i], bands) && !OverTwo(boxes[j], bands) ==> boxes[i].1 <= boxes[j].1
      ensures !OverTwo(boxes[i], bands) && !OverTwo(boxes[j], bands) ==>
                && (forall s: nat :: s < |boxes| && OverTwo(boxes[s], bands) ==>
                      !(boxes[j].1 < boxes[s].1 <= boxes[i].1))
                && ((forall s: nat :: s < |boxes| && OverTwo(boxes[s], bands) ==>
                       !(boxes[i].1 < boxes[s].1 <= boxes[j].1)) ==>
                     || Column(i) < Column(j)
                     || (Column(i) == Column(j)
                         && (boxes[i].1 < boxes[j].1 || (boxes[i].1 == boxes[j].1 && InModelOrder(i, j)))))
    {
      hide Column, Spanning, BandBelow, Spans, OverTwo;
      forall s: nat | s < |boxes|
        ensures IsSpanning(s) == OverTwo(boxes[s], bands)
      {
        SpansTwo(boxes[s], bands);
      }
      if !IsSpanning(i) && !IsSpanning(j) {
        SectionsApart(i, j);
      }
    }

    /** Blocks lie in the same section exactly when no separator starts between them. */
    lemma SectionsApart(i: nat, j: nat)
      requires i < |boxes| && j < |boxes|
      ensures BandBelow(i) <= BandBelow(j) <==>
                forall s: nat :: s < |boxes| && IsSpanning(s) ==> !(Top(j) < Top(s) <= Top(i))
      ensures BandBelow(j) <= BandBelow(i) <==>
                forall s: nat :: s < |boxes| && IsSpanning(s) ==> !(Top(i) < Top(s) <= Top(j))
    {
      SectionBefore(i, j);
      SectionBefore(j, i);
    }

    lemma SectionBefore(i: nat, j: nat)
      requires i < |boxes| && j < |boxes|
      ensures BandBelow(i) <= BandBelow(j) <==>
                forall s: nat :: s < |boxes| && IsSpanning(s) ==> !(Top(j) < Top(s) <= Top(i))
    {
      hide IsSpanning, Spanning, BandBelow;
      SpanningMembers();
      CountAtMostOf(i);
      CountAtMostOf(j);
      if BandBelow(j) < BandBelow(i) {
        var q := BandBelow(j);
        BandBelowMeans(i, q);
        BandBelowMeans(j, q);
        assert Spanning()[q] in Spanning();
        SpanningInRange(Spanning()[q]);
      }
      forall s: nat | s < |boxes| && IsSpanning(s) && BandBelow(i) <= BandBelow(j)
        ensures !(Top(j) < Top(s) <= Top(i))
      {
        var q: nat :| q < |Spanning()| && Spanning()[q] == s;
        BandBelowMeans(i, q);
        BandBelowMeans(j, q);
      }
    }

    lemma CountAtMostOf(i: nat)
      ensures BandBelow(i) <= |Spanning()|
    {
      CountAtMost(Spanning(), Top(i));
    }

    lemma SpanningInRange(s: nat)
      requires IsSpanning(s)
      ensures s < |boxes|
    {
    }

    lemma EveryBlockPlaced(i: nat)
      ensures Placed(i, |Spanning()|) || (i < |boxes| && !IsSpanning(i) && BandBelow(i) == |Spanning()|)
              <==> i < |boxes|
    {
      SpanningMembers();
      CountAtMost(Spanning(), Top(i));
      if IsSpanning(i) {
        assert i in Spanning();
      }
      if q :| 0 <= q < |Spanning()| && Spanning()[q] == i {
        assert Spanning()[q] in Spanning();
      }
    }

    lemma SortedIsDistinct(s: seq<nat>)
      requires SortedBy(s, ReadingOrder())
      ensures Distinct(s)
    {
      forall p, q | 0 <= p < q < |s|
        ensures s[p] != s[q]
      {
        assert ReadingOrder()(s[p], s[q]);
      }
    }
  }

  /** `_column_order`, for all the columns of the page. */
  method ColumnOrder(page: Page, indices: seq<nat>) returns (output: seq<nat>)
    ensures output == page.Columns(indices, |page.bands|)
  {
    output := [];
    for band := 0 to |page.bands|
      invariant output == page.Columns(indices, band)
    {
      var inBand := Sort(Filter(indices, page.BelongsTo(band)), page.ByKey());
      output := output + inBand;
    }
  }

  /** The multi-column branch: each band's columns, then the separator below it. */
  method OrderByColumns(page: Page) returns (output: seq<nat>)
    requires page.Valid()
    ensures output == page.Order()
    ensures SortedBy(output, page.ReadingOrder()) && IsPermutation(output, |page.boxes|)
  {
    var spanning := page.Spanning();
    output := [];
    for position := 0 to |spanning|
      invariant output == page.Sections(position)
    {
      var band := ColumnOrder(page, page.InBand(position));
      output := output + band;
      output := output + [spanning[position]];
    }
    var band := ColumnOrder(page, page.InBand(|spanning|));
    output := output + band;
    page.OrderIsReadingOrder();
  }

  /** All blocks have the key as an integer. */
  predicate HasAll(blocks: seq<Block>, key: Block -> Json) {
    forall i :: 0 <= i < |blocks| ==> AsInt(key(blocks[i])).Some?
  }

  function KeyAt(blocks: seq<Block>, key: Block -> Json, i: nat): int {
    if i < |blocks| && AsInt(key(blocks[i])).Some? then AsInt(key(blocks[i])).value else 0
  }

  /** Sorting by an integer key, equal keys staying in array order. */
  function ByJsonKey(blocks: seq<Block>, key: Block -> Json): (nat, nat) -> bool {
    (i: nat, j: nat) =>
      KeyAt(blocks, key, i) < KeyAt(blocks, key, j) || (KeyAt(blocks, key, i) == KeyAt(blocks, key, j) && i <= j)
  }

  function OrderKey(): Block -> Json {
    (b: Block) => b.order
  }

  function IdKey(): Block -> Json {
    (b: Block) => b.blockId
  }

  /** `_legacy_order`: the model's order, then the block ids, then array order. */
  function LegacyOrder(blocks: seq<Block>): seq<nat> {
    if HasAll(blocks, OrderKey()) then Sort(Upto(|blocks|), ByJsonKey(blocks, OrderKey()))
    else if HasAll(blocks, IdKey()) then Sort(Upto(|blocks|), ByJsonKey(blocks, IdKey()))
    else Upto(|blocks|)
  }

  lemma SortedUptoPermutes(n: nat, le: (nat, nat) -> bool)
    ensures IsPermutation(Sort(Upto(n), le), n) && IsPermutation(Upto(n), n)
  {
    SortMembers(Upto(n), le);
    SortDistinct(Upto(n), le);
    forall i: nat
      ensures i in Upto(n) <==> i < n
    {
      if i < n {
        assert Upto(n)[i] == i;
      }
    }
  }

  /** A page width that is a positive number. */
  function WidthOf(v: Json): Option<real> {
    match AsNumber(v)
    case Some(w) => if w <= 0.0 then None else Some(w)
    case None => None
  }

  /** Geometry can rank the blocks: there is a width, every block has a box, and
      not every block is full-width. */
  predicate Geometric(blocks: seq<Block>, pageWidth: Json) {
    && blocks != [] && WidthOf(pageWidth).Some?
    && (forall i :: 0 <= i < |blocks| ==> BoxOf(blocks[i].bbox).Some?)
    && exists i :: 0 <= i < |blocks| && !IsFullWidth(BoxOf(blocks[i].bbox).value, WidthOf(pageWidth).value)
  }

  function BoxesOf(blocks: seq<Block>): (boxes: seq<Box>)
    requires forall i :: 0 <= i < |blocks| ==> BoxOf(blocks[i].bbox).Some?
    ensures |boxes| == |blocks| && forall i :: 0 <= i < |boxes| ==> boxes[i] == BoxOf(blocks[i].bbox).value
  {
    seq(|blocks|, i requires 0 <= i < |blocks| => BoxOf(blocks[i].bbox).value)
  }

  function PageOf(blocks: seq<Block>, pageWidth: Json): (page: Page)
    requires Geometric(blocks, pageWidth)
    ensures page.Valid() && |page.boxes| == |blocks|
    ensures AreColumns(page.bands, WidthOf(pageWidth).value)
  {
    var boxes, width := BoxesOf(blocks), WidthOf(pageWidth).value;
    BandsAreColumns(boxes, width);
    Page(boxes, seq(|blocks|, i requires 0 <= i < |blocks| => RankOf(blocks[i].order)), PageBands(boxes, width))
  }

  /** Several columns: the reading order. One column: by height, if the model
      numbered every block. Otherwise the fallback order. */
  ghost predicate InReadingOrder(blocks: seq<Block>, pageWidth: Json, order: seq<nat>) {
    if Geometric(blocks, pageWidth) then
      var page := PageOf(blocks, pageWidth);
      if |page.bands| > 1 then SortedBy(order, page.ReadingOrder())
      else if HasAll(blocks, OrderKey()) then SortedBy(order, page.ByKey())
      else InLegacyOrder(blocks, order)
    else InLegacyOrder(blocks, order)
  }

  /** order_blocks, with the index order it settled on. Every block comes out
      exactly once; on a page with several columns in reading order. */
  method OrderBlocks(blocks: seq<Block>, pageWidth: Json) returns (ordered: seq<Block>, order: seq<nat>)
    ensures IsPermutation(order, |blocks|) && InRange(order, |blocks|)
    ensures ordered == Pick(blocks, order) && multiset(ordered) == multiset(blocks)
    ensures InReadingOrder(blocks, pageWidth, order)
  {
    if !Geometric(blocks, pageWidth) {
      order := LegacyOrder(blocks);
      LegacyPermutes(blocks);
    } else {
      var page := PageOf(blocks, pageWidth);
      var bands := ColumnBands.ColumnBands(page.boxes, WidthOf(pageWidth).value);
      if |bands| <= 1 {
        if HasAll(blocks, OrderKey()) {
          order := Sort(Upto(|blocks|), page.ByKey());
          SortedUptoPermutes(|blocks|, page.ByKey());
          page.KeyIsTotal();
          SortSorts(Upto(|blocks|), page.ByKey());
        } else {
          order := LegacyOrder(blocks);
          LegacyPermutes(blocks);
        }
      } else {
        order := OrderByColumns(page);
      }
    }
    PermutationInRange(order, |blocks|);
    PickPermutes(blocks, order);
    ordered := Pick(blocks, order);
  }

  /** By the model's number if all blocks have one, else by id if all have one, else as
      they come; equal ones as they come. */
  ghost predicate InLegacyOrder(blocks: seq<Block>, order: seq<nat>) {
    if HasAll(blocks, OrderKey()) then SortedBy(order, ByJsonKey(blocks, OrderKey()))
    else if HasAll(blocks, IdKey()) then SortedBy(order, ByJsonKey(blocks, IdKey()))
    else SortedBy(order, (i: nat, j: nat) => i <= j)
  }

  lemma {:induction false} LegacyPermutes(blocks: seq<Block>)
    ensures IsPermutation(LegacyOrder(blocks), |blocks|) && InLegacyOrder(blocks, LegacyOrder(blocks))
  {
    SortedUptoPermutes(|blocks|, ByJsonKey(blocks, OrderKey()));
    SortedUptoPermutes(|blocks|, ByJsonKey(blocks, IdKey()));
    JsonKeyIsTotal(blocks, OrderKey());
    JsonKeyIsTotal(blocks, IdKey());
    SortSorts(Upto(|blocks|), ByJsonKey(blocks, OrderKey()));
    SortSorts(Upto(|blocks|), ByJsonKey(blocks, IdKey()));
  }

  lemma JsonKeyIsTotal(blocks: seq<Block>, key: Block -> Json)
    ensures TotalPreorder(ByJsonKey(blocks, key))
  {
  }

  // ----- which path a page takes

  /** A bounding box is four numbers, left, top, right and bottom, that span an area. */
  lemma {:induction false} BoxOfNumbers(a: Json, b: Json, c: Json, d: Json)
    ensures var box := BoxOf(Array([a, b, c, d]));
            var numbers := forall v <- [a, b, c, d] :: v.Int? || v.Float?;
            && (box.Some? ==>
                  && numbers && box.value.0 == Real(a) && box.value.1 == Real(b)
                  && box.value.2 == Real(c) && box.value.3 == Real(d))
            && (box.None? ==> !numbers || Real(c) <= Real(a) || Real(d) <= Real(b))
  {
    var items := [a, b, c, d];
    assert items[0] == a && items[1] == b && items[2] == c && items[3] == d;
  }

  function Real(v: Json): real {
    if v.Int? then v.i as real else if v.Float? then v.x else 0.0
  }

  /** The page can be ordered by geometry: its width is a positive number, every block has a
      box, and one of them is at most half as wide as the page. */
  ghost predicate CanRank(blocks: seq<Block>, pageWidth: Json) {
    && (pageWidth.Int? || pageWidth.Float?) && Real(pageWidth) > 0.0
    && (forall i :: 0 <= i < |blocks| ==> BoxOf(blocks[i].bbox).Some?)
    && exists i :: 0 <= i < |blocks| && var box := BoxOf(blocks[i].bbox).value; box.2 - box.0 <= 0.5 * Real(pageWidth)
  }

  lemma CanRankIsGeometric(blocks: seq<Block>, pageWidth: Json)
    ensures CanRank(blocks, pageWidth) <==> Geometric(blocks, pageWidth)
    ensures WidthOf(pageWidth).Some? ==> WidthOf(pageWidth).value == Real(pageWidth) > 0.0
  {
  }

  /** Every block has a number of the model; `True` and `False` pass for numbers. */
  predicate Numbered(blocks: seq<Block>) {
    forall block <- blocks :: block.order.Int? || block.order.Bool?
  }

  /** Which order the blocks come out in. Columns are read one by one exactly on a page that
      geometry can rank and that has a gutter; a page it can rank without one is read by
      height if the model numbered every block; and every other page is left to the
      fallback. */
  lemma {:induction false} OrderTaken(blocks: seq<Block>, pageWidth: Json, order: seq<nat>)
    requires InReadingOrder(blocks, pageWidth, order)
    ensures !CanRank(blocks, pageWidth) ==> InLegacyOrder(blocks, order)
    ensures CanRank(blocks, pageWidth) ==>
              && Geometric(blocks, pageWidth)
              && var page := PageOf(blocks, pageWidth);
                 && |page.boxes| == |blocks| == |page.ranks|
                 && (forall i :: 0 <= i < |blocks| ==> page.boxes[i] == BoxOf(blocks[i].bbox).value)
                 && (forall i :: 0 <= i < |blocks| ==>
                       page.ranks[i] == match blocks[i].order
                                        case Int(n) => At(n)
                                        case Bool(b) => At(if b then 1 else 0)
                                        case _ => Unranked)
                 && page.bands == PageBands(page.boxes, Real(pageWidth))
                 && if exists g :: IsFree(page.boxes, Real(pageWidth), g) then SortedBy(order, page.ReadingOrder())
                    else if Numbered(blocks) then SortedBy(order, page.ByKey())
                    else InLegacyOrder(blocks, order)
  {
    CanRankIsGeometric(blocks, pageWidth);
    if Geometric(blocks, pageWidth) {
      var page := PageOf(blocks, pageWidth);
      SeveralColumnsExactly(page.boxes, WidthOf(pageWidth).value);
      hide IsFree, PageBands;
      assert forall i :: 0 <= i < |blocks| ==> blocks[i] in blocks;
      assert HasAll(blocks, OrderKey()) <==> Numbered(blocks);
    }
  }

  /** What sorting by height means, for a page read as one column. */
  lemma {:induction false} ByHeightMeans(page: Page, i: nat, j: nat)
    requires |page.boxes| == |page.ranks| && i < |page.boxes| && j < |page.boxes| && i != j && page.ByKey()(i, j)
    ensures page.boxes[i].1 < page.boxes[j].1 || (page.boxes[i].1 == page.boxes[j].1 && page.InModelOrder(i, j))
  {
  }
}
