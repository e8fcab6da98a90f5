/** Pairing layout blocks with table results, and sorting the pairs:
    _pair_tables and _sort_region_data of worker/app/pipeline/document_parser.py. */
module RegionData {
  import opened Options
  import opened Sorting
  import opened ReadingOrder

  /** `T` is a table result of the OCR. */
  datatype Pair<T> = Pair(block: Block, table: Option<T>)

  /** TABLE_LABELS. */
  predicate IsTable(block: Block) {
    block.kind == "table"
  }

  function TablesIn(blocks: seq<Block>): nat {
    if blocks == [] then 0
    else TablesIn(blocks[..|blocks| - 1]) + if IsTable(blocks[|blocks| - 1]) then 1 else 0
  }

  /** The k-th table block goes with the k-th result, as far as there are results. */
  ghost predicate PairedInOrder<T>(blocks: seq<Block>, results: seq<T>, pairs: seq<Pair<T>>) {
    && |pairs| == |blocks|
    && forall i :: 0 <= i < |blocks| ==>
         && pairs[i].block == blocks[i]
         && pairs[i].table == (if IsTable(blocks[i]) && TablesIn(blocks[..i]) < |results|
                               then Some(results[TablesIn(blocks[..i])]) else None)
  }

  /** The table blocks before block `i`. */
  ghost function TablesBefore(blocks: seq<Block>, i: nat): set<nat> {
    set m: nat | m < i && m < |blocks| && blocks[m].kind == "table"
  }

  lemma {:induction false} TablesInIs(blocks: seq<Block>, i: nat)
    requires i <= |blocks|
    ensures TablesIn(blocks[..i]) == |TablesBefore(blocks, i)|
  {
    if i > 0 {
      TablesInIs(blocks, i - 1);
      assert blocks[..i][..i - 1] == blocks[..i - 1];
      assert TablesBefore(blocks, i)
          == TablesBefore(blocks, i - 1) + if blocks[i - 1].kind == "table" then {i - 1} else {};
    }
  }

  method PairTables<T>(blocks: seq<Block>, results: seq<T>) returns (pairs: seq<Pair<T>>)
    ensures PairedInOrder(blocks, results, pairs)
    ensures forall i :: 0 <= i < |pairs| ==>
              && (pairs[i].table.Some? <==> blocks[i].kind == "table" && |TablesBefore(blocks, i)| < |results|)
              && (pairs[i].table.Some? ==> pairs[i].table.value == results[|TablesBefore(blocks, i)|])
  {
    pairs := [];
    var next := 0;
    for i := 0 to |blocks|
      invariant |pairs| == i && next <= |results|
      invariant next == if TablesIn(blocks[..i]) < |results| then TablesIn(blocks[..i]) else |results|
      invariant forall k :: 0 <= k < i ==>
        && pairs[k].block == blocks[k]
        && pairs[k].table == (if IsTable(blocks[k]) && TablesIn(blocks[..k]) < |results|
                              then Some(results[TablesIn(blocks[..k])]) else None)
    {
      assert blocks[..i + 1][..i] == blocks[..i];
      var table := None;
      if IsTable(blocks[i]) && next < |results| {
        table := Some(results[next]);
        next := next + 1;
      }
      pairs := pairs + [Pair(blocks[i], table)];
    }
    forall i | 0 <= i < |pairs|
      ensures TablesIn(blocks[..i]) == |TablesBefore(blocks, i)|
    {
      TablesInIs(blocks, i);
    }
  }

  function BlocksOf<T>(pairs: seq<Pair<T>>): seq<Block> {
    seq(|pairs|, i requires 0 <= i < |pairs| => pairs[i].block)
  }

  /** Sorting the pairs moves each block together with its table result: the
      answer is the pairs themselves, in the blocks' reading order. */
  method SortRegionData<T>(pairs: seq<Pair<T>>, pageWidth: Json) returns (sorted: seq<Pair<T>>, order: seq<nat>)
    requires forall i, j :: 0 <= i < j < |pairs| ==> pairs[i].block.id != pairs[j].block.id
    ensures IsPermutation(order, |pairs|) && InRange(order, |pairs|)
    ensures sorted == Pick(pairs, order) && multiset(sorted) == multiset(pairs)
    ensures InReadingOrder(BlocksOf(pairs), pageWidth, order)
  {
    hide InReadingOrder;
    var blocks := BlocksOf(pairs);
    var orderedBlocks;
    orderedBlocks, order := OrderBlocks(blocks, pageWidth);
    var pairByBlock: map<nat, Pair<T>> := map[];
    for i := 0 to |pairs|
      invariant forall k :: 0 <= k < i ==>
        pairs[k].block.id in pairByBlock && pairByBlock[pairs[k].block.id] == pairs[k]
    {
      pairByBlock := pairByBlock[pairs[i].block.id := pairs[i]];
    }
    sorted := [];
    for k := 0 to |orderedBlocks|
      invariant sorted == Pick(pairs, order)[..k]
    {
      assert orderedBlocks[k] == blocks[order[k]];
      sorted := sorted + [pairByBlock[orderedBlocks[k].id]];
    }
    PickPermutes(pairs, order);
  }
}
