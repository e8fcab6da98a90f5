/** Which pages a run processes, and where their results go: pages_to_process of
    backend/app/services/reprocess.py, _run_page_numbers of
    worker/app/tasks/ingestion.py and process_async of
    worker/app/pipeline/document_parser.py. Page numbers start at 1. */
module PageSelection {
  import opened MinMax
  import opened Options
  import Sets

  /** The numbers `1..n` for which `keep` holds, in order. */
  function Numbers(n: nat, keep: nat -> bool): seq<nat> {
    if n == 0 then [] else Numbers(n - 1, keep) + if keep(n) then [n] else []
  }

  ghost predicate Increasing(s: seq<nat>) {
    forall i, j :: 0 <= i < j < |s| ==> s[i] < s[j]
  }

  lemma {:induction false} NumbersAre(n: nat, keep: nat -> bool)
    ensures Increasing(Numbers(n, keep))
    ensures forall i: nat :: i in Numbers(n, keep) <==> 1 <= i <= n && keep(i)
  {
    if n > 0 {
      NumbersAre(n - 1, keep);
      var before := Numbers(n - 1, keep);
      forall i | 0 <= i < |before|
        ensures before[i] < n
      {
        assert before[i] in before;
      }
    }
  }

  function Unfinished(completed: set<nat>): nat -> bool {
    (number: nat) => number !in completed
  }

  /** `pages_to_process`: None while the page count is not known. */
  function PagesToProcess(pageCount: Option<nat>, completed: seq<nat>): Option<seq<nat>> {
    match pageCount
    case None => None
    case Some(n) => Some(Numbers(n, Unfinished(set i | i in completed)))
  }

  /** It is the pages not completed, each once, in increasing order. */
  lemma {:induction false} PagesToProcessIsComplement(pageCount: nat, completed: seq<nat>)
    ensures var pages := PagesToProcess(Some(pageCount), completed).value;
            Increasing(pages) && forall i: nat :: i in pages <==> 1 <= i <= pageCount && i !in completed
  {
    NumbersAre(pageCount, Unfinished(set i | i in completed));
  }

  function Targeted(target: Option<seq<nat>>): nat -> bool {
    (number: nat) => target.None? || number in target.value
  }

  /** `_run_page_numbers`, and the pages `process_async` starts tasks for. */
  function RunPages(pageCount: nat, target: Option<seq<nat>>): seq<nat> {
    Numbers(pageCount, Targeted(target))
  }

  /** The pages of a file, increasing: what process_async needs of the list. */
  ghost predicate LinesUp(pageCount: nat, pages: seq<nat>) {
    Increasing(pages) && forall i :: 0 <= i < |pages| ==> 1 <= pages[i] <= pageCount
  }

  /** The started tasks are the listed pages, one for one, exactly when the list is
      increasing and inside the range. */
  lemma {:induction false} TasksLineUp(pageCount: nat, pages: seq<nat>)
    ensures RunPages(pageCount, Some(pages)) == pages <==> LinesUp(pageCount, pages)
  {
    var started := RunPages(pageCount, Some(pages));
    NumbersAre(pageCount, Targeted(Some(pages)));
    if started == pages {
      forall i | 0 <= i < |pages|
        ensures 1 <= pages[i] <= pageCount
      {
        assert pages[i] in started;
      }
    }
    if LinesUp(pageCount, pages) {
      SameElementsSameList(started, pages);
    }
  }

  /** Every list pages_to_process gives lines up. */
  lemma {:induction false} SelectedPagesLineUp(pageCount: nat, completed: seq<nat>)
    ensures LinesUp(pageCount, PagesToProcess(Some(pageCount), completed).value)
  {
    PagesToProcessIsComplement(pageCount, completed);
    var pages := PagesToProcess(Some(pageCount), completed).value;
    assert forall i :: 0 <= i < |pages| ==> pages[i] in pages;
  }

  lemma {:induction false} SameElementsSameList(a: seq<nat>, b: seq<nat>)
    requires Increasing(a) && Increasing(b) && forall i: nat :: i in a <==> i in b
    ensures a == b
  {
    assert a != [] ==> a[0] in b;
    assert b != [] ==> b[0] in a;
    if a != [] {
      LastIsLargest(a);
      LastIsLargest(b);
      assert a[|a| - 1] in b && b[|b| - 1] in a;
      var a', b' := a[..|a| - 1], b[..|b| - 1];
      forall i: nat
        ensures i in a' <==> i in b'
      {
        assert i in a <==> i in b;
      }
      SameElementsSameList(a', b');
      assert a == a' + [a[|a| - 1]] && b == b' + [b[|b| - 1]];
    }
  }

  lemma LastIsLargest(s: seq<nat>)
    requires Increasing(s) && s != []
    ensures var rest, last := s[..|s| - 1], s[|s| - 1];
            forall i: nat :: (i in s <==> i in rest || i == last) && (i in rest ==> i < last)
  {
    assert s == s[..|s| - 1] + [s[|s| - 1]];
  }

  /** The results of the started tasks; `process` stands for one page's request.
      Results are gathered in the order the tasks were started. */
  function Gather<R>(pages: seq<nat>, process: nat -> R): (results: seq<R>)
    ensures |results| == |pages|
  {
    seq(|pages|, i requires 0 <= i < |pages| => process(pages[i]))
  }

  /** Where `parsed[page - 1]` is: number 0 means the last slot, a number past the
      end none. */
  function SlotOf(page: nat, slots: nat): Option<nat> {
    if 1 <= page <= slots then Some(page - 1)
    else if page == 0 < slots then Some(slots - 1)
    else None
  }

  /** Page numbers of the file have their own slots, 0 has the last one, and others none. */
  lemma {:induction false} SlotsAre(page: nat, slots: nat)
    ensures SlotOf(page, slots).Some? <==> page <= slots && slots > 0
    ensures SlotOf(page, slots).Some? ==>
              SlotOf(page, slots).value == (if page == 0 then slots else page) - 1 < slots
  {
  }

  /** The first `k` pairs of the `zip`, written one after the other; None is the
      IndexError of a number past the end. */
  function Written<R>(parsed: seq<R>, pages: seq<nat>, results: seq<R>, k: nat): (after: Option<seq<R>>)
    requires k <= |pages| && k <= |results|
    ensures after.Some? ==> |after.value| == |parsed|
  {
    if k == 0 then Some(parsed)
    else
      match Written(parsed, pages, results, k - 1)
      case None => None
      case Some(before) =>
        var slot := SlotOf(pages[k - 1], |before|);
        if slot.None? then None else Some(before[slot.value := results[k - 1]])
  }

  /** The slots before anything is written: those of an earlier run of the same
      length, or empty ones. */
  function Slots<R>(pageCount: nat, previous: seq<R>, empty: R): (slots: seq<R>)
    ensures |slots| == pageCount
  {
    if |previous| == pageCount then previous else seq(pageCount, _ => empty)
  }

  function Processed<R>(pageCount: nat, target: Option<seq<nat>>, process: nat -> R, empty: R, previous: seq<R>)
    : Option<seq<R>>
  {
    var results := Gather(RunPages(pageCount, target), process);
    match target
    case None => Some(results)
    case Some(pages) =>
      Written(Slots(pageCount, previous, empty), pages, results, Min(|pages|, |results|))
  }

  /** process_async, for any list of pages. */
  method ProcessPages<R>(pageCount: nat, target: Option<seq<nat>>, process: nat -> R, empty: R, previous: seq<R>)
    returns (parsed: Option<seq<R>>)
    ensures parsed == Processed(pageCount, target, process, empty, previous)
    ensures target.None? ==> parsed.Some? && |parsed.value| == pageCount
                             && forall i: nat :: i < pageCount ==> parsed.value[i] == process(i + 1)
    ensures target.Some? && LinesUp(pageCount, target.value) ==>
              && parsed.Some? && |parsed.value| == pageCount
              && OwnSlots(target.value, process, Slots(pageCount, previous, empty), parsed.value)
  {
    var results := Gather(RunPages(pageCount, target), process);
    if target.None? {
      AllPages(pageCount);
      return Some(results);
    }
    if LinesUp(pageCount, target.value) {
      LinedUpInOwnSlots(pageCount, target.value, process, empty, previous);
    }
    var pages := target.value;
    var slots := Slots(pageCount, previous, empty);
    var pairs := Min(|pages|, |results|);
    for k := 0 to pairs
      invariant |slots| == pageCount && Written(Slots(pageCount, previous, empty), pages, results, k) == Some(slots)
    {
      var slot := SlotOf(pages[k], |slots|);
      if slot.None? {
        FailedForGood(Slots(pageCount, previous, empty), pages, results, k + 1, pairs);
        return None;
      }
      slots := slots[slot.value := results[k]];
    }
    parsed := Some(slots);
  }

  lemma {:induction false} FailedForGood<R>(parsed: seq<R>, pages: seq<nat>, results: seq<R>, k: nat, n: nat)
    requires k <= n <= |pages| && n <= |results| && Written(parsed, pages, results, k).None?
    ensures Written(parsed, pages, results, n).None?
  {
    if k < n {
      FailedForGood(parsed, pages, results, k, n - 1);
    }
  }

  /** Each listed page's result is in its own slot, and no other slot was written. */
  ghost predicate OwnSlots<R>(pages: seq<nat>, process: nat -> R, before: seq<R>, after: seq<R>) {
    && |after| == |before|
    && forall i: nat :: i < |after| ==> after[i] == if i + 1 in pages then process(i + 1) else before[i]
  }

  /** What the written slots hold when no page is listed twice. */
  lemma {:induction false} WrittenOnce<R>(parsed: seq<R>, pages: seq<nat>, results: seq<R>, k: nat)
    requires k <= |pages| && k <= |results|
    requires forall i :: 0 <= i < |pages| ==> 1 <= pages[i] <= |parsed|
    requires forall i, j :: 0 <= i < j < |pages| ==> pages[i] != pages[j]
    ensures var after := Written(parsed, pages, results, k);
            && after.Some?
            && (forall i :: 0 <= i < k ==> after.value[pages[i] - 1] == results[i])
            && (forall i: nat :: i < |parsed| && i + 1 !in pages[..k] ==> after.value[i] == parsed[i])
  {
    if k > 0 {
      WrittenOnce(parsed, pages, results, k - 1);
      assert pages[..k] == pages[..k - 1] + [pages[k - 1]];
    }
  }

  lemma LinedUpInOwnSlots<R>(pageCount: nat, pages: seq<nat>, process: nat -> R, empty: R, previous: seq<R>)
    requires LinesUp(pageCount, pages)
    ensures var parsed := Processed(pageCount, Some(pages), process, empty, previous);
            parsed.Some? && OwnSlots(pages, process, Slots(pageCount, previous, empty), parsed.value)
  {
    TasksLineUp(pageCount, pages);
    var slots, results := Slots(pageCount, previous, empty), Gather(pages, process);
    WrittenOnce(slots, pages, results, |pages|);
    assert pages[..|pages|] == pages;
    var after := Written(slots, pages, results, |pages|).value;
    forall i: nat | i < pageCount
      ensures after[i] == if i + 1 in pages then process(i + 1) else slots[i]
    {
      if i + 1 in pages {
        var k :| 0 <= k < |pages| && pages[k] == i + 1;
        assert after[pages[k] - 1] == results[k];
      }
    }
  }

  /** For a list of pages of the file without repeats, and pages whose results differ:
      every result is in its own slot exactly when the list is increasing. */
  lemma {:induction false} OwnSlotsExactlyWhenIncreasing<R>(pageCount: nat, pages: seq<nat>, process: nat -> R,
                                                               empty: R, previous: seq<R>)
    requires forall i :: 0 <= i < |pages| ==> 1 <= pages[i] <= pageCount
    requires forall i, j :: 0 <= i < j < |pages| ==> pages[i] != pages[j]
    requires forall i, j :: 1 <= i < j <= pageCount ==> process(i) != process(j)
    ensures var parsed := Processed(pageCount, Some(pages), process, empty, previous);
            && parsed.Some?
            && (OwnSlots(pages, process, Slots(pageCount, previous, empty), parsed.value) <==> Increasing(pages))
  {
    var started := RunPages(pageCount, Some(pages));
    var slots, results := Slots(pageCount, previous, empty), Gather(started, process);
    var pairs := Min(|pages|, |results|);
    NumbersAre(pageCount, Targeted(Some(pages)));
    assert forall i :: 0 <= i < |pages| ==> pages[i] in pages;
    SameElementsSameLength(started, pages);
    WrittenOnce(slots, pages, results, pairs);
    var after := Written(slots, pages, results, pairs).value;
    if Increasing(pages) {
      LinedUpInOwnSlots(pageCount, pages, process, empty, previous);
    }
    if OwnSlots(pages, process, slots, after) {
      forall k | 0 <= k < pairs
        ensures pages[k] == started[k]
      {
        assert pages[k] in pages && started[k] in started;
        assert after[pages[k] - 1] == results[k] == process(started[k]);
        assert after[pages[k] - 1] == process(pages[k]);
      }
      assert started == pages;
    }
  }

  /** Two lists of the same elements are equally long, if neither repeats one. */
  lemma SameElementsSameLength(a: seq<nat>, b: seq<nat>)
    requires forall i: nat :: i in a <==> i in b
    requires forall i, j :: 0 <= i < j < |a| ==> a[i] != a[j]
    requires forall i, j :: 0 <= i < j < |b| ==> b[i] != b[j]
    ensures |a| == |b|
  {
    Sets.DistinctSize(a);
    Sets.DistinctSize(b);
    assert Sets.Elements(a) == Sets.Elements(b);
  }

  /** So with the list [2, 1] each of the two pages gets the other's result. */
  lemma {:induction false} ReversedPagesSwapResults<R>(process: nat -> R, empty: R)
    ensures Processed(2, Some([2, 1]), process, empty, []) == Some([process(2), process(1)])
  {
    var pages: seq<nat> := [2, 1];
    var results := Gather(RunPages(2, Some(pages)), process);
    assert Numbers(0, Targeted(Some(pages))) == [] && Numbers(1, Targeted(Some(pages))) == [1];
    assert RunPages(2, Some(pages)) == [1, 2];
    var slots := Slots(2, [], empty);
    assert Written(slots, pages, results, 1) == Some(slots[1 := process(1)]);
    assert Written(slots, pages, results, 2) == Some(slots[1 := process(1)][0 := process(2)]);
    assert slots[1 := process(1)][0 := process(2)] == [process(2), process(1)];
  }

  lemma {:induction false} AllPages(pageCount: nat)
    ensures |RunPages(pageCount, None)| == pageCount
    ensures forall i :: 0 <= i < pageCount ==> RunPages(pageCount, None)[i] == i + 1
  {
    if pageCount > 0 {
      AllPages(pageCount - 1);
    }
  }
}
