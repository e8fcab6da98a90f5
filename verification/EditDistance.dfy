/** OCR-tolerant word matching: within_one_edit, _fuzzy_eligible and _fuzzy_span
    of backend/app/services/search_query.py. */
module EditDistance {
  import opened MinMax
  import opened Options

  function Init(s: string): string
    requires |s| > 0
  {
    s[..|s| - 1]
  }

  function Last(s: string): char
    requires |s| > 0
  {
    s[|s| - 1]
  }

  // ----- what an edit is

  datatype Edit = Insert(at: nat, c: char) | Delete(at: nat) | Substitute(at: nat, c: char) | Swap(at: nat)

  predicate Applies(e: Edit, a: string) {
    match e
    case Insert(at, _) => at <= |a|
    case Delete(at) => at < |a|
    case Substitute(at, _) => at < |a|
    case Swap(at) => at + 1 < |a|
  }

  function Apply(e: Edit, a: string): string
    requires Applies(e, a)
  {
    match e
    case Insert(at, c) => a[..at] + [c] + a[at..]
    case Delete(at) => a[..at] + a[at + 1..]
    case Substitute(at, c) => a[..at] + [c] + a[at + 1..]
    case Swap(at) => a[..at] + [a[at + 1], a[at]] + a[at + 2..]
  }

  ghost predicate AtMostOneEdit(a: string, b: string) {
    a == b || exists e :: Applies(e, a) && Apply(e, a) == b
  }

  // ----- optimal string alignment

  /** One column of an alignment of two strings. */
  datatype Step = Keep | Change | Add | Drop | Exchange

  /** `steps` lays `a` against `b`, last characters last. An exchanged pair is
      not touched again: that is what makes the alignment "optimal string
      alignment" rather than free editing. */
  predicate Aligns(steps: seq<Step>, a: string, b: string)
    decreases |steps|
  {
    if |steps| == 0 then a == "" && b == ""
    else
      var rest := steps[..|steps| - 1];
      match steps[|steps| - 1]
      case Keep => |a| > 0 && |b| > 0 && Last(a) == Last(b) && Aligns(rest, Init(a), Init(b))
      case Change => |a| > 0 && |b| > 0 && Aligns(rest, Init(a), Init(b))
      case Add => |b| > 0 && Aligns(rest, a, Init(b))
      case Drop => |a| > 0 && Aligns(rest, Init(a), b)
      case Exchange => Exchanged(a, b) && Aligns(rest, Init(Init(a)), Init(Init(b)))
  }

  predicate Exchanged(a: string, b: string) {
    |a| > 1 && |b| > 1 && a[|a| - 1] == b[|b| - 2] && a[|a| - 2] == b[|b| - 1]
  }

  function Cost(steps: seq<Step>): nat {
    if |steps| == 0 then 0
    else Cost(steps[..|steps| - 1]) + if steps[|steps| - 1] == Keep then 0 else 1
  }

  /** The recurrence the table is filled by. */
  function Osa(a: string, b: string): nat
    decreases |a| + |b|
  {
    if |a| == 0 then |b|
    else if |b| == 0 then |a|
    else Cheapest(a, b, Osa(Init(a), b), Osa(a, Init(b)), Osa(Init(a), Init(b)),
                  if Exchanged(a, b) then Osa(Init(Init(a)), Init(Init(b))) else 0)
  }

  /** The cheapest last step, given what comes before it costs: one character less
      of `a`, of `b`, of both, or two of both. */
  function Cheapest(a: string, b: string, drop: nat, add: nat, change: nat, exchange: nat): nat
    requires |a| > 0 && |b| > 0
  {
    var d := Min(Min(drop + 1, add + 1), change + if Last(a) == Last(b) then 0 else 1);
    if Exchanged(a, b) then Min(d, exchange + 1) else d
  }

  lemma Unfolded(a: string, b: string)
    requires |a| > 0 && |b| > 0
    ensures Osa(a, b) == Cheapest(a, b, Osa(Init(a), b), Osa(a, Init(b)), Osa(Init(a), Init(b)),
                                  if Exchanged(a, b) then Osa(Init(Init(a)), Init(Init(b))) else 0)
  {
    hide Cheapest, Exchanged;
  }

  lemma Ends(a: string, b: string)
    ensures |a| == 0 ==> Osa(a, b) == |b|
    ensures |b| == 0 ==> Osa(a, b) == |a|
  {
  }

  /** No alignment is cheaper than the recurrence says... */
  lemma {:induction false} NoCheaperAlignment(steps: seq<Step>, a: string, b: string)
    requires Aligns(steps, a, b)
    ensures Osa(a, b) <= Cost(steps)
    decreases |steps|
  {
    if |steps| > 0 {
      var rest := steps[..|steps| - 1];
      match steps[|steps| - 1] {
        case Keep => NoCheaperAlignment(rest, Init(a), Init(b));
        case Change => NoCheaperAlignment(rest, Init(a), Init(b));
        case Add => NoCheaperAlignment(rest, a, Init(b)); NextColumn(a, b);
        case Drop => NoCheaperAlignment(rest, Init(a), b); NextRow(a, b);
        case Exchange => NoCheaperAlignment(rest, Init(Init(a)), Init(Init(b)));
      }
    }
  }

  lemma NextColumn(a: string, b: string)
    requires |b| > 0
    ensures Osa(a, b) <= Osa(a, Init(b)) + 1
  {
  }

  lemma NextRow(a: string, b: string)
    requires |a| > 0
    ensures Osa(a, b) <= Osa(Init(a), b) + 1
  {
  }

  /** ... and there is one of exactly that cost. */
  lemma {:induction false} BestAlignment(a: string, b: string) returns (steps: seq<Step>)
    ensures Aligns(steps, a, b) && Cost(steps) == Osa(a, b)
    decreases |a| + |b|
  {
    hide Osa;
    Ends(a, b);
    if |a| > 0 {
      Ends(Init(a), b);
    }
    if |b| > 0 {
      Ends(a, Init(b));
    }
    if |a| > 0 && |b| > 0 {
      Unfolded(a, b);
    }
    var rest;
    if |a| == 0 && |b| == 0 {
      steps := [];
    } else if |a| == 0 || (|b| > 0 && Osa(a, b) == Osa(a, Init(b)) + 1) {
      rest := BestAlignment(a, Init(b));
      steps := rest + [Add];
    } else if |b| == 0 || Osa(a, b) == Osa(Init(a), b) + 1 {
      rest := BestAlignment(Init(a), b);
      steps := rest + [Drop];
    } else if Osa(a, b) == Osa(Init(a), Init(b)) + if Last(a) == Last(b) then 0 else 1 {
      rest := BestAlignment(Init(a), Init(b));
      steps := rest + [if Last(a) == Last(b) then Keep else Change];
    } else {
      rest := BestAlignment(Init(Init(a)), Init(Init(b)));
      steps := rest + [Exchange];
    }
    if steps != [] {
      assert steps[..|steps| - 1] == rest;
    }
  }

  // ----- distance at most one is at most one edit

  lemma {:induction false} ZeroIsEqual(a: string, b: string)
    ensures Osa(a, b) == 0 <==> a == b
    decreases |a| + |b|
  {
    if |a| > 0 && |b| > 0 {
      ZeroIsEqual(Init(a), Init(b));
      assert a == Init(a) + [Last(a)] && b == Init(b) + [Last(b)];
    }
  }

  lemma {:induction false} LengthBound(a: string, b: string)
    ensures |a| - |b| <= Osa(a, b) && |b| - |a| <= Osa(a, b)
    decreases |a| + |b|
  {
    if |a| > 0 && |b| > 0 {
      LengthBound(Init(a), b);
      LengthBound(a, Init(b));
      LengthBound(Init(a), Init(b));
      if Exchanged(a, b) {
        LengthBound(Init(Init(a)), Init(Init(b)));
      }
    }
  }

  lemma {:induction false} Symmetric(a: string, b: string)
    ensures Osa(a, b) == Osa(b, a)
    decreases |a| + |b|
  {
    if |a| > 0 && |b| > 0 {
      Symmetric(Init(a), b);
      Symmetric(a, Init(b));
      Symmetric(Init(a), Init(b));
      if Exchanged(a, b) {
        Symmetric(Init(Init(a)), Init(Init(b)));
      }
    }
  }

  /** An edit of a prefix is an edit of the longer string. */
  lemma EditBeforeSuffix(e: Edit, a: string, c: char)
    requires Applies(e, a)
    ensures Applies(e, a + [c]) && Apply(e, a + [c]) == Apply(e, a) + [c]
  {
    match e
    case Insert(at, d) => assert (a + [c])[at..] == a[at..] + [c]; assert (a + [c])[..at] == a[..at];
    case Delete(at) => assert (a + [c])[at + 1..] == a[at + 1..] + [c]; assert (a + [c])[..at] == a[..at];
    case Substitute(at, d) => assert (a + [c])[at + 1..] == a[at + 1..] + [c]; assert (a + [c])[..at] == a[..at];
    case Swap(at) => assert (a + [c])[at + 2..] == a[at + 2..] + [c]; assert (a + [c])[..at] == a[..at];
  }

  lemma OneEditBeforeSuffix(a: string, b: string, c: char)
    requires AtMostOneEdit(a, b)
    ensures AtMostOneEdit(a + [c], b + [c])
  {
    if a != b {
      var e :| Applies(e, a) && Apply(e, a) == b;
      EditBeforeSuffix(e, a, c);
    }
  }

  /** Where a distance of at most one can come from. */
  lemma NearCases(a: string, b: string)
    requires |a| > 0 && |b| > 0 && Osa(a, b) <= 1
    ensures || (Last(a) == Last(b) && Osa(Init(a), Init(b)) <= 1)
            || Init(a) == b || a == Init(b) || Init(a) == Init(b)
            || (Exchanged(a, b) && Init(Init(a)) == Init(Init(b)))
  {
    hide Osa;
    Unfolded(a, b);
    ZeroIsEqual(Init(a), b);
    ZeroIsEqual(a, Init(b));
    ZeroIsEqual(Init(a), Init(b));
    if Exchanged(a, b) {
      ZeroIsEqual(Init(Init(a)), Init(Init(b)));
    }
  }

  /** One edit at the end of `a`. */
  lemma EditAtEnd(a: string, b: string)
    requires |a| > 0 && |b| > 0
    requires || Init(a) == b || a == Init(b) || Init(a) == Init(b)
             || (Exchanged(a, b) && Init(Init(a)) == Init(Init(b)))
    ensures AtMostOneEdit(a, b)
  {
    var n := |a|;
    var e;
    if Init(a) == b {
      e := Delete(n - 1);
      assert Apply(e, a) == a[..n - 1] + a[n..] == b;
    } else if a == Init(b) {
      e := Insert(n, Last(b));
      assert Apply(e, a) == a[..n] + [Last(b)] + a[n..] == b;
    } else if Init(a) == Init(b) {
      e := Substitute(n - 1, Last(b));
      assert Apply(e, a) == a[..n - 1] + [Last(b)] + a[n..] == b;
    } else {
      e := Swap(n - 2);
      assert Init(Init(a)) == a[..n - 2] && Init(Init(b)) == b[..|b| - 2];
      assert b == b[..|b| - 2] + [b[|b| - 2], b[|b| - 1]];
      assert Apply(e, a) == a[..n - 2] + [a[n - 1], a[n - 2]] + a[n..] == b;
    }
    assert Applies(e, a) && Apply(e, a) == b;
  }

  lemma {:induction false} NearIsOneEdit(a: string, b: string)
    requires Osa(a, b) <= 1
    ensures AtMostOneEdit(a, b)
    decreases |a| + |b|
  {
    hide Osa, Apply, Exchanged;
    LengthBound(a, b);
    if a == b {
    } else if |a| == 0 {
      OneCharacter(b);
    } else if |b| == 0 {
      OneCharacter(a);
    } else {
      NearCases(a, b);
      if Last(a) == Last(b) && Osa(Init(a), Init(b)) <= 1 {
        NearIsOneEdit(Init(a), Init(b));
        assert a == Init(a) + [Last(a)] && b == Init(b) + [Last(a)];
        OneEditBeforeSuffix(Init(a), Init(b), Last(a));
      } else {
        EditAtEnd(a, b);
      }
    }
  }

  lemma OneCharacter(a: string)
    requires |a| == 1
    ensures AtMostOneEdit("", a) && AtMostOneEdit(a, "")
  {
    assert Apply(Insert(0, a[0]), "") == a;
    assert Apply(Delete(0), a) == "";
  }

  lemma {:induction false} OneMoreIsOne(a: string, at: nat, c: char)
    requires at <= |a|
    ensures Osa(a, Apply(Insert(at, c), a)) <= 1
    decreases |a|
  {
    var b := Apply(Insert(at, c), a);
    if at == |a| {
      assert Init(b) == a;
      ZeroIsEqual(a, a);
      NextColumn(a, b);
    } else {
      OneMoreIsOne(Init(a), at, c);
      assert Init(b) == Apply(Insert(at, c), Init(a)) by {
        assert Init(a)[at..] + [Last(a)] == a[at..];
      }
      SameLast(a, b);
    }
  }

  lemma SameLast(a: string, b: string)
    requires |a| > 0 && |b| > 0 && Last(a) == Last(b)
    ensures Osa(a, b) <= Osa(Init(a), Init(b))
  {
  }

  lemma {:induction false} OtherIsOne(a: string, at: nat, c: char)
    requires at < |a|
    ensures Osa(a, Apply(Substitute(at, c), a)) <= 1
    decreases |a|
  {
    var b := Apply(Substitute(at, c), a);
    if at == |a| - 1 {
      assert Init(b) == Init(a);
      ZeroIsEqual(Init(a), Init(a));
    } else {
      assert Init(b) == Apply(Substitute(at, c), Init(a)) by {
        assert Init(a)[at + 1..] + [Last(a)] == a[at + 1..];
      }
      OtherIsOne(Init(a), at, c);
    }
  }

  lemma {:induction false} SwapIsOne(a: string, at: nat)
    requires at + 1 < |a|
    ensures Osa(a, Apply(Swap(at), a)) <= 1
    decreases |a|
  {
    var b := Apply(Swap(at), a);
    if at == |a| - 2 {
      assert Init(Init(b)) == Init(Init(a));
      ZeroIsEqual(Init(Init(a)), Init(Init(a)));
    } else {
      assert Init(b) == Apply(Swap(at), Init(a)) by {
        assert Init(a)[at + 2..] + [Last(a)] == a[at + 2..];
      }
      SwapIsOne(Init(a), at);
    }
  }

  lemma OneEditIsNear(a: string, e: Edit)
    requires Applies(e, a)
    ensures Osa(a, Apply(e, a)) <= 1
  {
    match e
    case Insert(at, c) => OneMoreIsOne(a, at, c);
    case Delete(at) =>
      var b := Apply(e, a);
      assert Apply(Insert(at, a[at]), b) == a;
      OneMoreIsOne(b, at, a[at]);
      Symmetric(a, b);
    case Substitute(at, c) => OtherIsOne(a, at, c);
    case Swap(at) => SwapIsOne(a, at);
  }

  /** The measure the table computes is at most one exactly for the strings at
      most one insertion, deletion, substitution or adjacent swap apart. */
  lemma {:induction false} NearIffOneEdit(a: string, b: string)
    ensures Osa(a, b) <= 1 <==> AtMostOneEdit(a, b)
  {
    if Osa(a, b) <= 1 {
      NearIsOneEdit(a, b);
    }
    if a == b {
      ZeroIsEqual(a, b);
    } else if e :| Applies(e, a) && Apply(e, a) == b {
      OneEditIsNear(a, e);
    }
  }

  // ----- the table

  /** The recurrence, between table positions. */
  lemma Recurrence(a: string, b: string, i: nat, j: nat)
    requires 0 < i <= |a| && 0 < j <= |b|
    ensures var d := Min(Min(Osa(a[..i - 1], b[..j]) + 1, Osa(a[..i], b[..j - 1]) + 1),
                         Osa(a[..i - 1], b[..j - 1]) + if a[i - 1] == b[j - 1] then 0 else 1);
            Osa(a[..i], b[..j]) ==
              if i > 1 && j > 1 && a[i - 1] == b[j - 2] && a[i - 2] == b[j - 1]
              then Min(d, Osa(a[..i - 2], b[..j - 2]) + 1) else d
  {
    hide Osa;
    Unfolded(a[..i], b[..j]);
    assert Init(a[..i]) == a[..i - 1] && Init(b[..j]) == b[..j - 1];
    if i > 1 && j > 1 {
      assert Init(a[..i - 1]) == a[..i - 2] && Init(b[..j - 1]) == b[..j - 2];
    }
  }

  ghost predicate RowDone(table: array2<nat>, a: string, b: string, i: nat)
    requires i <= |a| && table.Length0 == |a| + 1 && table.Length1 == |b| + 1
    reads table
  {
    forall l :: 0 <= l <= |b| ==> table[i, l] == Osa(a[..i], b[..l])
  }

  method FillRow(table: array2<nat>, a: string, b: string, i: nat)
    requires table.Length0 == |a| + 1 && table.Length1 == |b| + 1 && 0 < i <= |a|
    requires RowDone(table, a, b, i - 1) && (i > 1 ==> RowDone(table, a, b, i - 2))
    requires table[i, 0] == Osa(a[..i], b[..0])
    modifies table
    ensures RowDone(table, a, b, i)
    ensures forall k, l :: 0 <= k <= |a| && k != i && 0 <= l <= |b| ==> table[k, l] == old(table[k, l])
  {
    hide Osa, Min;
    for j := 1 to |b| + 1
      invariant forall l :: 0 <= l < j ==> table[i, l] == Osa(a[..i], b[..l])
      invariant forall k, l :: 0 <= k <= |a| && k != i && 0 <= l <= |b| ==> table[k, l] == old(table[k, l])
    {
      Recurrence(a, b, i, j);
      table[i, j] := Min(Min(table[i - 1, j] + 1, table[i, j - 1] + 1),
                         table[i - 1, j - 1] + if a[i - 1] == b[j - 1] then 0 else 1);
      if i > 1 && j > 1 && a[i - 1] == b[j - 2] && a[i - 2] == b[j - 1] {
        table[i, j] := Min(table[i, j], table[i - 2, j - 2] + 1);
      }
    }
  }

  /** Fills the whole table: every entry is the distance of its two prefixes. */
  method FillTable(a: string, b: string) returns (table: array2<nat>)
    ensures fresh(table) && table.Length0 == |a| + 1 && table.Length1 == |b| + 1
    ensures forall i, j :: 0 <= i <= |a| && 0 <= j <= |b| ==> table[i, j] == Osa(a[..i], b[..j])
  {
    hide Osa;
    var la, lb := |a|, |b|;
    table := new nat[la + 1, lb + 1]((i, j) => 0);
    for i := 1 to la + 1
      invariant forall k :: 0 <= k < i ==> table[k, 0] == k
    {
      table[i, 0] := i;
    }
    for j := 1 to lb + 1
      invariant forall k :: 0 <= k <= la ==> table[k, 0] == k
      invariant forall k :: 0 <= k < j ==> table[0, k] == k
    {
      table[0, j] := j;
    }
    Borders(a, b);
    for i := 1 to la + 1
      invariant forall k :: 0 <= k <= la ==> table[k, 0] == Osa(a[..k], b[..0])
      invariant forall k :: 0 <= k < i ==> RowDone(table, a, b, k)
    {
      label row:
      FillRow(table, a, b, i);
      forall k | 0 <= k < i
        ensures RowDone(table, a, b, k)
      {
        assert old@row(RowDone(table, a, b, k));
      }
    }
    forall i, j | 0 <= i <= la && 0 <= j <= lb
      ensures table[i, j] == Osa(a[..i], b[..j])
    {
      assert RowDone(table, a, b, i);
    }
  }

  lemma Borders(a: string, b: string)
    ensures forall k :: 0 <= k <= |a| ==> Osa(a[..k], b[..0]) == k
    ensures forall k :: 0 <= k <= |b| ==> Osa(a[..0], b[..k]) == k
  {
  }

  /** within_one_edit. */
  method WithinOneEdit(word: string, token: string) returns (near: bool)
    ensures near <==> AtMostOneEdit(word, token)
  {
    hide Osa;
    var a, b, la, lb := word, token, |word|, |token|;
    NearIffOneEdit(word, token);
    Symmetric(word, token);
    LengthBound(word, token);
    if la > lb {
      a, b, la, lb := b, a, lb, la;
    }
    if lb - la > 1 {
      return false;
    }
    var table := FillTable(a, b);
    assert a[..la] == a && b[..lb] == b;
    return table[la, lb] <= 1;
  }

  // ----- words and tokens

  const MIN_FUZZY_WORD := 3
  const MAX_FUZZY_WORD := 40

  /** Which characters are letters is Unicode's business: `isAlpha` stands for it. */
  predicate FuzzyEligible(word: string, isAlpha: char -> bool) {
    MIN_FUZZY_WORD <= |word| <= MAX_FUZZY_WORD && exists i :: 0 <= i < |word| && isAlpha(word[i])
  }

  /** A whitespace-separated token of the lowered text and where it stands. */
  datatype Token = Token(start: nat, end: nat, text: string)

  ghost predicate FirstNear(word: string, tokens: seq<Token>, k: nat)
    requires k < |tokens|
  {
    AtMostOneEdit(word, tokens[k].text) && forall i :: 0 <= i < k ==> !AtMostOneEdit(word, tokens[i].text)
  }

  /** The first token at most one edit from the word. */
  method FuzzySpan(word: string, tokens: seq<Token>) returns (found: Option<Token>)
    ensures found.None? ==> forall t <- tokens :: !AtMostOneEdit(word, t.text)
    ensures found.Some? ==> exists k :: 0 <= k < |tokens| && FirstNear(word, tokens, k) && tokens[k] == found.value
  {
    for k := 0 to |tokens|
      invariant forall i :: 0 <= i < k ==> !AtMostOneEdit(word, tokens[i].text)
    {
      var near := WithinOneEdit(word, tokens[k].text);
      if near {
        assert FirstNear(word, tokens, k);
        return Some(tokens[k]);
      }
    }
    return None;
  }

  /** A loose match has the length of the word, give or take one. */
  lemma {:induction false} FuzzyMatchesStayClose(word: string, token: string, isAlpha: char -> bool)
    requires FuzzyEligible(word, isAlpha) && AtMostOneEdit(word, token)
    ensures MIN_FUZZY_WORD - 1 <= |token| <= MAX_FUZZY_WORD + 1
  {
    NearIffOneEdit(word, token);
    LengthBound(word, token);
  }
}
