/** Sorting by ID, keyset filtering and truncation, and the walk a client makes through pages. */
module Paging {
  import opened Results

  /** A page request; a limit that is not positive means no limit, an empty ID no lower bound. */
  datatype Page = Page(afterId: string, limit: int)

  // ---------- The order of IDs ----------

  /** Strict lexicographic order. */
  predicate Below(a: string, b: string) {
    b != "" && (a == "" || a[0] < b[0] || (a[0] == b[0] && Below(a[1..], b[1..])))
  }

  lemma {:induction false} BelowIrreflexive(a: string)
    ensures !Below(a, a)
  {
    if a != "" {
      BelowIrreflexive(a[1..]);
    }
  }

  lemma {:induction false} BelowTransitive(a: string, b: string, c: string)
    requires Below(a, b) && Below(b, c)
    ensures Below(a, c)
  {
    if a != "" && a[0] == b[0] == c[0] {
      BelowTransitive(a[1..], b[1..], c[1..]);
    }
  }

  lemma {:induction false} BelowTotal(a: string, b: string)
    ensures Below(a, b) || a == b || Below(b, a)
  {
    if a != "" && b != "" && a[0] == b[0] {
      BelowTotal(a[1..], b[1..]);
      assert a == [a[0]] + a[1..] && b == [b[0]] + b[1..];
    }
  }

  lemma {:induction false} BelowAsymmetric(a: string, b: string)
    requires Below(a, b)
    ensures !Below(b, a) && a != b
  {
    BelowIrreflexive(a);
    if Below(b, a) {
      BelowTransitive(a, b, a);
    }
  }

  /** `a` comes first exactly when it is a proper beginning of `b` or is smaller where they first differ. */
  lemma {:induction false} BelowExactly(a: string, b: string)
    ensures Below(a, b)
       <==> exists n: nat :: n <= |a| && n < |b| && a[..n] == b[..n] && (n == |a| || a[n] < b[n])
  {
    if Below(a, b) {
      var n := FirstDifference(a, b);
    }
    forall n: nat | n <= |a| && n < |b| && a[..n] == b[..n] && (n == |a| || a[n] < b[n]) ensures Below(a, b) {
      DifferenceBelow(a, b, n);
    }
  }

  lemma {:induction false} FirstDifference(a: string, b: string) returns (n: nat)
    requires Below(a, b)
    ensures n <= |a| && n < |b| && a[..n] == b[..n] && (n == |a| || a[n] < b[n])
  {
    n := 0;
    if a != "" && a[0] == b[0] {
      var m := FirstDifference(a[1..], b[1..]);
      n := m + 1;
      assert a[..n] == [a[0]] + a[1..][..m] && b[..n] == [b[0]] + b[1..][..m];
    }
  }

  lemma {:induction false} DifferenceBelow(a: string, b: string, n: nat)
    requires n <= |a| && n < |b| && a[..n] == b[..n] && (n == |a| || a[n] < b[n])
    ensures Below(a, b)
    decreases n
  {
    if n > 0 {
      assert a[0] == a[..n][0] == b[..n][0] == b[0];
      assert a[1..][..n - 1] == a[..n][1..] && b[1..][..n - 1] == b[..n][1..];
      DifferenceBelow(a[1..], b[1..], n - 1);
    }
  }

  // ---------- Sorting ----------

  ghost predicate Sorted<T>(items: seq<T>, id: T -> string) {
    forall i, j :: 0 <= i < j < |items| ==> !Below(id(items[j]), id(items[i]))
  }

  ghost predicate DistinctIds<T>(items: seq<T>, id: T -> string) {
    forall i, j :: 0 <= i < j < |items| ==> id(items[i]) != id(items[j])
  }

  ghost predicate NonEmptyIds<T>(items: seq<T>, id: T -> string) {
    forall i :: 0 <= i < |items| ==> id(items[i]) != ""
  }

  /** Puts `item` after everything whose ID is not above its own. */
  function Insert<T>(sorted: seq<T>, item: T, id: T -> string): seq<T> {
    if sorted == [] || !Below(id(item), id(sorted[|sorted| - 1])) then sorted + [item]
    else Insert(sorted[..|sorted| - 1], item, id) + [sorted[|sorted| - 1]]
  }

  /** The stable sort by ID. */
  function Sort<T>(items: seq<T>, id: T -> string): seq<T> {
    if items == [] then [] else Insert(Sort(items[..|items| - 1], id), items[|items| - 1], id)
  }

  lemma {:induction false} InsertElements<T>(sorted: seq<T>, item: T, id: T -> string)
    ensures multiset(Insert(sorted, item, id)) == multiset(sorted) + multiset{item}
    decreases |sorted|
  {
    if sorted != [] && Below(id(item), id(sorted[|sorted| - 1])) {
      InsertElements(sorted[..|sorted| - 1], item, id);
      assert sorted == sorted[..|sorted| - 1] + [sorted[|sorted| - 1]];
    }
  }

  lemma {:induction false} SortElements<T>(items: seq<T>, id: T -> string)
    ensures multiset(Sort(items, id)) == multiset(items)
    ensures |Sort(items, id)| == |items|
  {
    if items != [] {
      SortElements(items[..|items| - 1], id);
      InsertElements(Sort(items[..|items| - 1], id), items[|items| - 1], id);
      assert items == items[..|items| - 1] + [items[|items| - 1]];
    }
    assert |multiset(Sort(items, id))| == |Sort(items, id)|;
  }

  /** Appending an item that is above none of the others' IDs keeps a list sorted. */
  lemma {:induction false} SortedAppend<T>(items: seq<T>, last: T, id: T -> string)
    requires Sorted(items, id)
    requires forall x :: x in items ==> !Below(id(last), id(x))
    ensures Sorted(items + [last], id)
  {}

  lemma {:induction false} InsertSorted<T>(sorted: seq<T>, item: T, id: T -> string)
    requires Sorted(sorted, id)
    ensures Sorted(Insert(sorted, item, id), id)
    decreases |sorted|
  {
    if sorted != [] {
      var front, last := sorted[..|sorted| - 1], sorted[|sorted| - 1];
      if Below(id(item), id(last)) {
        InsertSorted(front, item, id);
        InsertElements(front, item, id);
        BelowAsymmetric(id(item), id(last));
        forall x | x in Insert(front, item, id) ensures !Below(id(last), id(x)) {
          assert x in multiset(Insert(front, item, id));
        }
        SortedAppend(Insert(front, item, id), last, id);
      } else {
        forall x | x in sorted ensures !Below(id(item), id(x)) {
          BelowIrreflexive(id(last));
          BelowChain(id(item), id(last), id(x));
        }
        SortedAppend(sorted, item, id);
      }
    }
  }

  /** If `c` is at most `b` and `b` at most `a`, then `c` is at most `a`. */
  lemma {:induction false} BelowChain(a: string, b: string, c: string)
    requires !Below(a, b) && !Below(b, c)
    ensures !Below(a, c)
  {
    if Below(a, c) {
      BelowTotal(b, c);
      BelowTotal(a, b);
      if Below(c, b) {
        BelowTransitive(a, c, b);
      }
    }
  }

  lemma {:induction false} SortSorted<T>(items: seq<T>, id: T -> string)
    ensures Sorted(Sort(items, id), id)
  {
    if items != [] {
      SortSorted(items[..|items| - 1], id);
      InsertSorted(Sort(items[..|items| - 1], id), items[|items| - 1], id);
    }
  }

  // ---------- One page ----------

  /** The items whose ID is above `afterId`, in order. */
  function Above<T>(items: seq<T>, afterId: string, id: T -> string): seq<T> {
    if items == [] then []
    else
      var rest := Above(items[..|items| - 1], afterId, id);
      if Below(afterId, id(items[|items| - 1])) then rest + [items[|items| - 1]] else rest
  }

  function Truncate<T>(items: seq<T>, limit: int): seq<T> {
    if 0 < limit < |items| then items[..limit] else items
  }

  function CollectAfterLimit<T>(items: seq<T>, page: Option<Page>, id: T -> string): seq<T> {
    var sorted := Sort(items, id);
    match page
    case None => sorted
    case Some(p) =>
      Truncate(if p.afterId != "" then Above(sorted, p.afterId, id) else sorted, p.limit)
  }

  lemma {:induction false} AboveExactly<T>(items: seq<T>, afterId: string, id: T -> string, x: T)
    ensures multiset(Above(items, afterId, id))[x] == if Below(afterId, id(x)) then multiset(items)[x] else 0
    decreases |items|
  {
    if items != [] {
      var front, last := items[..|items| - 1], items[|items| - 1];
      assert items == front + [last];
      AboveExactly(front, afterId, id, x);
    }
  }

  /** Without a limit, a request lists each item as often as it is there, if its ID is above the bound or there
      is no bound; with a limit, as many of these as it says, from the front; and no page request lists all. */
  lemma {:induction false} PageExactly<T>(items: seq<T>, afterId: string, limit: int, id: T -> string, x: T)
    ensures var all := CollectAfterLimit(items, Some(Page(afterId, 0)), id);
            && multiset(all)[x] == (if afterId == "" || Below(afterId, id(x)) then multiset(items)[x] else 0)
            && CollectAfterLimit(items, Some(Page(afterId, limit)), id)
               == (if 0 < limit < |all| then all[..limit] else all)
    ensures CollectAfterLimit(items, None, id) == CollectAfterLimit(items, Some(Page("", 0)), id)
  {
    SortElements(items, id);
    AboveExactly(Sort(items, id), afterId, id, x);
  }

  // ---------- The result does not depend on the order of the input ----------

  ghost predicate StrictlySorted<T>(items: seq<T>, id: T -> string) {
    forall i, j :: 0 <= i < j < |items| ==> Below(id(items[i]), id(items[j]))
  }

  lemma {:induction false} DistinctByElements<T>(a: seq<T>, b: seq<T>, id: T -> string)
    requires multiset(a) == multiset(b) && DistinctIds(a, id)
    ensures DistinctIds(b, id)
  {
    forall i, j | 0 <= i < j < |b| ensures id(b[i]) != id(b[j]) {
      assert b[i] in multiset(b) && b[j] in multiset(b);
      assert b[i] in a && b[j] in a;
      MultiplicityOfDistinct(a, b[i], id);
      if b[i] == b[j] {
        MultiplicityOfTwo(b, i, j);
      }
    }
  }

  lemma {:induction false} MultiplicityOfTwo<T>(b: seq<T>, i: nat, j: nat)
    requires i < j < |b| && b[i] == b[j]
    ensures multiset(b)[b[i]] >= 2
  {
    assert b == b[..j] + [b[j]] + b[j + 1..];
    assert b[i] in b[..j];
  }

  lemma {:induction false} MultiplicityOfDistinct<T>(a: seq<T>, x: T, id: T -> string)
    requires DistinctIds(a, id)
    ensures multiset(a)[x] <= 1
  {
    if a != [] {
      var front, last := a[..|a| - 1], a[|a| - 1];
      assert a == front + [last];
      MultiplicityOfDistinct(front, x, id);
      if x == last {
        assert x !in front;
        assert multiset(front)[x] == 0;
      }
    }
  }

  lemma {:induction false} SortedDistinctIsStrict<T>(items: seq<T>, id: T -> string)
    requires Sorted(items, id) && DistinctIds(items, id)
    ensures StrictlySorted(items, id)
  {
    forall i, j | 0 <= i < j < |items| ensures Below(id(items[i]), id(items[j])) {
      BelowTotal(id(items[i]), id(items[j]));
    }
  }

  lemma {:induction false} ElementsWithoutLast<T>(a: seq<T>)
    requires a != []
    ensures multiset(a[..|a| - 1]) == multiset(a) - multiset{a[|a| - 1]}
  {
    assert a == a[..|a| - 1] + [a[|a| - 1]];
  }

  /** The last item of a strictly sorted list is the only one with no other above it. */
  lemma {:induction false} SameLast<T>(a: seq<T>, b: seq<T>, id: T -> string)
    requires StrictlySorted(a, id) && StrictlySorted(b, id) && multiset(a) == multiset(b)
    requires a != [] && b != []
    ensures a[|a| - 1] == b[|b| - 1]
  {
    var x, y := a[|a| - 1], b[|b| - 1];
    assert y in multiset(b) && x in multiset(a);
    var i :| 0 <= i < |a| && a[i] == y;
    var j :| 0 <= j < |b| && b[j] == x;
    if i < |a| - 1 && j < |b| - 1 {
      BelowAsymmetric(id(y), id(x));
    }
  }

  lemma {:induction false} SameSize<T>(a: seq<T>, b: seq<T>)
    requires multiset(a) == multiset(b)
    ensures |a| == |b|
  {
    assert |multiset(a)| == |a| && |multiset(b)| == |b|;
  }

  lemma {:induction false} SameFrontAndLast<T>(a: seq<T>, b: seq<T>)
    requires |a| == |b| > 0 && a[..|a| - 1] == b[..|b| - 1] && a[|a| - 1] == b[|b| - 1]
    ensures a == b
  {
    assert a == a[..|a| - 1] + [a[|a| - 1]] && b == b[..|b| - 1] + [b[|b| - 1]];
  }

  /** A strictly sorted list is determined by its elements. */
  lemma {:induction false} StrictlySortedUnique<T>(a: seq<T>, b: seq<T>, id: T -> string)
    requires StrictlySorted(a, id) && StrictlySorted(b, id) && multiset(a) == multiset(b)
    ensures a == b
    decreases |a|
  {
    SameSize(a, b);
    if a != [] {
      SameLast(a, b, id);
      ElementsWithoutLast(a);
      ElementsWithoutLast(b);
      StrictlySortedUnique(a[..|a| - 1], b[..|b| - 1], id);
      SameFrontAndLast(a, b);
    }
  }

  /** With distinct IDs a page depends on which items there are, not on the order they come in. */
  lemma {:induction false} OrderDoesNotMatter<T>(a: seq<T>, b: seq<T>, page: Option<Page>, id: T -> string)
    requires multiset(a) == multiset(b) && DistinctIds(a, id)
    ensures CollectAfterLimit(a, page, id) == CollectAfterLimit(b, page, id)
  {
    SortElements(a, id);
    SortElements(b, id);
    SortSorted(a, id);
    SortSorted(b, id);
    DistinctByElements(a, Sort(a, id), id);
    DistinctByElements(a, Sort(b, id), id);
    SortedDistinctIsStrict(Sort(a, id), id);
    SortedDistinctIsStrict(Sort(b, id), id);
    StrictlySortedUnique(Sort(a, id), Sort(b, id), id);
  }

  // ---------- Walking through pages ----------

  /** In a sorted list the items above an ID are a suffix. */
  lemma {:induction false} AboveIsSuffix<T>(items: seq<T>, afterId: string, id: T -> string, k: nat)
    requires k <= |items|
    requires forall i :: 0 <= i < k ==> !Below(afterId, id(items[i]))
    requires forall i :: k <= i < |items| ==> Below(afterId, id(items[i]))
    ensures Above(items, afterId, id) == items[k..]
    decreases |items|
  {
    if items != [] {
      var front := items[..|items| - 1];
      if k < |items| {
        AboveIsSuffix(front, afterId, id, k);
        assert items[k..] == front[k..] + [items[|items| - 1]];
      } else {
        AboveIsSuffix(front, afterId, id, k - 1);
      }
    }
  }

  /** The first position whose ID is above that of position `p - 1`. */
  function NextGroup<T>(sorted: seq<T>, p: nat, id: T -> string): (q: nat)
    requires 0 < p <= |sorted|
    ensures p <= q <= |sorted|
    ensures forall i :: p <= i < q ==> id(sorted[i]) == id(sorted[p - 1])
    ensures q < |sorted| ==> id(sorted[q]) != id(sorted[p - 1])
    decreases |sorted| - p
  {
    if p < |sorted| && id(sorted[p]) == id(sorted[p - 1]) then NextGroup(sorted, p + 1, id) else p
  }

  lemma {:induction false} AboveLast<T>(sorted: seq<T>, p: nat, id: T -> string)
    requires Sorted(sorted, id) && 0 < p <= |sorted|
    ensures Above(sorted, id(sorted[p - 1]), id) == sorted[NextGroup(sorted, p, id)..]
  {
    var after := id(sorted[p - 1]);
    var q := NextGroup(sorted, p, id);
    BelowIrreflexive(after);
    forall i | q <= i < |sorted| ensures Below(after, id(sorted[i])) {
      BelowTotal(after, id(sorted[i]));
      if id(sorted[i]) == after {
        BelowTotal(after, id(sorted[q]));
        assert !Below(id(sorted[q]), after);
        assert i > q && !Below(id(sorted[i]), id(sorted[q]));
      }
    }
    AboveIsSuffix(sorted, after, id, q);
  }

  lemma {:induction false} AboveNothing<T>(items: seq<T>, id: T -> string)
    requires NonEmptyIds(items, id)
    ensures Above(items, "", id) == items
  {
    AboveIsSuffix(items, "", id, 0);
  }

  lemma {:induction false} AboveMembers<T>(items: seq<T>, afterId: string, id: T -> string)
    ensures forall x :: x in Above(items, afterId, id) ==> x in items && Below(afterId, id(x))
    decreases |items|
  {
    if items != [] {
      AboveMembers(items[..|items| - 1], afterId, id);
    }
  }

  /** Raising the bound past an item leaves fewer items above it. */
  lemma {:induction false} AboveShrinks<T>(items: seq<T>, a: string, b: string, x: T, id: T -> string)
    requires Below(a, b)
    ensures |Above(items, b, id)| <= |Above(items, a, id)|
    ensures x in items && id(x) == b ==> |Above(items, b, id)| < |Above(items, a, id)|
    decreases |items|
  {
    if items != [] {
      var front, last := items[..|items| - 1], items[|items| - 1];
      AboveShrinks(front, a, b, x, id);
      if Below(b, id(last)) {
        BelowTransitive(a, b, id(last));
      }
      BelowIrreflexive(b);
      assert items == front + [last];
    }
  }

  /** A page is the first `limit` of the sorted items above the bound. */
  lemma {:induction false} PageIsPrefix<T>(items: seq<T>, afterId: string, limit: nat, id: T -> string)
    requires NonEmptyIds(items, id) && limit > 0
    ensures var rest := Above(Sort(items, id), afterId, id);
            CollectAfterLimit(items, Some(Page(afterId, limit)), id) == Truncate(rest, limit)
    ensures NonEmptyIds(Sort(items, id), id)
  {
    SortElements(items, id);
    forall i | 0 <= i < |Sort(items, id)| ensures id(Sort(items, id)[i]) != "" {
      assert Sort(items, id)[i] in multiset(Sort(items, id));
      assert Sort(items, id)[i] in items;
    }
    AboveNothing(Sort(items, id), id);
  }

  lemma {:induction false} WalkProgress<T>(items: seq<T>, afterId: string, limit: nat, id: T -> string)
    requires NonEmptyIds(items, id) && limit > 0
    ensures var page := CollectAfterLimit(items, Some(Page(afterId, limit)), id);
            page != [] ==>
              |Above(Sort(items, id), id(page[|page| - 1]), id)| < |Above(Sort(items, id), afterId, id)|
  {
    PageIsPrefix(items, afterId, limit, id);
    AboveMembers(Sort(items, id), afterId, id);
    var page := CollectAfterLimit(items, Some(Page(afterId, limit)), id);
    if page != [] {
      var last := page[|page| - 1];
      assert last in Above(Sort(items, id), afterId, id);
      AboveShrinks(Sort(items, id), afterId, id(last), last, id);
    }
  }

  /** What a client collects that asks for pages of `limit` items, each time after the last ID it
      has seen, until a page comes back empty. */
  function Walk<T>(items: seq<T>, afterId: string, limit: nat, id: T -> string): seq<T>
    requires NonEmptyIds(items, id) && limit > 0
    decreases |Above(Sort(items, id), afterId, id)|
  {
    var page := CollectAfterLimit(items, Some(Page(afterId, limit)), id);
    if page == [] then []
    else
      WalkProgress(items, afterId, limit, id);
      page + Walk(items, id(page[|page| - 1]), limit, id)
  }

  /** From position `p` on, no page boundary separates two items with one ID. */
  predicate CleanCuts<T>(sorted: seq<T>, p: nat, limit: nat, id: T -> string)
    requires limit > 0 && p <= |sorted|
    decreases |sorted| - p
  {
    p + limit < |sorted| ==>
      id(sorted[p + limit - 1]) != id(sorted[p + limit]) && CleanCuts(sorted, p + limit, limit, id)
  }

  /** One round of a walk: the next page, and where the following one starts. */
  lemma {:induction false} PageAt<T>(items: seq<T>, sorted: seq<T>, afterId: string, p: nat, m: nat, limit: nat,
                                     id: T -> string)
    requires NonEmptyIds(items, id) && limit > 0 && sorted == Sort(items, id)
    requires p < |sorted| && Above(sorted, afterId, id) == sorted[p..]
    requires m == if p + limit < |sorted| then p + limit else |sorted|
    ensures var page := CollectAfterLimit(items, Some(Page(afterId, limit)), id);
            page == sorted[p..m] && page[|page| - 1] == sorted[m - 1]
  {
    PageIsPrefix(items, afterId, limit, id);
  }

  lemma {:induction false} WalkRound<T>(items: seq<T>, sorted: seq<T>, afterId: string, p: nat, m: nat, limit: nat,
                                        id: T -> string)
    requires NonEmptyIds(items, id) && limit > 0 && sorted == Sort(items, id)
    requires p < |sorted| && Above(sorted, afterId, id) == sorted[p..]
    requires m == if p + limit < |sorted| then p + limit else |sorted|
    ensures Walk(items, afterId, limit, id) == sorted[p..m] + Walk(items, id(sorted[m - 1]), limit, id)
    ensures Above(sorted, id(sorted[m - 1]), id) == sorted[NextGroup(sorted, m, id)..]
  {
    PageAt(items, sorted, afterId, p, m, limit, id);
    SortSorted(items, id);
    AboveLast(sorted, m, id);
  }

  /** `w` is the part of `s` from position `p` on. */
  ghost predicate IsRest<T>(w: seq<T>, s: seq<T>, p: nat)
    requires p <= |s|
  {
    w == s[p..]
  }

  lemma {:induction false} SplitCancels<T>(s: seq<T>, p: nat, m: nat, rest: seq<T>)
    requires p <= m <= |s|
    ensures IsRest(s[p..m] + rest, s, p) <==> IsRest(rest, s, m)
  {
    assert s[p..] == s[p..m] + s[m..];
    if s[p..m] + rest == s[p..] {
      assert rest == (s[p..m] + rest)[m - p..] && s[m..] == s[p..][m - p..];
    }
  }

  /** A walk that takes `sorted[p..m]` and then `rest` is complete exactly when the cut at `m` is
      clean and `rest` is complete: a cut inside a group of equal IDs skips the group's rest. */
  lemma {:induction false} CutStep<T>(sorted: seq<T>, p: nat, m: nat, limit: nat, rest: seq<T>, w: seq<T>,
                                      id: T -> string)
    requires limit > 0 && p < |sorted|
    requires m == if p + limit < |sorted| then p + limit else |sorted|
    requires w == sorted[p..m] + rest
    requires var q := NextGroup(sorted, m, id);
             |rest| <= |sorted| - q && (IsRest(rest, sorted, q) <==> CleanCuts(sorted, q, limit, id))
    ensures |w| <= |sorted| - p
    ensures IsRest(w, sorted, p) <==> CleanCuts(sorted, p, limit, id)
  {
    SplitCancels(sorted, p, m, rest);
    if NextGroup(sorted, m, id) > m {
      assert |rest| < |sorted[m..]|;
    }
  }

  /** What the rest of a walk yields that has the items from position `p` on before it. */
  ghost predicate WalksFrom<T>(items: seq<T>, sorted: seq<T>, afterId: string, p: nat, limit: nat, id: T -> string)
    requires NonEmptyIds(items, id) && limit > 0 && p <= |sorted|
  {
    var w := Walk(items, afterId, limit, id);
    |w| <= |sorted| - p && (IsRest(w, sorted, p) <==> CleanCuts(sorted, p, limit, id))
  }

  lemma {:induction false} WalkDone<T>(items: seq<T>, sorted: seq<T>, afterId: string, limit: nat, id: T -> string)
    requires NonEmptyIds(items, id) && limit > 0 && sorted == Sort(items, id)
    requires Above(sorted, afterId, id) == []
    ensures WalksFrom(items, sorted, afterId, |sorted|, limit, id)
  {
    PageIsPrefix(items, afterId, limit, id);
    assert Walk(items, afterId, limit, id) == [];
  }

  lemma {:induction false} WalkStep<T>(items: seq<T>, sorted: seq<T>, afterId: string, p: nat, m: nat, limit: nat,
                                       id: T -> string)
    requires NonEmptyIds(items, id) && limit > 0 && p < |sorted|
    requires m == if p + limit < |sorted| then p + limit else |sorted|
    requires Walk(items, afterId, limit, id) == sorted[p..m] + Walk(items, id(sorted[m - 1]), limit, id)
    requires WalksFrom(items, sorted, id(sorted[m - 1]), NextGroup(sorted, m, id), limit, id)
    ensures WalksFrom(items, sorted, afterId, p, limit, id)
  {
    CutStep(sorted, p, m, limit, Walk(items, id(sorted[m - 1]), limit, id), Walk(items, afterId, limit, id), id);
  }

  lemma {:induction false} WalkFrom<T>(items: seq<T>, sorted: seq<T>, afterId: string, p: nat, limit: nat,
                                       id: T -> string)
    requires NonEmptyIds(items, id) && limit > 0 && sorted == Sort(items, id)
    requires p <= |sorted| && Above(sorted, afterId, id) == sorted[p..]
    ensures WalksFrom(items, sorted, afterId, p, limit, id)
    decreases |sorted| - p
  {
    if p == |sorted| {
      WalkDone(items, sorted, afterId, limit, id);
    } else {
      var m := if p + limit < |sorted| then p + limit else |sorted|;
      WalkRound(items, sorted, afterId, p, m, limit, id);
      WalkFrom(items, sorted, id(sorted[m - 1]), NextGroup(sorted, m, id), limit, id);
      WalkStep(items, sorted, afterId, p, m, limit, id);
    }
  }

  /** A walk with pages of a given size yields the whole sorted listing, without skip or repeat,
      exactly when no page boundary falls between two items with one ID. */
  lemma {:induction false} WalkExactly<T>(items: seq<T>, limit: nat, id: T -> string)
    requires NonEmptyIds(items, id) && limit > 0
    ensures Walk(items, "", limit, id) == Sort(items, id) <==> CleanCuts(Sort(items, id), 0, limit, id)
  {
    PageIsPrefix(items, "", limit, id);
    AboveNothing(Sort(items, id), id);
    assert Sort(items, id)[0..] == Sort(items, id);
    WalkFrom(items, Sort(items, id), "", 0, limit, id);
    assert IsRest(Walk(items, "", limit, id), Sort(items, id), 0) <==> Walk(items, "", limit, id) == Sort(items, id);
  }

  lemma {:induction false} DistinctCutsClean<T>(sorted: seq<T>, p: nat, limit: nat, id: T -> string)
    requires limit > 0 && p <= |sorted| && DistinctIds(sorted, id)
    ensures CleanCuts(sorted, p, limit, id)
    decreases |sorted| - p
  {
    if p + limit < |sorted| {
      DistinctCutsClean(sorted, p + limit, limit, id);
    }
  }

  lemma {:induction false} SingleCutsClean<T>(sorted: seq<T>, p: nat, id: T -> string)
    requires p <= |sorted| && CleanCuts(sorted, p, 1, id)
    ensures forall i :: p <= i < |sorted| - 1 ==> id(sorted[i]) != id(sorted[i + 1])
    decreases |sorted| - p
  {
    if p + 1 < |sorted| {
      SingleCutsClean(sorted, p + 1, id);
    }
  }

  lemma {:induction false} AdjacentDistinct<T>(sorted: seq<T>, i: nat, j: nat, id: T -> string)
    requires Sorted(sorted, id) && i < j < |sorted|
    requires forall i :: 0 <= i < |sorted| - 1 ==> id(sorted[i]) != id(sorted[i + 1])
    ensures id(sorted[i]) != id(sorted[j])
  {
    if j > i + 1 {
      BelowTotal(id(sorted[i]), id(sorted[i + 1]));
      BelowAsymmetric(id(sorted[i]), id(sorted[i + 1]));
    }
  }

  ghost predicate WalkIsComplete<T>(items: seq<T>, limit: nat, id: T -> string)
    requires NonEmptyIds(items, id) && limit > 0
  {
    Walk(items, "", limit, id) == Sort(items, id)
  }

  /** Walks of every page size yield the whole listing if and only if the IDs are distinct. */
  lemma {:induction false} EveryWalkIsCompleteExactly<T>(items: seq<T>, id: T -> string)
    requires NonEmptyIds(items, id)
    ensures (forall limit: nat :: limit > 0 ==> WalkIsComplete(items, limit, id)) <==> DistinctIds(items, id)
  {
    var sorted := Sort(items, id);
    SortElements(items, id);
    SortSorted(items, id);
    if DistinctIds(items, id) {
      DistinctByElements(items, sorted, id);
      forall limit: nat | limit > 0 ensures WalkIsComplete(items, limit, id) {
        DistinctCutsClean(sorted, 0, limit, id);
        WalkExactly(items, limit, id);
      }
    }
    if WalkIsComplete(items, 1, id) {
      WalkExactly(items, 1, id);
      SingleCutsClean(sorted, 0, id);
      forall i: nat, j: nat | i < j < |sorted| ensures id(sorted[i]) != id(sorted[j]) {
        AdjacentDistinct(sorted, i, j, id);
      }
      DistinctByElements(sorted, items, id);
    }
  }

  /** Two items with one ID: a walk with pages of one item sees the first and skips the second. */
  lemma {:induction false} TwinsAreSkipped<T>(items: seq<T>, id: T -> string)
    requires |items| == 2 && id(items[0]) == id(items[1]) != ""
    ensures NonEmptyIds(items, id) && Walk(items, "", 1, id) == items[..1]
  {
    var x := items[0];
    BelowIrreflexive(id(x));
    assert items[..1] == [x] && [x][..0] == [];
    assert Sort([x], id) == [x];
    assert Sort(items, id) == items;
    AboveNothing(items, id);
    assert items[0..] == items;
    WalkRound(items, items, "", 0, 1, 1, id);
    assert NextGroup(items, 1, id) == 2;
    assert items[2..] == [];
    PageIsPrefix(items, id(x), 1, id);
  }

  // ---------- Walks that read the items afresh for every page ----------

  function Concat<T>(pages: seq<seq<T>>): seq<T> {
    if pages == [] then [] else pages[0] + Concat(pages[1..])
  }

  /** The ID that page `i` of a walk is asked for after. */
  function AfterPage<T>(pages: seq<seq<T>>, i: nat, afterId: string, id: T -> string): string
    requires i < |pages|
  {
    if i == 0 || pages[i - 1] == [] then afterId else id(pages[i - 1][|pages[i - 1]| - 1])
  }

  /** Page `i` is cut from `reading`, and is empty exactly if it is the last. */
  ghost predicate IsPage<T>(reading: seq<T>, pages: seq<seq<T>>, i: nat, afterId: string, limit: nat, id: T -> string)
    requires i < |pages|
  {
    && pages[i] == CollectAfterLimit(reading, Some(Page(AfterPage(pages, i, afterId, id), limit)), id)
    && (pages[i] == [] <==> i == |pages| - 1)
  }

  /** A client's walk: page `i` is cut from reading `i`, each page after the first follows the last ID seen,
      and the walk ends with the first empty page. */
  ghost predicate IsWalk<T>(readings: seq<seq<T>>, pages: seq<seq<T>>, afterId: string, limit: nat, id: T -> string) {
    && |readings| == |pages| > 0
    && forall i: nat {:trigger IsPage(readings[i], pages, i, afterId, limit, id)} :: i < |pages| ==>
         IsPage(readings[i], pages, i, afterId, limit, id)
  }

  /** Two readings give the same pages. */
  ghost predicate SamePages<T>(items: seq<T>, reading: seq<T>, id: T -> string) {
    forall page :: CollectAfterLimit(items, page, id) == CollectAfterLimit(reading, page, id)
  }

  lemma {:induction false} SameItemsSamePages<T>(items: seq<T>, reading: seq<T>, id: T -> string)
    requires multiset(items) == multiset(reading) && DistinctIds(items, id)
    ensures SamePages(items, reading, id)
  {
    forall page ensures CollectAfterLimit(items, page, id) == CollectAfterLimit(reading, page, id) {
      OrderDoesNotMatter(items, reading, page, id);
    }
  }

  /** A walk all of whose pages could be cut from one list. */
  ghost predicate WalksOver<T>(items: seq<T>, pages: seq<seq<T>>, afterId: string, limit: nat, id: T -> string) {
    && |pages| > 0
    && forall i: nat {:trigger IsPage(items, pages, i, afterId, limit, id)} :: i < |pages| ==>
         IsPage(items, pages, i, afterId, limit, id)
  }

  lemma {:induction false} SamePage<T>(items: seq<T>, reading: seq<T>, pages: seq<seq<T>>, i: nat, afterId: string,
                                       limit: nat, id: T -> string)
    requires SamePages(items, reading, id) && i < |pages|
    ensures IsPage(items, pages, i, afterId, limit, id) <==> IsPage(reading, pages, i, afterId, limit, id)
  {}

  lemma {:induction false} WalkBegins<T>(items: seq<T>, afterId: string, limit: nat, id: T -> string, page: seq<T>)
    requires NonEmptyIds(items, id) && limit > 0
    requires page == CollectAfterLimit(items, Some(Page(afterId, limit)), id)
    ensures Walk(items, afterId, limit, id)
         == if page == [] then [] else page + Walk(items, id(page[|page| - 1]), limit, id)
  {}

  lemma {:induction false} ConcatFrom<T>(pages: seq<seq<T>>, i: nat)
    requires i < |pages|
    ensures Concat(pages[i..]) == pages[i] + Concat(pages[i + 1..])
    ensures i + 1 == |pages| ==> Concat(pages[i..]) == pages[i]
  {
    assert pages[i..][1..] == pages[i + 1..];
    if i + 1 == |pages| {
      assert pages[i + 1..] == [];
    }
  }

  /** What the walk collects from page `i` on. */
  ghost predicate CollectsFrom<T>(items: seq<T>, pages: seq<seq<T>>, i: nat, afterId: string, limit: nat,
                                  id: T -> string)
    requires NonEmptyIds(items, id) && limit > 0 && i < |pages|
  {
    Concat(pages[i..]) == Walk(items, AfterPage(pages, i, afterId, id), limit, id)
  }

  /** What page `i` adds to what the walk has still to collect. */
  lemma {:induction false} PageAdds<T>(items: seq<T>, pages: seq<seq<T>>, i: nat, afterId: string, limit: nat,
                                       id: T -> string)
    requires NonEmptyIds(items, id) && limit > 0 && i < |pages| && IsPage(items, pages, i, afterId, limit, id)
    ensures i + 1 == |pages| ==> Walk(items, AfterPage(pages, i, afterId, id), limit, id) == [] == pages[i]
    ensures i + 1 < |pages| ==>
              Walk(items, AfterPage(pages, i, afterId, id), limit, id)
              == pages[i] + Walk(items, AfterPage(pages, i + 1, afterId, id), limit, id)
  {
    WalkBegins(items, AfterPage(pages, i, afterId, id), limit, id, pages[i]);
  }

  lemma {:induction false} CollectsOn<T>(items: seq<T>, pages: seq<seq<T>>, i: nat, afterId: string, limit: nat,
                                         id: T -> string)
    requires NonEmptyIds(items, id) && limit > 0 && i < |pages| && IsPage(items, pages, i, afterId, limit, id)
    requires i + 1 < |pages| ==> CollectsFrom(items, pages, i + 1, afterId, limit, id)
    ensures CollectsFrom(items, pages, i, afterId, limit, id)
  {
    PageAdds(items, pages, i, afterId, limit, id);
    ConcatFrom(pages, i);
  }

  lemma {:induction false} WalkCollects<T>(items: seq<T>, pages: seq<seq<T>>, i: nat, afterId: string, limit: nat,
                                           id: T -> string)
    requires NonEmptyIds(items, id) && limit > 0 && i < |pages| && WalksOver(items, pages, afterId, limit, id)
    ensures CollectsFrom(items, pages, i, afterId, limit, id)
    decreases |pages| - i
  {
    if i + 1 < |pages| {
      WalkCollects(items, pages, i + 1, afterId, limit, id);
    }
    assert IsPage(items, pages, i, afterId, limit, id);
    CollectsOn(items, pages, i, afterId, limit, id);
  }

  /** With distinct IDs a walk collects the same, in whatever order each reading comes. */
  lemma {:induction false} ReadingsWalkAlike<T>(items: seq<T>, readings: seq<seq<T>>, pages: seq<seq<T>>,
                                                afterId: string, limit: nat, id: T -> string)
    requires NonEmptyIds(items, id) && DistinctIds(items, id) && limit > 0
    requires IsWalk(readings, pages, afterId, limit, id)
    requires forall j :: 0 <= j < |readings| ==> multiset(items) == multiset(readings[j])
    ensures Concat(pages) == Walk(items, afterId, limit, id)
  {
    forall i: nat | i < |pages| ensures IsPage(items, pages, i, afterId, limit, id) {
      assert IsPage(readings[i], pages, i, afterId, limit, id);
      SameItemsSamePages(items, readings[i], id);
      SamePage(items, readings[i], pages, i, afterId, limit, id);
    }
    WalkCollects(items, pages, 0, afterId, limit, id);
    assert pages[0..] == pages;
  }

  lemma {:induction false} LaterPage<T>(reading: seq<T>, page: seq<T>, pages: seq<seq<T>>, i: nat, afterId: string,
                                        limit: nat, id: T -> string)
    requires page != [] && i < |pages| && (i > 0 ==> pages[i - 1] != [])
    requires IsPage(reading, pages, i, id(page[|page| - 1]), limit, id)
    ensures IsPage(reading, [page] + pages, i + 1, afterId, limit, id)
  {
    assert AfterPage([page] + pages, i + 1, afterId, id) == AfterPage(pages, i, id(page[|page| - 1]), id);
  }

  /** A page in front of a walk that follows it makes a walk. */
  lemma {:induction false} WalkPrepends<T>(items: seq<T>, page: seq<T>, pages: seq<seq<T>>, afterId: string,
                                           limit: nat, id: T -> string)
    requires page != [] && page == CollectAfterLimit(items, Some(Page(afterId, limit)), id)
    requires WalksOver(items, pages, id(page[|page| - 1]), limit, id)
    ensures WalksOver(items, [page] + pages, afterId, limit, id)
  {
    var ps := [page] + pages;
    assert IsPage(items, ps, 0, afterId, limit, id);
    forall i: nat | 0 < i < |ps| ensures IsPage(items, ps, i, afterId, limit, id) {
      assert IsPage(items, pages, i - 1, id(page[|page| - 1]), limit, id);
      if i > 1 {
        assert IsPage(items, pages, i - 2, id(page[|page| - 1]), limit, id);
      }
      LaterPage(items, page, pages, i - 1, afterId, limit, id);
    }
  }

  lemma {:induction false} EmptyPageEnds<T>(items: seq<T>, pages: seq<seq<T>>, afterId: string, limit: nat,
                                            id: T -> string)
    requires pages == [[]] && CollectAfterLimit(items, Some(Page(afterId, limit)), id) == []
    ensures WalksOver(items, pages, afterId, limit, id)
  {}

  /** Asking on, every walk comes to its end. */
  lemma {:induction false} WalkExists<T>(items: seq<T>, afterId: string, limit: nat, id: T -> string)
    returns (pages: seq<seq<T>>)
    requires NonEmptyIds(items, id) && limit > 0
    ensures WalksOver(items, pages, afterId, limit, id)
    decreases |Above(Sort(items, id), afterId, id)|
  {
    var page := CollectAfterLimit(items, Some(Page(afterId, limit)), id);
    if page == [] {
      pages := [[]];
      EmptyPageEnds(items, pages, afterId, limit, id);
    } else {
      WalkProgress(items, afterId, limit, id);
      pages := WalkExists(items, id(page[|page| - 1]), limit, id);
      WalkPrepends(items, page, pages, afterId, limit, id);
      pages := [page] + pages;
    }
  }

  /** Reading the same list every time gives the walk over that list. */
  lemma {:induction false} SteadyWalk<T>(items: seq<T>, limit: nat, id: T -> string)
    returns (readings: seq<seq<T>>, pages: seq<seq<T>>)
    requires NonEmptyIds(items, id) && limit > 0
    ensures IsWalk(readings, pages, "", limit, id) && Concat(pages) == Walk(items, "", limit, id)
    ensures forall i :: 0 <= i < |readings| ==> readings[i] == items
  {
    var ps := WalkExists(items, "", limit, id);
    WalkCollects(items, ps, 0, "", limit, id);
    assert ps[0..] == ps;
    pages, readings := ps, seq(|ps|, i => items);
    forall i: nat | i < |ps| ensures IsPage(readings[i], ps, i, "", limit, id) {
      assert IsPage(items, ps, i, "", limit, id);
    }
  }

  /** Every walk with pages of any size, each cut from some reading out of `possible`, collects the whole
      sorted listing, without skip or repeat. */
  ghost predicate PagesWell<T(!new)>(possible: iset<seq<T>>, id: T -> string) {
    forall readings: seq<seq<T>>, pages, limit: nat ::
      limit > 0 && IsWalk(readings, pages, "", limit, id)
      && (forall i :: 0 <= i < |readings| ==> readings[i] in possible) ==>
        Concat(pages) == Sort(readings[0], id)
  }

  /** If all readings hold the same items, paging is well exactly when their IDs are distinct. */
  lemma {:induction false} PagesWellExactly<T(!new)>(possible: iset<seq<T>>, found: seq<T>, id: T -> string)
    requires found in possible && NonEmptyIds(found, id)
    requires forall items :: items in possible ==> multiset(found) == multiset(items)
    ensures PagesWell(possible, id) <==> DistinctIds(found, id)
  {
    EveryWalkIsCompleteExactly(found, id);
    if DistinctIds(found, id) {
      forall readings: seq<seq<T>>, pages, limit: nat |
        limit > 0 && IsWalk(readings, pages, "", limit, id)
        && (forall i :: 0 <= i < |readings| ==> readings[i] in possible)
        ensures Concat(pages) == Sort(readings[0], id)
      {
        ReadingsWalkAlike(found, readings, pages, "", limit, id);
        assert WalkIsComplete(found, limit, id);
        OrderDoesNotMatter(found, readings[0], None, id);
      }
    } else {
      var limit: nat :| limit > 0 && !WalkIsComplete(found, limit, id);
      var readings, pages := SteadyWalk(found, limit, id);
      assert Concat(pages) != Sort(readings[0], id);
    }
  }
}
