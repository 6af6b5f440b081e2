/** `order_imposters`: the answer to `PUT /imposters`, re-listed in the order of the request body
    (crates/rift-cluster-server/src/admin_front.rs).

    A document is its list of entries, each with its raw text and what reading its port gave.
 */
module Ordering {
  import opened Text
  import opened Control
  import opened Mutation

  /** The largest machine word: the rank of an entry that is not listed. */
  const USIZE_MAX: nat := 0xFFFF_FFFF_FFFF_FFFF

  datatype Entry = Entry(port: Result<Option<Port>, string>, raw: string)
  datatype Ranked = Ranked(rank: nat, entry: Entry)

  // ---- the reference: one bucket per listed port, then the rest ----

  predicate Lists(order: seq<Port>, entry: Entry) {
    entry.port.Ok? && entry.port.value.Some? && entry.port.value.value in order
  }

  predicate IsFor(port: Port, entry: Entry) {
    entry.port == Ok(Some(port))
  }

  function EntriesFor(entries: seq<Entry>, port: Port): seq<Entry> {
    if entries == [] then []
    else EntriesFor(entries[..|entries| - 1], port) + if IsFor(port, entries[|entries| - 1]) then [entries[|entries| - 1]] else []
  }

  function Unlisted(entries: seq<Entry>, order: seq<Port>): seq<Entry> {
    if entries == [] then []
    else Unlisted(entries[..|entries| - 1], order) + if Lists(order, entries[|entries| - 1]) then [] else [entries[|entries| - 1]]
  }

  function Buckets(entries: seq<Entry>, order: seq<Port>): seq<Entry> {
    if order == [] then [] else Buckets(entries, order[..|order| - 1]) + EntriesFor(entries, order[|order| - 1])
  }

  /** Listed ports first, in the order listed; every other entry after them, as the document had
      it. */
  function Reordered(entries: seq<Entry>, order: seq<Port>): seq<Entry> {
    Buckets(entries, order) + Unlisted(entries, order)
  }

  // ---- the code: rank, sort, join ----

  function PositionOf(order: seq<Port>, port: Port): (at: Option<nat>)
    ensures at.Some? <==> port in order
    ensures at.Some? ==> at.value < |order| && order[at.value] == port
    ensures at.Some? ==> forall i :: 0 <= i < at.value ==> order[i] != port
  {
    if order == [] then None
    else if order[0] == port then Some(0)
    else
      var rest := PositionOf(order[1..], port);
      assert forall i :: 0 < i < |order| ==> order[i] == order[1..][i - 1];
      if rest.None? then None else Some(rest.value + 1)
  }

  function RankOf(order: seq<Port>, port: Option<Port>): nat {
    if port.Some? && PositionOf(order, port.value).Some? then PositionOf(order, port.value).value else USIZE_MAX
  }

  predicate AllRead(entries: seq<Entry>) {
    forall i :: 0 <= i < |entries| ==> entries[i].port.Ok?
  }

  function RankAll(entries: seq<Entry>, order: seq<Port>): seq<Ranked>
    requires AllRead(entries)
  {
    seq(|entries|, i requires 0 <= i < |entries| => Ranked(RankOf(order, entries[i].port.value), entries[i]))
  }

  /** Insertion after everything of equal or smaller rank. */
  function InsertByRank(sorted: seq<Ranked>, x: Ranked): seq<Ranked> {
    if sorted == [] || sorted[|sorted| - 1].rank <= x.rank then sorted + [x]
    else InsertByRank(sorted[..|sorted| - 1], x) + [sorted[|sorted| - 1]]
  }

  /** The stable sort by rank. */
  function SortByRank(s: seq<Ranked>): seq<Ranked> {
    if s == [] then [] else InsertByRank(SortByRank(s[..|s| - 1]), s[|s| - 1])
  }

  function EntriesOf(s: seq<Ranked>): seq<Entry> {
    seq(|s|, i requires 0 <= i < |s| => s[i].entry)
  }

  function Raws(entries: seq<Entry>): seq<string> {
    seq(|entries|, i requires 0 <= i < |entries| => entries[i].raw)
  }

  function Render(entries: seq<Entry>): string {
    "{\"imposters\":[" + Join(Raws(entries), ",") + "]}"
  }

  lemma {:induction false} JoinAppends(a: seq<string>, b: seq<string>)
    requires a != [] && b != []
    ensures Join(a + b, ",") == Join(a, ",") + "," + Join(b, ",")
  {
    if |a| == 1 {
      assert (a + b)[1..] == b;
    } else {
      JoinAppends(a[1..], b);
      assert (a + b)[1..] == a[1..] + b;
    }
  }

  /** The text of the answer: brackets around the raw texts, a comma between any two neighbours, and
      each raw text as it came. */
  lemma RenderIs(a: seq<Entry>, b: seq<Entry>, entry: Entry)
    ensures Render([]) == "{\"imposters\":[]}" && Render([entry]) == "{\"imposters\":[" + entry.raw + "]}"
    ensures a != [] && b != [] ==>
              exists left, right :: Render(a) == "{\"imposters\":[" + left + "]}" && Render(b) == "{\"imposters\":[" + right + "]}"
                                    && Render(a + b) == "{\"imposters\":[" + left + "," + right + "]}"
  {
    assert Raws([entry]) == [entry.raw];
    if a != [] && b != [] {
      JoinAppends(Raws(a), Raws(b));
      assert Raws(a + b) == Raws(a) + Raws(b);
      var left, right := Join(Raws(a), ","), Join(Raws(b), ",");
      assert Render(a + b) == "{\"imposters\":[" + left + "," + right + "]}";
    }
  }

  // ---- sorting is stable ----

  predicate Sorted(s: seq<Ranked>) {
    forall i, j :: 0 <= i < j < |s| ==> s[i].rank <= s[j].rank
  }

  /** The elements of one rank, in order. */
  function OfRank(s: seq<Ranked>, rank: nat): seq<Ranked> {
    if s == [] then []
    else OfRank(s[..|s| - 1], rank) + if s[|s| - 1].rank == rank then [s[|s| - 1]] else []
  }

  lemma {:induction false} NoneOfRank(s: seq<Ranked>, rank: nat)
    requires forall i :: 0 <= i < |s| ==> s[i].rank != rank
    ensures OfRank(s, rank) == []
  {
    if s != [] { NoneOfRank(s[..|s| - 1], rank); }
  }

  lemma {:induction false} InsertHolds(sorted: seq<Ranked>, x: Ranked)
    ensures multiset(InsertByRank(sorted, x)) == multiset(sorted) + multiset{x}
  {
    var n := |sorted| - 1;
    if sorted != [] && sorted[n].rank > x.rank {
      InsertHolds(sorted[..n], x);
      assert sorted == sorted[..n] + [sorted[n]];
    }
  }

  lemma {:induction false} InsertSorted(sorted: seq<Ranked>, x: Ranked)
    requires Sorted(sorted)
    ensures Sorted(InsertByRank(sorted, x))
  {
    var n := |sorted| - 1;
    if sorted != [] && sorted[n].rank > x.rank {
      var front, last := sorted[..n], sorted[n];
      InsertSorted(front, x);
      InsertHolds(front, x);
      var inserted := InsertByRank(front, x);
      forall i | 0 <= i < |inserted| ensures inserted[i].rank <= last.rank {
        assert inserted[i] in multiset(inserted);
        assert inserted[i] == x || inserted[i] in front;
      }
    }
  }

  lemma {:induction false} OfRankSnoc(s: seq<Ranked>, y: Ranked, rank: nat)
    ensures OfRank(s + [y], rank) == OfRank(s, rank) + if y.rank == rank then [y] else []
  {
    assert (s + [y])[..|s|] == s;
  }

  lemma {:induction false} InsertKeepsRanks(sorted: seq<Ranked>, x: Ranked, rank: nat)
    ensures OfRank(InsertByRank(sorted, x), rank) == OfRank(sorted, rank) + if x.rank == rank then [x] else []
  {
    if sorted == [] || sorted[|sorted| - 1].rank <= x.rank {
      OfRankSnoc(sorted, x, rank);
    } else {
      var front, last := sorted[..|sorted| - 1], sorted[|sorted| - 1];
      InsertKeepsRanks(front, x, rank);
      OfRankSnoc(InsertByRank(front, x), last, rank);
    }
  }

  lemma {:induction false} SortHolds(s: seq<Ranked>)
    ensures multiset(SortByRank(s)) == multiset(s)
  {
    if s != [] {
      var front, last := s[..|s| - 1], s[|s| - 1];
      SortHolds(front);
      InsertHolds(SortByRank(front), last);
      assert s == front + [last];
    }
  }

  lemma {:induction false} SortSorts(s: seq<Ranked>)
    ensures Sorted(SortByRank(s))
  {
    if s != [] {
      SortSorts(s[..|s| - 1]);
      InsertSorted(SortByRank(s[..|s| - 1]), s[|s| - 1]);
    }
  }

  lemma {:induction false} SortKeepsRanks(s: seq<Ranked>, rank: nat)
    ensures OfRank(SortByRank(s), rank) == OfRank(s, rank)
  {
    if s != [] {
      SortKeepsRanks(s[..|s| - 1], rank);
      InsertKeepsRanks(SortByRank(s[..|s| - 1]), s[|s| - 1], rank);
    }
  }

  /** The sort permutes, orders by rank, and keeps each rank's elements in their own order. */
  lemma {:induction false} SortIsStable(s: seq<Ranked>, rank: nat)
    ensures multiset(SortByRank(s)) == multiset(s)
    ensures Sorted(SortByRank(s))
    ensures OfRank(SortByRank(s), rank) == OfRank(s, rank)
  {
    SortHolds(s);
    SortSorts(s);
    SortKeepsRanks(s, rank);
  }

  // ---- a sorted list is its ranks, one after the other ----

  function ByRank(s: seq<Ranked>, n: nat): seq<Ranked> {
    if n == 0 then [] else ByRank(s, n - 1) + OfRank(s, n - 1)
  }

  lemma {:induction false} ByRankSnoc(s: seq<Ranked>, x: Ranked, n: nat)
    requires forall i :: 0 <= i < |s| ==> s[i].rank <= x.rank
    ensures ByRank(s + [x], n) == ByRank(s, n) + if x.rank < n then [x] else []
  {
    if n > 0 {
      ByRankSnoc(s, x, n - 1);
      OfRankSnoc(s, x, n - 1);
      if x.rank < n - 1 { NoneOfRank(s, n - 1); }
    }
  }

  predicate RanksBelow(s: seq<Ranked>, n: nat) {
    forall i :: 0 <= i < |s| ==> s[i].rank < n || s[i].rank == USIZE_MAX
  }

  lemma {:induction false} SortedSnoc(front: seq<Ranked>, last: Ranked, n: nat)
    requires front == ByRank(front, n) + OfRank(front, USIZE_MAX)
    requires forall i :: 0 <= i < |front| ==> front[i].rank <= last.rank
    requires n <= USIZE_MAX && (last.rank < n || last.rank == USIZE_MAX)
    ensures front + [last] == ByRank(front + [last], n) + OfRank(front + [last], USIZE_MAX)
  {
    ByRankSnoc(front, last, n);
    OfRankSnoc(front, last, USIZE_MAX);
    if last.rank < n { NoneOfRank(front, USIZE_MAX); }
  }

  lemma {:induction false} SortedIsByRank(s: seq<Ranked>, n: nat)
    requires Sorted(s) && RanksBelow(s, n) && n <= USIZE_MAX
    ensures s == ByRank(s, n) + OfRank(s, USIZE_MAX)
  {
    if s == [] {
      EmptyByRank(n);
    } else {
      var front, last := s[..|s| - 1], s[|s| - 1];
      SortedIsByRank(front, n);
      SortedSnoc(front, last, n);
      assert s == front + [last];
    }
  }

  lemma {:induction false} EmptyByRank(n: nat)
    ensures ByRank([], n) == []
  {
    if n > 0 { EmptyByRank(n - 1); }
  }

  lemma {:induction false} SameRanksSameList(s: seq<Ranked>, t: seq<Ranked>, n: nat)
    requires forall r: nat :: OfRank(s, r) == OfRank(t, r)
    ensures ByRank(s, n) == ByRank(t, n)
  {
    if n > 0 { SameRanksSameList(s, t, n - 1); }
  }

  lemma SortIsByRank(s: seq<Ranked>, n: nat)
    requires RanksBelow(s, n) && n <= USIZE_MAX
    ensures SortByRank(s) == ByRank(s, n) + OfRank(s, USIZE_MAX)
  {
    var sorted := SortByRank(s);
    forall r: nat ensures OfRank(sorted, r) == OfRank(s, r) { SortIsStable(s, r); }
    SortIsStable(s, 0);
    forall i | 0 <= i < |sorted| ensures sorted[i].rank < n || sorted[i].rank == USIZE_MAX {
      assert sorted[i] in multiset(s);
    }
    SortedIsByRank(sorted, n);
    SameRanksSameList(sorted, s, n);
  }

  // ---- ranks are the reference's buckets ----

  ghost predicate DistinctOrder(order: seq<Port>) {
    forall i, j :: 0 <= i < j < |order| ==> order[i] != order[j]
  }

  lemma RankIs(order: seq<Port>, port: Option<Port>, k: nat)
    requires DistinctOrder(order) && k < |order| <= USIZE_MAX
    ensures RankOf(order, port) == k <==> port == Some(order[k])
  {}

  lemma EntriesOfAppends(a: seq<Ranked>, b: seq<Ranked>)
    ensures EntriesOf(a + b) == EntriesOf(a) + EntriesOf(b)
  {}

  lemma {:induction false} RankIsBucket(entries: seq<Entry>, order: seq<Port>, k: nat)
    requires AllRead(entries) && DistinctOrder(order) && k < |order| <= USIZE_MAX
    ensures EntriesOf(OfRank(RankAll(entries, order), k)) == EntriesFor(entries, order[k])
  {
    if entries != [] {
      var n := |entries| - 1;
      RankIsBucket(entries[..n], order, k);
      assert RankAll(entries, order)[..n] == RankAll(entries[..n], order);
      RankIs(order, entries[n].port.value, k);
    }
  }

  lemma {:induction false} LastRankIsUnlisted(entries: seq<Entry>, order: seq<Port>)
    requires AllRead(entries) && |order| <= USIZE_MAX
    ensures EntriesOf(OfRank(RankAll(entries, order), USIZE_MAX)) == Unlisted(entries, order)
  {
    if entries != [] {
      var n := |entries| - 1;
      LastRankIsUnlisted(entries[..n], order);
      assert RankAll(entries, order)[..n] == RankAll(entries[..n], order);
    }
  }

  lemma {:induction false} RanksAreBuckets(entries: seq<Entry>, order: seq<Port>, k: nat)
    requires AllRead(entries) && DistinctOrder(order) && k <= |order| <= USIZE_MAX
    ensures EntriesOf(ByRank(RankAll(entries, order), k)) == Buckets(entries, order[..k])
  {
    if k > 0 {
      RanksAreBuckets(entries, order, k - 1);
      RankIsBucket(entries, order, k - 1);
      EntriesOfAppends(ByRank(RankAll(entries, order), k - 1), OfRank(RankAll(entries, order), k - 1));
      assert order[..k][..k - 1] == order[..k - 1];
    }
  }

  /** Ranking and sorting is re-listing: the body's ports in the body's order, the rest behind them
      in the document's. */
  lemma SortReorders(entries: seq<Entry>, order: seq<Port>)
    requires AllRead(entries) && DistinctOrder(order) && |order| <= USIZE_MAX
    ensures EntriesOf(SortByRank(RankAll(entries, order))) == Reordered(entries, order)
  {
    var ranked := RankAll(entries, order);
    SortIsByRank(ranked, |order|);
    EntriesOfAppends(ByRank(ranked, |order|), OfRank(ranked, USIZE_MAX));
    RanksAreBuckets(entries, order, |order|);
    LastRankIsUnlisted(entries, order);
    assert order[..|order|] == order;
  }

  lemma {:induction false} InsertHoldsEntries(sorted: seq<Ranked>, x: Ranked)
    ensures multiset(EntriesOf(InsertByRank(sorted, x))) == multiset(EntriesOf(sorted)) + multiset{x.entry}
  {
    var n := |sorted| - 1;
    if sorted == [] || sorted[n].rank <= x.rank {
      assert EntriesOf(sorted + [x]) == EntriesOf(sorted) + [x.entry];
    } else {
      InsertHoldsEntries(sorted[..n], x);
      EntriesOfAppends(InsertByRank(sorted[..n], x), [sorted[n]]);
      EntriesOfAppends(sorted[..n], [sorted[n]]);
      assert sorted == sorted[..n] + [sorted[n]];
    }
  }

  lemma {:induction false} SortHoldsEntries(s: seq<Ranked>)
    ensures multiset(EntriesOf(SortByRank(s))) == multiset(EntriesOf(s))
  {
    if s != [] {
      var front, last := s[..|s| - 1], s[|s| - 1];
      SortHoldsEntries(front);
      InsertHoldsEntries(SortByRank(front), last);
      assert EntriesOf(s) == EntriesOf(front) + [last.entry];
    }
  }

  /** The result is a permutation of the document's entries. */
  lemma ReorderedIsAPermutation(entries: seq<Entry>, order: seq<Port>)
    requires AllRead(entries) && DistinctOrder(order) && |order| <= USIZE_MAX
    ensures multiset(Reordered(entries, order)) == multiset(entries)
  {
    var ranked := RankAll(entries, order);
    SortReorders(entries, order);
    SortHoldsEntries(ranked);
    assert EntriesOf(ranked) == entries;
  }

  /** Every order `build_mutation` produces lists each port once. */
  lemma {:induction false} OrderIsDistinct(ports: seq<Port>)
    ensures DistinctOrder(FirstOccurrences(ports))
    ensures forall p :: p in FirstOccurrences(ports) <==> p in ports
  {
    if ports != [] { OrderIsDistinct(ports[..|ports| - 1]); }
  }

  // ---- the method ----

  /** `order_imposters`: rank each entry, sort stably, join the raw texts. */
  method OrderImposters(entries: seq<Entry>, order: seq<Port>) returns (body: Result<string, string>)
    requires DistinctOrder(order) && |order| <= USIZE_MAX
    ensures AllRead(entries) ==> body == Ok(Render(Reordered(entries, order)))
    ensures !AllRead(entries) ==> body.Err? && exists i :: 0 <= i < |entries| && entries[i].port == Err(body.error) && AllRead(entries[..i])
  {
    var ranked: seq<Ranked> := [];
    for i := 0 to |entries|
      invariant AllRead(entries[..i]) && ranked == RankAll(entries[..i], order)
    {
      if entries[i].port.Err? { return Err(entries[i].port.error); }
      ranked := ranked + [Ranked(RankOf(order, entries[i].port.value), entries[i])];
    }
    assert entries[..|entries|] == entries;
    var sorted := SortRanked(ranked);
    SortReorders(entries, order);
    return Ok(Render(EntriesOf(sorted)));
  }

  method SortRanked(ranked: seq<Ranked>) returns (sorted: seq<Ranked>)
    ensures sorted == SortByRank(ranked)
  {
    sorted := [];
    for i := 0 to |ranked|
      invariant sorted == SortByRank(ranked[..i])
    {
      assert ranked[..i + 1][..i] == ranked[..i];
      sorted := InsertByRank(sorted, ranked[i]);
    }
    assert ranked[..|ranked|] == ranked;
  }
}
