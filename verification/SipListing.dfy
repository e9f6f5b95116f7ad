/** SIP trunk storage and its listings, which merge trunks kept in three maps. */
module SipListing {
  import opened Results
  import opened Paging

  datatype TrunkKind = TrunkLegacy | TrunkInbound | TrunkOutbound

  datatype LegacyTrunk = LegacyTrunk(
    id: string, kind: TrunkKind, name: string, metadata: string,
    inboundAddresses: seq<string>, inboundNumbers: seq<string>, inboundUsername: string, inboundPassword: string,
    outboundAddress: string, outboundNumber: string, outboundUsername: string, outboundPassword: string,
    transport: int)

  datatype InboundTrunk = InboundTrunk(
    id: string, name: string, metadata: string, numbers: seq<string>,
    allowedAddresses: seq<string>, authUsername: string, authPassword: string)

  datatype OutboundTrunk = OutboundTrunk(
    id: string, name: string, metadata: string, address: string, numbers: seq<string>,
    authUsername: string, authPassword: string, transport: int)

  datatype TrunkRequest = TrunkRequest(trunkIds: seq<string>, numbers: seq<string>, page: Option<Page>)

  // ---------- Conversions and filters ----------

  function LegacyToInbound(t: LegacyTrunk): InboundTrunk {
    var numbers := if t.inboundNumbers == [] && t.outboundNumber != "" then [t.outboundNumber] else t.inboundNumbers;
    InboundTrunk(t.id, t.name, t.metadata, numbers, t.inboundAddresses, t.inboundUsername, t.inboundPassword)
  }

  function LegacyToOutbound(t: LegacyTrunk): OutboundTrunk {
    OutboundTrunk(t.id, t.name, t.metadata, t.outboundAddress,
                  if t.outboundNumber != "" then [t.outboundNumber] else [],
                  t.outboundUsername, t.outboundPassword, t.transport)
  }

  function InboundToLegacy(t: InboundTrunk): LegacyTrunk {
    LegacyTrunk(t.id, TrunkInbound, t.name, t.metadata, t.allowedAddresses, t.numbers, t.authUsername, t.authPassword,
                "", "", "", "", 0)
  }

  function OutboundToLegacy(t: OutboundTrunk): LegacyTrunk {
    LegacyTrunk(t.id, TrunkOutbound, t.name, t.metadata, [], [], "", "",
                t.address, if t.numbers != [] then t.numbers[0] else "", t.authUsername, t.authPassword, t.transport)
  }

  predicate MatchesNumbers(filter: seq<string>, numbers: seq<string>) {
    filter == [] || numbers == [] || exists i :: 0 <= i < |numbers| && numbers[i] in filter
  }

  predicate MatchesIds(filter: seq<string>, id: string) { filter == [] || id in filter }

  function InboundFilter(r: TrunkRequest): InboundTrunk -> bool {
    (t: InboundTrunk) => MatchesIds(r.trunkIds, t.id) && MatchesNumbers(r.numbers, t.numbers)
  }

  function OutboundFilter(r: TrunkRequest): OutboundTrunk -> bool {
    (t: OutboundTrunk) => MatchesIds(r.trunkIds, t.id) && MatchesNumbers(r.numbers, t.numbers)
  }

  predicate KeepAll(t: LegacyTrunk) { true }

  function Same<T>(t: T): T { t }

  function LegacyId(t: LegacyTrunk): string { t.id }
  function InboundId(t: InboundTrunk): string { t.id }
  function OutboundId(t: OutboundTrunk): string { t.id }

  // ---------- Reading a hash map in whatever order it comes ----------

  /** `items` lists, once each and in some order, the converted values of `m` that are kept. */
  ghost predicate Enumerates<A, B>(items: seq<B>, m: map<string, A>, convert: A -> B, keep: B -> bool,
                                   id: B -> string) {
    && DistinctIds(items, id)
    && (forall k :: k in m && keep(convert(m[k])) ==> convert(m[k]) in items)
    && (forall i :: 0 <= i < |items| ==> keep(items[i]) && exists k :: k in m && items[i] == convert(m[k]))
  }

  method Gather<A, B>(m: map<string, A>, convert: A -> B, keep: B -> bool, ghost id: B -> string)
    returns (items: seq<B>)
    requires forall k :: k in m ==> id(convert(m[k])) == k
    ensures Enumerates(items, m, convert, keep, id)
  {
    items := [];
    var keys := m.Keys;
    while keys != {}
      invariant keys <= m.Keys
      invariant DistinctIds(items, id)
      invariant forall k :: k in m && k !in keys && keep(convert(m[k])) ==> convert(m[k]) in items
      invariant forall i :: 0 <= i < |items| ==>
                  keep(items[i]) && id(items[i]) !in keys && exists k :: k in m && items[i] == convert(m[k])
      decreases |keys|
    {
      var k :| k in keys;
      keys := keys - {k};
      var x := convert(m[k]);
      if keep(x) {
        items := items + [x];
      }
    }
  }

  /** The trunks as the store keeps them. */
  datatype Trunks = Trunks(legacy: map<string, LegacyTrunk>, inbound: map<string, InboundTrunk>,
                           outbound: map<string, OutboundTrunk>)

  /** Every trunk is filed under its own, nonempty ID. */
  ghost predicate Filed(t: Trunks) {
    && (forall k :: k in t.legacy ==> k != "" && t.legacy[k].id == k)
    && (forall k :: k in t.inbound ==> k != "" && t.inbound[k].id == k)
    && (forall k :: k in t.outbound ==> k != "" && t.outbound[k].id == k)
  }

  /** `items` is some reading of the trunks that two maps give to one listing. */
  ghost predicate Merged<A, A', B(!new)>(items: seq<B>, m: map<string, A>, convert: A -> B, m': map<string, A'>,
                                         convert': A' -> B, keep: B -> bool, id: B -> string) {
    exists a, b :: items == a + b && Enumerates(a, m, convert, keep, id) && Enumerates(b, m', convert', keep, id)
  }

  /** `items` is some reading of the matching inbound trunks, stored ones and converted ones. */
  ghost predicate InboundFound(t: Trunks, r: TrunkRequest, items: seq<InboundTrunk>) {
    Merged(items, t.inbound, Same, t.legacy, LegacyToInbound, InboundFilter(r), InboundId)
  }

  ghost predicate OutboundFound(t: Trunks, r: TrunkRequest, items: seq<OutboundTrunk>) {
    Merged(items, t.outbound, Same, t.legacy, LegacyToOutbound, OutboundFilter(r), OutboundId)
  }

  ghost predicate TrunksFound(t: Trunks, items: seq<LegacyTrunk>) {
    exists a, b, c :: items == a + b + c
      && Enumerates(a, t.legacy, Same, KeepAll, LegacyId)
      && Enumerates(b, t.inbound, InboundToLegacy, KeepAll, LegacyId)
      && Enumerates(c, t.outbound, OutboundToLegacy, KeepAll, LegacyId)
  }

  class SipStore {
    var legacy: map<string, LegacyTrunk>
    var inbound: map<string, InboundTrunk>
    var outbound: map<string, OutboundTrunk>

    ghost function View(): Trunks
      reads this
    {
      Trunks(legacy, inbound, outbound)
    }

    constructor ()
      ensures View() == Trunks(map[], map[], map[])
    {
      legacy, inbound, outbound := map[], map[], map[];
    }

    /** `false` stands for the invalid-argument error. */
    method StoreTrunk(info: LegacyTrunk) returns (ok: bool)
      requires Filed(View())
      modifies this`legacy
      ensures Filed(View()) && ok == (info.id != "")
      ensures legacy == if ok then old(legacy)[info.id := info] else old(legacy)
    {
      ok := info.id != "";
      if ok {
        legacy := legacy[info.id := info];
      }
    }

    method StoreInbound(info: InboundTrunk) returns (ok: bool)
      requires Filed(View())
      modifies this`inbound
      ensures Filed(View()) && ok == (info.id != "")
      ensures inbound == if ok then old(inbound)[info.id := info] else old(inbound)
    {
      ok := info.id != "";
      if ok {
        inbound := inbound[info.id := info];
      }
    }

    method StoreOutbound(info: OutboundTrunk) returns (ok: bool)
      requires Filed(View())
      modifies this`outbound
      ensures Filed(View()) && ok == (info.id != "")
      ensures outbound == if ok then old(outbound)[info.id := info] else old(outbound)
    {
      ok := info.id != "";
      if ok {
        outbound := outbound[info.id := info];
      }
    }

    method DeleteTrunk(id: string)
      requires Filed(View())
      modifies this
      ensures Filed(View())
      ensures View() == Trunks(old(legacy) - {id}, old(inbound) - {id}, old(outbound) - {id})
    {
      legacy, inbound, outbound := legacy - {id}, inbound - {id}, outbound - {id};
    }

    method ListTrunk(page: Option<Page>) returns (items: seq<LegacyTrunk>)
      requires Filed(View())
      ensures exists found :: TrunksFound(View(), found) && items == CollectAfterLimit(found, page, LegacyId)
    {
      var a := Gather(legacy, Same, KeepAll, LegacyId);
      var b := Gather(inbound, InboundToLegacy, KeepAll, LegacyId);
      var c := Gather(outbound, OutboundToLegacy, KeepAll, LegacyId);
      items := CollectAfterLimit(a + b + c, page, LegacyId);
      assert TrunksFound(View(), a + b + c);
    }

    method ListInbound(request: TrunkRequest) returns (items: seq<InboundTrunk>)
      requires Filed(View())
      ensures exists found :: InboundFound(View(), request, found)
                && items == CollectAfterLimit(found, request.page, InboundId)
    {
      var a := Gather(inbound, Same, InboundFilter(request), InboundId);
      var b := Gather(legacy, LegacyToInbound, InboundFilter(request), InboundId);
      items := CollectAfterLimit(a + b, request.page, InboundId);
      assert InboundFound(View(), request, a + b);
    }

    method ListOutbound(request: TrunkRequest) returns (items: seq<OutboundTrunk>)
      requires Filed(View())
      ensures exists found :: OutboundFound(View(), request, found)
                && items == CollectAfterLimit(found, request.page, OutboundId)
    {
      var a := Gather(outbound, Same, OutboundFilter(request), OutboundId);
      var b := Gather(legacy, LegacyToOutbound, OutboundFilter(request), OutboundId);
      items := CollectAfterLimit(a + b, request.page, OutboundId);
      assert OutboundFound(View(), request, a + b);
    }
  }

  // ---------- Listings do not depend on hash order, and paging through them is complete ----------

  /** The items have distinct, nonempty IDs out of `keys`. */
  ghost predicate Keyed<B>(items: seq<B>, keys: set<string>, id: B -> string) {
    && DistinctIds(items, id)
    && forall i :: 0 <= i < |items| ==> id(items[i]) in keys && id(items[i]) != ""
  }

  lemma {:induction false} SameMembers<B>(a: seq<B>, b: seq<B>, id: B -> string)
    requires DistinctIds(a, id) && DistinctIds(b, id)
    requires (forall x :: x in a ==> x in b) && (forall x :: x in b ==> x in a)
    ensures multiset(a) == multiset(b)
  {
    forall x: B ensures multiset(a)[x] == multiset(b)[x] {
      MultiplicityOfDistinct(a, x, id);
      MultiplicityOfDistinct(b, x, id);
      assert x in a <==> x in multiset(a);
      assert x in b <==> x in multiset(b);
    }
  }

  /** Two readings of one map hold the same items, under the map's keys. */
  lemma {:induction false} ReadingsAgree<A, B>(a: seq<B>, b: seq<B>, m: map<string, A>, convert: A -> B,
                                               keep: B -> bool,
                                               id: B -> string)
    requires Enumerates(a, m, convert, keep, id) && Enumerates(b, m, convert, keep, id)
    requires KeyedBy(m, convert, id)
    ensures multiset(a) == multiset(b) && Keyed(a, m.Keys, id)
  {
    SameMembers(a, b, id);
  }

  lemma {:induction false} EnumeratedIds<A, B>(items: seq<B>, m: map<string, A>, convert: A -> B, keep: B -> bool,
                                               id: B -> string, x: string)
    requires Enumerates(items, m, convert, keep, id)
    requires KeyedBy(m, convert, id)
    ensures (exists i :: 0 <= i < |items| && id(items[i]) == x) <==> x in m && keep(convert(m[x]))
  {
    if x in m && keep(convert(m[x])) {
      assert convert(m[x]) in items;
    }
  }

  /** The IDs of two listings one after the other are distinct exactly when none is in both. */
  lemma {:induction false} DistinctTogether<B>(a: seq<B>, b: seq<B>, id: B -> string)
    requires DistinctIds(a, id) && DistinctIds(b, id)
    ensures DistinctIds(a + b, id)
       <==> !exists i, j :: 0 <= i < |a| && 0 <= j < |b| && id(a[i]) == id(b[j])
  {
    if i, j :| 0 <= i < |a| && 0 <= j < |b| && id(a[i]) == id(b[j]) {
      assert (a + b)[i] == a[i] && (a + b)[|a| + j] == b[j];
    }
  }

  /** Two maps give a trunk with this ID to one listing. */
  ghost predicate Shared<A, A', B>(m: map<string, A>, convert: A -> B, m': map<string, A'>, convert': A' -> B,
                                   keep: B -> bool, k: string)
  {
    k in m && k in m' && keep(convert(m[k])) && keep(convert'(m'[k]))
  }

  lemma {:induction false} DistinctUnlessShared<A, A', B>(
      a: seq<B>, m: map<string, A>, convert: A -> B, b: seq<B>, m': map<string, A'>, convert': A' -> B,
      keep: B -> bool, id: B -> string)
    requires Enumerates(a, m, convert, keep, id) && Enumerates(b, m', convert', keep, id)
    requires KeyedBy(m, convert, id) && KeyedBy(m', convert', id)
    ensures DistinctIds(a + b, id) <==> !exists k :: Shared(m, convert, m', convert', keep, k)
  {
    DistinctTogether(a, b, id);
    if i, j :| 0 <= i < |a| && 0 <= j < |b| && id(a[i]) == id(b[j]) {
      EnumeratedIds(a, m, convert, keep, id, id(a[i]));
      EnumeratedIds(b, m', convert', keep, id, id(a[i]));
      assert Shared(m, convert, m', convert', keep, id(a[i]));
    }
    if k :| Shared(m, convert, m', convert', keep, k) {
      EnumeratedIds(a, m, convert, keep, id, k);
      EnumeratedIds(b, m', convert', keep, id, k);
    }
  }

  /** Keys are nonempty and are the IDs of what is filed under them. */
  ghost predicate KeyedBy<A, B>(m: map<string, A>, convert: A -> B, id: B -> string) {
    forall k :: k in m ==> k != "" && id(convert(m[k])) == k
  }

  lemma {:induction false} ConcatAgrees<B>(a: seq<B>, b: seq<B>, a': seq<B>, b': seq<B>)
    requires multiset(a) == multiset(a') && multiset(b) == multiset(b')
    ensures multiset(a + b) == multiset(a' + b')
  {}

  lemma {:induction false} ConcatNonEmpty<B>(a: seq<B>, b: seq<B>, id: B -> string)
    requires NonEmptyIds(a, id) && NonEmptyIds(b, id)
    ensures NonEmptyIds(a + b, id)
  {}

  lemma {:induction false} PairAgrees<A, A', B>(
      a: seq<B>, b: seq<B>, a': seq<B>, b': seq<B>, m: map<string, A>, convert: A -> B, m': map<string, A'>,
      convert': A' -> B, keep: B -> bool, id: B -> string)
    requires KeyedBy(m, convert, id) && KeyedBy(m', convert', id)
    requires Enumerates(a, m, convert, keep, id) && Enumerates(b, m', convert', keep, id)
    requires Enumerates(a', m, convert, keep, id) && Enumerates(b', m', convert', keep, id)
    ensures multiset(a + b) == multiset(a' + b') && NonEmptyIds(a + b, id)
    ensures DistinctIds(a + b, id) <==> !exists k :: Shared(m, convert, m', convert', keep, k)
  {
    ReadingsAgree(a, a', m, convert, keep, id);
    ReadingsAgree(b, b', m', convert', keep, id);
    ConcatAgrees(a, b, a', b');
    ConcatNonEmpty(a, b, id);
    DistinctUnlessShared(a, m, convert, b, m', convert', keep, id);
  }

  /** Two readings of a merged listing hold the same trunks, and when their IDs are distinct. */
  lemma {:induction false} MergedAgree<A, A', B(!new)>(
      found: seq<B>, again: seq<B>, m: map<string, A>, convert: A -> B, m': map<string, A'>, convert': A' -> B,
      keep: B -> bool, id: B -> string)
    requires KeyedBy(m, convert, id) && KeyedBy(m', convert', id)
    requires Merged(found, m, convert, m', convert', keep, id) && Merged(again, m, convert, m', convert', keep, id)
    ensures multiset(found) == multiset(again) && NonEmptyIds(found, id)
    ensures DistinctIds(found, id) <==> !exists k :: Shared(m, convert, m', convert', keep, k)
  {
    var a, b :| found == a + b && Enumerates(a, m, convert, keep, id) && Enumerates(b, m', convert', keep, id);
    var a', b' :| again == a' + b' && Enumerates(a', m, convert, keep, id) && Enumerates(b', m', convert', keep, id);
    PairAgrees(a, b, a', b', m, convert, m', convert', keep, id);
  }

  ghost function InboundReadings(t: Trunks, r: TrunkRequest): iset<seq<InboundTrunk>> {
    iset items | InboundFound(t, r, items)
  }

  ghost function OutboundReadings(t: Trunks, r: TrunkRequest): iset<seq<OutboundTrunk>> {
    iset items | OutboundFound(t, r, items)
  }

  ghost function TrunkReadings(t: Trunks): iset<seq<LegacyTrunk>> { iset items | TrunksFound(t, items) }

  /** Inbound listings page well, over whatever readings of the maps, exactly when no ID is both an inbound
      and a legacy trunk that the request matches. */
  lemma {:induction false} InboundPagesExactly(t: Trunks, r: TrunkRequest, found: seq<InboundTrunk>)
    requires Filed(t) && InboundFound(t, r, found)
    ensures PagesWell(InboundReadings(t, r), InboundId)
       <==> !exists k :: Shared(t.inbound, Same, t.legacy, LegacyToInbound, InboundFilter(r), k)
  {
    forall items | items in InboundReadings(t, r) ensures multiset(found) == multiset(items) {
      MergedAgree(found, items, t.inbound, Same, t.legacy, LegacyToInbound, InboundFilter(r), InboundId);
    }
    MergedAgree(found, found, t.inbound, Same, t.legacy, LegacyToInbound, InboundFilter(r), InboundId);
    PagesWellExactly(InboundReadings(t, r), found, InboundId);
  }

  /** The same for outbound listings. */
  lemma {:induction false} OutboundPagesExactly(t: Trunks, r: TrunkRequest, found: seq<OutboundTrunk>)
    requires Filed(t) && OutboundFound(t, r, found)
    ensures PagesWell(OutboundReadings(t, r), OutboundId)
       <==> !exists k :: Shared(t.outbound, Same, t.legacy, LegacyToOutbound, OutboundFilter(r), k)
  {
    forall items | items in OutboundReadings(t, r) ensures multiset(found) == multiset(items) {
      MergedAgree(found, items, t.outbound, Same, t.legacy, LegacyToOutbound, OutboundFilter(r), OutboundId);
    }
    MergedAgree(found, found, t.outbound, Same, t.legacy, LegacyToOutbound, OutboundFilter(r), OutboundId);
    PagesWellExactly(OutboundReadings(t, r), found, OutboundId);
  }

  lemma {:induction false} DistinctOfThree<B>(a: seq<B>, b: seq<B>, c: seq<B>, id: B -> string)
    ensures DistinctIds(a + b + c, id) <==> DistinctIds(a + b, id) && DistinctIds(a + c, id) && DistinctIds(b + c, id)
  {
    var all := a + b + c;
    if DistinctIds(all, id) {
      assert forall i :: 0 <= i < |a + b| ==> (a + b)[i] == all[i];
      assert forall i :: 0 <= i < |b + c| ==> (b + c)[i] == all[|a| + i];
      assert forall i :: 0 <= i < |a + c| ==> (a + c)[i] == all[if i < |a| then i else i + |b|];
    }
    if DistinctIds(a + b, id) && DistinctIds(a + c, id) && DistinctIds(b + c, id) {
      forall i, j | 0 <= i < j < |all| ensures id(all[i]) != id(all[j]) {
        if j < |a + b| {
          assert all[i] == (a + b)[i] && all[j] == (a + b)[j];
        } else if i >= |a| {
          assert all[i] == (b + c)[i - |a|] && all[j] == (b + c)[j - |a|];
        } else {
          assert all[i] == (a + c)[i] && all[j] == (a + c)[j - |b|];
        }
      }
    }
  }

  /** If everything is kept, what two maps share is their common keys. */
  lemma {:induction false} DisjointUnlessShared<A, A', B>(m: map<string, A>, convert: A -> B, m': map<string, A'>,
                                                          convert': A' -> B, keep: B -> bool)
    requires (forall k :: k in m ==> keep(convert(m[k]))) && (forall k :: k in m' ==> keep(convert'(m'[k])))
    ensures m.Keys !! m'.Keys <==> !exists k :: Shared(m, convert, m', convert', keep, k)
  {
    if m.Keys !! m'.Keys {
      assert forall k :: k in m ==> k !in m';
    } else {
      var k :| k in m.Keys && k in m'.Keys;
      assert Shared(m, convert, m', convert', keep, k);
    }
  }

  /** No ID is in two of the maps. */
  predicate Separate(t: Trunks) {
    t.legacy.Keys !! t.inbound.Keys && t.legacy.Keys !! t.outbound.Keys && t.inbound.Keys !! t.outbound.Keys
  }

  lemma {:induction false} DistinctThree(a: seq<LegacyTrunk>, b: seq<LegacyTrunk>, c: seq<LegacyTrunk>, t: Trunks)
    requires Filed(t)
    requires Enumerates(a, t.legacy, Same, KeepAll, LegacyId)
    requires Enumerates(b, t.inbound, InboundToLegacy, KeepAll, LegacyId)
    requires Enumerates(c, t.outbound, OutboundToLegacy, KeepAll, LegacyId)
    ensures DistinctIds(a + b + c, LegacyId) <==> Separate(t)
  {
    DistinctUnlessShared(a, t.legacy, Same, b, t.inbound, InboundToLegacy, KeepAll, LegacyId);
    DisjointUnlessShared(t.legacy, Same, t.inbound, InboundToLegacy, KeepAll);
    DistinctUnlessShared(a, t.legacy, Same, c, t.outbound, OutboundToLegacy, KeepAll, LegacyId);
    DisjointUnlessShared(t.legacy, Same, t.outbound, OutboundToLegacy, KeepAll);
    DistinctUnlessShared(b, t.inbound, InboundToLegacy, c, t.outbound, OutboundToLegacy, KeepAll, LegacyId);
    DisjointUnlessShared(t.inbound, InboundToLegacy, t.outbound, OutboundToLegacy, KeepAll);
    DistinctOfThree(a, b, c, LegacyId);
  }

  lemma {:induction false} TripleAgrees(t: Trunks, a: seq<LegacyTrunk>, b: seq<LegacyTrunk>, c: seq<LegacyTrunk>,
                                        a': seq<LegacyTrunk>, b': seq<LegacyTrunk>, c': seq<LegacyTrunk>)
    requires Filed(t)
    requires Enumerates(a, t.legacy, Same, KeepAll, LegacyId) && Enumerates(a', t.legacy, Same, KeepAll, LegacyId)
    requires Enumerates(b, t.inbound, InboundToLegacy, KeepAll, LegacyId)
    requires Enumerates(b', t.inbound, InboundToLegacy, KeepAll, LegacyId)
    requires Enumerates(c, t.outbound, OutboundToLegacy, KeepAll, LegacyId)
    requires Enumerates(c', t.outbound, OutboundToLegacy, KeepAll, LegacyId)
    ensures multiset(a + b + c) == multiset(a' + b' + c') && NonEmptyIds(a + b + c, LegacyId)
    ensures DistinctIds(a + b + c, LegacyId) <==> Separate(t)
  {
    PairAgrees(a, b, a', b', t.legacy, Same, t.inbound, InboundToLegacy, KeepAll, LegacyId);
    ReadingsAgree(c, c', t.outbound, OutboundToLegacy, KeepAll, LegacyId);
    ConcatAgrees(a + b, c, a' + b', c');
    ConcatNonEmpty(a + b, c, LegacyId);
    DistinctThree(a, b, c, t);
  }

  lemma {:induction false} TrunkReadingsAgree(t: Trunks, found: seq<LegacyTrunk>, again: seq<LegacyTrunk>)
    requires Filed(t) && TrunksFound(t, found) && TrunksFound(t, again)
    ensures multiset(found) == multiset(again) && NonEmptyIds(found, LegacyId)
    ensures DistinctIds(found, LegacyId) <==> Separate(t)
  {
    var a, b, c :| found == a + b + c
      && Enumerates(a, t.legacy, Same, KeepAll, LegacyId)
      && Enumerates(b, t.inbound, InboundToLegacy, KeepAll, LegacyId)
      && Enumerates(c, t.outbound, OutboundToLegacy, KeepAll, LegacyId);
    var a', b', c' :| again == a' + b' + c'
      && Enumerates(a', t.legacy, Same, KeepAll, LegacyId)
      && Enumerates(b', t.inbound, InboundToLegacy, KeepAll, LegacyId)
      && Enumerates(c', t.outbound, OutboundToLegacy, KeepAll, LegacyId);
    TripleAgrees(t, a, b, c, a', b', c');
  }

  /** The listing that merges all three maps pages well exactly when no ID is in two of them. */
  lemma {:induction false} TrunkPagesExactly(t: Trunks, found: seq<LegacyTrunk>)
    requires Filed(t) && TrunksFound(t, found)
    ensures PagesWell(TrunkReadings(t), LegacyId) <==> Separate(t)
  {
    forall items | items in TrunkReadings(t) ensures multiset(found) == multiset(items) {
      TrunkReadingsAgree(t, found, items);
    }
    TrunkReadingsAgree(t, found, found);
    PagesWellExactly(TrunkReadings(t), found, LegacyId);
  }

  /** A store with one ID in two maps: a client that asks for pages of one trunk sees one of two. */
  lemma {:induction false} SharedIdIsSkipped(i: InboundTrunk, l: LegacyTrunk)
    requires i.id == l.id == "t"
    ensures var t := Trunks(map["t" := l], map["t" := i], map[]);
            var found := [i, LegacyToInbound(l)];
            && Filed(t) && InboundFound(t, TrunkRequest([], [], None), found)
            && NonEmptyIds(found, InboundId) && Walk(found, "", 1, InboundId) == [i]
  {
    var t := Trunks(map["t" := l], map["t" := i], map[]);
    var r := TrunkRequest([], [], None);
    var a, b := [i], [LegacyToInbound(l)];
    assert a + b == [i, LegacyToInbound(l)];
    assert t.inbound["t"] == i && t.legacy["t"] == l;
    assert Enumerates(a, t.inbound, Same, InboundFilter(r), InboundId);
    assert Enumerates(b, t.legacy, LegacyToInbound, InboundFilter(r), InboundId);
    TwinsAreSkipped(a + b, InboundId);
  }

  // ---------- What is listed, and as what ----------

  /** A trunk kept as inbound is listed as it is kept, also by way of the legacy form. */
  lemma {:induction false} InboundConversionsExactly(t: InboundTrunk, l: LegacyTrunk)
    ensures LegacyToInbound(InboundToLegacy(t)) == t
    ensures var r := InboundToLegacy(t);
            && r.id == t.id && r.kind == TrunkInbound && r.name == t.name && r.metadata == t.metadata
            && r.inboundAddresses == t.allowedAddresses && r.inboundNumbers == t.numbers
            && r.inboundUsername == t.authUsername && r.inboundPassword == t.authPassword
            && r.outboundAddress == r.outboundNumber == r.outboundUsername == r.outboundPassword == ""
            && r.transport == 0
    ensures var r := LegacyToInbound(l);
            && (l.inboundNumbers != [] ==> r.numbers == l.inboundNumbers)
            && (l.inboundNumbers == [] && l.outboundNumber != "" ==> r.numbers == [l.outboundNumber])
            && (l.inboundNumbers == [] && l.outboundNumber == "" ==> r.numbers == [])
  {}

  /** A trunk kept as outbound survives the legacy form exactly when it has no number, or one that is not empty. */
  lemma {:induction false} OutboundConversionsExactly(t: OutboundTrunk)
    ensures LegacyToOutbound(OutboundToLegacy(t)) == t <==> t.numbers == [] || (|t.numbers| == 1 && t.numbers[0] != "")
    ensures var r := OutboundToLegacy(t);
            && r.id == t.id && r.kind == TrunkOutbound && r.name == t.name && r.metadata == t.metadata
            && r.outboundAddress == t.address && r.outboundNumber == (if t.numbers == [] then "" else t.numbers[0])
            && r.outboundUsername == t.authUsername && r.outboundPassword == t.authPassword
            && r.transport == t.transport
            && r.inboundAddresses == [] && r.inboundNumbers == [] && r.inboundUsername == r.inboundPassword == ""
  {
    if t.numbers != [] && t.numbers[0] != "" {
      assert |[t.numbers[0]]| == 1;
      assert |t.numbers| == 1 ==> t.numbers == [t.numbers[0]];
    }
  }

  /** The IDs a request names, if any, include the trunk's; the numbers it names, if any, include one of the
      trunk's, unless the trunk has none. */
  ghost predicate Wanted(r: TrunkRequest, id: string, numbers: seq<string>) {
    && (r.trunkIds != [] ==> exists i :: 0 <= i < |r.trunkIds| && r.trunkIds[i] == id)
    && (r.numbers != [] && numbers != [] ==>
          exists i, j :: 0 <= i < |r.numbers| && 0 <= j < |numbers| && r.numbers[i] == numbers[j])
  }

  lemma {:induction false} FiltersExactly(r: TrunkRequest, t: InboundTrunk, u: OutboundTrunk)
    ensures InboundFilter(r)(t) <==> Wanted(r, t.id, t.numbers)
    ensures OutboundFilter(r)(u) <==> Wanted(r, u.id, u.numbers)
  {
    NumbersExactly(r.numbers, t.numbers);
    NumbersExactly(r.numbers, u.numbers);
  }

  lemma {:induction false} NumbersExactly(filter: seq<string>, numbers: seq<string>)
    ensures MatchesNumbers(filter, numbers)
       <==> filter == [] || numbers == []
            || exists i, j :: 0 <= i < |filter| && 0 <= j < |numbers| && filter[i] == numbers[j]
  {}

  lemma {:induction false} MergedMembers<A, A', B(!new)>(
      items: seq<B>, m: map<string, A>, convert: A -> B, m': map<string, A'>, convert': A' -> B,
      keep: B -> bool, id: B -> string, x: B)
    requires Merged(items, m, convert, m', convert', keep, id)
    ensures x in items
       <==> keep(x) && ((exists k :: k in m && x == convert(m[k])) || (exists k :: k in m' && x == convert'(m'[k])))
  {
    var a, b :| items == a + b && Enumerates(a, m, convert, keep, id) && Enumerates(b, m', convert', keep, id);
    assert x in items <==> x in a || x in b;
  }

  /** A reading of the inbound listing holds exactly the wanted trunks, stored ones and converted ones. */
  lemma {:induction false} InboundListsExactly(t: Trunks, r: TrunkRequest, found: seq<InboundTrunk>, x: InboundTrunk)
    requires InboundFound(t, r, found)
    ensures x in found
       <==> && Wanted(r, x.id, x.numbers)
            && ((exists k :: k in t.inbound && x == t.inbound[k])
                || (exists k :: k in t.legacy && x == LegacyToInbound(t.legacy[k])))
  {
    MergedMembers(found, t.inbound, Same, t.legacy, LegacyToInbound, InboundFilter(r), InboundId, x);
    NumbersExactly(r.numbers, x.numbers);
    assert forall k :: k in t.inbound ==> Same(t.inbound[k]) == t.inbound[k];
  }

  lemma {:induction false} OutboundListsExactly(t: Trunks, r: TrunkRequest, found: seq<OutboundTrunk>, x: OutboundTrunk)
    requires OutboundFound(t, r, found)
    ensures x in found
       <==> && Wanted(r, x.id, x.numbers)
            && ((exists k :: k in t.outbound && x == t.outbound[k])
                || (exists k :: k in t.legacy && x == LegacyToOutbound(t.legacy[k])))
  {
    MergedMembers(found, t.outbound, Same, t.legacy, LegacyToOutbound, OutboundFilter(r), OutboundId, x);
    NumbersExactly(r.numbers, x.numbers);
    assert forall k :: k in t.outbound ==> Same(t.outbound[k]) == t.outbound[k];
  }

  /** A reading of the merged listing holds exactly what the three maps hold, converted. */
  lemma {:induction false} TrunkListsExactly(t: Trunks, found: seq<LegacyTrunk>, x: LegacyTrunk)
    requires TrunksFound(t, found)
    ensures x in found
       <==> || (exists k :: k in t.legacy && x == t.legacy[k])
            || (exists k :: k in t.inbound && x == InboundToLegacy(t.inbound[k]))
            || (exists k :: k in t.outbound && x == OutboundToLegacy(t.outbound[k]))
  {
    var a, b, c :| found == a + b + c
      && Enumerates(a, t.legacy, Same, KeepAll, LegacyId)
      && Enumerates(b, t.inbound, InboundToLegacy, KeepAll, LegacyId)
      && Enumerates(c, t.outbound, OutboundToLegacy, KeepAll, LegacyId);
    assert x in found <==> x in a || x in b || x in c;
    assert forall k :: k in t.legacy ==> Same(t.legacy[k]) == t.legacy[k];
  }
}
